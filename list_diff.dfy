/**
 * The three-way list diff of the ingress cache (`diffList`).
 *
 * Membership is decided by the element type's own equality. In the source the
 * lists hold objects, and `includes`/`indexOf` compare objects by reference;
 * the cache model obtains that by making its entries a class, whose `==` is
 * reference identity. Over a datatype the same function compares by value.
 */
module ListDiff {
  import opened Seqs

  datatype Diff<T> = Diff(added: seq<T>, removed: seq<T>, same: seq<T>)

  /** `a` is the original list, `b` the new one. */
  function DiffList<T(==)>(a: seq<T>, b: seq<T>): (d: Diff<T>)
    ensures forall x :: x in d.added ==> x in b && x !in a
    ensures forall x :: x in b && x !in a ==> x in d.added
    ensures forall x :: x in d.removed ==> x in a && x !in b
    ensures forall x :: x in a && x !in b ==> x in d.removed
    ensures forall x :: x in d.same ==> x in a && x in b
    ensures forall x :: x in a && x in b ==> x in d.same
    ensures forall x :: x in d.added ==> x !in d.removed && x !in d.same
  {
    Diff(Filter(b, x => x !in a), Filter(a, x => x !in b), Filter(a, x => x in b))
  }

  /** The covering laws: `removed` and `same` together make up `a`, `added` and `same` make up `b`. */
  lemma DiffListCovers<T>(a: seq<T>, b: seq<T>)
    ensures var d := DiffList(a, b);
      && (set x | x in d.removed) + (set x | x in d.same) == (set x | x in a)
      && (set x | x in d.added) + (set x | x in d.same) == (set x | x in b)
      && (set x | x in d.added) * (set x | x in d.removed) == {}
  {
  }

  /**
   * Order and multiplicity: each part is a subsequence of the list it is taken
   * from and keeps every occurrence of the values it selects, so `added` is
   * exactly the elements of `b` not in `a`, in `b`'s order, and likewise.
   */
  lemma DiffListOrder<T>(a: seq<T>, b: seq<T>)
    ensures var d := DiffList(a, b);
      && IsSubsequence(d.added, b)
      && IsSubsequence(d.removed, a)
      && IsSubsequence(d.same, a)
      && (forall x :: multiset(d.added)[x] == if x in a then 0 else multiset(b)[x])
      && (forall x :: multiset(d.removed)[x] == if x in b then 0 else multiset(a)[x])
      && (forall x :: multiset(d.same)[x] == if x in b then multiset(a)[x] else 0)
  {
    FilterIsSubsequence(b, x => x !in a);
    FilterIsSubsequence(a, x => x !in b);
    FilterIsSubsequence(a, x => x in b);
    FilterMultiset(b, x => x !in a);
    FilterMultiset(a, x => x !in b);
    FilterMultiset(a, x => x in b);
  }

  /**
   * When no element of the new list equals one of the original (as with
   * freshly allocated objects compared by reference), everything new is
   * `added`, everything old is `removed` and `same` is empty.
   */
  lemma DiffListNothingShared<T>(a: seq<T>, b: seq<T>)
    requires forall x :: x in b ==> x !in a
    ensures DiffList(a, b) == Diff(b, a, [])
  {
    FilterKeepsAll(b, x => x !in a);
    FilterKeepsAll(a, x => x !in b);
    FilterKeepsNone(a, x => x in b);
  }

  /** Comparing the lists by value: `a` is removed, `b` is shared, `c` is added. */
  lemma DiffListExample()
    ensures DiffList(["a", "b"], ["b", "c"]) == Diff(["c"], ["a"], ["b"])
  {
  }

}
