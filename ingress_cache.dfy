/**
 * The host-state cache of the provisioner: a module-level JavaScript `Map`
 * from hostname to host information.
 *
 * A JavaScript `Map` iterates its values in key-insertion order, and `set` on
 * a key that is already present replaces the value in place. The model
 * therefore keeps the map together with the sequence of its keys in insertion
 * order (`Table`). The pure functions on `Table` are the specification; the
 * class `Cache` is the mutable store whose methods are proved against them.
 */
module IngressCache {
  import opened Wrappers
  import opened Seqs
  import opened ListDiff

  /**
   * One cache entry. It is a class, not a datatype, because the source builds
   * a fresh object per hostname on every event and compares entries by
   * reference (`includes`, `indexOf`); the fields are read-only.
   */
  class HostInformation {
    const namespace: string
    const hostname: string
    const discoverableByCf: bool
    const ingressName: string

    constructor (namespace: string, hostname: string, discoverableByCf: bool, ingressName: string)
      ensures this.namespace == namespace && this.hostname == hostname
      ensures this.discoverableByCf == discoverableByCf && this.ingressName == ingressName
    {
      this.namespace := namespace;
      this.hostname := hostname;
      this.discoverableByCf := discoverableByCf;
      this.ingressName := ingressName;
    }
  }

  /** The contents of the `Map`: its entries and its keys in insertion order. */
  datatype Table = Table(entries: map<string, HostInformation>, order: seq<string>)

  const EmptyTable: Table := Table(map[], [])

  /**
   * The keys listed in `order` are exactly the keys of `entries`, each once,
   * and every entry is stored under its own hostname (the only way entries
   * get in is `putIngressCache`, which keys by `hostname`).
   */
  predicate WellFormed(t: Table) {
    && Distinct(t.order)
    && (forall k :: k in t.order ==> k in t.entries)
    && (forall k :: k in t.entries ==> k in t.order)
    && (forall k :: k in t.entries ==> t.entries[k].hostname == k)
  }

  /** `ingressName` owns the entry stored under hostname `k`. */
  predicate OwnedBy(t: Table, ingressName: string, k: string) {
    k in t.entries && t.entries[k].ingressName == ingressName
  }

  /** getIngressCache */
  function Get(t: Table, hostname: string): Option<HostInformation> {
    if hostname in t.entries then Some(t.entries[hostname]) else None
  }

  /** The values of `m` under the keys `ks`, in the order of `ks`. */
  function ValuesIn(m: map<string, HostInformation>, ks: seq<string>): seq<HostInformation> {
    if |ks| == 0 then []
    else ValuesIn(m, ks[..|ks| - 1]) + (if ks[|ks| - 1] in m then [m[ks[|ks| - 1]]] else [])
  }

  /** getAllIngressCache: `Array.from(ingressMap.values())`. */
  function AllEntries(t: Table): seq<HostInformation> {
    ValuesIn(t.entries, t.order)
  }

  /** getAllDiscoverableHosts */
  function Discoverable(t: Table): seq<HostInformation> {
    Filter(AllEntries(t), IsDiscoverable)
  }

  predicate IsDiscoverable(h: HostInformation) {
    h.discoverableByCf
  }

  /** The cache entries of one Ingress, as selected by overrideIngresCacheList. */
  function Owned(t: Table, ingressName: string): seq<HostInformation> {
    Filter(AllEntries(t), OwnedByName(ingressName))
  }

  function OwnedByName(ingressName: string): HostInformation -> bool {
    (h: HostInformation) => h.ingressName == ingressName
  }

  function Hostnames(xs: seq<HostInformation>): (r: seq<string>)
    ensures |r| == |xs| && forall i :: 0 <= i < |xs| ==> r[i] == xs[i].hostname
  {
    seq(|xs|, i requires 0 <= i < |xs| => xs[i].hostname)
  }

  /** The last element of `xs` whose hostname is `k`: the one a run of puts leaves behind. */
  function LastWithHost(xs: seq<HostInformation>, k: string): (r: Option<HostInformation>)
    ensures r.Some? ==> r.value in xs && r.value.hostname == k
    ensures r.Some? ==> exists i :: 0 <= i < |xs| && xs[i] == r.value && forall j :: i < j < |xs| ==> xs[j].hostname != k
    ensures r.None? <==> k !in Hostnames(xs)
  {
    if |xs| == 0 then None
    else if xs[|xs| - 1].hostname == k then Some(xs[|xs| - 1])
    else
      var r := LastWithHost(xs[..|xs| - 1], k);
      assert Hostnames(xs) == Hostnames(xs[..|xs| - 1]) + [xs[|xs| - 1].hostname];
      if r.Some? then
        var init := xs[..|xs| - 1];
        var i :| 0 <= i < |init| && init[i] == r.value && forall j :: i < j < |init| ==> init[j].hostname != k;
        assert xs[i] == r.value && forall j :: i < j < |xs| ==> xs[j].hostname != k;
        r
      else r
  }

  /** What `k` maps to after putting `xs` into `t`, described without running the puts. */
  function AfterPuts(t: Table, xs: seq<HostInformation>, k: string): Option<HostInformation> {
    match LastWithHost(xs, k)
    case Some(x) => Some(x)
    case None => Get(t, k)
  }

  /** putIngressCache: `ingressMap.set(metadata.hostname, metadata)`. */
  function PutEntry(t: Table, m: HostInformation): Table {
    Table(t.entries[m.hostname := m],
          if m.hostname in t.entries then t.order else t.order + [m.hostname])
  }

  /** removeIngressCache: `ingressMap.delete(hostname)`. */
  function RemoveEntry(t: Table, hostname: string): Table {
    Table(t.entries - {hostname}, Filter(t.order, OtherKey(hostname)))
  }

  function OtherKey(hostname: string): string -> bool {
    k => k != hostname
  }

  function OtherHost(hostname: string): HostInformation -> bool {
    (x: HostInformation) => x.hostname != hostname
  }

  /** `forEach(putIngressCache)` over `xs`, first to last. */
  function PutAll(t: Table, xs: seq<HostInformation>): Table {
    if |xs| == 0 then t else PutEntry(PutAll(t, xs[..|xs| - 1]), xs[|xs| - 1])
  }

  /** `forEach(removeIngressCache)` over `hs`, first to last. */
  function RemoveAll(t: Table, hs: seq<string>): Table {
    if |hs| == 0 then t else RemoveEntry(RemoveAll(t, hs[..|hs| - 1]), hs[|hs| - 1])
  }

  /**
   * overrideIngresCacheList: diff the Ingress's cached entries against the new
   * list, put `added ++ same`, then delete the hostnames of `removed`.
   */
  function Override(t: Table, ms: seq<HostInformation>, ingressName: string): Table {
    var d := DiffList(Owned(t, ingressName), ms);
    RemoveAll(PutAll(t, d.added + d.same), Hostnames(d.removed))
  }

  // ---------------------------------------------------------------------
  // Reading the table

  lemma {:induction false} ValuesInAt(m: map<string, HostInformation>, ks: seq<string>)
    requires forall k :: k in ks ==> k in m
    ensures |ValuesIn(m, ks)| == |ks|
    ensures forall i :: 0 <= i < |ks| ==> ValuesIn(m, ks)[i] == m[ks[i]]
    decreases |ks|
  {
    if |ks| > 0 {
      ValuesInAt(m, ks[..|ks| - 1]);
    }
  }

  /** getAllIngressCache lists one value per key, in key-insertion order. */
  lemma AllEntriesAt(t: Table)
    requires WellFormed(t)
    ensures |AllEntries(t)| == |t.order|
    ensures forall i :: 0 <= i < |t.order| ==> AllEntries(t)[i] == t.entries[t.order[i]]
  {
    ValuesInAt(t.entries, t.order);
  }

  /** getAllIngressCache holds exactly the values of the map. */
  lemma AllEntriesValues(t: Table)
    requires WellFormed(t)
    ensures forall x :: x in AllEntries(t) ==> x.hostname in t.entries && t.entries[x.hostname] == x
    ensures forall k :: k in t.entries ==> t.entries[k] in AllEntries(t)
  {
    AllEntriesAt(t);
    var all := AllEntries(t);
    forall k | k in t.entries ensures t.entries[k] in all {
      var i :| 0 <= i < |t.order| && t.order[i] == k;
      assert all[i] == t.entries[k];
    }
  }

  /** getAllDiscoverableHosts is the subsequence of getAllIngressCache with `discoverableByCf` set. */
  lemma DiscoverableIsFilter(t: Table)
    ensures IsSubsequence(Discoverable(t), AllEntries(t))
    ensures forall x: HostInformation :: multiset(Discoverable(t))[x] == if x.discoverableByCf then multiset(AllEntries(t))[x] else 0
  {
    FilterIsSubsequence(AllEntries(t), IsDiscoverable);
    FilterMultiset(AllEntries(t), IsDiscoverable);
  }

  /** Every discoverable cache entry is listed by getAllDiscoverableHosts, and nothing else is. */
  lemma DiscoverableMembers(t: Table)
    requires WellFormed(t)
    ensures forall k :: k in t.entries && t.entries[k].discoverableByCf ==> t.entries[k] in Discoverable(t)
    ensures forall x :: x in Discoverable(t) ==> x.discoverableByCf && x.hostname in t.entries && t.entries[x.hostname] == x
  {
    AllEntriesValues(t);
  }

  /** The entries overrideIngresCacheList diffs against are exactly those owned by the Ingress. */
  lemma OwnedEntries(t: Table, ingressName: string)
    requires WellFormed(t)
    ensures forall x :: x in Owned(t, ingressName) ==> OwnedBy(t, ingressName, x.hostname) && t.entries[x.hostname] == x
    ensures forall k :: OwnedBy(t, ingressName, k) ==> t.entries[k] in Owned(t, ingressName)
  {
    AllEntriesValues(t);
  }

  // ---------------------------------------------------------------------
  // put and remove

  /** After a put the hostname maps to the new entry; every other key is unchanged. */
  lemma PutEntryGet(t: Table, m: HostInformation)
    requires WellFormed(t)
    ensures WellFormed(PutEntry(t, m))
    ensures Get(PutEntry(t, m), m.hostname) == Some(m)
    ensures forall k :: k != m.hostname ==> Get(PutEntry(t, m), k) == Get(t, k)
  {
  }

  /**
   * Putting an existing hostname replaces its value in place; a new hostname
   * is appended at the end of the iteration order.
   */
  lemma PutEntryOrder(t: Table, m: HostInformation)
    requires WellFormed(t)
    ensures var before, after := AllEntries(t), AllEntries(PutEntry(t, m));
      && |before| == |t.order|
      && |after| == |before| + (if m.hostname in t.entries then 0 else 1)
      && (forall i :: 0 <= i < |before| ==> after[i] == if t.order[i] == m.hostname then m else before[i])
      && (m.hostname !in t.entries ==> after[|before|] == m)
  {
    var t' := PutEntry(t, m);
    PutEntryGet(t, m);
    AllEntriesAt(t);
    AllEntriesAt(t');
  }

  lemma {:induction false} RemoveKeepsOrder(m: map<string, HostInformation>, ks: seq<string>, h: string)
    requires forall k :: k in m ==> m[k].hostname == k
    ensures ValuesIn(m - {h}, Filter(ks, OtherKey(h))) == Filter(ValuesIn(m, ks), OtherHost(h))
    decreases |ks|
  {
    if |ks| > 0 {
      RemoveKeepsOrder(m, ks[..|ks| - 1], h);
      RemoveKeepsOrderStep(m, ks, h);
    }
  }

  lemma RemoveKeepsOrderStep(m: map<string, HostInformation>, ks: seq<string>, h: string)
    requires forall k :: k in m ==> m[k].hostname == k
    requires |ks| > 0
    requires var init := ks[..|ks| - 1];
      ValuesIn(m - {h}, Filter(init, OtherKey(h))) == Filter(ValuesIn(m, init), OtherHost(h))
    ensures ValuesIn(m - {h}, Filter(ks, OtherKey(h))) == Filter(ValuesIn(m, ks), OtherHost(h))
  {
    var init, last := ks[..|ks| - 1], ks[|ks| - 1];
    var tail := if last in m then [m[last]] else [];
    assert ValuesIn(m, ks) == ValuesIn(m, init) + tail;
    FilterConcat(ValuesIn(m, init), tail, OtherHost(h));
    if last == h {
      assert Filter(ks, OtherKey(h)) == Filter(init, OtherKey(h));
      assert Filter(tail, OtherHost(h)) == [];
    } else {
      assert Filter(ks, OtherKey(h)) == Filter(init, OtherKey(h)) + [last];
      ValuesInSnoc(m - {h}, Filter(init, OtherKey(h)), last);
      assert Filter(tail, OtherHost(h)) == tail;
    }
  }

  lemma ValuesInSnoc(m: map<string, HostInformation>, ks: seq<string>, k: string)
    ensures ValuesIn(m, ks + [k]) == ValuesIn(m, ks) + (if k in m then [m[k]] else [])
  {
    assert (ks + [k])[..|ks|] == ks;
  }

  /**
   * After a remove the hostname is absent and every other key is unchanged;
   * removing an absent hostname changes nothing.
   */
  lemma RemoveEntryGet(t: Table, hostname: string)
    requires WellFormed(t)
    ensures WellFormed(RemoveEntry(t, hostname))
    ensures Get(RemoveEntry(t, hostname), hostname) == None
    ensures forall k :: k != hostname ==> Get(RemoveEntry(t, hostname), k) == Get(t, k)
    ensures hostname !in t.entries ==> RemoveEntry(t, hostname) == t
  {
    RemoveEntryDistinct(t, hostname);
    if hostname !in t.entries {
      RemoveAbsent(t, hostname);
    }
  }

  lemma RemoveEntryDistinct(t: Table, hostname: string)
    requires WellFormed(t)
    ensures Distinct(RemoveEntry(t, hostname).order)
  {
    var t' := RemoveEntry(t, hostname);
    FilterIsSubsequence(t.order, OtherKey(hostname));
    forall i, j | 0 <= i < j < |t'.order| ensures t'.order[i] != t'.order[j] {
      DistinctSubsequence(t'.order, t.order, i, j);
    }
  }

  lemma RemoveAbsent(t: Table, hostname: string)
    requires WellFormed(t) && hostname !in t.entries
    ensures RemoveEntry(t, hostname) == t
  {
    assert forall k :: k in t.order ==> OtherKey(hostname)(k);
    FilterKeepsAll(t.order, OtherKey(hostname));
    assert t.entries - {hostname} == t.entries;
  }

  /** The entries left by a remove keep their iteration order. */
  lemma RemoveEntryOrder(t: Table, hostname: string)
    requires WellFormed(t)
    ensures AllEntries(RemoveEntry(t, hostname)) == Filter(AllEntries(t), OtherHost(hostname))
  {
    RemoveKeepsOrder(t.entries, t.order, hostname);
  }

  /** A subsequence of a sequence without duplicates has none either. */
  lemma {:induction false} DistinctSubsequence(r: seq<string>, s: seq<string>, i: int, j: int)
    requires IsSubsequence(r, s) && Distinct(s)
    requires 0 <= i < j < |r|
    ensures r[i] != r[j]
    decreases |r| + |s|
  {
    if r[|r| - 1] == s[|s| - 1] && IsSubsequence(r[..|r| - 1], s[..|s| - 1]) {
      if j < |r| - 1 {
        DistinctSubsequence(r[..|r| - 1], s[..|s| - 1], i, j);
      } else {
        SubsequenceMembers(r[..|r| - 1], s[..|s| - 1]);
        assert r[i] in s[..|s| - 1];
      }
    } else {
      DistinctSubsequence(r, s[..|s| - 1], i, j);
    }
  }

  lemma {:induction false} SubsequenceMembers(r: seq<string>, s: seq<string>)
    requires IsSubsequence(r, s)
    ensures forall x :: x in r ==> x in s
    decreases |r| + |s|
  {
    if |r| > 0 {
      if r[|r| - 1] == s[|s| - 1] && IsSubsequence(r[..|r| - 1], s[..|s| - 1]) {
        SubsequenceMembers(r[..|r| - 1], s[..|s| - 1]);
        assert r == r[..|r| - 1] + [r[|r| - 1]];
      } else {
        SubsequenceMembers(r, s[..|s| - 1]);
      }
    }
  }

  // ---------------------------------------------------------------------
  // runs of puts and removes

  /** After a run of puts each hostname maps to the last entry put for it (last writer wins). */
  lemma {:induction false} PutAllGet(t: Table, xs: seq<HostInformation>)
    requires WellFormed(t)
    ensures WellFormed(PutAll(t, xs))
    ensures forall k :: Get(PutAll(t, xs), k) == AfterPuts(t, xs, k)
    decreases |xs|
  {
    if |xs| > 0 {
      PutAllGet(t, xs[..|xs| - 1]);
      PutEntryGet(PutAll(t, xs[..|xs| - 1]), xs[|xs| - 1]);
    }
  }

  /** After a run of removes exactly the removed hostnames are gone. */
  lemma {:induction false} RemoveAllGet(t: Table, hs: seq<string>)
    requires WellFormed(t)
    ensures WellFormed(RemoveAll(t, hs))
    ensures forall k :: Get(RemoveAll(t, hs), k) == if k in hs then None else Get(t, k)
    decreases |hs|
  {
    if |hs| > 0 {
      var init := hs[..|hs| - 1];
      RemoveAllGet(t, init);
      RemoveEntryGet(RemoveAll(t, init), hs[|hs| - 1]);
      assert hs == init + [hs[|hs| - 1]];
    }
  }

  // ---------------------------------------------------------------------
  // overrideIngresCacheList

  lemma HostnameListed(xs: seq<HostInformation>, x: HostInformation)
    requires x in xs
    ensures x.hostname in Hostnames(xs)
  {
    var i :| 0 <= i < |xs| && xs[i] == x;
    assert Hostnames(xs)[i] == x.hostname;
  }

  lemma HostnameWitness(xs: seq<HostInformation>, k: string) returns (x: HostInformation)
    requires k in Hostnames(xs)
    ensures x in xs && x.hostname == k
  {
    var i :| 0 <= i < |xs| && Hostnames(xs)[i] == k;
    x := xs[i];
  }

  /** The hostnames of an Ingress's cached entries are the keys it owns. */
  lemma OwnedHostnames(t: Table, ingressName: string)
    requires WellFormed(t)
    ensures forall k :: k in Hostnames(Owned(t, ingressName)) <==> OwnedBy(t, ingressName, k)
  {
    OwnedEntries(t, ingressName);
    forall k ensures k in Hostnames(Owned(t, ingressName)) <==> OwnedBy(t, ingressName, k) {
      if k in Hostnames(Owned(t, ingressName)) {
        var x := HostnameWitness(Owned(t, ingressName), k);
      }
      if OwnedBy(t, ingressName, k) {
        HostnameListed(Owned(t, ingressName), t.entries[k]);
      }
    }
  }

  /**
   * The result of overrideIngresCacheList, key by key: a hostname of a
   * `removed` entry is absent, even when an entry for it was put first;
   * otherwise the last put entry for it wins; otherwise nothing changed.
   */
  lemma OverrideGet(t: Table, ms: seq<HostInformation>, ingressName: string)
    requires WellFormed(t)
    ensures WellFormed(Override(t, ms, ingressName))
    ensures var d := DiffList(Owned(t, ingressName), ms);
      forall k :: Get(Override(t, ms, ingressName), k)
        == if k in Hostnames(d.removed) then None else AfterPuts(t, d.added + d.same, k)
  {
    var d := DiffList(Owned(t, ingressName), ms);
    PutAllGet(t, d.added + d.same);
    RemoveAllGet(PutAll(t, d.added + d.same), Hostnames(d.removed));
  }

  /** A hostname written by the puts and also named by `removed` ends up absent. */
  lemma OverridePutThenRemove(t: Table, ms: seq<HostInformation>, ingressName: string, k: string)
    requires WellFormed(t)
    requires var d := DiffList(Owned(t, ingressName), ms);
      k in Hostnames(d.added + d.same) && k in Hostnames(d.removed)
    ensures Get(Override(t, ms, ingressName), k) == None
  {
    OverrideGet(t, ms, ingressName);
  }

  /** Every entry the puts write is in the new list. */
  lemma PutsComeFrom(t: Table, ms: seq<HostInformation>, ingressName: string, x: HostInformation)
    requires WellFormed(t)
    requires x in DiffList(Owned(t, ingressName), ms).added + DiffList(Owned(t, ingressName), ms).same
    ensures x in ms
  {
  }

  /** A hostname neither in the new list nor owned by the Ingress keeps its entry. */
  lemma OverrideFrame(t: Table, ms: seq<HostInformation>, ingressName: string, k: string)
    requires WellFormed(t)
    requires k !in Hostnames(ms) && !OwnedBy(t, ingressName, k)
    ensures Get(Override(t, ms, ingressName), k) == Get(t, k)
  {
    var d := DiffList(Owned(t, ingressName), ms);
    OverrideGet(t, ms, ingressName);
    OwnedHostnames(t, ingressName);
    if k in Hostnames(d.removed) {
      var x := HostnameWitness(d.removed, k);
      HostnameListed(Owned(t, ingressName), x);
    }
    var w := LastWithHost(d.added + d.same, k);
    if w.Some? {
      HostnameListed(ms, w.value);
    }
  }

  /**
   * The reference-equality consequence. When the new list holds only objects
   * that are not in the cache (the handler allocates them afresh on every
   * event), every hostname the Ingress owned before is absent afterwards,
   * also one that is in the new list, and every other hostname of the new
   * list maps to its last entry.
   */
  lemma OverrideFresh(t: Table, ms: seq<HostInformation>, ingressName: string)
    requires WellFormed(t)
    requires forall x :: x in ms ==> x !in t.entries.Values
    ensures WellFormed(Override(t, ms, ingressName))
    ensures forall k ::
      Get(Override(t, ms, ingressName), k) == (if OwnedBy(t, ingressName, k) then None else AfterPuts(t, ms, k))
  {
    var owned := Owned(t, ingressName);
    OverrideFreshUnfold(t, ms, ingressName);
    PutAllGet(t, ms);
    RemoveAllGet(PutAll(t, ms), Hostnames(owned));
    OwnedHostnames(t, ingressName);
  }

  lemma OverrideFreshUnfold(t: Table, ms: seq<HostInformation>, ingressName: string)
    requires WellFormed(t)
    requires forall x :: x in ms ==> x !in t.entries.Values
    ensures Override(t, ms, ingressName) == RemoveAll(PutAll(t, ms), Hostnames(Owned(t, ingressName)))
  {
    var owned := Owned(t, ingressName);
    OwnedEntries(t, ingressName);
    assert forall x :: x in ms ==> x !in owned;
    DiffListNothingShared(owned, ms);
    assert ms + [] == ms;
  }

  /**
   * Two identical updates with fresh objects in a row: the first makes the
   * Ingress own its hostnames, the second deletes every one of them.
   */
  lemma OverrideFreshTwice(t: Table, ms1: seq<HostInformation>, ms2: seq<HostInformation>, ingressName: string)
    requires WellFormed(t)
    requires forall k :: !OwnedBy(t, ingressName, k)
    requires forall x :: x in ms1 ==> x.ingressName == ingressName && x !in t.entries.Values
    requires Hostnames(ms2) == Hostnames(ms1)
    requires forall x :: x in ms2 ==> x !in Override(t, ms1, ingressName).entries.Values
    ensures forall k :: k in Hostnames(ms1) ==> OwnedBy(Override(t, ms1, ingressName), ingressName, k)
    ensures forall k :: k in Hostnames(ms1) ==> Get(Override(Override(t, ms1, ingressName), ms2, ingressName), k) == None
  {
    var t1 := Override(t, ms1, ingressName);
    OverrideFresh(t, ms1, ingressName);
    forall k | k in Hostnames(ms1) ensures OwnedBy(t1, ingressName, k) {
      assert Get(t1, k) == AfterPuts(t, ms1, k);
    }
    OverrideFresh(t1, ms2, ingressName);
  }

  /** Under the premise of the value-equality law no owned hostname of the new list is removed. */
  lemma ReusedNotRemoved(t: Table, ms: seq<HostInformation>, ingressName: string, k: string)
    requires WellFormed(t)
    requires forall x :: x in ms && OwnedBy(t, ingressName, x.hostname) ==> x == t.entries[x.hostname]
    requires k in Hostnames(ms)
    ensures k !in Hostnames(DiffList(Owned(t, ingressName), ms).removed)
  {
    var d := DiffList(Owned(t, ingressName), ms);
    OwnedEntries(t, ingressName);
    var x := HostnameWitness(ms, k);
    if k in Hostnames(d.removed) {
      var y := HostnameWitness(d.removed, k);
    }
  }

  /**
   * The value-equality law. When every entry of the new list whose hostname
   * the Ingress already owns is the cached object itself (so the diff sees it
   * as `same`), the Ingress afterwards owns exactly the hostnames of the new
   * list.
   */
  lemma OverrideReusingCached(t: Table, ms: seq<HostInformation>, ingressName: string)
    requires WellFormed(t)
    requires forall x :: x in ms ==> x.ingressName == ingressName
    requires forall x :: x in ms && OwnedBy(t, ingressName, x.hostname) ==> x == t.entries[x.hostname]
    ensures forall k :: OwnedBy(Override(t, ms, ingressName), ingressName, k) <==> k in Hostnames(ms)
  {
    var d := DiffList(Owned(t, ingressName), ms);
    var puts := d.added + d.same;
    var t' := Override(t, ms, ingressName);
    OverrideGet(t, ms, ingressName);
    OwnedHostnames(t, ingressName);
    forall k ensures OwnedBy(t', ingressName, k) <==> k in Hostnames(ms) {
      if k in Hostnames(ms) {
        ReusedNotRemoved(t, ms, ingressName, k);
        var x := HostnameWitness(ms, k);
        assert x in puts;
        HostnameListed(puts, x);
        var w := LastWithHost(puts, k).value;
        PutsComeFrom(t, ms, ingressName, w);
      } else if OwnedBy(t, ingressName, k) {
        assert k in Hostnames(Owned(t, ingressName));
        var y := HostnameWitness(Owned(t, ingressName), k);
        OwnedEntries(t, ingressName);
        if y in ms {
          HostnameListed(ms, y);
        }
        HostnameListed(d.removed, y);
      } else {
        OverrideFrame(t, ms, ingressName, k);
      }
    }
  }

  // ---------------------------------------------------------------------
  // The mutable store

  /** The single, process-wide `ingressMap`. */
  class Cache {
    var entries: map<string, HostInformation>
    var order: seq<string>

    function State(): Table
      reads this
    {
      Table(entries, order)
    }

    predicate Valid()
      reads this
    {
      WellFormed(State())
    }

    constructor ()
      ensures Valid() && State() == EmptyTable
    {
      entries := map[];
      order := [];
    }

    /** putIngressCache */
    method Put(metadata: HostInformation)
      requires Valid()
      modifies this
      ensures Valid()
      ensures State() == PutEntry(old(State()), metadata)
    {
      PutEntryGet(State(), metadata);
      if metadata.hostname !in entries {
        order := order + [metadata.hostname];
      }
      entries := entries[metadata.hostname := metadata];
    }

    /** removeIngressCache */
    method Remove(hostname: string)
      requires Valid()
      modifies this
      ensures Valid()
      ensures State() == RemoveEntry(old(State()), hostname)
    {
      RemoveEntryGet(State(), hostname);
      entries := entries - {hostname};
      order := Filter(order, OtherKey(hostname));
    }

    /** overrideIngresCacheList */
    method OverrideList(metadata: seq<HostInformation>, ingressName: string)
      requires Valid()
      modifies this
      ensures Valid()
      ensures State() == Override(old(State()), metadata, ingressName)
    {
      var ingresses := Owned(State(), ingressName);
      var diff := DiffList(ingresses, metadata);
      PutEach(diff.added + diff.same);
      RemoveEach(Hostnames(diff.removed));
    }

    /** `forEach(putIngressCache)` */
    method PutEach(xs: seq<HostInformation>)
      requires Valid()
      modifies this
      ensures Valid()
      ensures State() == PutAll(old(State()), xs)
    {
      var i := 0;
      while i < |xs|
        invariant 0 <= i <= |xs|
        invariant Valid()
        invariant State() == PutAll(old(State()), xs[..i])
      {
        assert xs[..i + 1][..i] == xs[..i];
        Put(xs[i]);
        i := i + 1;
      }
      assert xs[..i] == xs;
    }

    /** `forEach(removeIngressCache)` */
    method RemoveEach(hs: seq<string>)
      requires Valid()
      modifies this
      ensures Valid()
      ensures State() == RemoveAll(old(State()), hs)
    {
      ghost var t0 := State();
      var j := 0;
      while j < |hs|
        invariant 0 <= j <= |hs|
        invariant Valid()
        invariant State() == RemoveAll(t0, hs[..j])
      {
        ghost var done := hs[..j + 1];
        assert done[..j] == hs[..j] && done[j] == hs[j];
        Remove(hs[j]);
        assert State() == RemoveAll(t0, done);
        j := j + 1;
      }
      assert hs[..j] == hs;
    }
  }

}
