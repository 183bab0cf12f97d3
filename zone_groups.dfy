/**
 * `rootZoneGroups`: the Ingress rules' hosts grouped by root zone.
 *
 * The pipeline maps every rule to its host, drops undefined hosts, pairs
 * each host with its root zone, drops hosts without one, groups by root zone
 * (`groupBy`, which keeps the hosts of a group in encounter order), and
 * turns the record into entries and back (`toEntries`, `fromEntries`).
 * fp-ts's `toEntries` lists a record's keys sorted by string order, so the
 * resulting object's keys are in ascending order. The model builds that
 * sorted association list directly, one host at a time.
 */
module ZoneGroups {
  import opened Wrappers
  import opened Seqs
  import opened Zones

  /** An Ingress rule; only its optional `host` matters here. */
  datatype Rule = Rule(host: Option<string>)

  /** One entry of the grouped record: a root zone and its hosts. */
  datatype Bucket = Bucket(zone: string, hosts: seq<string>)

  /** JavaScript's `<` on strings: lexicographic by character, a proper prefix first. */
  predicate StrLt(a: string, b: string)
    decreases |a|
  {
    if |a| == 0 then |b| > 0
    else if |b| == 0 then false
    else if a[0] != b[0] then a[0] < b[0]
    else StrLt(a[1..], b[1..])
  }

  predicate Sorted(g: seq<Bucket>) {
    forall i, j :: 0 <= i < j < |g| ==> StrLt(g[i].zone, g[j].zone)
  }

  predicate NoEmptyBucket(g: seq<Bucket>) {
    forall i :: 0 <= i < |g| ==> |g[i].hosts| > 0
  }

  function ZoneNames(g: seq<Bucket>): (r: seq<string>)
    ensures |r| == |g| && forall i :: 0 <= i < |g| ==> r[i] == g[i].zone
  {
    seq(|g|, i requires 0 <= i < |g| => g[i].zone)
  }

  /** The hosts of the bucket for `zone`; none when there is no such bucket. */
  function BucketHosts(g: seq<Bucket>, zone: string): seq<string> {
    if |g| == 0 then []
    else if g[0].zone == zone then g[0].hosts
    else BucketHosts(g[1..], zone)
  }

  /** The rules' defined hosts, in rule order. */
  function DeclaredHosts(rules: seq<Rule>): seq<string> {
    if |rules| == 0 then []
    else DeclaredHosts(rules[..|rules| - 1])
         + match rules[|rules| - 1].host
           case Some(h) => [h]
           case None => []
  }

  function InZone(zone: string): string -> bool {
    h => RootZone(h) == Some(zone)
  }

  /** The reference grouping: the declared hosts whose root zone is `zone`, in rule order. */
  function HostsInZone(rules: seq<Rule>, zone: string): seq<string> {
    Filter(DeclaredHosts(rules), InZone(zone))
  }

  /** Add one host to the sorted grouping: append it to its zone's bucket or open a new bucket in place. */
  function AddHost(g: seq<Bucket>, zone: string, host: string): seq<Bucket>
    decreases |g|
  {
    if |g| == 0 then [Bucket(zone, [host])]
    else if g[0].zone == zone then [Bucket(zone, g[0].hosts + [host])] + g[1..]
    else if StrLt(zone, g[0].zone) then [Bucket(zone, [host])] + g
    else [g[0]] + AddHost(g[1..], zone, host)
  }

  /** rootZoneGroups */
  function RootZoneGroups(rules: seq<Rule>): seq<Bucket> {
    if |rules| == 0 then []
    else
      var g := RootZoneGroups(rules[..|rules| - 1]);
      match rules[|rules| - 1].host
      case None => g
      case Some(h) =>
        match RootZone(h)
        case None => g
        case Some(zone) => AddHost(g, zone, h)
  }

  /** `Object.entries(zones).flatMap(([_, hosts]) => hosts)`: every grouped host, bucket by bucket. */
  function GroupedHosts(g: seq<Bucket>): seq<string> {
    if |g| == 0 then [] else g[0].hosts + GroupedHosts(g[1..])
  }

  // ---------------------------------------------------------------------
  // String order

  lemma {:induction false} StrLtIrreflexive(a: string)
    ensures !StrLt(a, a)
    decreases |a|
  {
    if |a| > 0 {
      StrLtIrreflexive(a[1..]);
    }
  }

  lemma {:induction false} StrLtTransitive(a: string, b: string, c: string)
    requires StrLt(a, b) && StrLt(b, c)
    ensures StrLt(a, c)
    decreases |a|
  {
    if |a| > 0 && a[0] == b[0] && b[0] == c[0] {
      StrLtTransitive(a[1..], b[1..], c[1..]);
    }
  }

  lemma {:induction false} StrLtTotal(a: string, b: string)
    requires a != b
    ensures StrLt(a, b) || StrLt(b, a)
    decreases |a|
  {
    if |a| > 0 && |b| > 0 && a[0] == b[0] {
      assert a == [a[0]] + a[1..] && b == [b[0]] + b[1..];
      StrLtTotal(a[1..], b[1..]);
    }
  }

  // ---------------------------------------------------------------------
  // The grouping

  lemma {:induction false} BucketHostsAbsent(g: seq<Bucket>, zone: string)
    requires zone !in ZoneNames(g)
    ensures BucketHosts(g, zone) == []
    decreases |g|
  {
    if |g| > 0 {
      assert g[0].zone == ZoneNames(g)[0];
      assert ZoneNames(g[1..]) == ZoneNames(g)[1..];
      BucketHostsAbsent(g[1..], zone);
    }
  }

  /** In a sorted grouping each bucket is the one found for its zone. */
  lemma {:induction false} BucketHostsAt(g: seq<Bucket>, i: int)
    requires Sorted(g) && 0 <= i < |g|
    ensures BucketHosts(g, g[i].zone) == g[i].hosts
    decreases |g|
  {
    if i > 0 {
      assert StrLt(g[0].zone, g[i].zone);
      StrLtIrreflexive(g[i].zone);
      BucketHostsAt(g[1..], i - 1);
    }
  }

  /** Adding a host opens at most the bucket for its zone and empties none. */
  lemma {:induction false} AddHostZones(g: seq<Bucket>, zone: string, host: string)
    ensures NoEmptyBucket(g) ==> NoEmptyBucket(AddHost(g, zone, host))
    ensures forall i :: 0 <= i < |AddHost(g, zone, host)| ==>
      AddHost(g, zone, host)[i].zone == zone || AddHost(g, zone, host)[i].zone in ZoneNames(g)
    decreases |g|
  {
    var r := AddHost(g, zone, host);
    if |g| == 0 {
    } else if g[0].zone == zone {
      forall i | 0 < i < |r| ensures r[i].zone == ZoneNames(g)[i] { }
    } else if StrLt(zone, g[0].zone) {
      forall i | 0 < i < |r| ensures r[i].zone == ZoneNames(g)[i - 1] { }
    } else {
      var rest := AddHost(g[1..], zone, host);
      AddHostZones(g[1..], zone, host);
      assert r == [g[0]] + rest;
      forall j | 0 <= j < |rest| ensures rest[j].zone == zone || rest[j].zone in ZoneNames(g) {
        if rest[j].zone != zone {
          var k :| 0 <= k < |g[1..]| && ZoneNames(g[1..])[k] == rest[j].zone;
          assert ZoneNames(g)[k + 1] == rest[j].zone;
        }
      }
      assert ZoneNames(g)[0] == g[0].zone;
    }
  }

  /** Adding a host to a sorted grouping keeps it sorted. */
  lemma {:induction false} AddHostSorted(g: seq<Bucket>, zone: string, host: string)
    requires Sorted(g)
    ensures Sorted(AddHost(g, zone, host))
    decreases |g|
  {
    var r := AddHost(g, zone, host);
    if |g| == 0 {
    } else if g[0].zone == zone {
      assert r[1..] == g[1..];
    } else if StrLt(zone, g[0].zone) {
      forall j | 0 <= j < |g| ensures StrLt(zone, g[j].zone) {
        if j > 0 { StrLtTransitive(zone, g[0].zone, g[j].zone); }
      }
      assert r[1..] == g;
    } else {
      StrLtTotal(zone, g[0].zone);
      var rest := AddHost(g[1..], zone, host);
      AddHostSorted(g[1..], zone, host);
      AddHostZones(g[1..], zone, host);
      assert r == [g[0]] + rest;
      forall j | 0 <= j < |rest| ensures StrLt(g[0].zone, rest[j].zone) {
        if rest[j].zone != zone {
          var k :| 0 <= k < |g[1..]| && ZoneNames(g[1..])[k] == rest[j].zone;
          assert g[1..][k] == g[k + 1];
        }
      }
    }
  }

  /** Adding a host appends it to its zone's bucket and leaves every other bucket alone. */
  lemma {:induction false} AddHostBuckets(g: seq<Bucket>, zone: string, host: string, z: string)
    requires Sorted(g)
    ensures BucketHosts(AddHost(g, zone, host), z) == BucketHosts(g, z) + (if z == zone then [host] else [])
    decreases |g|
  {
    var r := AddHost(g, zone, host);
    if |g| == 0 {
    } else if g[0].zone == zone {
      assert r[1..] == g[1..];
    } else if StrLt(zone, g[0].zone) {
      if z == zone {
        forall j | 0 <= j < |g| ensures ZoneNames(g)[j] != zone {
          if j > 0 { StrLtTransitive(zone, g[0].zone, g[j].zone); }
          StrLtIrreflexive(zone);
        }
        BucketHostsAbsent(g, zone);
      }
      assert r[1..] == g;
    } else {
      AddHostBuckets(g[1..], zone, host, z);
      assert r[1..] == AddHost(g[1..], zone, host);
    }
  }

  /**
   * The grouping built by rootZoneGroups: buckets in ascending zone order,
   * none empty, and the bucket of every zone holds exactly the declared hosts
   * with that root zone, in rule order and with repetitions.
   */
  lemma {:induction false} RootZoneGroupsSpec(rules: seq<Rule>)
    ensures var g := RootZoneGroups(rules);
      && Sorted(g)
      && NoEmptyBucket(g)
      && (forall z :: BucketHosts(g, z) == HostsInZone(rules, z))
    decreases |rules|
  {
    if |rules| > 0 {
      var init := rules[..|rules| - 1];
      RootZoneGroupsSpec(init);
      var g := RootZoneGroups(init);
      match rules[|rules| - 1].host
      case None =>
        assert DeclaredHosts(rules) == DeclaredHosts(init);
      case Some(h) =>
        assert DeclaredHosts(rules) == DeclaredHosts(init) + [h];
        assert DeclaredHosts(rules)[..|DeclaredHosts(rules)| - 1] == DeclaredHosts(init);
        match RootZone(h)
        case None =>
        case Some(zone) =>
          AddHostZones(g, zone, h);
          AddHostSorted(g, zone, h);
          forall z ensures BucketHosts(AddHost(g, zone, h), z) == HostsInZone(rules, z) {
            AddHostBuckets(g, zone, h, z);
          }
    }
  }

  /** Every bucket's key is the root zone of each of its hosts, and each of them is declared. */
  lemma BucketKeyIsRootZone(rules: seq<Rule>, i: int, h: string)
    requires 0 <= i < |RootZoneGroups(rules)|
    requires h in RootZoneGroups(rules)[i].hosts
    ensures RootZone(h) == Some(RootZoneGroups(rules)[i].zone)
    ensures h in DeclaredHosts(rules)
  {
    var g := RootZoneGroups(rules);
    RootZoneGroupsSpec(rules);
    BucketHostsAt(g, i);
    assert h in HostsInZone(rules, g[i].zone);
  }

  /**
   * A host is grouped iff it is declared and has a root zone, and then it sits
   * in exactly one bucket: the one keyed by its root zone.
   */
  lemma ExactlyOneBucket(rules: seq<Rule>, h: string)
    ensures var g := RootZoneGroups(rules);
      (exists i :: 0 <= i < |g| && h in g[i].hosts) <==> (h in DeclaredHosts(rules) && RootZone(h).Some?)
    ensures var g := RootZoneGroups(rules);
      forall i, j :: 0 <= i < |g| && 0 <= j < |g| && h in g[i].hosts && h in g[j].hosts ==> i == j
  {
    var g := RootZoneGroups(rules);
    RootZoneGroupsSpec(rules);
    if h in DeclaredHosts(rules) && RootZone(h).Some? {
      var z := RootZone(h).value;
      assert h in HostsInZone(rules, z);
      assert h in BucketHosts(g, z);
      if z !in ZoneNames(g) {
        BucketHostsAbsent(g, z);
      }
      var i :| 0 <= i < |g| && ZoneNames(g)[i] == z;
      BucketHostsAt(g, i);
    }
    forall i | 0 <= i < |g| && h in g[i].hosts ensures h in DeclaredHosts(rules) && RootZone(h) == Some(g[i].zone) {
      BucketKeyIsRootZone(rules, i, h);
    }
    forall i, j | 0 <= i < |g| && 0 <= j < |g| && h in g[i].hosts && h in g[j].hosts ensures i == j {
      BucketKeyIsRootZone(rules, i, h);
      BucketKeyIsRootZone(rules, j, h);
      if i < j {
        StrLtIrreflexive(g[i].zone);
      } else if j < i {
        StrLtIrreflexive(g[j].zone);
      }
    }
  }

  /** The flattened grouping lists exactly the hosts of the buckets. */
  lemma {:induction false} GroupedHostsMembers(g: seq<Bucket>, h: string)
    ensures h in GroupedHosts(g) <==> exists i :: 0 <= i < |g| && h in g[i].hosts
    decreases |g|
  {
    if |g| > 0 {
      GroupedHostsMembers(g[1..], h);
      if h in g[0].hosts {
      } else if exists i :: 0 <= i < |g| && h in g[i].hosts {
        var i :| 0 <= i < |g| && h in g[i].hosts;
        assert g[1..][i - 1] == g[i];
      } else {
        forall i | 0 <= i < |g[1..]| ensures h !in g[1..][i].hosts {
          assert g[1..][i] == g[i + 1];
        }
      }
    }
  }

}
