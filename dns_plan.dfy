/**
 * The DNS side of the handler: which Cloudflare zones the grouped hosts map
 * to (the zone-id reduce), and which record mutations are issued for one
 * host once its records have been listed. A small model of a zone's records
 * under one name gives the mutations a meaning, so that their net effect can
 * be stated.
 */
module DnsPlan {
  import opened Wrappers
  import opened Seqs
  import opened ZoneGroups
  import opened Cloudflare

  datatype Phase = Added | Modified | Deleted

  /** The record body posted by `addRecord`. */
  datatype NewRecord = NewRecord(recordType: string, name: string, content: string, ttl: int, proxied: bool)

  /** One DNS mutation: `addRecord`, `updateRecord` or `deleteRecord`. */
  datatype DnsAction =
    | CreateRecord(zoneId: string, record: NewRecord)
    | UpdateRecord(zoneId: string, recordId: string, content: string)
    | DeleteRecord(zoneId: string, recordId: string)

  const Cname: string := "CNAME"

  /** A proxied CNAME with a 300-second TTL pointing `name` at `target`. */
  function NewCname(name: string, target: string): NewRecord {
    NewRecord(Cname, name, target, 300, true)
  }

  // ---------------------------------------------------------------------
  // Zone ids

  /** The positions of the zone lookups that resolved to a zone, in ascending order. */
  function Resolved(responses: seq<Response<Resource>>): (r: seq<nat>)
    ensures forall k :: 0 <= k < |r| ==> r[k] < |responses| && FirstResult(responses[r[k]]).Some?
    ensures forall k, l :: 0 <= k < l < |r| ==> r[k] < r[l]
    ensures forall i :: 0 <= i < |responses| && FirstResult(responses[i]).Some? ==> i in r
  {
    if |responses| == 0 then []
    else
      var n := |responses| - 1;
      var init := Resolved(responses[..n]);
      assert forall i :: 0 <= i < n ==> responses[..n][i] == responses[i];
      if FirstResult(responses[n]).Some? then init + [n] else init
  }

  /** The resolved zones: `result[0]` of every successful zone lookup that has one, in lookup order. */
  function ValidZones(responses: seq<Response<Resource>>): (r: seq<Resource>)
    ensures forall z :: z in r ==> exists i :: 0 <= i < |responses| && FirstResult(responses[i]) == Some(z)
    ensures forall i :: 0 <= i < |responses| && FirstResult(responses[i]).Some? ==> FirstResult(responses[i]).value in r
  {
    if |responses| == 0 then []
    else
      var n := |responses| - 1;
      var init := ValidZones(responses[..n]);
      assert forall i :: 0 <= i < n ==> responses[..n][i] == responses[i];
      match FirstResult(responses[n])
      case Some(z) => init + [z]
      case None => init
  }

  /** The order of the resolved zones: the k-th one is the answer of the k-th lookup that resolved. */
  lemma {:induction false} ValidZonesOrder(responses: seq<Response<Resource>>)
    ensures |ValidZones(responses)| == |Resolved(responses)|
    ensures forall k :: 0 <= k < |Resolved(responses)| ==> FirstResult(responses[Resolved(responses)[k]]) == Some(ValidZones(responses)[k])
  {
    if |responses| > 0 {
      var n := |responses| - 1;
      ValidZonesOrder(responses[..n]);
      assert forall i :: 0 <= i < n ==> responses[..n][i] == responses[i];
    }
  }

  /** `validZones.find(value => value.name === name)` */
  function FindZone(valid: seq<Resource>, name: string): (r: Option<Resource>)
    ensures r.Some? ==> r.value in valid && r.value.name == name
    ensures r.Some? ==> exists i :: 0 <= i < |valid| && valid[i] == r.value && forall j :: 0 <= j < i ==> valid[j].name != name
    ensures r.None? ==> forall z :: z in valid ==> z.name != name
  {
    if |valid| == 0 then None
    else if valid[0].name == name then Some(valid[0])
    else
      var r := FindZone(valid[1..], name);
      if r.Some? then
        var i :| 0 <= i < |valid| - 1 && valid[1..][i] == r.value && forall j :: 0 <= j < i ==> valid[1..][j].name != name;
        assert valid[i + 1] == r.value && forall j :: 0 <= j < i + 1 ==> valid[j].name != name;
        r
      else r
  }

  /**
   * When two zone lookups answer with the same name, the zone-id step uses
   * the answer of the earlier lookup.
   */
  lemma {:induction false} EarliestZoneWins(responses: seq<Response<Resource>>, name: string, z: Resource)
    requires FindZone(ValidZones(responses), name) == Some(z)
    ensures exists i :: 0 <= i < |responses| && FirstResult(responses[i]) == Some(z) && EarlierOthers(responses, i, name)
  {
    var valid, idx := ValidZones(responses), Resolved(responses);
    ValidZonesOrder(responses);
    var k :| 0 <= k < |valid| && valid[k] == z && forall l :: 0 <= l < k ==> valid[l].name != name;
    EarliestPosition(responses, valid, idx, name, k);
  }

  /** The k-th resolved lookup, when no earlier valid zone has the name, has no earlier lookup with it either. */
  lemma EarliestPosition(responses: seq<Response<Resource>>, valid: seq<Resource>, idx: seq<nat>, name: string, k: nat)
    requires |valid| == |idx|
    requires forall m :: 0 <= m < |idx| ==> idx[m] < |responses| && FirstResult(responses[idx[m]]) == Some(valid[m])
    requires forall a, b :: 0 <= a < b < |idx| ==> idx[a] < idx[b]
    requires forall i :: 0 <= i < |responses| && FirstResult(responses[i]).Some? ==> i in idx
    requires k < |valid| && forall l :: 0 <= l < k ==> valid[l].name != name
    ensures EarlierOthers(responses, idx[k], name)
  {
    forall j | 0 <= j < idx[k] && FirstResult(responses[j]).Some?
      ensures FirstResult(responses[j]).value.name != name
    {
      var l := EarlierPosition(idx, k, j);
      assert FirstResult(responses[idx[l]]) == Some(valid[l]);
    }
  }

  /** In an ascending sequence, a value below the k-th one sits before position k. */
  lemma EarlierPosition(idx: seq<nat>, k: nat, j: nat) returns (l: nat)
    requires forall a, b :: 0 <= a < b < |idx| ==> idx[a] < idx[b]
    requires k < |idx| && j in idx && j < idx[k]
    ensures l < k && idx[l] == j
  {
    l :| 0 <= l < |idx| && idx[l] == j;
  }

  /** No lookup before position `i` resolved to a zone called `name`. */
  predicate EarlierOthers(responses: seq<Response<Resource>>, i: nat, name: string)
    requires i <= |responses|
  {
    forall j :: 0 <= j < i && FirstResult(responses[j]).Some? ==> FirstResult(responses[j]).value.name != name
  }

  /** The hosts stored under `key`, if any. */
  function Lookup(g: seq<Bucket>, key: string): Option<seq<string>> {
    if |g| == 0 then None
    else if g[0].zone == key then Some(g[0].hosts)
    else Lookup(g[1..], key)
  }

  /** `{ ...acc, [key]: hosts }`: an existing key keeps its place and takes the new hosts, a new key goes last. */
  function SetKey(acc: seq<Bucket>, key: string, hosts: seq<string>): seq<Bucket> {
    if |acc| == 0 then [Bucket(key, hosts)]
    else if acc[0].zone == key then [Bucket(key, hosts)] + acc[1..]
    else [acc[0]] + SetKey(acc[1..], key, hosts)
  }

  /** The reduce over the zone groups: each group whose zone resolved is stored under that zone's id. */
  function ZoneIdBuckets(g: seq<Bucket>, valid: seq<Resource>): seq<Bucket> {
    if |g| == 0 then []
    else
      var acc := ZoneIdBuckets(g[..|g| - 1], valid);
      match FindZone(valid, g[|g| - 1].zone)
      case Some(zone) => SetKey(acc, zone.id, g[|g| - 1].hosts)
      case None => acc
  }

  /** The reference reading: the hosts of the last group whose resolved zone has id `id`. */
  function LastGroupFor(g: seq<Bucket>, valid: seq<Resource>, id: string): (r: Option<seq<string>>)
    ensures r.Some? <==> exists i :: 0 <= i < |g| && FindZone(valid, g[i].zone).Some? && FindZone(valid, g[i].zone).value.id == id
  {
    if |g| == 0 then None
    else
      var last := g[|g| - 1];
      var found := FindZone(valid, last.zone);
      assert forall i :: 0 <= i < |g| - 1 ==> g[..|g| - 1][i] == g[i];
      if found.Some? && found.value.id == id then Some(last.hosts)
      else LastGroupFor(g[..|g| - 1], valid, id)
  }

  lemma {:induction false} SetKeyNames(acc: seq<Bucket>, key: string, hosts: seq<string>)
    requires Distinct(ZoneNames(acc))
    ensures Distinct(ZoneNames(SetKey(acc, key, hosts)))
    ensures forall k :: k in ZoneNames(SetKey(acc, key, hosts)) <==> k == key || k in ZoneNames(acc)
    decreases |acc|
  {
    var r := SetKey(acc, key, hosts);
    if |acc| == 0 {
      assert ZoneNames(r) == [key];
    } else {
      assert ZoneNames(acc) == [acc[0].zone] + ZoneNames(acc[1..]);
      if acc[0].zone == key {
        assert ZoneNames(r) == [key] + ZoneNames(acc[1..]);
      } else {
        SetKeyNames(acc[1..], key, hosts);
        var rest := ZoneNames(SetKey(acc[1..], key, hosts));
        assert ZoneNames(r) == [acc[0].zone] + rest;
        forall k | 0 <= k < |acc| - 1 ensures ZoneNames(acc[1..])[k] != acc[0].zone {
          assert ZoneNames(acc)[k + 1] == ZoneNames(acc[1..])[k];
        }
        DistinctCons(acc[0].zone, rest);
      }
    }
  }

  lemma {:induction false} SetKeyLookup(acc: seq<Bucket>, key: string, hosts: seq<string>, k: string)
    ensures Lookup(SetKey(acc, key, hosts), k) == if k == key then Some(hosts) else Lookup(acc, k)
    decreases |acc|
  {
    if |acc| > 0 && acc[0].zone != key {
      SetKeyLookup(acc[1..], key, hosts, k);
    }
  }

  /**
   * The zone-id map: distinct keys, a key exactly for every id of a resolved
   * zone whose name is a group's zone, holding the hosts of the last such group.
   */
  lemma {:induction false} ZoneIdBucketsSpec(g: seq<Bucket>, valid: seq<Resource>)
    ensures Distinct(ZoneNames(ZoneIdBuckets(g, valid)))
    ensures forall id :: Lookup(ZoneIdBuckets(g, valid), id) == LastGroupFor(g, valid, id)
    ensures forall id :: id in ZoneNames(ZoneIdBuckets(g, valid)) <==> LastGroupFor(g, valid, id).Some?
    decreases |g|
  {
    if |g| > 0 {
      var init := g[..|g| - 1];
      ZoneIdBucketsSpec(init, valid);
      var acc := ZoneIdBuckets(init, valid);
      match FindZone(valid, g[|g| - 1].zone)
      case Some(zone) =>
        SetKeyNames(acc, zone.id, g[|g| - 1].hosts);
        forall id ensures Lookup(SetKey(acc, zone.id, g[|g| - 1].hosts), id) == LastGroupFor(g, valid, id) {
          SetKeyLookup(acc, zone.id, g[|g| - 1].hosts, id);
        }
      case None =>
    }
  }

  /** Every key of the zone-id map is the id of a resolved zone named after one of the groups. */
  lemma ZoneIdBucketsSound(g: seq<Bucket>, valid: seq<Resource>, id: string)
    requires id in ZoneNames(ZoneIdBuckets(g, valid))
    ensures exists z, i :: z in valid && z.id == id && 0 <= i < |g| && z.name == g[i].zone
  {
    ZoneIdBucketsSpec(g, valid);
    var i :| 0 <= i < |g| && FindZone(valid, g[i].zone).Some? && FindZone(valid, g[i].zone).value.id == id;
    var z := FindZone(valid, g[i].zone).value;
    assert z in valid && z.id == id && z.name == g[i].zone;
  }

  // ---------------------------------------------------------------------
  // The lookups to run

  /** One DNS lookup: a host under a zone id. */
  datatype Target = Target(zoneId: string, host: string)

  /** The lookups of one bucket, host by host. */
  function BucketTargets(b: Bucket): (r: seq<Target>)
    ensures |r| == |b.hosts| && forall i :: 0 <= i < |b.hosts| ==> r[i] == Target(b.zone, b.hosts[i])
  {
    seq(|b.hosts|, i requires 0 <= i < |b.hosts| => Target(b.zone, b.hosts[i]))
  }

  /** Every (zone id, host) pair of the zone-id map, bucket by bucket and host by host. */
  function Targets(buckets: seq<Bucket>): seq<Target> {
    if |buckets| == 0 then [] else BucketTargets(buckets[0]) + Targets(buckets[1..])
  }

  /** One lookup is run for every host of every bucket, and no other. */
  lemma {:induction false} TargetsMembers(buckets: seq<Bucket>, t: Target)
    ensures t in Targets(buckets) <==> exists b :: b in buckets && t.zoneId == b.zone && t.host in b.hosts
    decreases |buckets|
  {
    if |buckets| > 0 {
      var b := buckets[0];
      TargetsMembers(buckets[1..], t);
      if t.zoneId == b.zone && t.host in b.hosts {
        var i :| 0 <= i < |b.hosts| && b.hosts[i] == t.host;
        assert BucketTargets(b)[i] == t;
      }
      if t in BucketTargets(b) {
        var i :| 0 <= i < |b.hosts| && BucketTargets(b)[i] == t;
      }
      if exists c :: c in buckets && t.zoneId == c.zone && t.host in c.hosts {
        var c :| c in buckets && t.zoneId == c.zone && t.host in c.hosts;
        if c != b {
          assert c in buckets[1..];
        }
      }
    }
  }

  // ---------------------------------------------------------------------
  // The per-host decision

  predicate IsCname(r: DnsRecord) {
    r.recordType == Cname
  }

  function Ids(rs: seq<DnsRecord>): (r: seq<string>)
    ensures |r| == |rs| && forall i :: 0 <= i < |rs| ==> r[i] == rs[i].id
  {
    seq(|rs|, i requires 0 <= i < |rs| => rs[i].id)
  }

  /** The ids of the CNAME records in a listing. */
  function CnameIds(listing: seq<DnsRecord>): seq<string> {
    Ids(Filter(listing, IsCname))
  }

  function Deletes(zoneId: string, ids: seq<string>): (r: seq<DnsAction>)
    ensures |r| == |ids| && forall i :: 0 <= i < |ids| ==> r[i] == DeleteRecord(zoneId, ids[i])
  {
    seq(|ids|, i requires 0 <= i < |ids| => DeleteRecord(zoneId, ids[i]))
  }

  function Updates(zoneId: string, ids: seq<string>, content: string): (r: seq<DnsAction>)
    ensures |r| == |ids| && forall i :: 0 <= i < |ids| ==> r[i] == UpdateRecord(zoneId, ids[i], content)
  {
    seq(|ids|, i requires 0 <= i < |ids| => UpdateRecord(zoneId, ids[i], content))
  }

  /**
   * The mutations issued for one host after its records were listed. An
   * unsuccessful listing does nothing. On DELETED every CNAME is deleted;
   * otherwise every CNAME is pointed at the tunnel, and one is created when
   * there is none.
   */
  function HostActions(phase: Phase, zoneId: string, host: string,
                       listing: Response<DnsRecord>, tunnelHost: string): seq<DnsAction>
  {
    match listing
    case Failure(_) => []
    case Success(_, records) =>
      var ids := CnameIds(records);
      if phase == Deleted then Deletes(zoneId, ids)
      else
        Updates(zoneId, ids, tunnelHost)
        + (if |ids| == 0 then [CreateRecord(zoneId, NewCname(host, tunnelHost))] else [])
  }

  lemma CnameIdsEmpty(records: seq<DnsRecord>)
    ensures |CnameIds(records)| == 0 <==> forall r :: r in records ==> !IsCname(r)
  {
    var cn := Filter(records, IsCname);
    if |cn| > 0 {
      assert cn[0] in records && IsCname(cn[0]);
    } else {
      forall r | r in records ensures !IsCname(r) {
      }
    }
  }

  /**
   * The decision rule: DELETED issues one delete per CNAME and nothing else;
   * otherwise one update per CNAME, all to the tunnel hostname, plus exactly
   * one create, of a proxied CNAME for the host, iff the listing holds no
   * CNAME; an unsuccessful listing issues nothing.
   */
  lemma HostActionsRule(phase: Phase, zoneId: string, host: string,
                        listing: Response<DnsRecord>, tunnelHost: string)
    ensures listing.Failure? ==> HostActions(phase, zoneId, host, listing, tunnelHost) == []
    ensures listing.Success? && phase == Deleted ==>
      var acts := HostActions(phase, zoneId, host, listing, tunnelHost);
      && |acts| == |CnameIds(listing.result)|
      && forall i :: 0 <= i < |acts| ==> acts[i] == DeleteRecord(zoneId, CnameIds(listing.result)[i])
    ensures listing.Success? && phase != Deleted ==>
      var acts := HostActions(phase, zoneId, host, listing, tunnelHost);
      var none := forall r :: r in listing.result ==> !IsCname(r);
      && (forall a :: a in acts ==> !a.DeleteRecord? && a.zoneId == zoneId)
      && (forall i :: 0 <= i < |CnameIds(listing.result)| ==> acts[i] == UpdateRecord(zoneId, CnameIds(listing.result)[i], tunnelHost))
      && (forall a :: a in acts && a.UpdateRecord? ==> a.content == tunnelHost && a.recordId in CnameIds(listing.result))
      && (CreateRecord(zoneId, NewCname(host, tunnelHost)) in acts <==> none)
      && (forall a :: a in acts && a.CreateRecord? ==> a == CreateRecord(zoneId, NewCname(host, tunnelHost)))
      && |acts| == |CnameIds(listing.result)| + (if none then 1 else 0)
  {
    if listing.Success? {
      CnameIdsEmpty(listing.result);
    }
  }

  // ---------------------------------------------------------------------
  // What the mutations do to the records of one name

  /** A record of a zone under the host's name, as Cloudflare holds it. */
  datatype ZoneRecord = ZoneRecord(id: string, recordType: string, content: string)

  predicate IsCnameRecord(r: ZoneRecord) {
    r.recordType == Cname
  }

  predicate DistinctIds(rs: seq<ZoneRecord>) {
    forall i, j :: 0 <= i < j < |rs| ==> rs[i].id != rs[j].id
  }

  /** The listing Cloudflare returns for the host: its records by id and type. */
  function Listing(host: string, rs: seq<ZoneRecord>): (r: seq<DnsRecord>)
    ensures |r| == |rs| && forall i :: 0 <= i < |rs| ==> r[i] == DnsRecord(rs[i].id, host, rs[i].recordType)
  {
    seq(|rs|, i requires 0 <= i < |rs| => DnsRecord(rs[i].id, host, rs[i].recordType))
  }

  function OtherId(id: string): ZoneRecord -> bool {
    (r: ZoneRecord) => r.id != id
  }

  function SetContent(rs: seq<ZoneRecord>, id: string, content: string): (r: seq<ZoneRecord>)
    ensures |r| == |rs|
    ensures forall i :: 0 <= i < |rs| ==> r[i] == if rs[i].id == id then rs[i].(content := content) else rs[i]
  {
    seq(|rs|, i requires 0 <= i < |rs| => if rs[i].id == id then rs[i].(content := content) else rs[i])
  }

  /** One mutation on the records of the host; a created record gets the id `newId`. */
  function Apply(rs: seq<ZoneRecord>, a: DnsAction, newId: string): seq<ZoneRecord> {
    match a
    case CreateRecord(_, rec) => rs + [ZoneRecord(newId, rec.recordType, rec.content)]
    case UpdateRecord(_, id, content) => SetContent(rs, id, content)
    case DeleteRecord(_, id) => Filter(rs, OtherId(id))
  }

  function ApplyAll(rs: seq<ZoneRecord>, acts: seq<DnsAction>, newId: string): seq<ZoneRecord> {
    if |acts| == 0 then rs
    else Apply(ApplyAll(rs, acts[..|acts| - 1], newId), acts[|acts| - 1], newId)
  }

  lemma {:induction false} ApplyDeletes(rs: seq<ZoneRecord>, zoneId: string, ids: seq<string>, newId: string)
    ensures forall x :: x in ApplyAll(rs, Deletes(zoneId, ids), newId) <==> x in rs && x.id !in ids
    decreases |ids|
  {
    if |ids| > 0 {
      var init := ids[..|ids| - 1];
      assert Deletes(zoneId, ids)[..|ids| - 1] == Deletes(zoneId, init);
      ApplyDeletes(rs, zoneId, init, newId);
    }
  }

  lemma {:induction false} ApplyUpdates(rs: seq<ZoneRecord>, zoneId: string, ids: seq<string>, content: string, newId: string)
    ensures |ApplyAll(rs, Updates(zoneId, ids, content), newId)| == |rs|
    ensures forall i :: 0 <= i < |rs| ==>
      ApplyAll(rs, Updates(zoneId, ids, content), newId)[i] == if rs[i].id in ids then rs[i].(content := content) else rs[i]
    decreases |ids|
  {
    if |ids| > 0 {
      var init := ids[..|ids| - 1];
      assert Updates(zoneId, ids, content)[..|ids| - 1] == Updates(zoneId, init, content);
      ApplyUpdates(rs, zoneId, init, content, newId);
    }
  }

  /** With unique record ids, a record's id is listed as a CNAME id iff the record is a CNAME. */
  lemma CnameIdsOfListing(host: string, rs: seq<ZoneRecord>, i: int)
    requires DistinctIds(rs) && 0 <= i < |rs|
    ensures rs[i].id in CnameIds(Listing(host, rs)) <==> IsCnameRecord(rs[i])
  {
    var listing := Listing(host, rs);
    var cn := Filter(listing, IsCname);
    if IsCnameRecord(rs[i]) {
      assert listing[i] in cn;
      var k :| 0 <= k < |cn| && cn[k] == listing[i];
      assert Ids(cn)[k] == rs[i].id;
    }
    if rs[i].id in Ids(cn) {
      var k :| 0 <= k < |cn| && Ids(cn)[k] == rs[i].id;
      assert cn[k] in listing;
      var j :| 0 <= j < |listing| && listing[j] == cn[k];
      assert rs[j].id == rs[i].id;
    }
  }

  /** After a DELETED pass every CNAME of the host is gone and every other record stays. */
  lemma DeletedRemovesCnames(host: string, rs: seq<ZoneRecord>, zoneId: string,
                             errors: seq<ApiError>, tunnelHost: string, newId: string)
    requires DistinctIds(rs)
    ensures var after := ApplyAll(rs, HostActions(Deleted, zoneId, host, Success(errors, Listing(host, rs)), tunnelHost), newId);
      forall x :: x in after <==> x in rs && !IsCnameRecord(x)
  {
    var ids := CnameIds(Listing(host, rs));
    ApplyDeletes(rs, zoneId, ids, newId);
    forall i | 0 <= i < |rs| ensures rs[i].id in ids <==> IsCnameRecord(rs[i]) {
      CnameIdsOfListing(host, rs, i);
    }
  }

  /** A second DELETED pass plans nothing. */
  lemma DeletedTwiceIsQuiet(host: string, rs: seq<ZoneRecord>, zoneId: string,
                            errors: seq<ApiError>, tunnelHost: string, newId: string)
    requires DistinctIds(rs)
    ensures var after := ApplyAll(rs, HostActions(Deleted, zoneId, host, Success(errors, Listing(host, rs)), tunnelHost), newId);
      HostActions(Deleted, zoneId, host, Success(errors, Listing(host, after)), tunnelHost) == []
  {
    var after := ApplyAll(rs, HostActions(Deleted, zoneId, host, Success(errors, Listing(host, rs)), tunnelHost), newId);
    DeletedRemovesCnames(host, rs, zoneId, errors, tunnelHost, newId);
    ListingHasCname(host, after);
  }

  /** The records of a host after an ADDED or MODIFIED pass, compared with those before. */
  predicate Upserted(before: seq<ZoneRecord>, after: seq<ZoneRecord>, tunnelHost: string) {
    && DistinctIds(after)
    && (exists x :: x in after && IsCnameRecord(x))
    && (forall x :: x in after && IsCnameRecord(x) ==> x.content == tunnelHost)
    && (forall x :: x in before && !IsCnameRecord(x) ==> x in after)
    && (forall x :: x in after && !IsCnameRecord(x) ==> x in before)
  }

  /** The listing of a host holds a CNAME iff its records do. */
  lemma ListingHasCname(host: string, rs: seq<ZoneRecord>)
    ensures |CnameIds(Listing(host, rs))| == 0 <==> forall x :: x in rs ==> !IsCnameRecord(x)
  {
    var listing := Listing(host, rs);
    CnameIdsEmpty(listing);
    if exists x :: x in rs && IsCnameRecord(x) {
      var x :| x in rs && IsCnameRecord(x);
      var j :| 0 <= j < |rs| && rs[j] == x;
      assert listing[j] in listing && IsCname(listing[j]);
    }
    if exists r :: r in listing && IsCname(r) {
      var r :| r in listing && IsCname(r);
      var j :| 0 <= j < |listing| && listing[j] == r;
      assert rs[j] in rs && IsCnameRecord(rs[j]);
    }
  }

  lemma UpsertUpdates(rs: seq<ZoneRecord>, zoneId: string, ids: seq<string>, tunnelHost: string, newId: string)
    requires DistinctIds(rs)
    requires forall i :: 0 <= i < |rs| ==> (rs[i].id in ids <==> IsCnameRecord(rs[i]))
    requires exists x :: x in rs && IsCnameRecord(x)
    ensures Upserted(rs, ApplyAll(rs, Updates(zoneId, ids, tunnelHost), newId), tunnelHost)
  {
    var after := ApplyAll(rs, Updates(zoneId, ids, tunnelHost), newId);
    ApplyUpdates(rs, zoneId, ids, tunnelHost, newId);
    var x :| x in rs && IsCnameRecord(x);
    var j :| 0 <= j < |rs| && rs[j] == x;
    assert after[j] in after && IsCnameRecord(after[j]);
    forall y | y in rs && !IsCnameRecord(y) ensures y in after {
      var k :| 0 <= k < |rs| && rs[k] == y;
      assert after[k] == y;
    }
    forall y | y in after
      ensures IsCnameRecord(y) ==> y.content == tunnelHost
      ensures !IsCnameRecord(y) ==> y in rs
    {
      var k :| 0 <= k < |after| && after[k] == y;
    }
  }

  lemma UpsertCreate(rs: seq<ZoneRecord>, zoneId: string, host: string, tunnelHost: string, newId: string)
    requires DistinctIds(rs) && forall r :: r in rs ==> r.id != newId
    requires forall x :: x in rs ==> !IsCnameRecord(x)
    ensures Upserted(rs, ApplyAll(rs, [CreateRecord(zoneId, NewCname(host, tunnelHost))], newId), tunnelHost)
  {
    var created := ZoneRecord(newId, Cname, tunnelHost);
    var after := ApplyAll(rs, [CreateRecord(zoneId, NewCname(host, tunnelHost))], newId);
    assert after == rs + [created];
    assert created in after && IsCnameRecord(created);
  }

  /**
   * After an ADDED or MODIFIED pass the host has at least one CNAME, every
   * CNAME points at the tunnel, every other record is untouched, and the ids
   * stay unique.
   */
  lemma UpsertPointsAtTunnel(phase: Phase, host: string, rs: seq<ZoneRecord>, zoneId: string,
                             errors: seq<ApiError>, tunnelHost: string, newId: string)
    requires phase != Deleted
    requires DistinctIds(rs) && forall r :: r in rs ==> r.id != newId
    ensures Upserted(rs, ApplyAll(rs, HostActions(phase, zoneId, host, Success(errors, Listing(host, rs)), tunnelHost), newId), tunnelHost)
  {
    var ids := CnameIds(Listing(host, rs));
    ListingHasCname(host, rs);
    forall i | 0 <= i < |rs| ensures rs[i].id in ids <==> IsCnameRecord(rs[i]) {
      CnameIdsOfListing(host, rs, i);
    }
    if |ids| == 0 {
      UpsertCreate(rs, zoneId, host, tunnelHost, newId);
    } else {
      assert Updates(zoneId, ids, tunnelHost) + [] == Updates(zoneId, ids, tunnelHost);
      UpsertUpdates(rs, zoneId, ids, tunnelHost, newId);
    }
  }

  /** Pointing CNAMEs that already point at the tunnel changes nothing. */
  lemma UpdatesFixpoint(host: string, rs: seq<ZoneRecord>, zoneId: string, tunnelHost: string, newId: string)
    requires DistinctIds(rs)
    requires forall x :: x in rs && IsCnameRecord(x) ==> x.content == tunnelHost
    ensures ApplyAll(rs, Updates(zoneId, CnameIds(Listing(host, rs)), tunnelHost), newId) == rs
  {
    var ids := CnameIds(Listing(host, rs));
    ApplyUpdates(rs, zoneId, ids, tunnelHost, newId);
    var again := ApplyAll(rs, Updates(zoneId, ids, tunnelHost), newId);
    forall k | 0 <= k < |rs| ensures again[k] == rs[k] {
      CnameIdsOfListing(host, rs, k);
    }
  }

  /** A second ADDED or MODIFIED pass creates nothing and leaves the records as they are. */
  lemma UpsertIdempotent(phase: Phase, host: string, rs: seq<ZoneRecord>, zoneId: string,
                         errors: seq<ApiError>, tunnelHost: string, newId: string)
    requires phase != Deleted
    requires DistinctIds(rs) && forall r :: r in rs ==> r.id != newId
    ensures var after := ApplyAll(rs, HostActions(phase, zoneId, host, Success(errors, Listing(host, rs)), tunnelHost), newId);
      var again := HostActions(phase, zoneId, host, Success(errors, Listing(host, after)), tunnelHost);
      && (forall a :: a in again ==> a.UpdateRecord?)
      && ApplyAll(after, again, newId) == after
  {
    var after := ApplyAll(rs, HostActions(phase, zoneId, host, Success(errors, Listing(host, rs)), tunnelHost), newId);
    UpsertPointsAtTunnel(phase, host, rs, zoneId, errors, tunnelHost, newId);
    ListingHasCname(host, after);
    var ids := CnameIds(Listing(host, after));
    assert HostActions(phase, zoneId, host, Success(errors, Listing(host, after)), tunnelHost) == Updates(zoneId, ids, tunnelHost) + [];
    assert Updates(zoneId, ids, tunnelHost) + [] == Updates(zoneId, ids, tunnelHost);
    UpdatesFixpoint(host, after, zoneId, tunnelHost, newId);
  }
}
