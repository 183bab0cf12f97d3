/**
 * The watch handler: one Ingress event updates the host cache and then, when
 * the Ingress names a tunnel and has rules, resolves zones, the tunnel and
 * the hosts' DNS records, issues the DNS mutations, and rewrites the tunnel
 * configuration (which also restarts the tunnel daemon).
 *
 * The remote calls are inputs (`Remote`); what the handler does with their
 * answers is the pure function `PlanEvent`, and `Handle` is the cache update
 * followed by that plan.
 */
module Handler {
  import opened Wrappers
  import opened Seqs
  import opened Zones
  import opened IngressCache
  import opened ZoneGroups
  import opened Cloudflare
  import opened TunnelConfig
  import opened DnsPlan

  /** What the handler reads of a `V1Ingress`; `name` and `namespace` are taken as present. */
  datatype Ingress = Ingress(
    name: string,
    namespace: string,
    tunnelName: Option<string>,
    rules: Option<seq<Rule>>)

  /** `ingress.spec?.rules ?? []` */
  function Rules(ingress: Ingress): seq<Rule> {
    match ingress.rules
    case Some(rules) => rules
    case None => []
  }

  /** `rootZoneGroups(ingress.spec?.rules ?? [])` */
  function IngressZones(ingress: Ingress): seq<Bucket> {
    RootZoneGroups(Rules(ingress))
  }

  /**
   * The answers of the Cloudflare API during one event: zone lookup by name,
   * tunnel lookup by name, DNS record listing by zone id and host, and which
   * mutations fail (a failed mutation rejects the awaited batch).
   */
  datatype Remote = Remote(
    zoneLookup: string -> Call<Resource>,
    tunnelLookup: string -> Call<Resource>,
    dnsLookup: Target -> Call<DnsRecord>,
    writeThrew: DnsAction -> bool)

  /**
   * How the event ends after the cache step: nothing more is done (`Skipped`),
   * a remote call threw after the given mutations were issued (`Aborted`), or
   * the mutations were issued and the tunnel config was rewritten to `config`
   * and the daemon restarted (`Completed`).
   */
  datatype Outcome =
    | Skipped
    | Aborted(actions: seq<DnsAction>)
    | Completed(actions: seq<DnsAction>, config: Config)

  // ---------------------------------------------------------------------
  // The cache step

  /** An entry as the handler builds it for host `k` of `ingress`. */
  predicate IsEntryFor(x: HostInformation, ingress: Ingress, k: string) {
    && x.hostname == k
    && x.namespace == ingress.namespace
    && x.ingressName == ingress.name
    && x.discoverableByCf == ingress.tunnelName.Some?
  }

  /** DELETED: every cache key equal to one of the root-zone names is removed. */
  predicate DeletedCache(t0: Table, t1: Table, ingress: Ingress) {
    t1 == RemoveAll(t0, ZoneNames(IngressZones(ingress)))
  }

  /**
   * ADDED or MODIFIED, with fresh entry objects: the hostnames the Ingress
   * owned are gone (also those it still declares), every other grouped host
   * gets a new entry, and all other keys are unchanged.
   */
  ghost predicate ModifiedCache(t0: Table, t1: Table, ingress: Ingress) {
    var hosts := GroupedHosts(IngressZones(ingress));
    && WellFormed(t1)
    && (forall k :: OwnedBy(t0, ingress.name, k) ==> Get(t1, k) == None)
    && (forall k :: !OwnedBy(t0, ingress.name, k) && k in hosts ==>
          Get(t1, k).Some? && IsEntryFor(Get(t1, k).value, ingress, k) && Get(t1, k).value !in t0.entries.Values)
    && (forall k :: !OwnedBy(t0, ingress.name, k) && k !in hosts ==> Get(t1, k) == Get(t0, k))
  }

  /** One fresh entry per host, in order, as the handler's `hosts.map(...)` builds them. */
  method BuildEntries(ingress: Ingress, hosts: seq<string>) returns (metadata: seq<HostInformation>)
    ensures Hostnames(metadata) == hosts
    ensures forall x :: x in metadata ==> fresh(x) && IsEntryFor(x, ingress, x.hostname)
  {
    metadata := [];
    var i := 0;
    while i < |hosts|
      invariant 0 <= i <= |hosts|
      invariant Hostnames(metadata) == hosts[..i]
      invariant forall x :: x in metadata ==> fresh(x) && IsEntryFor(x, ingress, x.hostname)
    {
      var x := new HostInformation(ingress.namespace, hosts[i], ingress.tunnelName.Some?, ingress.name);
      assert Hostnames(metadata + [x]) == Hostnames(metadata) + [x.hostname];
      assert hosts[..i + 1] == hosts[..i] + [hosts[i]];
      metadata := metadata + [x];
      i := i + 1;
    }
    assert hosts[..i] == hosts;
  }

  /** The cache branch of the handler. */
  method CacheStep(cache: Cache, phase: Phase, ingress: Ingress)
    requires cache.Valid()
    modifies cache
    ensures cache.Valid()
    ensures phase == Deleted ==> DeletedCache(old(cache.State()), cache.State(), ingress)
    ensures phase != Deleted ==> ModifiedCache(old(cache.State()), cache.State(), ingress)
  {
    var zones := IngressZones(ingress);
    if phase == Deleted {
      cache.RemoveEach(ZoneNames(zones));
    } else {
      ghost var t0 := cache.State();
      var metadata := BuildEntries(ingress, GroupedHosts(zones));
      assert forall x :: x in metadata ==> x !in t0.entries.Values;
      cache.OverrideList(metadata, ingress.name);
      OverrideFresh(t0, metadata, ingress.name);
      forall k | !OwnedBy(t0, ingress.name, k) && k in GroupedHosts(zones)
        ensures Get(cache.State(), k).Some? && IsEntryFor(Get(cache.State(), k).value, ingress, k)
        ensures Get(cache.State(), k).value !in t0.entries.Values
      {
        assert LastWithHost(metadata, k).Some?;
      }
    }
  }

  // ---------------------------------------------------------------------
  // The remote part

  function ZoneCalls(zones: seq<Bucket>, remote: Remote): (r: seq<Call<Resource>>)
    ensures |r| == |zones| && forall i :: 0 <= i < |zones| ==> r[i] == remote.zoneLookup(zones[i].zone)
  {
    seq(|zones|, i requires 0 <= i < |zones| => remote.zoneLookup(zones[i].zone))
  }

  function DnsCalls(targets: seq<Target>, remote: Remote): (r: seq<Call<DnsRecord>>)
    ensures |r| == |targets| && forall i :: 0 <= i < |targets| ==> r[i] == remote.dnsLookup(targets[i])
  {
    seq(|targets|, i requires 0 <= i < |targets| => remote.dnsLookup(targets[i]))
  }

  /** The mutations for every looked-up host, host by host. */
  function TargetActions(phase: Phase, targets: seq<Target>, listings: seq<Response<DnsRecord>>,
                         tunnelHost: string): seq<DnsAction>
    requires |targets| == |listings|
  {
    if |targets| == 0 then []
    else
      var n := |targets| - 1;
      TargetActions(phase, targets[..n], listings[..n], tunnelHost)
      + HostActions(phase, targets[n].zoneId, targets[n].host, listings[n], tunnelHost)
  }

  /** The zone-id map built from the zone lookups, or None when one of them threw. */
  function ZoneIdMap(zones: seq<Bucket>, remote: Remote): Option<seq<Bucket>> {
    match Responses(ZoneCalls(zones, remote))
    case None => None
    case Some(responses) => Some(ZoneIdBuckets(zones, ValidZones(responses)))
  }

  /** Everything after the gate of the handler. */
  function Reconcile(phase: Phase, tunnelName: string, zones: seq<Bucket>, remote: Remote,
                     exposed: seq<string>, service: string, config: Config): Outcome
  {
    var rewritten := CfIngressMapping(service, exposed, config);
    match ZoneIdMap(zones, remote)
    case None => Aborted([])
    case Some(buckets) =>
      match remote.tunnelLookup(tunnelName)
      case Threw => Aborted([])
      case Returned(answer) =>
        match FirstResult(answer)
        case None => Completed([], rewritten)
        case Some(tunnel) =>
          var targets := Targets(buckets);
          match Responses(DnsCalls(targets, remote))
          case None => Aborted([])
          case Some(listings) =>
            var actions := TargetActions(phase, targets, listings, TunnelHostName(tunnel.id));
            if exists i :: 0 <= i < |actions| && remote.writeThrew(actions[i]) then Aborted(actions)
            else Completed(actions, rewritten)
  }

  /**
   * The handler's plan for one event, after its cache step: `exposed` is the
   * list of discoverable hostnames the cache then holds, `service` the
   * ingress service and `config` the tunnel config read from the ConfigMap.
   */
  function PlanEvent(phase: Phase, ingress: Ingress, remote: Remote,
                     exposed: seq<string>, service: string, config: Config): Outcome
  {
    if ingress.tunnelName.None? || ingress.rules.None? then Skipped
    else Reconcile(phase, ingress.tunnelName.value, IngressZones(ingress), remote, exposed, service, config)
  }

  /** `getAllDiscoverableHosts().map(({ hostname }) => hostname)` */
  function ExposedHosts(t: Table): seq<string> {
    Hostnames(Discoverable(t))
  }

  /** handler */
  method Handle(cache: Cache, phase: Phase, ingress: Ingress, remote: Remote,
                service: string, config: Config) returns (outcome: Outcome)
    requires cache.Valid()
    modifies cache
    ensures cache.Valid()
    ensures phase == Deleted ==> DeletedCache(old(cache.State()), cache.State(), ingress)
    ensures phase != Deleted ==> ModifiedCache(old(cache.State()), cache.State(), ingress)
    ensures outcome == PlanEvent(phase, ingress, remote, ExposedHosts(cache.State()), service, config)
  {
    CacheStep(cache, phase, ingress);
    outcome := PlanEvent(phase, ingress, remote, ExposedHosts(cache.State()), service, config);
  }

  // ---------------------------------------------------------------------
  // Properties of the plan

  /** Without a tunnel annotation or without rules nothing follows the cache step. */
  lemma GateClosed(phase: Phase, ingress: Ingress, remote: Remote,
                   exposed: seq<string>, service: string, config: Config)
    ensures PlanEvent(phase, ingress, remote, exposed, service, config) == Skipped
        <==> ingress.tunnelName.None? || ingress.rules.None?
  {
  }

  /**
   * A tunnel lookup that answers without a tunnel issues no DNS mutation, yet
   * the config is still rewritten and the daemon restarted.
   */
  lemma RewriteWithoutTunnel(phase: Phase, ingress: Ingress, remote: Remote,
                             exposed: seq<string>, service: string, config: Config)
    requires ingress.tunnelName.Some? && ingress.rules.Some?
    requires ZoneIdMap(IngressZones(ingress), remote).Some?
    requires remote.tunnelLookup(ingress.tunnelName.value).Returned?
    requires !remote.tunnelLookup(ingress.tunnelName.value).response.Success?
          || |remote.tunnelLookup(ingress.tunnelName.value).response.result| == 0
    ensures PlanEvent(phase, ingress, remote, exposed, service, config)
         == Completed([], CfIngressMapping(service, exposed, config))
  {
  }

  /** A zone or tunnel lookup that throws ends the event with no mutation and no rewrite. */
  lemma LookupThrows(phase: Phase, ingress: Ingress, remote: Remote,
                     exposed: seq<string>, service: string, config: Config)
    requires ingress.tunnelName.Some? && ingress.rules.Some?
    requires || (exists i :: 0 <= i < |IngressZones(ingress)| && remote.zoneLookup(IngressZones(ingress)[i].zone).Threw?)
             || (ZoneIdMap(IngressZones(ingress), remote).Some? && remote.tunnelLookup(ingress.tunnelName.value).Threw?)
    ensures PlanEvent(phase, ingress, remote, exposed, service, config) == Aborted([])
  {
  }

  /**
   * A completed event rewrites the config to route exactly the exposed hosts,
   * in order, with the 404 catch-all last.
   */
  lemma CompletedConfig(phase: Phase, ingress: Ingress, remote: Remote,
                        exposed: seq<string>, service: string, config: Config)
    requires PlanEvent(phase, ingress, remote, exposed, service, config).Completed?
    ensures var c := PlanEvent(phase, ingress, remote, exposed, service, config).config;
      && c == CfIngressMapping(service, exposed, config)
      && RoutedHosts(c.ingress) == exposed
      && c.ingress[|c.ingress| - 1] == CatchAll
  {
    CfIngressMappingRoutes(service, exposed, config);
  }

  lemma TargetActionsMembers(phase: Phase, targets: seq<Target>,
                              listings: seq<Response<DnsRecord>>, tunnelHost: string, a: DnsAction)
    requires |targets| == |listings|
    ensures a in TargetActions(phase, targets, listings, tunnelHost) <==>
      exists k :: 0 <= k < |targets| && a in HostActions(phase, targets[k].zoneId, targets[k].host, listings[k], tunnelHost)
  {
    if a in TargetActions(phase, targets, listings, tunnelHost) {
      TargetActionsSound(phase, targets, listings, tunnelHost, a);
    }
    forall k | 0 <= k < |targets| && a in HostActions(phase, targets[k].zoneId, targets[k].host, listings[k], tunnelHost)
      ensures a in TargetActions(phase, targets, listings, tunnelHost)
    {
      TargetActionsComplete(phase, targets, listings, tunnelHost, a, k);
    }
  }

  lemma {:induction false} TargetActionsSound(phase: Phase, targets: seq<Target>,
                                              listings: seq<Response<DnsRecord>>, tunnelHost: string, a: DnsAction)
    requires |targets| == |listings|
    requires a in TargetActions(phase, targets, listings, tunnelHost)
    ensures exists k :: 0 <= k < |targets| && a in HostActions(phase, targets[k].zoneId, targets[k].host, listings[k], tunnelHost)
    decreases |targets|
  {
    var n := |targets| - 1;
    var init := TargetActions(phase, targets[..n], listings[..n], tunnelHost);
    assert TargetActions(phase, targets, listings, tunnelHost)
        == init + HostActions(phase, targets[n].zoneId, targets[n].host, listings[n], tunnelHost);
    if a in init {
      TargetActionsSound(phase, targets[..n], listings[..n], tunnelHost, a);
      var k :| 0 <= k < n && a in HostActions(phase, targets[..n][k].zoneId, targets[..n][k].host, listings[..n][k], tunnelHost);
      assert targets[..n][k] == targets[k] && listings[..n][k] == listings[k];
    }
  }

  lemma {:induction false} TargetActionsComplete(phase: Phase, targets: seq<Target>,
                                                 listings: seq<Response<DnsRecord>>, tunnelHost: string,
                                                 a: DnsAction, k: nat)
    requires |targets| == |listings| && k < |targets|
    requires a in HostActions(phase, targets[k].zoneId, targets[k].host, listings[k], tunnelHost)
    ensures a in TargetActions(phase, targets, listings, tunnelHost)
    decreases |targets|
  {
    var n := |targets| - 1;
    var init := TargetActions(phase, targets[..n], listings[..n], tunnelHost);
    assert TargetActions(phase, targets, listings, tunnelHost)
        == init + HostActions(phase, targets[n].zoneId, targets[n].host, listings[n], tunnelHost);
    if k < n {
      assert targets[..n][k] == targets[k] && listings[..n][k] == listings[k];
      TargetActionsComplete(phase, targets[..n], listings[..n], tunnelHost, a, k);
    }
  }

  /** Every mutation of a host lies in that host's zone and is of the kind its phase calls for. */
  lemma ActionOrigin(phase: Phase, buckets: seq<Bucket>, listings: seq<Response<DnsRecord>>,
                     tunnelHost: string, a: DnsAction)
    requires |Targets(buckets)| == |listings|
    requires a in TargetActions(phase, Targets(buckets), listings, tunnelHost)
    ensures a.zoneId in ZoneNames(buckets)
    ensures phase == Deleted ==> a.DeleteRecord?
    ensures phase != Deleted ==> !a.DeleteRecord? && (a.UpdateRecord? ==> a.content == tunnelHost)
  {
    var targets := Targets(buckets);
    TargetActionsMembers(phase, targets, listings, tunnelHost, a);
    var k :| 0 <= k < |targets| && a in HostActions(phase, targets[k].zoneId, targets[k].host, listings[k], tunnelHost);
    HostActionsRule(phase, targets[k].zoneId, targets[k].host, listings[k], tunnelHost);
    TargetsMembers(buckets, targets[k]);
    var b :| b in buckets && targets[k].zoneId == b.zone && targets[k].host in b.hosts;
    var i :| 0 <= i < |buckets| && buckets[i] == b;
    assert ZoneNames(buckets)[i] == b.zone;
  }

  /** Once a tunnel is found, a DNS listing that throws ends the event with no mutation and no rewrite. */
  lemma DnsLookupThrows(phase: Phase, ingress: Ingress, remote: Remote,
                        exposed: seq<string>, service: string, config: Config,
                        zoneResponses: seq<Response<Resource>>, tunnel: Resource, target: Target)
    requires ingress.tunnelName.Some? && ingress.rules.Some?
    requires Responses(ZoneCalls(IngressZones(ingress), remote)) == Some(zoneResponses)
    requires remote.tunnelLookup(ingress.tunnelName.value).Returned?
    requires FirstResult(remote.tunnelLookup(ingress.tunnelName.value).response) == Some(tunnel)
    requires target in Targets(ZoneIdBuckets(IngressZones(ingress), ValidZones(zoneResponses)))
    requires remote.dnsLookup(target).Threw?
    ensures PlanEvent(phase, ingress, remote, exposed, service, config) == Aborted([])
  {
    var targets := Targets(ZoneIdBuckets(IngressZones(ingress), ValidZones(zoneResponses)));
    var i :| 0 <= i < |targets| && targets[i] == target;
    assert DnsCalls(targets, remote)[i].Threw?;
  }

  /** With the zones resolved, a tunnel found and every DNS listing returned, the plan is the hosts' mutations. */
  lemma PlanUnfold(phase: Phase, ingress: Ingress, remote: Remote,
                   exposed: seq<string>, service: string, config: Config,
                   zoneResponses: seq<Response<Resource>>, tunnel: Resource,
                   listings: seq<Response<DnsRecord>>)
    requires ingress.tunnelName.Some? && ingress.rules.Some?
    requires Responses(ZoneCalls(IngressZones(ingress), remote)) == Some(zoneResponses)
    requires remote.tunnelLookup(ingress.tunnelName.value).Returned?
    requires FirstResult(remote.tunnelLookup(ingress.tunnelName.value).response) == Some(tunnel)
    requires Responses(DnsCalls(Targets(ZoneIdBuckets(IngressZones(ingress), ValidZones(zoneResponses))), remote)) == Some(listings)
    ensures |Targets(ZoneIdBuckets(IngressZones(ingress), ValidZones(zoneResponses)))| == |listings|
    ensures var actions := TargetActions(phase, Targets(ZoneIdBuckets(IngressZones(ingress), ValidZones(zoneResponses))),
                                         listings, TunnelHostName(tunnel.id));
      PlanEvent(phase, ingress, remote, exposed, service, config)
      == if exists i :: 0 <= i < |actions| && remote.writeThrew(actions[i]) then Aborted(actions)
         else Completed(actions, CfIngressMapping(service, exposed, config))
  {
    var buckets := ZoneIdBuckets(IngressZones(ingress), ValidZones(zoneResponses));
    assert ZoneIdMap(IngressZones(ingress), remote) == Some(buckets);
    assert PlanEvent(phase, ingress, remote, exposed, service, config)
        == Reconcile(phase, ingress.tunnelName.value, IngressZones(ingress), remote, exposed, service, config);
  }

  /**
   * With the zones resolved, a tunnel found and every DNS listing returned,
   * the plan issues, for every looked-up host, that host's mutations and
   * nothing else, all in zones the zone lookups returned and of the kind the
   * phase calls for; it completes iff none of the mutations fails.
   */
  lemma PlannedMutations(phase: Phase, ingress: Ingress, remote: Remote,
                         exposed: seq<string>, service: string, config: Config,
                         zoneResponses: seq<Response<Resource>>, tunnel: Resource,
                         listings: seq<Response<DnsRecord>>, a: DnsAction)
    requires ingress.tunnelName.Some? && ingress.rules.Some?
    requires Responses(ZoneCalls(IngressZones(ingress), remote)) == Some(zoneResponses)
    requires remote.tunnelLookup(ingress.tunnelName.value).Returned?
    requires FirstResult(remote.tunnelLookup(ingress.tunnelName.value).response) == Some(tunnel)
    requires Responses(DnsCalls(Targets(ZoneIdBuckets(IngressZones(ingress), ValidZones(zoneResponses))), remote)) == Some(listings)
    ensures var zones := IngressZones(ingress);
      var targets := Targets(ZoneIdBuckets(zones, ValidZones(zoneResponses)));
      var out := PlanEvent(phase, ingress, remote, exposed, service, config);
      && out != Skipped
      && (out.Completed? <==> forall b :: b in out.actions ==> !remote.writeThrew(b))
      && (a in out.actions <==>
            exists k :: 0 <= k < |targets| && a in HostActions(phase, targets[k].zoneId, targets[k].host, listings[k], TunnelHostName(tunnel.id)))
      && (a in out.actions ==> exists z :: z in ValidZones(zoneResponses) && z.id == a.zoneId && z.name in ZoneNames(zones))
      && (a in out.actions && phase == Deleted ==> a.DeleteRecord?)
      && (a in out.actions && phase != Deleted ==> !a.DeleteRecord? && (a.UpdateRecord? ==> a.content == TunnelHostName(tunnel.id)))
  {
    var zones := IngressZones(ingress);
    var valid := ValidZones(zoneResponses);
    var buckets := ZoneIdBuckets(zones, valid);
    var targets := Targets(buckets);
    var th := TunnelHostName(tunnel.id);
    PlanUnfold(phase, ingress, remote, exposed, service, config, zoneResponses, tunnel, listings);
    var actions := TargetActions(phase, targets, listings, th);
    var out := PlanEvent(phase, ingress, remote, exposed, service, config);
    assert out.actions == actions;
    TargetActionsMembers(phase, targets, listings, th, a);
    if a in actions {
      ActionOrigin(phase, buckets, listings, th, a);
      ZoneIdBucketsSound(zones, valid, a.zoneId);
      var z, i :| z in valid && z.id == a.zoneId && 0 <= i < |zones| && z.name == zones[i].zone;
      assert ZoneNames(zones)[i] == z.name;
    }
  }

  // ---------------------------------------------------------------------
  // Properties of the cache step

  /** A DELETED event keeps every cache key that is not one of the root-zone names. */
  lemma DeletedKeepsOtherKeys(t0: Table, t1: Table, ingress: Ingress)
    requires WellFormed(t0) && DeletedCache(t0, t1, ingress)
    ensures WellFormed(t1)
    ensures forall k :: k !in ZoneNames(IngressZones(ingress)) ==> Get(t1, k) == Get(t0, k)
    ensures forall k :: k in ZoneNames(IngressZones(ingress)) ==> Get(t1, k) == None
  {
    RemoveAllGet(t0, ZoneNames(IngressZones(ingress)));
  }

  /**
   * So a declared host below its root zone (two or more dots) survives the
   * DELETED event of its own Ingress, and stays exposed if it was.
   */
  lemma DeletedKeepsSubdomainHosts(t0: Table, t1: Table, ingress: Ingress, h: string, j: int, k: int)
    requires WellFormed(t0) && DeletedCache(t0, t1, ingress)
    requires 0 <= j < k < |h| && h[j] == '.' && h[k] == '.'
    ensures Get(t1, h) == Get(t0, h)
  {
    var zones := IngressZones(ingress);
    if h in ZoneNames(zones) {
      var i :| 0 <= i < |zones| && ZoneNames(zones)[i] == h;
      RootZoneGroupsSpec(Rules(ingress));
      var x := zones[i].hosts[0];
      BucketKeyIsRootZone(Rules(ingress), i, x);
      RootZoneOneDot(x);
    }
    DeletedKeepsOtherKeys(t0, t1, ingress);
  }

  /** On ADDED or MODIFIED every grouped host is present afterwards iff the Ingress did not own it before. */
  lemma ModifiedPresence(t0: Table, t1: Table, ingress: Ingress, k: string)
    requires ModifiedCache(t0, t1, ingress)
    requires k in GroupedHosts(IngressZones(ingress))
    ensures Get(t1, k).Some? <==> !OwnedBy(t0, ingress.name, k)
    ensures Get(t1, k).Some? ==> OwnedBy(t1, ingress.name, k)
  {
  }

  /**
   * Consequently two identical ADDED or MODIFIED events in a row flip every
   * grouped host: present after one of them exactly when absent after the other.
   */
  lemma ModifiedTwiceFlips(t0: Table, t1: Table, t2: Table, ingress: Ingress, k: string)
    requires ModifiedCache(t0, t1, ingress) && ModifiedCache(t1, t2, ingress)
    requires k in GroupedHosts(IngressZones(ingress))
    ensures Get(t2, k).Some? <==> Get(t1, k).None?
  {
    ModifiedPresence(t0, t1, ingress, k);
    ModifiedPresence(t1, t2, ingress, k);
  }

  /** On ADDED or MODIFIED a hostname that is neither owned by the Ingress nor declared by it keeps its entry. */
  lemma ModifiedFrame(t0: Table, t1: Table, ingress: Ingress, k: string)
    requires ModifiedCache(t0, t1, ingress)
    requires !OwnedBy(t0, ingress.name, k) && k !in GroupedHosts(IngressZones(ingress))
    ensures Get(t1, k) == Get(t0, k)
  {
  }

  /** The exposed hosts are exactly the hostnames of discoverable cache entries. */
  lemma ExposedHostsMembers(t: Table, k: string)
    requires WellFormed(t)
    ensures k in ExposedHosts(t) <==> k in t.entries && t.entries[k].discoverableByCf
  {
    DiscoverableMembers(t);
    if k in ExposedHosts(t) {
      var i :| 0 <= i < |Discoverable(t)| && ExposedHosts(t)[i] == k;
      assert Discoverable(t)[i] in Discoverable(t);
    }
    if k in t.entries && t.entries[k].discoverableByCf {
      HostnameListed(Discoverable(t), t.entries[k]);
    }
  }
}
