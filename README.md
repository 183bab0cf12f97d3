# k8s-cloudflare-tunnel-provisioner, modelled in Dafny

The provisioner watches Kubernetes Ingress objects. For every ADDED, MODIFIED or DELETED event it does four things:

- It updates an in-memory cache of hostnames (`ingressMap`).
- It groups the Ingress's hosts by DNS root zone.
- It resolves those zones and the named Cloudflare tunnel, then creates, updates or deletes CNAME records so that the hosts point at `<tunnel id>.cfargotunnel.com`.
- It rewrites the cloudflared config so the tunnel routes every discoverable cached host, and restarts the tunnel daemon.

This project models that reconciliation core and proves properties of it:

| file | module | models |
|---|---|---|
| `list_diff.dfy` | `ListDiff` | `diffList`, the three-way list diff |
| `ingress_cache.dfy` | `IngressCache` | the `Map` cache: a class `Cache` whose methods mutate it step by step, specified by pure functions on a `Table` |
| `root_zone.dfy` | `Zones` | the root-zone regular expression |
| `zone_groups.dfy` | `ZoneGroups` | `rootZoneGroups` |
| `cloudflare.dfy` | `Cloudflare` | the API envelope, call outcomes, the tunnel hostname |
| `tunnel_config.dfy` | `TunnelConfig` | the cloudflared config and `cfIngressMapping` |
| `dns_plan.dfy` | `DnsPlan` | the zone-id reduce, the per-host DNS rule, and a model of what the DNS mutations do |
| `handler.dfy` | `Handler` | the handler: the cache step as methods, everything after it as the pure plan `PlanEvent` |

`wrappers.dfy` (`Option`) and `seqs.dfy` (`Filter`, subsequences) are helpers.

### How the model represents the system

**Equality of cache entries.** A cache entry (`HostInformation`) is a class, so `==` on entries is reference identity. This matches `includes`/`indexOf` on JavaScript objects, which compare by identity. `DiffList` itself is generic over the element type's own equality.

**Remote calls.** Every remote call is an input (`Remote`):
- Each call either throws or returns a `Response`.
- A throw rejects the awaited `Promise.all`, which ends the event.
- A failed DNS mutation also ends the event, but only after every planned mutation has been issued.

**Outcomes.** `Outcome.Completed` means the ConfigMap was rewritten and the DaemonSet was restarted.

### Where the code behaves in a way one might not expect

The model follows the code in each case.

- **Zone order.** fp-ts's `toEntries` (`src/index.ts:139`) lists a record's keys in ascending string order. So the zone groups, and every list derived from them, are sorted by zone name, not ordered by first occurrence. `RootZoneGroups` builds that sorted list.

- **DELETED removes the wrong keys.** On DELETED the handler removes the cache keys that equal the root-zone names, not the hostnames (`src/index.ts:164`). A host with two or more dots therefore stays in the cache and stays routed after its Ingress is deleted (`Handler.DeletedKeepsSubdomainHosts`).

- **MODIFIED deletes kept hostnames.** `diffList` compares by reference, and the handler allocates fresh entries on every event. As a result:
  - `same` is always empty, and `removed` is everything the Ingress owned.
  - The removals run after the puts, so a hostname the Ingress keeps is deleted from the cache (`IngressCache.OverrideFresh`).
  - Two identical MODIFIED events flip each host between present and absent (`Handler.ModifiedTwiceFlips`).

  Under value equality an override would leave the Ingress owning exactly the hostnames of the new list. That law does hold when the new list reuses the cached objects (`IngressCache.OverrideReusingCached`).

- **The cache iterates in insertion order.** `getAllIngressCache` lists the `Map` in key-insertion order, and a `set` on an existing key keeps that key's position (`IngressCache.PutEntryOrder`).

## Model

| member | source | states |
|---|---|---|
| IngressCache.Get | src/ingressCache.ts:27-29 | getIngressCache: the map lookup (no contract of its own; PutEntryGet, RemoveEntryGet and OverrideGet state what it returns after each operation) |
| IngressCache.AllEntries | src/ingressCache.ts:36-38 | getAllIngressCache (no contract of its own; AllEntriesAt and AllEntriesValues state its order and contents) |
| IngressCache.Discoverable | src/ingressCache.ts:40-42 | getAllDiscoverableHosts (no contract of its own; DiscoverableIsFilter and DiscoverableMembers state it) |
| IngressCache.PutEntry | src/ingressCache.ts:22-25 | putIngressCache on the value state (no contract of its own; PutEntryGet and PutEntryOrder state it) |
| IngressCache.RemoveEntry | src/ingressCache.ts:31-34 | removeIngressCache on the value state (no contract of its own; RemoveEntryGet, RemoveAbsent and RemoveEntryOrder state it) |
| IngressCache.PutAll | src/ingressCache.ts:56 | the run of puts (no contract of its own; PutAllGet states it) |
| IngressCache.RemoveAll | src/ingressCache.ts:57 | the run of removes (no contract of its own; RemoveAllGet states it) |
| IngressCache.Override | src/ingressCache.ts:44-58 | overrideIngresCacheList on the value state (no contract of its own; OverrideGet, OverrideFrame, OverrideFresh and OverrideReusingCached state it) |
| Zones.RootZone | src/index.ts:134 | the regex match (no contract of its own; RootZoneIsLeftmostMatch and RootZoneOneDot state it) |
| ZoneGroups.RootZoneGroups | src/index.ts:127-145 | rootZoneGroups (no contract of its own; RootZoneGroupsSpec, BucketKeyIsRootZone and ExactlyOneBucket state it) |
| TunnelConfig.CfIngressMapping | src/index.ts:82-97 | cfIngressMapping (no contract of its own; CfIngressMappingShape, CfIngressMappingRoutes and CfIngressMappingIdempotent state it) |
| Cloudflare.TunnelHostName | src/index.ts:216 | the tunnel hostname (no contract of its own; TunnelHostNameRoundTrip and TunnelHostNameInjective state it) |
| DnsPlan.ZoneIdBuckets | src/index.ts:195-201 | the zone-id reduce (no contract of its own; ZoneIdBucketsSpec and ZoneIdBucketsSound state it) |
| DnsPlan.HostActions | src/index.ts:238-288 | the per-host CNAME rule (no contract of its own; HostActionsRule and the effect lemmas below state it) |
| Handler.Reconcile | src/index.ts:181-305 | everything after the gate (no contract of its own; LookupThrows, DnsLookupThrows, RewriteWithoutTunnel, CompletedConfig and PlannedMutations state it) |
| Handler.PlanEvent | src/index.ts:179-305 | the gate, then Reconcile (no contract of its own; GateClosed and the lemmas named for Reconcile state it) |
| Handler.ExposedHosts | src/index.ts:300 | the hostnames handed to cfIngressMapping (no contract of its own; ExposedHostsMembers states it) |
| ListDiff.DiffList | src/ingressCache.ts:16-20 | `added` holds exactly the elements of the new list not in the original, `removed` exactly the elements of the original not in the new list, `same` exactly the original's elements also in the new one; nothing in `added` is in `removed` or `same` |
| ListDiff.DiffListCovers | src/ingressCache.ts:16-20 | as sets, `removed` ∪ `same` is the original list, `added` ∪ `same` is the new list, and `added` ∩ `removed` is empty |
| ListDiff.DiffListOrder | src/ingressCache.ts:17-19 | each part is a subsequence of the list it filters, in that list's order, and keeps every occurrence of what it selects |
| ListDiff.DiffListNothingShared | src/ingressCache.ts:17-19 | when no new element equals an original one, `added` is the new list, `removed` the original list and `same` empty |
| ListDiff.DiffListExample | src/ingressCache.ts:16-20 | by value, diffing `["a","b"]` against `["b","c"]` gives added `["c"]`, removed `["a"]`, same `["b"]` |
| IngressCache.HostInformation.constructor | src/ingressCache.ts:1-6 | an entry carries the namespace, hostname, discoverability flag and owning Ingress it is built with |
| IngressCache.AllEntriesAt | src/ingressCache.ts:36-38 | getAllIngressCache lists one value per key, in key-insertion order |
| IngressCache.AllEntriesValues | src/ingressCache.ts:36-38 | getAllIngressCache holds exactly the stored values, each stored under its own hostname |
| IngressCache.DiscoverableIsFilter | src/ingressCache.ts:40-42 | getAllDiscoverableHosts is a subsequence of getAllIngressCache, holding every discoverable entry as often as it occurs there and no other entry |
| IngressCache.DiscoverableMembers | src/ingressCache.ts:40-42 | an entry is listed by getAllDiscoverableHosts iff it is in the cache and discoverable |
| IngressCache.OwnedEntries | src/ingressCache.ts:49-51 | the entries overrideIngresCacheList diffs against are exactly the cached entries whose owner is the given Ingress |
| IngressCache.OwnedHostnames | src/ingressCache.ts:49-51 | the hostnames of those entries are exactly the keys the Ingress owns |
| IngressCache.PutEntryGet | src/ingressCache.ts:22-29 | after a put the cache stays well formed, the hostname maps to the new entry, every other key is unchanged: one entry per hostname, last writer wins |
| IngressCache.PutEntryOrder | src/ingressCache.ts:22-25 | a put on an existing hostname replaces its value in place in the iteration order; a new hostname is appended last |
| IngressCache.RemoveEntryGet | src/ingressCache.ts:31-34 | after a remove the hostname is absent, every other key is unchanged, and removing an absent key changes nothing |
| IngressCache.RemoveAbsent | src/ingressCache.ts:31-34 | removing a key that is not in the cache leaves the cache exactly as it was |
| IngressCache.RemoveEntryOrder | src/ingressCache.ts:31-34 | a remove keeps the iteration order of the remaining entries |
| IngressCache.LastWithHost | src/ingressCache.ts:56 | the entry a run of puts leaves for a hostname has that hostname and no later entry of the run has it (the last writer); there is one iff the hostname occurs in the run |
| IngressCache.PutAllGet | src/ingressCache.ts:56 | after a run of puts every hostname maps to the last entry put for it, and every other key is unchanged |
| IngressCache.RemoveAllGet | src/ingressCache.ts:57 | after a run of removes exactly the removed hostnames are absent and every other key is unchanged |
| IngressCache.OverrideGet | src/ingressCache.ts:44-58 | after overrideIngresCacheList, a hostname of a `removed` entry is absent, else it maps to the last put entry for it, else nothing changed |
| IngressCache.OverridePutThenRemove | src/ingressCache.ts:56-57 | a hostname that is both put and named by `removed` ends up absent, because the removals run after the puts |
| IngressCache.PutsComeFrom | src/ingressCache.ts:53-56 | every entry overrideIngresCacheList puts comes from the new list |
| IngressCache.OverrideFrame | src/ingressCache.ts:44-58 | a hostname that is neither in the new list nor owned by the Ingress keeps its entry |
| IngressCache.OverrideFresh | src/ingressCache.ts:53-57 | with entries not already in the cache (fresh objects), every hostname the Ingress owned is absent afterwards, also those still in the new list; the others get their last new entry or keep theirs |
| IngressCache.OverrideFreshUnfold | src/ingressCache.ts:53-57 | with fresh entries, the override is "put the whole new list, then remove every hostname the Ingress owned" |
| IngressCache.OverrideFreshTwice | src/ingressCache.ts:44-58 | two overrides in a row with fresh entries for the same hostnames: the first makes the Ingress own them, the second deletes every one of them |
| IngressCache.ReusedNotRemoved | src/ingressCache.ts:53-57 | when the new list reuses the cached objects of the hostnames the Ingress owns, no hostname of the new list is in `removed` |
| IngressCache.OverrideReusingCached | src/ingressCache.ts:44-58 | under that reuse, the Ingress afterwards owns exactly the hostnames of the new list |
| IngressCache.Cache.constructor | src/ingressCache.ts:8 | the cache starts empty and well formed |
| IngressCache.Cache.Put | src/ingressCache.ts:22-25 | putIngressCache: the new state is the one-entry put of the old state |
| IngressCache.Cache.Remove | src/ingressCache.ts:31-34 | removeIngressCache: the new state is the old state without that key |
| IngressCache.Cache.OverrideList | src/ingressCache.ts:44-58 | overrideIngresCacheList: the new state is the override of the old one (owned entries diffed, `added ++ same` put, then `removed` hostnames deleted) |
| IngressCache.Cache.PutEach | src/ingressCache.ts:56 | the loop of puts leaves the state the run of puts describes |
| IngressCache.Cache.RemoveEach | src/ingressCache.ts:57 | the loop of removes leaves the state the run of removes describes |
| Zones.RootZoneIsLeftmostMatch | src/index.ts:134 | the extracted root zone is a suffix of the host of the shape label `.` label over `[A-z0-9]`, and no longer suffix has that shape (the regex's first match); undefined iff no suffix has that shape |
| Zones.RootZoneOneDot | src/index.ts:134 | a root zone contains a single '.' |
| ZoneGroups.RootZoneGroupsSpec | src/index.ts:127-145 | the groups are in ascending zone order, none is empty, and the group of every zone holds exactly the declared hosts with that root zone, in rule order |
| ZoneGroups.BucketKeyIsRootZone | src/index.ts:134-138 | every host of a group is declared by a rule and has the group's key as its root zone |
| ZoneGroups.ExactlyOneBucket | src/index.ts:132-138 | a host is grouped iff some rule declares it and it has a root zone, and then it is in exactly one group |
| ZoneGroups.AddHostSorted | src/index.ts:138-139 | adding a host to a sorted grouping keeps it sorted |
| ZoneGroups.AddHostBuckets | src/index.ts:138 | adding a host appends it to its zone's group and leaves every other group alone |
| ZoneGroups.AddHostZones | src/index.ts:138 | adding a host creates at most its own zone's group and empties no group |
| ZoneGroups.GroupedHostsMembers | src/index.ts:167 | flattening the groups lists exactly the hosts of the groups |
| Cloudflare.FirstResult | src/index.ts:187 | `result[0]` is defined iff the response is a success with a non-empty result, and then it is the first result |
| Cloudflare.Responses | src/index.ts:182-190 | a batch of calls awaited together yields all responses, in order, iff none of the calls threw |
| Cloudflare.TunnelHostNameRoundTrip | src/index.ts:216 | the tunnel hostname is the id followed by `.cfargotunnel.com`: reading the id back gives the id, and a hostname that reads back as an id is that id's tunnel hostname |
| Cloudflare.TunnelHostNameInjective | src/index.ts:216 | distinct tunnel ids give distinct tunnel hostnames |
| TunnelConfig.CfIngressMappingShape | src/index.ts:82-97 | the rebuilt ingress has one entry per host plus one; entry i has hostname and Host header `hosts[i]`, the given service, no path, TLS verification off; the last is the bare `http_status:404` rule; all other config fields are copied |
| TunnelConfig.CfIngressMappingRoutes | src/index.ts:82-97 | the rebuilt config routes exactly the given hosts, in order, and none of the old ingress list |
| TunnelConfig.CfIngressMappingIdempotent | src/index.ts:82-97 | rebuilding twice with the same hosts gives the same config as rebuilding once |
| DnsPlan.Resolved | src/index.ts:181-193 | the positions of the zone lookups that yielded a zone, strictly ascending, each such position exactly once |
| DnsPlan.ValidZones | src/index.ts:181-193 | the valid zones are exactly the first results of the successful zone lookups (their order is stated by ValidZonesOrder) |
| DnsPlan.ValidZonesOrder | src/index.ts:181-193 | the valid zones keep lookup order: there is one per resolved lookup, and the k-th is the answer of the k-th lookup that yielded a zone |
| DnsPlan.FindZone | src/index.ts:198 | the zone found for a name is the first valid zone with that name (no earlier one has it); none is found iff no valid zone has the name |
| DnsPlan.EarliestZoneWins | src/index.ts:181-198 | the zone a name resolves to is the answer of a zone lookup such that no earlier lookup answered with a zone of that name |
| DnsPlan.LastGroupFor | src/index.ts:195-201 | the reference reading of the zone-id map has an entry for an id iff some group's zone resolves to a zone with that id |
| DnsPlan.SetKeyNames | src/index.ts:200 | the spread `{...acc, [id]: hosts}` keeps keys distinct and adds exactly the key `id` |
| DnsPlan.SetKeyLookup | src/index.ts:200 | after the spread, `id` maps to the new hosts and every other key is unchanged |
| DnsPlan.ZoneIdBucketsSpec | src/index.ts:195-201 | the zone-id map has distinct keys: a key for exactly each id of a zone that resolved for some group, holding the hosts of the last such group |
| DnsPlan.ZoneIdBucketsSound | src/index.ts:181-201 | every key of the zone-id map is the id of a valid zone named after one of the groups |
| DnsPlan.TargetsMembers | src/index.ts:220-236 | one DNS lookup is made for every host of every zone id, and no other |
| DnsPlan.CnameIdsEmpty | src/index.ts:273-277 | a listing yields no CNAME id iff it holds no record of type CNAME |
| DnsPlan.HostActionsRule | src/index.ts:238-288 | a failed listing issues nothing; DELETED issues one delete per CNAME and nothing else; otherwise the i-th action updates the i-th CNAME to the tunnel hostname, one update per CNAME, plus exactly one create (a proxied CNAME with TTL 300) iff no CNAME exists |
| DnsPlan.ApplyDeletes | src/index.ts:124-125 | after the deletes exactly the records whose ids were not deleted remain |
| DnsPlan.ApplyUpdates | src/index.ts:119-122 | after the updates each record with an updated id has the new content, and every other record is unchanged |
| DnsPlan.CnameIdsOfListing | src/index.ts:245-246 | with unique record ids, a record's id is among the listed CNAME ids iff the record is a CNAME |
| DnsPlan.DeletedRemovesCnames | src/index.ts:238-253 | after a DELETED pass the host has exactly its non-CNAME records |
| DnsPlan.DeletedTwiceIsQuiet | src/index.ts:238-253 | a second DELETED pass issues no mutation |
| DnsPlan.ListingHasCname | src/index.ts:273-277 | a host's listing holds a CNAME iff its records do |
| DnsPlan.UpsertCreate | src/index.ts:110-117 | creating the CNAME for a host without one leaves it with exactly one CNAME, pointing at the tunnel, and the other records unchanged |
| DnsPlan.UpsertUpdates | src/index.ts:260-271 | updating every CNAME points all of them at the tunnel and leaves the other records unchanged |
| DnsPlan.UpsertPointsAtTunnel | src/index.ts:254-288 | after an ADDED or MODIFIED pass the host has at least one CNAME, every CNAME points at the tunnel, the other records are untouched, and ids stay unique |
| DnsPlan.UpdatesFixpoint | src/index.ts:260-271 | updating CNAMEs that already point at the tunnel changes nothing |
| DnsPlan.UpsertIdempotent | src/index.ts:254-288 | a second ADDED or MODIFIED pass issues only updates and leaves the records exactly as they are |
| Handler.BuildEntries | src/index.ts:166-174 | one fresh entry per grouped host, in order, with the Ingress's namespace and name and discoverable iff the tunnel annotation is set |
| Handler.CacheStep | src/index.ts:159-177 | DELETED removes the keys equal to the root-zone names; otherwise the owned hostnames are gone, every other grouped host gets a fresh entry and all other keys are unchanged |
| Handler.Handle | src/index.ts:147-333 | the handler: that cache step, then the plan computed from the hostnames the cache then exposes |
| Handler.GateClosed | src/index.ts:179 | nothing follows the cache step iff the tunnel annotation or the rules are missing |
| Handler.LookupThrows | src/index.ts:181-209 | a zone or tunnel lookup that throws ends the event with no mutation, no rewrite and no restart |
| Handler.DnsLookupThrows | src/index.ts:220-236 | once a tunnel is found, a DNS listing that throws ends the event with no mutation, no rewrite and no restart |
| Handler.RewriteWithoutTunnel | src/index.ts:209-305 | a tunnel lookup that answers without a tunnel issues no DNS mutation, but the config is still rewritten and the daemon restarted |
| Handler.CompletedConfig | src/index.ts:291-305 | a completed event writes the config that routes exactly the exposed hosts, in order, with the 404 catch-all last |
| Handler.TargetActionsMembers | src/index.ts:220-288 | the mutations issued are exactly those of the looked-up hosts |
| Handler.ActionOrigin | src/index.ts:220-288 | every mutation targets a zone id of the zone-id map; DELETED issues only deletes; otherwise there are no deletes and every update points at the tunnel |
| Handler.PlannedMutations | src/index.ts:179-305 | in that case the event is not skipped, completes iff no mutation fails, and issues exactly the looked-up hosts' mutations, each in a zone a zone lookup returned and of the kind the phase calls for |
| Handler.DeletedKeepsOtherKeys | src/index.ts:163-164 | DELETED keeps every key that is not a root-zone name and removes those that are |
| Handler.DeletedKeepsSubdomainHosts | src/index.ts:159-164 | a hostname with two or more dots is never removed by a DELETED event |
| Handler.ModifiedPresence | src/index.ts:165-176 | after ADDED or MODIFIED a grouped host is present iff the Ingress did not own it before, and then the Ingress owns it |
| Handler.ModifiedTwiceFlips | src/index.ts:165-176 | two identical ADDED/MODIFIED events flip every grouped host between present and absent |
| Handler.ModifiedFrame | src/index.ts:165-176 | a hostname neither owned nor declared by the Ingress keeps its entry |
| Handler.ExposedHostsMembers | src/index.ts:300 | the exposed hostnames are exactly those of discoverable cache entries |

## Left out

- The HTTP client (`axios`), its base URL, token header and request paths are not modelled. The zone, tunnel and DNS lookups are inputs (`Remote`), and the create, update and delete calls are emitted `DnsAction` values.
- A remote answer is a function of its request, so two identical lookups in one event get the same answer.
- The Kubernetes client, `getConfigMap`, `updateConfigMap`, the DaemonSet patch and the watch subscription with `errorFn` are cluster I/O. `Outcome.Completed` stands for "rewritten and restarted"; a failure of those cluster calls is not modelled.
- YAML loading and dumping (`js-yaml`) is a foreign library, so the config is a record with the six documented fields.
- Config keys beyond those six fields, which `...config` copies unchanged, are not represented.
- Only `httpHostHeader` and `noTLSVerify` of `originRequest` are represented.
- The concurrency of `Promise.all` is not modelled. Mutations form one sequence, group by group and host by host. In the source they run concurrently, and a rejected mutation ends the event after all of them were started.
- JavaScript objects list integer-like keys before the others. `ZoneIdBuckets` keeps plain insertion order, which differs only for an all-digit zone id.
- `StrLt` compares characters, not UTF-16 code units. Root zones are ASCII, so the order agrees.
- Environment validation (`envalid`), logging, the restart timestamp and the SIGTERM handler have no effect on the modelled state.
- `ingress.metadata!.name!` and `namespace!` are taken as present. The `!` assertions are erased at run time: only a missing `metadata` throws, while a missing `name` or `namespace` becomes `undefined` and `overrideIngresCacheList` then runs with `undefined` as the owner (`src/index.ts:166-175`). Neither case is modelled.
- Events are handled one at a time: the model finishes each event before the next begins. In the source `handler` is asynchronous and nothing serialises its calls, so two events can interleave at any `await`, and `getAllDiscoverableHosts` (`src/index.ts:300`) is read after several of them.
