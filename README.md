# Routing simulator core in Dafny

A model of three sequential pieces of a discrete-event simulator of BGP-family
routing protocols (BGP, SS-BGP, ISS-BGP), with proofs about each:

- **The per-node routing table** (`core.routing.RoutingTable`, module `Routing`,
  file `routing_table.dfy`): a map from out-neighbor to a candidate route and an
  enabled flag, where a neighbor without an entry reads as the table's invalid
  route and as enabled. The class `Routing.RoutingTable` keeps the entries in a
  `map` field that its methods reassign. The functions `WithRoute`, `WithFlag`
  and `FromEntries` give the meaning of `set`, `setEnabled` and the factory `of`
  on that map, and the class methods are proved against them.
- **The SS-BGP reaction to a detected routing loop** (`bgp2/SSBGP.kt`, module
  `SSBGP`, file `ssbgp.dfy`). A route learned from a disabled neighbor is
  ignored. Otherwise the candidate via the sender is forced invalid, and the
  selection left over is the alternative route. The sender is disabled and a
  `DetectNotification` is published exactly when the recurrence test holds. The
  subclasses `SSBGP` (weak condition) and `ISSBGP` (strong condition) become a
  tag, `Detection`, on one class `BaseSSBGP`.
- **The topology builder's id registry** (`bgp/BGPTopologyBuilder.kt`, module
  `TopologyBuilder`, file `topology_builder.dfy`). `addNode` inserts into an
  insertion-ordered set and reports whether the id was new. `build` makes one
  node per registered id.

The SS-BGP code relies on collaborators that are not part of this model. They
are stated as assumptions:

- **BGP routes** (`bgp_route.dfy`, module `BGPRoutes`): a route is
  `Route(localPref, asPath)` or one of the sentinels `Invalid` and `Self`.
  A LOCAL-PREF is a 32-bit `Int`. `Invalid` carries the least value and `Self`
  the greatest, so no route is below `Invalid` or above `Self`. Both sentinels
  have the empty AS-path.
- **`Path.subPathBefore(node)`**: taken to be the prefix of the AS-path before
  the first occurrence of `node`, or the whole path when `node` does not occur.
- **The selecting routing table** of `core.routing2` (`route_selector.dfy`,
  module `Selection`). It stores entries by the same rules as `core.routing`:
  `update` stores a route, and `enable`/`disable` change the flag of an existing
  entry only. It caches a selection: a usable (enabled, not invalid) candidate
  with the greatest LOCAL-PREF, or the invalid route and no neighbor when
  nothing is usable. Its `Boolean` results report whether the selected route or
  neighbor changed.
- **The notifier**: `SSBGP.BGPNotifier` records published detections in an
  append-only ghost log.

Where the comments and the code disagree, the model follows the code. The doc
comment of `set` (core/routing/RoutingTable.kt:62-63) says an unknown neighbor
leaves the table unmodified. The code (core/routing/RoutingTable.kt:69-70)
inserts a new enabled entry. `Routing.RoutingTable.Set` inserts, and its
contract says the size grows by one in exactly that case.

## Model

| member | source | states |
|---|---|---|
| `Routing.RoutingTable.Init` | src/main/kotlin/core/routing/RoutingTable.kt:14-15 | the table holds exactly the given invalid route and entries |
| `Routing.RoutingTable.Size` | src/main/kotlin/core/routing/RoutingTable.kt:20 | the size is zero exactly when the table has no entry |
| `Routing.RoutingTable.Get` | src/main/kotlin/core/routing/RoutingTable.kt:57-59 | a neighbor with an entry reads as its stored route; one without reads as the invalid route |
| `Routing.RoutingTable.IsEnabled` | src/main/kotlin/core/routing/RoutingTable.kt:100-102 | a neighbor without an entry is enabled; one with an entry is enabled iff its flag is set |
| `Routing.RoutingTable.Set` | src/main/kotlin/core/routing/RoutingTable.kt:65-75 | afterwards `get(n)` is the new route; `n` keeps its enabled flag (a new entry is enabled); every other neighbor's route and flag are unchanged; the size grows by one exactly when `n` had no entry |
| `Routing.RoutingTable.SetEnabled` | src/main/kotlin/core/routing/RoutingTable.kt:84-94 | returns the route via `n` (the invalid route when `n` has no entry); an absent neighbor changes nothing; a present one gets the new flag; no route and no other flag changes |
| `Routing.RoutingTable.Clear` | src/main/kotlin/core/routing/RoutingTable.kt:77-82 | the table is empty; every neighbor reads as the invalid route and as enabled; the invalid route is a constant fixed at construction |
| `Routing.RoutingTable.Empty` | src/main/kotlin/core/routing/RoutingTable.kt:34-37 | a fresh table with no entries and the given invalid route |
| `Routing.RoutingTable.Of` | src/main/kotlin/core/routing/RoutingTable.kt:39-50 | the loop fills the map entry by entry, in order; the table holds `FromEntries(entries)` with the given invalid route |
| `Routing.WithRoute` | src/main/kotlin/core/routing/RoutingTable.kt:65-75 | the neighbors are the old ones plus `n`; `n` carries the new route and keeps its flag, or is enabled when new; other entries are untouched |
| `Routing.WithFlag` | src/main/kotlin/core/routing/RoutingTable.kt:89-94 | no neighbor is added or removed; only an existing entry of `n` changes, and only its flag |
| `Routing.GetAfterSet` | src/main/kotlin/core/routing/RoutingTable.kt:57-75 | reading after a store gives the stored route for `n`; every other neighbor's route and flag read as before |
| `Routing.SetSize` | src/main/kotlin/core/routing/RoutingTable.kt:20-25 | a store leaves the size unchanged on an existing entry and adds exactly one otherwise |
| `Routing.SetEnabledReads` | src/main/kotlin/core/routing/RoutingTable.kt:89-102 | setting a flag changes no route; `isEnabled(n)` becomes the new flag when `n` has an entry and stays true otherwise; other neighbors' flags are unchanged |
| `Routing.FromEntriesKeys` | src/main/kotlin/core/routing/RoutingTable.kt:42-50 | a table made by `of` has an entry for a neighbor iff that neighbor is listed |
| `Routing.FromEntriesLast` | src/main/kotlin/core/routing/RoutingTable.kt:44-47 | the last listed entry for a neighbor decides its route and flag, so a later duplicate overwrites an earlier one |
| `BGPRoutes.SubPathBefore` | src/main/kotlin/bgp2/SSBGP.kt:98 | the sub-path is a prefix of the AS-path without the node; when the node occurs, the node follows the prefix directly; otherwise the sub-path is the whole path |
| `Selection.Select` | src/main/kotlin/bgp2/SSBGP.kt:32-35 | the scan of the entries yields a selection: a usable candidate that no usable candidate beats, or invalid with no neighbor when nothing is usable |
| `Selection.SelectionIsBest` | src/main/kotlin/bgp2/SSBGP.kt:35 | the selected route is a best route of the table |
| `Selection.RouteSelector.GetSelectedRoute` | src/main/kotlin/bgp2/SSBGP.kt:35 | the route read as the alternative is a best route of the current entries |
| `Selection.RouteSelector.constructor` | src/main/kotlin/bgp2/SSBGP.kt:81 | the default selecting table starts with no entry, and its selection is the invalid route with no neighbor |
| `Selection.RouteSelector.IsEnabled` | src/main/kotlin/bgp2/SSBGP.kt:24 | a neighbor without an entry is enabled; one with an entry is enabled iff its flag is set |
| `Selection.RouteSelector.Enable` | src/main/kotlin/bgp2/SSBGP.kt:56 | sets the flag of an existing entry of the neighbor, leaves every other entry as it was, reselects, and reports whether the selection changed |
| `Selection.RouteSelector.Disable` | src/main/kotlin/bgp2/SSBGP.kt:68 | clears the flag of an existing entry of the neighbor, leaves every other entry as it was, reselects, and reports whether the selection changed |
| `Selection.RouteSelector.Update` | src/main/kotlin/bgp2/SSBGP.kt:32 | stores the route for the neighbor by the rules of `set`, reselects, and reports whether the selection changed |
| `SSBGP.WeakCondition` | src/main/kotlin/bgp2/SSBGP.kt:84-86 | a loop judged recurrent by the weak condition was never learned as the invalid route, never compares against the self route, and differs from its alternative |
| `SSBGP.BaseSSBGP.IsRecurrent` | src/main/kotlin/bgp2/SSBGP.kt:46 | every detection condition implies the weak one; SS-BGP's is exactly the weak one; ISS-BGP's also requires the alternative's AS-path to be the learned AS-path before the node |
| `SSBGP.WeakConditionMeaning` | src/main/kotlin/bgp2/SSBGP.kt:84-86 | with the sender's candidate forced invalid and the alternative a best remaining route, the weak condition holds iff the looping route beats every usable candidate via another neighbor (and beats the invalid route when none is left) |
| `SSBGP.StrongCondition` | src/main/kotlin/bgp2/SSBGP.kt:96-99 | the strong condition implies the weak one; the alternative's AS-path is then a prefix of the learned AS-path that avoids the node and stops right before it |
| `SSBGP.AlternativeAvoidsSender` | src/main/kotlin/bgp2/SSBGP.kt:28-35 | once the sender's candidate is invalid, the alternative is invalid or the usable candidate of another neighbor |
| `SSBGP.BaseSSBGP.constructor` | src/main/kotlin/bgp2/SSBGP.kt:13 | a protocol built over the given selecting table and notifier, with the detection condition of the subclass (`SSBGP` at SSBGP.kt:81-82 gives the weak one, `ISSBGP` at SSBGP.kt:93-94 the strong one); `wasSelectedRouteUpdated` starts false, an assumed starting value because the flag belongs to `BaseBGP`, whose source is not part of this model |
| `SSBGP.BaseSSBGP.OnLoopDetected` | src/main/kotlin/bgp2/SSBGP.kt:21-40 | a disabled sender changes nothing and publishes nothing; otherwise the sender's candidate becomes invalid, the alternative is the selector's selection (route and neighbor) of that table read right after the write, and the selection stays there when the loop is not recurrent; the sender ends disabled and exactly one detection is logged iff `isRecurrent` holds; the flag `wasSelectedRouteUpdated` never goes from true to false, and for an enabled sender it is exactly its old value or'ed with "the write changed the selection" and "disabling the sender changed it"; no disabled neighbor is re-enabled |
| `SSBGP.BaseSSBGP.EnableNeighbor` | src/main/kotlin/bgp2/SSBGP.kt:48-58 | the neighbor ends enabled; `wasSelectedRouteUpdated` becomes its old value or'ed with "the selection changed" |
| `SSBGP.BaseSSBGP.DisableNeighbor` | src/main/kotlin/bgp2/SSBGP.kt:60-70 | a neighbor with an entry ends disabled; `wasSelectedRouteUpdated` becomes its old value or'ed with "the selection changed" |
| `SSBGP.BGPNotifier.NotifyDetect` | src/main/kotlin/bgp2/SSBGP.kt:38 | publishing appends exactly that notification to the log |
| `TopologyBuilder.BGPTopologyBuilder.constructor` | src/main/kotlin/bgp/BGPTopologyBuilder.kt:12 | a new builder has an empty id registry |
| `TopologyBuilder.BGPTopologyBuilder.AddNode` | src/main/kotlin/bgp/BGPTopologyBuilder.kt:14-21 | returns true iff the id was not registered; afterwards the id is registered and no other id is added or removed; a second call returns false and changes nothing |
| `TopologyBuilder.BGPTopologyBuilder.Build` | src/main/kotlin/bgp/BGPTopologyBuilder.kt:23-29 | one node per registered id, in registration order, no repeated id, no extra id; the registry is only read, so repeated builds see the same ids |

## Left out

- `RoutingTable.forEach` and `toString`: internal iteration and printing; the map field is the whole state they expose.
- In-place mutation of `EntryData` objects: modelled as replacing the map's value for that neighbor. The objects never leave the table, so no alias can observe the difference.
- `Routing.RoutingTable` is generic over `N(==)` and `R`; the Kotlin bounds `N: Node` and `R: Route` play no part in the table's behaviour.
- `SSBGP.BaseSSBGP.DisableNeighbor`: the neighbor is proved disabled only when it has an entry. The selecting table's source is not part of this model, and it is given `setEnabled`'s rule that an absent neighbor is left as it is. In `OnLoopDetected` the sender always has an entry by then, so the sender is always disabled there.
- The selector's tie-break (keeping the previously selected neighbor when routes are equal) and any ordering beyond LOCAL-PREF: that source is not part of this model. Ties are broken by scan order, and the contracts only say that the selection is a best route.
- `BaseBGP` (route reception, extension by export policies, loop detection, export with MRAI timing, `reset`), the event engine, delay generators and seeds: their source is not part of this model. `BaseSSBGP.reset` only calls `BaseBGP.reset`.
- `BGPNotifier` delivery to subscribers and `ExportNotification`: publication is a ghost log of detections. Export notifications are never produced by the modelled code.
- `RepetitionRunner` and the test DSL (including its `addLink`, which the builder does not have): orchestration, file loading, timing and printing. Links are not modelled.
- The end-to-end convergence scenarios: they depend on the engine, `BaseBGP` and the selector, none of which is modelled.
- Integer width: LOCAL-PREF values are only compared, never computed here, so Kotlin's 32-bit `Int` needs no wrap-around; its range is kept by the subset type `BGPRoutes.LocalPrefValue`. The sentinels' LOCAL-PREF values are the 32-bit extremes. Node ids are unbounded integers.
