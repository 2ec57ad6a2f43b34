/**
 * The selecting routing table the SS-BGP protocols work with (the class
 * RoutingTable of core.routing2). Its source is not part of this model; this
 * module keeps only what the protocols rely on. Its entries follow the same
 * rules as the routing table of core.routing (module Routing), and it caches a
 * selected route and neighbor: a usable (enabled, not invalid) candidate of
 * greatest LOCAL-PREF, or the invalid route and no neighbor when none is usable.
 */
module Selection {
  import opened BGPRoutes
  import opened Routing

  datatype Option<T> = None | Some(value: T)

  /** A candidate the selection may pick: enabled and not the invalid route. */
  predicate Usable(e: EntryData<BGPRoute>)
  {
    e.enabled && !e.route.Invalid?
  }

  /**
   * `route` and `neighbor` are a selection among the entries of `keys`: the
   * neighbor's usable candidate of greatest LOCAL-PREF, or invalid and no
   * neighbor when no entry of `keys` is usable.
   */
  ghost predicate SelectionAmong(routes: Routes<NodeID, BGPRoute>, keys: set<NodeID>, route: BGPRoute, neighbor: Option<NodeID>)
    requires keys <= routes.Keys
  {
    && (neighbor.None? ==> route == Invalid && forall k :: k in keys ==> !Usable(routes[k]))
    && (neighbor.Some? ==>
          && neighbor.value in keys
          && Usable(routes[neighbor.value])
          && routes[neighbor.value].route == route
          && forall k :: k in keys && Usable(routes[k]) ==> routes[k].route.LocalPref() <= route.LocalPref())
  }

  ghost predicate IsSelection(routes: Routes<NodeID, BGPRoute>, route: BGPRoute, neighbor: Option<NodeID>)
  {
    SelectionAmong(routes, routes.Keys, route, neighbor)
  }

  /**
   * `route` is a best route of the table: the candidate of some usable entry
   * that no usable entry beats on LOCAL-PREF, or invalid when none is usable.
   */
  ghost predicate BestRoute(routes: Routes<NodeID, BGPRoute>, route: BGPRoute)
  {
    || (route == Invalid && forall k :: k in routes ==> !Usable(routes[k]))
    || (&& (exists k :: k in routes && Usable(routes[k]) && routes[k].route == route)
        && forall k :: k in routes && Usable(routes[k]) ==> routes[k].route.LocalPref() <= route.LocalPref())
  }

  /** The selected route of a selection is a best route. */
  lemma SelectionIsBest(routes: Routes<NodeID, BGPRoute>, route: BGPRoute, neighbor: Option<NodeID>)
    requires IsSelection(routes, route, neighbor)
    ensures BestRoute(routes, route)
  {
    if neighbor.Some? {
      var n := neighbor.value;
      assert n in routes && Usable(routes[n]) && routes[n].route == route;
    }
  }

  /** One step of the scan: taking `k` into account keeps a selection among the scanned keys. */
  lemma SelectionStep(routes: Routes<NodeID, BGPRoute>, done: set<NodeID>, route: BGPRoute, neighbor: Option<NodeID>, k: NodeID)
    requires done <= routes.Keys && k in routes
    requires SelectionAmong(routes, done, route, neighbor)
    ensures var take := Usable(routes[k]) && (neighbor.None? || routes[k].route.LocalPref() > route.LocalPref());
      SelectionAmong(routes, done + {k}, if take then routes[k].route else route, if take then Some(k) else neighbor)
  {
  }

  /** Scans the entries for a selection. */
  method Select(routes: Routes<NodeID, BGPRoute>) returns (route: BGPRoute, neighbor: Option<NodeID>)
    ensures IsSelection(routes, route, neighbor)
  {
    route, neighbor := Invalid, None;
    var todo := routes.Keys;
    ghost var done: set<NodeID> := {};
    while exists k :: k in todo
      invariant todo <= routes.Keys && done <= routes.Keys
      invariant forall k :: k in routes ==> k in done || k in todo
      invariant SelectionAmong(routes, done, route, neighbor)
      decreases todo
    {
      var k :| k in todo;
      SelectionStep(routes, done, route, neighbor, k);
      if Usable(routes[k]) && (neighbor.None? || routes[k].route.LocalPref() > route.LocalPref()) {
        route, neighbor := routes[k].route, Some(k);
      }
      todo, done := todo - {k}, done + {k};
    }
  }

  class RouteSelector {
    var routes: Routes<NodeID, BGPRoute>
    var selectedRoute: BGPRoute
    var selectedNeighbor: Option<NodeID>

    ghost predicate Valid()
      reads this
    {
      IsSelection(routes, selectedRoute, selectedNeighbor)
    }

    /** A selector over an empty table. */
    constructor ()
      ensures Valid() && routes == map[]
      ensures selectedRoute == Invalid && selectedNeighbor == None
    {
      routes := map[];
      selectedRoute := Invalid;
      selectedNeighbor := None;
    }

    /** `table.isEnabled`: whether a neighbor is enabled. */
    predicate IsEnabled(n: NodeID)
      reads this
      ensures n !in routes ==> IsEnabled(n)
      ensures n in routes ==> (IsEnabled(n) <==> routes[n].enabled)
    {
      EnabledIn(routes, n)
    }

    /** The cached selected route. */
    function GetSelectedRoute(): (r: BGPRoute)
      reads this
      requires Valid()
      ensures BestRoute(routes, r)
    {
      SelectionIsBest(routes, selectedRoute, selectedNeighbor);
      selectedRoute
    }

    /** Recomputes the selection; reports whether the selected route or neighbor changed. */
    method Reselect() returns (changed: bool)
      modifies this
      ensures Valid() && routes == old(routes)
      ensures changed == (selectedRoute != old(selectedRoute) || selectedNeighbor != old(selectedNeighbor))
    {
      var route, neighbor := Select(routes);
      changed := route != selectedRoute || neighbor != selectedNeighbor;
      selectedRoute, selectedNeighbor := route, neighbor;
    }

    /** Stores `route` as the candidate via `n` and reselects. */
    method Update(n: NodeID, route: BGPRoute) returns (updated: bool)
      modifies this
      ensures Valid() && routes == WithRoute(old(routes), n, route)
      ensures updated == (selectedRoute != old(selectedRoute) || selectedNeighbor != old(selectedNeighbor))
    {
      routes := WithRoute(routes, n, route);
      updated := Reselect();
    }

    /** Enables `n` (when it has an entry) and reselects. */
    method Enable(n: NodeID) returns (updated: bool)
      modifies this
      ensures Valid() && routes == WithFlag(old(routes), n, true)
      ensures updated == (selectedRoute != old(selectedRoute) || selectedNeighbor != old(selectedNeighbor))
    {
      routes := WithFlag(routes, n, true);
      updated := Reselect();
    }

    /** Disables `n` (when it has an entry) and reselects. */
    method Disable(n: NodeID) returns (updated: bool)
      modifies this
      ensures Valid() && routes == WithFlag(old(routes), n, false)
      ensures updated == (selectedRoute != old(selectedRoute) || selectedNeighbor != old(selectedNeighbor))
    {
      routes := WithFlag(routes, n, false);
      updated := Reselect();
    }
  }
}
