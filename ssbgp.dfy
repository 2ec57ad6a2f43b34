/**
 * The SS-BGP family's reaction to a detected routing loop (bgp2/SSBGP.kt):
 * when a route learned from an enabled neighbor contains the node itself, the
 * candidate via that neighbor is withdrawn, the selection that remains is the
 * alternative route, and the neighbor is disabled and a detection published
 * exactly when the loop is judged recurrent. SS-BGP judges with the weak
 * condition, ISS-BGP with the strong one.
 */
module SSBGP {
  import opened BGPRoutes
  import opened Routing
  import opened Selection

  /** The detection condition: SS-BGP's weak one or ISS-BGP's strong one. */
  datatype Detection = Weak | Strong

  /** Published when a neighbor is disabled after a recurrent loop. */
  datatype DetectNotification = DetectNotification(
    node: NodeID, learnedRoute: BGPRoute, alternativeRoute: BGPRoute, disabledNeighbor: NodeID)

  /** SSBGP.isRecurrent: the looping route is preferred to the alternative. */
  predicate WeakCondition(node: NodeID, learnedRoute: BGPRoute, alternativeRoute: BGPRoute)
    ensures WeakCondition(node, learnedRoute, alternativeRoute) ==>
      !learnedRoute.Invalid? && !alternativeRoute.Self? && learnedRoute != alternativeRoute
  {
    learnedRoute.LocalPref() > alternativeRoute.LocalPref()
  }

  /**
   * ISSBGP.isRecurrent: the weak condition, and the alternative follows exactly
   * the learned AS-path up to the node, so it is the same loop recurring.
   */
  predicate StrongCondition(node: NodeID, learnedRoute: BGPRoute, alternativeRoute: BGPRoute)
    ensures StrongCondition(node, learnedRoute, alternativeRoute) ==>
      && WeakCondition(node, learnedRoute, alternativeRoute)
      && alternativeRoute.AsPath() <= learnedRoute.AsPath()
      && node !in alternativeRoute.AsPath()
    ensures StrongCondition(node, learnedRoute, alternativeRoute) && node in learnedRoute.AsPath() ==>
      learnedRoute.AsPath()[|alternativeRoute.AsPath()|] == node
  {
    && learnedRoute.LocalPref() > alternativeRoute.LocalPref()
    && alternativeRoute.AsPath() == SubPathBefore(learnedRoute.AsPath(), node)
  }

  /**
   * What the weak condition means in the table: with the sender's candidate
   * forced invalid and `alternativeRoute` the best route left, the loop is
   * recurrent exactly when the looping route would beat every usable
   * candidate via another neighbor (and, when none is left, beats the invalid route).
   */
  lemma WeakConditionMeaning(routes: Routes<NodeID, BGPRoute>, sender: NodeID, node: NodeID,
                             learnedRoute: BGPRoute, alternativeRoute: BGPRoute)
    requires BestRoute(WithRoute(routes, sender, Invalid), alternativeRoute)
    ensures WeakCondition(node, learnedRoute, alternativeRoute) <==>
      && (forall k :: k in routes && k != sender && Usable(routes[k]) ==>
            routes[k].route.LocalPref() < learnedRoute.LocalPref())
      && (alternativeRoute == Invalid ==> learnedRoute.LocalPref() > MinLocalPref)
  {
  }

  /** The alternative route never comes from the sender whose candidate was withdrawn. */
  lemma AlternativeAvoidsSender(routes: Routes<NodeID, BGPRoute>, sender: NodeID, alternativeRoute: BGPRoute)
    requires BestRoute(WithRoute(routes, sender, Invalid), alternativeRoute)
    ensures alternativeRoute == Invalid ||
      exists k :: k in routes && k != sender && Usable(routes[k]) && routes[k].route == alternativeRoute
  {
  }

  /** The notifier's detection channel, as the log of what was published. */
  class BGPNotifier {
    ghost var detections: seq<DetectNotification>

    constructor ()
      ensures detections == []
    {
      detections := [];
    }

    method NotifyDetect(notification: DetectNotification)
      modifies this
      ensures detections == old(detections) + [notification]
    {
      detections := detections + [notification];
    }
  }

  /**
   * A node's SS-BGP or ISS-BGP protocol: the selecting routing table, the
   * notifier it publishes to, and the flag recording that the selected route
   * changed since the flag was last cleared.
   */
  class BaseSSBGP {
    const detection: Detection
    const routingTable: RouteSelector
    const notifier: BGPNotifier
    var wasSelectedRouteUpdated: bool

    ghost predicate Valid()
      reads this, routingTable
    {
      routingTable.Valid()
    }

    constructor (detection: Detection, routingTable: RouteSelector, notifier: BGPNotifier)
      requires routingTable.Valid()
      ensures Valid() && !wasSelectedRouteUpdated
      ensures this.detection == detection && this.routingTable == routingTable && this.notifier == notifier
    {
      this.detection := detection;
      this.routingTable := routingTable;
      this.notifier := notifier;
      wasSelectedRouteUpdated := false;
    }

    /** isRecurrent, as the subclass SSBGP or ISSBGP defines it. */
    predicate IsRecurrent(node: NodeID, learnedRoute: BGPRoute, alternativeRoute: BGPRoute)
      ensures IsRecurrent(node, learnedRoute, alternativeRoute) ==> WeakCondition(node, learnedRoute, alternativeRoute)
      ensures detection.Weak? ==>
        (IsRecurrent(node, learnedRoute, alternativeRoute) <==> WeakCondition(node, learnedRoute, alternativeRoute))
      ensures detection.Strong? && IsRecurrent(node, learnedRoute, alternativeRoute) ==>
        alternativeRoute.AsPath() == SubPathBefore(learnedRoute.AsPath(), node)
    {
      match detection
      case Weak => WeakCondition(node, learnedRoute, alternativeRoute)
      case Strong => StrongCondition(node, learnedRoute, alternativeRoute)
    }

    /**
     * Reacts to a loop in `route`, learned from `sender` at `node`. The ghost
     * results are the alternative route the recurrence test compared against
     * and the neighbor the selector took it from; they carry meaning only when
     * the sender is enabled.
     */
    method OnLoopDetected(node: NodeID, sender: NodeID, route: BGPRoute)
      returns (ghost alternative: BGPRoute, ghost altNeighbor: Option<NodeID>)
      requires Valid()
      modifies this, routingTable, notifier
      ensures Valid()
      ensures old(wasSelectedRouteUpdated) ==> wasSelectedRouteUpdated
      ensures (|| routingTable.selectedRoute != old(routingTable.selectedRoute)
               || routingTable.selectedNeighbor != old(routingTable.selectedNeighbor)) ==> wasSelectedRouteUpdated
      ensures forall k :: !EnabledIn(old(routingTable.routes), k) ==> !routingTable.IsEnabled(k)
      ensures !old(routingTable.IsEnabled(sender)) ==> unchanged(this, routingTable, notifier)
      ensures old(routingTable.IsEnabled(sender)) ==>
        var written := WithRoute(old(routingTable.routes), sender, Invalid);
        var recurrent := IsRecurrent(node, route, alternative);
        && IsSelection(written, alternative, altNeighbor)
        && (!recurrent ==> routingTable.selectedRoute == alternative && routingTable.selectedNeighbor == altNeighbor)
        && routingTable.routes == (if recurrent then WithFlag(written, sender, false) else written)
        && routingTable.IsEnabled(sender) == !recurrent
        && wasSelectedRouteUpdated == (|| old(wasSelectedRouteUpdated)
                                       || alternative != old(routingTable.selectedRoute)
                                       || altNeighbor != old(routingTable.selectedNeighbor)
                                       || routingTable.selectedRoute != alternative
                                       || routingTable.selectedNeighbor != altNeighbor)
        && notifier.detections == old(notifier.detections) +
             (if recurrent then [DetectNotification(node, route, alternative, sender)] else [])
    {
      // a route learned from a disabled neighbor is ignored
      if !routingTable.IsEnabled(sender) {
        return routingTable.selectedRoute, routingTable.selectedNeighbor;
      }
      // the route via the sender is surely invalid: force the selector onto the alternative
      var updated := routingTable.Update(sender, Invalid);
      wasSelectedRouteUpdated := wasSelectedRouteUpdated || updated;

      var alternativeRoute := routingTable.GetSelectedRoute();
      alternative, altNeighbor := alternativeRoute, routingTable.selectedNeighbor;
      if IsRecurrent(node, route, alternativeRoute) {
        DisableNeighbor(sender);
        notifier.NotifyDetect(DetectNotification(node, route, alternativeRoute, sender));
      }
    }

    /** Enables a neighbor; a neighbor without an entry is enabled already. */
    method EnableNeighbor(neighbor: NodeID)
      requires Valid()
      modifies this, routingTable
      ensures Valid()
      ensures routingTable.routes == WithFlag(old(routingTable.routes), neighbor, true)
      ensures routingTable.IsEnabled(neighbor)
      ensures wasSelectedRouteUpdated == (old(wasSelectedRouteUpdated) ||
        routingTable.selectedRoute != old(routingTable.selectedRoute) ||
        routingTable.selectedNeighbor != old(routingTable.selectedNeighbor))
    {
      var updated := routingTable.Enable(neighbor);
      wasSelectedRouteUpdated := wasSelectedRouteUpdated || updated;
    }

    /** Disables a neighbor that has an entry in the table. */
    method DisableNeighbor(neighbor: NodeID)
      requires Valid()
      modifies this, routingTable
      ensures Valid()
      ensures routingTable.routes == WithFlag(old(routingTable.routes), neighbor, false)
      ensures neighbor in old(routingTable.routes) ==> !routingTable.IsEnabled(neighbor)
      ensures wasSelectedRouteUpdated == (old(wasSelectedRouteUpdated) ||
        routingTable.selectedRoute != old(routingTable.selectedRoute) ||
        routingTable.selectedNeighbor != old(routingTable.selectedNeighbor))
    {
      var updated := routingTable.Disable(neighbor);
      wasSelectedRouteUpdated := wasSelectedRouteUpdated || updated;
    }
  }
}
