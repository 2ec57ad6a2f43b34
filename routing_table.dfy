/**
 * The per-node routing table of core.routing: for each out-neighbor a candidate
 * route and an enabled flag. A neighbor without an entry reads as the table's
 * invalid route and as enabled. The table performs no route selection.
 *
 * The abstract state is a map from neighbor to EntryData. The functions below
 * give the meaning of each operation on that map; the class RoutingTable
 * performs the operations in place and is proved against them.
 */
module Routing {

  /** Data stored in one entry: the candidate route and the enabled flag. */
  datatype EntryData<R> = EntryData(route: R, enabled: bool)

  /**
   * An entry as given to the factory Of: neighbor, route, enabled flag. The
   * Kotlin class defaults the flag to true; here it is always given.
   */
  datatype Entry<N, R> = Entry(neighbor: N, route: R, enabled: bool)

  type Routes<N, R> = map<N, EntryData<R>>

  /** The candidate route via `n`, or `invalid` when `n` has no entry. */
  function RouteOf<N, R>(routes: Routes<N, R>, invalid: R, n: N): R
  {
    if n in routes then routes[n].route else invalid
  }

  /** Whether `n` is enabled; a neighbor without an entry is enabled. */
  predicate EnabledIn<N, R>(routes: Routes<N, R>, n: N)
  {
    n !in routes || routes[n].enabled
  }

  /**
   * The entries after storing `route` for `n`: an existing entry keeps its
   * enabled flag, an absent neighbor gets a fresh enabled entry.
   */
  function WithRoute<N, R>(routes: Routes<N, R>, n: N, route: R): (r: Routes<N, R>)
    ensures r.Keys == routes.Keys + {n}
    ensures r[n].route == route
    ensures r[n].enabled == EnabledIn(routes, n)
    ensures forall k :: k in routes && k != n ==> r[k] == routes[k]
  {
    if n in routes then routes[n := EntryData(route, routes[n].enabled)]
    else routes[n := EntryData(route, true)]
  }

  /**
   * The entries after setting the flag of `n` to `enabled`: only an existing
   * entry changes, an absent neighbor leaves the entries as they are.
   */
  function WithFlag<N, R>(routes: Routes<N, R>, n: N, enabled: bool): (r: Routes<N, R>)
    ensures r.Keys == routes.Keys
    ensures n in routes ==> r[n] == EntryData(routes[n].route, enabled)
    ensures forall k :: k in routes && k != n ==> r[k] == routes[k]
  {
    if n in routes then routes[n := EntryData(routes[n].route, enabled)] else routes
  }

  /** The entries built from `entries` in order; a later neighbor overwrites an earlier one. */
  function FromEntries<N, R>(entries: seq<Entry<N, R>>): Routes<N, R>
  {
    if entries == [] then map[]
    else
      var last := entries[|entries| - 1];
      FromEntries(entries[..|entries| - 1])[last.neighbor := EntryData(last.route, last.enabled)]
  }

  /** Reading back after a store: `n` reads the stored route, every other neighbor reads as before. */
  lemma GetAfterSet<N, R>(routes: Routes<N, R>, invalid: R, n: N, route: R)
    ensures RouteOf(WithRoute(routes, n, route), invalid, n) == route
    ensures forall k :: k != n ==>
      RouteOf(WithRoute(routes, n, route), invalid, k) == RouteOf(routes, invalid, k) &&
      EnabledIn(WithRoute(routes, n, route), k) == EnabledIn(routes, k)
  {
  }

  /** A store adds an entry exactly when the neighbor had none. */
  lemma SetSize<N, R>(routes: Routes<N, R>, n: N, route: R)
    ensures |WithRoute(routes, n, route)| == if n in routes then |routes| else |routes| + 1
  {
  }

  /** Setting a flag never changes a route and never changes another neighbor's flag. */
  lemma SetEnabledReads<N, R>(routes: Routes<N, R>, invalid: R, n: N, enabled: bool)
    ensures forall k :: RouteOf(WithFlag(routes, n, enabled), invalid, k) == RouteOf(routes, invalid, k)
    ensures EnabledIn(WithFlag(routes, n, enabled), n) == (n !in routes || enabled)
    ensures forall k :: k != n ==> EnabledIn(WithFlag(routes, n, enabled), k) == EnabledIn(routes, k)
  {
  }

  /** The entries built by Of hold exactly the listed neighbors. */
  lemma {:induction false} FromEntriesKeys<N, R>(entries: seq<Entry<N, R>>, n: N)
    ensures n in FromEntries(entries) <==> exists i :: 0 <= i < |entries| && entries[i].neighbor == n
  {
    if entries != [] {
      var init := entries[..|entries| - 1];
      FromEntriesKeys(init, n);
      if n in FromEntries(init) {
        var i :| 0 <= i < |init| && init[i].neighbor == n;
        assert entries[i].neighbor == n;
      }
      if exists i :: 0 <= i < |entries| && entries[i].neighbor == n {
        var i :| 0 <= i < |entries| && entries[i].neighbor == n;
        if i < |init| {
          assert init[i].neighbor == n;
        }
      }
    }
  }

  /** The last entry listed for a neighbor decides its route and flag. */
  lemma {:induction false} FromEntriesLast<N, R>(entries: seq<Entry<N, R>>, i: nat)
    requires i < |entries|
    requires forall j :: i < j < |entries| ==> entries[j].neighbor != entries[i].neighbor
    ensures entries[i].neighbor in FromEntries(entries)
    ensures FromEntries(entries)[entries[i].neighbor] == EntryData(entries[i].route, entries[i].enabled)
  {
    if i < |entries| - 1 {
      var init := entries[..|entries| - 1];
      assert init[i] == entries[i];
      FromEntriesLast(init, i);
    }
  }

  /**
   * The routing table object. `invalidRoute` is fixed at construction; the
   * entries live in `routes`, which the methods reassign. Kotlin's EntryData
   * objects are mutated in place; they never leave the table, so replacing the
   * map value is indistinguishable from that.
   */
  class RoutingTable<N(==), R> {
    const invalidRoute: R
    var routes: Routes<N, R>

    /** The private constructor: a table over the given entries. */
    constructor Init(invalid: R, routes: Routes<N, R>)
      ensures invalidRoute == invalid && this.routes == routes
    {
      invalidRoute := invalid;
      this.routes := routes;
    }

    /** Factory `empty`: a table with no entries. */
    static method Empty(invalid: R) returns (t: RoutingTable<N, R>)
      ensures fresh(t) && t.invalidRoute == invalid && t.routes == map[]
      ensures t.Size() == 0
    {
      t := new RoutingTable.Init(invalid, map[]);
    }

    /** Factory `of`: a table holding the given entries, filled in order. */
    static method Of(invalid: R, entries: seq<Entry<N, R>>) returns (t: RoutingTable<N, R>)
      ensures fresh(t) && t.invalidRoute == invalid
      ensures t.routes == FromEntries(entries)
    {
      var routes: Routes<N, R> := map[];
      for i := 0 to |entries|
        invariant routes == FromEntries(entries[..i])
      {
        var e := entries[i];
        assert entries[..i + 1][..i] == entries[..i];
        routes := routes[e.neighbor := EntryData(e.route, e.enabled)];
      }
      assert entries[..|entries|] == entries;
      t := new RoutingTable.Init(invalid, routes);
    }

    /** The number of entries. */
    function Size(): (s: nat)
      reads this
      ensures s == 0 <==> routes == map[]
    {
      |routes|
    }

    /** The candidate route via a neighbor. */
    function Get(n: N): (r: R)
      reads this
      ensures n in routes ==> r == routes[n].route
      ensures n !in routes ==> r == invalidRoute
    {
      RouteOf(routes, invalidRoute, n)
    }

    /** Whether a neighbor is enabled. */
    predicate IsEnabled(n: N)
      reads this
      ensures n !in routes ==> IsEnabled(n)
      ensures n in routes ==> (IsEnabled(n) <==> routes[n].enabled)
    {
      EnabledIn(routes, n)
    }

    /**
     * Operator `set`. The Kotlin doc comment says that an unknown neighbor
     * leaves the table unmodified, but the code inserts a new enabled entry;
     * this models the code.
     */
    method Set(n: N, route: R)
      modifies this
      ensures routes == WithRoute(old(routes), n, route)
      ensures Get(n) == route
      ensures IsEnabled(n) == old(IsEnabled(n))
      ensures forall k :: k != n ==>
        Get(k) == RouteOf(old(routes), invalidRoute, k) && IsEnabled(k) == EnabledIn(old(routes), k)
      ensures Size() == if n in old(routes) then old(Size()) else old(Size()) + 1
    {
      if n !in routes {
        routes := routes[n := EntryData(route, true)];
      } else {
        var entry := routes[n];
        routes := routes[n := entry.(route := route)];
      }
    }

    /**
     * Sets the enabled flag of a neighbor and returns its route; a neighbor
     * without an entry returns the invalid route and nothing changes.
     */
    method SetEnabled(n: N, enabled: bool) returns (route: R)
      modifies this
      ensures route == old(Get(n))
      ensures n !in old(routes) ==> route == invalidRoute && routes == old(routes)
      ensures routes == WithFlag(old(routes), n, enabled)
      ensures n in old(routes) ==> IsEnabled(n) == enabled
      ensures forall k :: Get(k) == RouteOf(old(routes), invalidRoute, k)
      ensures forall k :: k != n ==> IsEnabled(k) == EnabledIn(old(routes), k)
    {
      if n !in routes {
        return invalidRoute;
      }
      var entry := routes[n];
      routes := routes[n := entry.(enabled := enabled)];
      route := entry.route;
    }

    /** Removes every entry: every neighbor then reads as invalid and enabled. */
    method Clear()
      modifies this
      ensures routes == map[] && Size() == 0
      ensures forall k :: Get(k) == invalidRoute && IsEnabled(k)
    {
      routes := map[];
    }
  }
}
