/**
 * BGP routes as the SS-BGP protocols see them. The route class itself and the
 * AS-path class are not part of this model; this module fixes the two facts
 * the protocols use: a route's LOCAL-PREF and its AS-path, with the invalid
 * route and the self route as sentinels.
 */
module BGPRoutes {

  /** Node identifiers (a Kotlin Int). */
  type NodeID = int

  const MinLocalPref: int := -0x8000_0000
  const MaxLocalPref: int := 0x7FFF_FFFF

  /** A LOCAL-PREF value: a Kotlin Int. */
  type LocalPrefValue = x: int | MinLocalPref <= x <= MaxLocalPref

  /**
   * A route learned from a neighbor, or one of the two sentinels: `Invalid`
   * (no route has a lower LOCAL-PREF) and `Self` (a node's route to itself,
   * which no route outranks).
   */
  datatype BGPRoute =
    | Route(pref: LocalPrefValue, path: seq<NodeID>)
    | Invalid
    | Self
  {
    /** LOCAL-PREF; the invalid route carries the least Int and the self route the greatest. */
    function LocalPref(): (r: int)
      ensures MinLocalPref <= r <= MaxLocalPref
    {
      match this
      case Route(pref, _) => pref
      case Invalid => MinLocalPref
      case Self => MaxLocalPref
    }

    /** The AS-path; both sentinels have the empty path. */
    function AsPath(): seq<NodeID>
    {
      match this
      case Route(_, path) => path
      case Invalid => []
      case Self => []
    }
  }

  /**
   * The sub-path of `path` from its start up to, and excluding, the first
   * occurrence of `node`; the whole path when `node` does not occur in it.
   */
  function SubPathBefore(path: seq<NodeID>, node: NodeID): (r: seq<NodeID>)
    ensures r <= path
    ensures node !in r
    ensures node in path ==> |r| < |path| && path[|r|] == node
    ensures node !in path ==> r == path
  {
    if path == [] then []
    else if path[0] == node then []
    else [path[0]] + SubPathBefore(path[1..], node)
  }
}
