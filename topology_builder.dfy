/**
 * The BGP topology builder's registry of node ids (bgp/BGPTopologyBuilder.kt).
 * The ids live in a Kotlin mutableSetOf, an insertion-ordered set, modelled as
 * a sequence without repetitions. Nodes are modelled by their ids only.
 */
module TopologyBuilder {
  import opened BGPRoutes

  /** A node of the built topology, identified by its id. */
  datatype BGPNode = BGPNode(id: NodeID)

  datatype BGPTopology = BGPTopology(nodes: seq<BGPNode>)

  /** No two nodes of the sequence share an id. */
  predicate DistinctIds(nodes: seq<BGPNode>)
  {
    forall i, j :: 0 <= i < j < |nodes| ==> nodes[i].id != nodes[j].id
  }

  class BGPTopologyBuilder {
    var ids: seq<NodeID>

    /** The registry is a set: no id appears twice. */
    ghost predicate Valid()
      reads this
    {
      forall i, j :: 0 <= i < j < |ids| ==> ids[i] != ids[j]
    }

    constructor ()
      ensures Valid() && ids == []
    {
      ids := [];
    }

    /**
     * Registers `id`; reports whether it was new. Registering an id a second
     * time reports false and changes nothing.
     */
    method AddNode(id: NodeID) returns (added: bool)
      requires Valid()
      modifies this
      ensures Valid()
      ensures added == (id !in old(ids))
      ensures id in ids
      ensures forall x :: x in ids <==> x in old(ids) || x == id
      ensures ids == if added then old(ids) + [id] else old(ids)
    {
      if id in ids {
        return false;
      }
      ids := ids + [id];
      added := true;
    }

    /**
     * The topology of the registered ids: one node per id, in registration
     * order, with no repeated and no extra id. The registry is only read.
     */
    function Build(): (topology: BGPTopology)
      reads this
      requires Valid()
      ensures |topology.nodes| == |ids|
      ensures forall i :: 0 <= i < |ids| ==> topology.nodes[i] == BGPNode(ids[i])
      ensures DistinctIds(topology.nodes)
      ensures forall x :: x in ids <==> BGPNode(x) in topology.nodes
    {
      var nodes := seq(|ids|, i requires 0 <= i < |ids| reads this => BGPNode(ids[i]));
      assert forall x :: x in ids ==> BGPNode(x) in nodes by {
        forall x | x in ids
          ensures BGPNode(x) in nodes
        {
          var i :| 0 <= i < |ids| && ids[i] == x;
          assert nodes[i] == BGPNode(x);
        }
      }
      BGPTopology(nodes)
    }
  }
}
