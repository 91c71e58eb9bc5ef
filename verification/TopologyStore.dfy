/** The mutable topology of one replica: the in-place form of module Topology. */
module TopologyStore {
  import opened Wrappers
  import opened Ids
  import opened Topology
  import opened Compaction
  import View

  class GraphTopology {
    var nodes: map<CrdtId, NodeStructure>
    var edges: map<CrdtId, EdgeStructure>
    /** Locally issued moves that have not come back yet: op id to moved node. */
    var pendingMoves: map<CrdtId, CrdtId>

    constructor ()
      ensures Model() == EMPTY && pendingMoves == map[]
    {
      nodes, edges, pendingMoves := map[], map[], map[];
    }

    function Model(): Topo
      reads this
    {
      Topo(nodes, edges)
    }

    predicate IsPendingMoveTarget(target: CrdtId)
      reads this
    {
      target in pendingMoves.Values
    }

    method TrackPendingMove(opId: CrdtId, target: CrdtId)
      modifies this`pendingMoves
      ensures pendingMoves == old(pendingMoves)[opId := target]
      ensures IsPendingMoveTarget(target)
    {
      pendingMoves := pendingMoves[opId := target];
      assert pendingMoves[opId] == target;
    }

    /** The edge loop of `RemoveNode`. */
    method CascadeTombstones(target: CrdtId)
      modifies this`edges
      ensures edges == Cascade(old(edges), target)
    {
      var rest := edges.Keys;
      while rest != {}
        invariant edges.Keys == old(edges).Keys && rest <= edges.Keys
        invariant forall e | e in edges ::
          edges[e] == if e in rest then old(edges)[e] else Cascade(old(edges), target)[e]
      {
        var e :| e in rest;
        if edges[e].from == target || edges[e].to == target {
          edges := edges[e := edges[e].(tombstoned := true)];
        }
        rest := rest - {e};
      }
    }

    /** One confirmed structural op, in place; its own id leaves the tracker when it is a move. */
    method ApplyStructuralOp(id: CrdtId, kind: OpKind)
      requires WellFormed(Model())
      modifies this
      ensures Model() == Apply(old(Model()), id, kind) && WellFormed(Model())
      ensures pendingMoves == if kind.Move? then old(pendingMoves) - {id} else old(pendingMoves)
      ensures kind.Move? ==>
        var refused := kind.newParent.Some? && exists k: nat ::
          Up(old(Model()), kind.newParent.value, k) == Some(kind.target);
        && edges == old(edges)
        && nodes == if refused || kind.target !in old(nodes) then old(nodes) else old(nodes)[kind.target :=
             NodeStructure(old(nodes)[kind.target].tombstoned, Some(kind.position), kind.newParent)]
      ensures kind.AddRefEdge? ==>
        var live := set n | n in old(nodes) && !old(nodes)[n].tombstoned;
        && nodes == old(nodes)
        && edges == old(edges)[id := EdgeStructure(kind.from, kind.to, kind.category, !({kind.from, kind.to} <= live))]
    {
      ApplyKeepsWellFormed(Model(), id, kind);
      match kind {
        case AddNode =>
          if id !in nodes { nodes := nodes[id := NodeStructure(false, None, None)]; }
        case RemoveNode(target) =>
          if target in nodes {
            nodes := nodes[target := nodes[target].(tombstoned := true)];
            CascadeTombstones(target);
          }
        case AddRefEdge(category, from, to) =>
          var fromLive := from in nodes && !nodes[from].tombstoned;
          var toLive := to in nodes && !nodes[to].tombstoned;
          edges := edges[id := EdgeStructure(from, to, category, !(fromLive && toLive))];
        case RemoveRefEdge(target) =>
          if target in edges { edges := edges[target := edges[target].(tombstoned := true)]; }
        case Move(target, newParent, position) =>
          if newParent.Some? {
            var cycle := View.WouldCreateCycle(Model(), target, newParent.value);
            if cycle {
              pendingMoves := pendingMoves - {id};
              return;
            }
          }
          if target in nodes {
            nodes := nodes[target := nodes[target].(treeParent := newParent).(orderKey := Some(position))];
          }
          pendingMoves := pendingMoves - {id};
        case SetNodeProperty(_, _, _) =>
        case SetRefEdgeProperty(_, _, _) =>
      }
    }

    method RestoreState(s: TopoSnapshot)
      modifies this
      ensures Model() == Restore(s) && pendingMoves == map[]
    {
      nodes, edges, pendingMoves := map[], map[], map[];
      for i := 0 to |s.nodes|
        invariant nodes == RestoreNodes(s.nodes[..i]) && edges == map[] && pendingMoves == map[]
      {
        var n := s.nodes[i];
        nodes := nodes[n.id := NodeStructure(false, n.orderKey, n.treeParent)];
        assert s.nodes[..i + 1][..i] == s.nodes[..i];
      }
      assert s.nodes[..|s.nodes|] == s.nodes;
      for i := 0 to |s.edges|
        invariant nodes == RestoreNodes(s.nodes) && edges == RestoreEdges(s.edges[..i]) && pendingMoves == map[]
      {
        var e := s.edges[i];
        edges := edges[e.id := EdgeStructure(e.from, e.to, e.category, false)];
        assert s.edges[..i + 1][..i] == s.edges[..i];
      }
      assert s.edges[..|s.edges|] == s.edges;
    }
  }
}
