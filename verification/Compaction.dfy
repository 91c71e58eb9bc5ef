module Compaction {
  // What a snapshot determines, and when a restored replica behaves like the one it was taken from.
  // A snapshot of the topology drops every tombstone.

  import opened Wrappers
  import opened Ids
  import opened Delta
  import opened Topology

  datatype NodeSnap = NodeSnap(id: CrdtId, orderKey: Option<string>, treeParent: Option<CrdtId>)

  datatype EdgeSnap = EdgeSnap(id: CrdtId, from: CrdtId, to: CrdtId, category: EdgeCategory)

  datatype TopoSnapshot = TopoSnapshot(nodes: seq<NodeSnap>, edges: seq<EdgeSnap>)

  function SnapNode(t: Topo, id: CrdtId): NodeSnap
    requires id in t.nodes
  {
    NodeSnap(id, t.nodes[id].orderKey, t.nodes[id].treeParent)
  }

  function SnapEdge(t: Topo, id: CrdtId): EdgeSnap
    requires id in t.edges
  {
    EdgeSnap(id, t.edges[id].from, t.edges[id].to, t.edges[id].category)
  }

  /** Live nodes and live edges, each list sorted by id. */
  function Snapshot(t: Topo): TopoSnapshot {
    var ns := SortedIds(LiveNodes(t));
    var es := SortedIds(LiveEdges(t));
    TopoSnapshot(
      seq(|ns|, i requires 0 <= i < |ns| => assert ns[i] in LiveNodes(t); SnapNode(t, ns[i])),
      seq(|es|, i requires 0 <= i < |es| => assert es[i] in LiveEdges(t); SnapEdge(t, es[i])))
  }

  /** The maps filled by inserting the entries in order, all of them live. */
  function RestoreNodes(ns: seq<NodeSnap>): map<CrdtId, NodeStructure> {
    if ns == [] then map[] else
      var n := ns[|ns| - 1];
      RestoreNodes(ns[..|ns| - 1])[n.id := NodeStructure(false, n.orderKey, n.treeParent)]
  }

  function RestoreEdges(es: seq<EdgeSnap>): map<CrdtId, EdgeStructure> {
    if es == [] then map[] else
      var e := es[|es| - 1];
      RestoreEdges(es[..|es| - 1])[e.id := EdgeStructure(e.from, e.to, e.category, false)]
  }

  function Restore(s: TopoSnapshot): Topo {
    Topo(RestoreNodes(s.nodes), RestoreEdges(s.edges))
  }

  // ---- A snapshot is exactly the visible state ----

  lemma {:induction false} RestoreNodesOf(t: Topo, ids: seq<CrdtId>, ns: seq<NodeSnap>)
    requires |ns| == |ids| && StrictlySorted(ids)
    requires forall i | 0 <= i < |ids| :: ids[i] in LiveNodes(t) && ns[i] == SnapNode(t, ids[i])
    ensures RestoreNodes(ns) == map id | id in ids && id in t.nodes :: t.nodes[id]
  {
    if ns == [] {
    } else {
      var m := |ns| - 1;
      RestoreNodesOf(t, ids[..m], ns[..m]);
      assert ids == ids[..m] + [ids[m]];
    }
  }

  lemma {:induction false} RestoreEdgesOf(t: Topo, ids: seq<CrdtId>, es: seq<EdgeSnap>)
    requires |es| == |ids| && StrictlySorted(ids)
    requires forall i | 0 <= i < |ids| :: ids[i] in LiveEdges(t) && es[i] == SnapEdge(t, ids[i])
    ensures RestoreEdges(es) == map id | id in ids && id in t.edges :: t.edges[id]
  {
    if es == [] {
    } else {
      var m := |es| - 1;
      RestoreEdgesOf(t, ids[..m], es[..m]);
      assert ids == ids[..m] + [ids[m]];
    }
  }

  lemma RestoredNodes(t: Topo)
    ensures RestoreNodes(Snapshot(t).nodes) == Visible(t).nodes
  {
    var ns := SortedIds(LiveNodes(t));
    forall i | 0 <= i < |ns| ensures ns[i] in LiveNodes(t) { assert ns[i] in ns; }
    RestoreNodesOf(t, ns, Snapshot(t).nodes);
  }

  lemma RestoredEdges(t: Topo)
    ensures RestoreEdges(Snapshot(t).edges) == Visible(t).edges
  {
    var es := SortedIds(LiveEdges(t));
    forall i | 0 <= i < |es| ensures es[i] in LiveEdges(t) { assert es[i] in es; }
    RestoreEdgesOf(t, es, Snapshot(t).edges);
  }

  /** Restoring a snapshot gives the original without its tombstones. */
  lemma RestoreSnapshot(t: Topo)
    ensures Restore(Snapshot(t)) == Visible(t)
  {
    RestoredNodes(t);
    RestoredEdges(t);
  }

  /** Both lists ascend by peer and then by counter, and hold exactly what is live, as it is. */
  lemma SnapshotLists(t: Topo)
    ensures forall i, j | 0 <= i < j < |Snapshot(t).nodes| :: Ascends(Snapshot(t).nodes[i].id, Snapshot(t).nodes[j].id)
    ensures forall i, j | 0 <= i < j < |Snapshot(t).edges| :: Ascends(Snapshot(t).edges[i].id, Snapshot(t).edges[j].id)
    ensures forall n :: n in Snapshot(t).nodes <==>
      LiveNode(t, n.id) && n.orderKey == NodeOrderKey(t, n.id) && n.treeParent == TreeParent(t, n.id)
    ensures forall e :: e in Snapshot(t).edges <==>
      EdgeEndpoints(t, e.id) == Some((e.from, e.to)) && EdgeCategoryOf(t, e.id) == Some(e.category)
  {
    var ns, es := SortedIds(LiveNodes(t)), SortedIds(LiveEdges(t));
    forall n ensures n in Snapshot(t).nodes <==>
      LiveNode(t, n.id) && n.orderKey == NodeOrderKey(t, n.id) && n.treeParent == TreeParent(t, n.id)
    {
      NodeListed(t, n);
    }
    forall e ensures e in Snapshot(t).edges <==>
      EdgeEndpoints(t, e.id) == Some((e.from, e.to)) && EdgeCategoryOf(t, e.id) == Some(e.category)
    {
      EdgeListed(t, e);
    }
  }

  predicate Ascends(a: CrdtId, b: CrdtId) {
    a.peer < b.peer || (a.peer == b.peer && a.local < b.local)
  }

  lemma NodeListed(t: Topo, n: NodeSnap)
    ensures n in Snapshot(t).nodes <==>
      LiveNode(t, n.id) && n.orderKey == NodeOrderKey(t, n.id) && n.treeParent == TreeParent(t, n.id)
  {
    var ns := SortedIds(LiveNodes(t));
    if n in Snapshot(t).nodes {
      var i :| 0 <= i < |ns| && Snapshot(t).nodes[i] == n;
      assert ns[i] in ns;
    }
    if LiveNode(t, n.id) && n.orderKey == NodeOrderKey(t, n.id) && n.treeParent == TreeParent(t, n.id) {
      assert n.id in ns;
      var i :| 0 <= i < |ns| && ns[i] == n.id;
      assert Snapshot(t).nodes[i] == n;
    }
  }

  lemma EdgeListed(t: Topo, e: EdgeSnap)
    ensures e in Snapshot(t).edges <==>
      EdgeEndpoints(t, e.id) == Some((e.from, e.to)) && EdgeCategoryOf(t, e.id) == Some(e.category)
  {
    var es := SortedIds(LiveEdges(t));
    if e in Snapshot(t).edges {
      var i :| 0 <= i < |es| && Snapshot(t).edges[i] == e;
      assert es[i] in es;
    }
    if EdgeEndpoints(t, e.id) == Some((e.from, e.to)) && EdgeCategoryOf(t, e.id) == Some(e.category) {
      assert e.id in es;
      var i :| 0 <= i < |es| && es[i] == e.id;
      assert Snapshot(t).edges[i] == e;
    }
  }

  // ---- Looking alike, id by id ----

  predicate SameNode(t: Topo, u: Topo, id: CrdtId) {
    LiveNode(t, id) == LiveNode(u, id) && (LiveNode(t, id) ==> t.nodes[id] == u.nodes[id])
  }

  predicate SameEdge(t: Topo, u: Topo, id: CrdtId) {
    LiveEdge(t, id) == LiveEdge(u, id) && (LiveEdge(t, id) ==> t.edges[id] == u.edges[id])
  }

  ghost predicate Alike(t: Topo, u: Topo) {
    (forall id :: SameNode(t, u, id)) && (forall id :: SameEdge(t, u, id))
  }

  lemma AlikeIffVisible(t: Topo, u: Topo)
    ensures Alike(t, u) <==> Visible(t) == Visible(u)
  {
    if Alike(t, u) {
      forall id ensures id in LiveNodes(t) <==> id in LiveNodes(u) { assert SameNode(t, u, id); }
      forall id ensures id in LiveEdges(t) <==> id in LiveEdges(u) { assert SameEdge(t, u, id); }
      assert LiveNodes(t) == LiveNodes(u) && LiveEdges(t) == LiveEdges(u);
      forall id | id in LiveNodes(t) ensures t.nodes[id] == u.nodes[id] { assert SameNode(t, u, id); }
      forall id | id in LiveEdges(t) ensures t.edges[id] == u.edges[id] { assert SameEdge(t, u, id); }
      assert Visible(t).nodes == Visible(u).nodes;
      assert Visible(t).edges == Visible(u).edges;
    }
    if Visible(t) == Visible(u) {
      var v := Visible(t);
      forall id ensures SameNode(t, u, id) {
        assert LiveNode(t, id) <==> id in v.nodes;
        assert LiveNode(u, id) <==> id in Visible(u).nodes;
      }
      forall id ensures SameEdge(t, u, id) {
        assert LiveEdge(t, id) <==> id in v.edges;
        assert LiveEdge(u, id) <==> id in Visible(u).edges;
      }
    }
  }

  lemma AlikeParents(t: Topo, u: Topo)
    requires Alike(t, u)
    ensures forall id :: TreeParent(t, id) == TreeParent(u, id)
  {
    forall id ensures TreeParent(t, id) == TreeParent(u, id) { assert SameNode(t, u, id); }
  }

  /** Dropping the tombstones keeps the visible state and the invariant. */
  lemma VisibleKeeps(t: Topo)
    requires WellFormed(t)
    ensures Alike(t, Visible(t)) && WellFormed(Visible(t))
  {
    var v := Visible(t);
    forall id ensures SameNode(t, v, id) { assert LiveNode(t, id) <==> id in v.nodes; }
    forall id ensures SameEdge(t, v, id) { assert LiveEdge(t, id) <==> id in v.edges; }
    AlikeParents(t, v);
    AcyclicCongruent(t, v);
    forall e | LiveEdge(v, e) ensures LiveNode(v, v.edges[e].from) && LiveNode(v, v.edges[e].to) {
      assert SameEdge(t, v, e) && SameNode(t, v, v.edges[e].from) && SameNode(t, v, v.edges[e].to);
    }
  }

  lemma NodeListsAgree(t: Topo, u: Topo)
    requires Visible(t) == Visible(u)
    ensures Snapshot(t).nodes == Snapshot(u).nodes
  {
    AlikeIffVisible(t, u);
    assert LiveNodes(t) == Visible(t).nodes.Keys && LiveNodes(u) == Visible(u).nodes.Keys;
    var ns := SortedIds(LiveNodes(t));
    forall i | 0 <= i < |ns| ensures Snapshot(t).nodes[i] == Snapshot(u).nodes[i] {
      assert ns[i] in LiveNodes(t) && SameNode(t, u, ns[i]);
    }
  }

  lemma EdgeListsAgree(t: Topo, u: Topo)
    requires Visible(t) == Visible(u)
    ensures Snapshot(t).edges == Snapshot(u).edges
  {
    AlikeIffVisible(t, u);
    assert LiveEdges(t) == Visible(t).edges.Keys && LiveEdges(u) == Visible(u).edges.Keys;
    var es := SortedIds(LiveEdges(t));
    forall i | 0 <= i < |es| ensures Snapshot(t).edges[i] == Snapshot(u).edges[i] {
      assert es[i] in LiveEdges(t) && SameEdge(t, u, es[i]);
    }
  }

  /** Two replicas publish the same snapshot exactly when a reader cannot tell them apart. */
  lemma SnapshotIffVisible(t: Topo, u: Topo)
    ensures Snapshot(t) == Snapshot(u) <==> Visible(t) == Visible(u)
  {
    RestoreSnapshot(t);
    RestoreSnapshot(u);
    if Visible(t) == Visible(u) {
      NodeListsAgree(t, u);
      EdgeListsAgree(t, u);
    }
  }

  // ---- Looking alike, accessor by accessor ----

  ghost predicate SameOfId(t: Topo, u: Topo, id: CrdtId) {
    && LiveNode(t, id) == LiveNode(u, id) && TreeParent(t, id) == TreeParent(u, id)
    && NodeOrderKey(t, id) == NodeOrderKey(u, id)
    && LiveEdge(t, id) == LiveEdge(u, id) && EdgeEndpoints(t, id) == EdgeEndpoints(u, id)
    && EdgeCategoryOf(t, id) == EdgeCategoryOf(u, id)
    && OutgoingEdgeIds(t, id) == OutgoingEdgeIds(u, id) && IncomingEdgeIds(t, id) == IncomingEdgeIds(u, id)
  }

  /** Every read accessor of the topology answers alike: by id, the listings, and the counts. */
  ghost predicate SameAccessors(t: Topo, u: Topo) {
    && (forall id :: SameOfId(t, u, id))
    && LiveNodes(t) == LiveNodes(u) && LiveEdges(t) == LiveEdges(u)
    && |LiveNodes(t)| == |LiveNodes(u)| && |LiveEdges(t)| == |LiveEdges(u)|
  }

  /** No accessor tells two topologies apart exactly when they are equal without their tombstones. */
  lemma AccessorsIffVisible(t: Topo, u: Topo)
    ensures SameAccessors(t, u) <==> Visible(t) == Visible(u)
  {
    AlikeIffVisible(t, u);
    if Alike(t, u) {
      assert LiveNodes(t) == Visible(t).nodes.Keys && LiveNodes(u) == Visible(u).nodes.Keys;
      assert LiveEdges(t) == Visible(t).edges.Keys && LiveEdges(u) == Visible(u).edges.Keys;
      forall id ensures SameOfId(t, u, id) { AlikeOfId(t, u, id); }
    }
    if SameAccessors(t, u) {
      forall id ensures SameNode(t, u, id) && SameEdge(t, u, id) { assert SameOfId(t, u, id); }
    }
  }

  lemma AlikeOfId(t: Topo, u: Topo, id: CrdtId)
    requires Alike(t, u)
    ensures SameOfId(t, u, id)
  {
    assert SameNode(t, u, id) && SameEdge(t, u, id);
    forall e ensures e in OutgoingEdgeIds(t, id) <==> e in OutgoingEdgeIds(u, id) { assert SameEdge(t, u, e); }
    forall e ensures e in IncomingEdgeIds(t, id) <==> e in IncomingEdgeIds(u, id) { assert SameEdge(t, u, e); }
  }

  // ---- One op on two replicas that look alike ----

  lemma CycleTestAgrees(t: Topo, u: Topo, target: CrdtId, proposed: CrdtId)
    requires forall id :: TreeParent(t, id) == TreeParent(u, id)
    ensures WouldCycle(t, target, proposed) == WouldCycle(u, target, proposed)
  {
    if k: nat :| Up(t, proposed, k) == Some(target) { UpCongruent(t, u, proposed, k); }
    if k: nat :| Up(u, proposed, k) == Some(target) { UpCongruent(u, t, proposed, k); }
  }

  /** Under `id`, one replica remembers a removed node and the other has no entry. */
  predicate Remembers(t: Topo, u: Topo, id: CrdtId) {
    (id in t.nodes) != (id in u.nodes)
  }

  lemma MoveAgrees(t: Topo, u: Topo, id: CrdtId, kind: OpKind)
    requires Alike(t, u) && kind.Move?
    ensures Alike(Apply(t, id, kind), Apply(u, id, kind))
  {
    AlikeParents(t, u);
    if kind.newParent.Some? { CycleTestAgrees(t, u, kind.target, kind.newParent.value); }
    var t', u' := Apply(t, id, kind), Apply(u, id, kind);
    forall x ensures SameNode(t', u', x) { assert SameNode(t, u, x); }
    forall x ensures SameEdge(t', u', x) { assert SameEdge(t, u, x); }
  }

  /** Removing a node only one replica has an entry for changes nothing visible: no live edge touches it. */
  lemma RemoveAgrees(t: Topo, u: Topo, id: CrdtId, kind: OpKind)
    requires Alike(t, u) && NoOrphans(t) && NoOrphans(u) && kind.RemoveNode?
    ensures Alike(Apply(t, id, kind), Apply(u, id, kind))
  {
    assert SameNode(t, u, kind.target);
    var t', u' := Apply(t, id, kind), Apply(u, id, kind);
    forall x ensures SameNode(t', u', x) { assert SameNode(t, u, x); }
    forall x ensures SameEdge(t', u', x) { assert SameEdge(t, u, x); }
  }

  lemma OtherAgrees(t: Topo, u: Topo, id: CrdtId, kind: OpKind)
    requires Alike(t, u) && !kind.Move? && !kind.RemoveNode?
    requires kind.AddNode? ==> !Remembers(t, u, id)
    ensures Alike(Apply(t, id, kind), Apply(u, id, kind))
  {
    var t', u' := Apply(t, id, kind), Apply(u, id, kind);
    if kind.AddRefEdge? { assert SameNode(t, u, kind.from) && SameNode(t, u, kind.to); }
    forall x ensures SameNode(t', u', x) { assert SameNode(t, u, x); }
    forall x ensures SameEdge(t', u', x) { assert SameEdge(t, u, x); }
  }

  /**
   * Replicas that look alike still look alike after the same op, with one exception that
   * always shows: an `AddNode` under an id only one of them remembers as removed.
   */
  lemma StepAgrees(t: Topo, u: Topo, id: CrdtId, kind: OpKind)
    requires Alike(t, u) && NoOrphans(t) && NoOrphans(u)
    ensures Alike(Apply(t, id, kind), Apply(u, id, kind)) <==> !(kind.AddNode? && Remembers(t, u, id))
  {
    if kind.AddNode? && Remembers(t, u, id) {
      assert SameNode(t, u, id);
      assert !SameNode(Apply(t, id, kind), Apply(u, id, kind), id);
    } else if kind.Move? {
      MoveAgrees(t, u, id, kind);
    } else if kind.RemoveNode? {
      RemoveAgrees(t, u, id, kind);
    } else {
      OtherAgrees(t, u, id, kind);
    }
  }
}
