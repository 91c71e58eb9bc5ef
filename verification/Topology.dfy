/** Structural state of the replicated graph (`kyoso_graph_crdt::topology`). */
module Topology {
  // Tombstoned nodes in a tree, tombstoned reference edges, and the effect of one confirmed op.

  import opened Wrappers
  import opened Ids
  import opened Delta

  datatype NodeStructure = NodeStructure(tombstoned: bool, orderKey: Option<string>, treeParent: Option<CrdtId>)

  datatype EdgeCategory =
    Reference | InstanceOf | PrototypeLink | ConstraintPin | StyleRef | CommentAnchor | Mention | MaskOf
      | Custom(name: string)

  datatype EdgeStructure = EdgeStructure(from: CrdtId, to: CrdtId, category: EdgeCategory, tombstoned: bool)

  datatype OpKind =
    | AddNode
    | RemoveNode(target: CrdtId)
    | Move(target: CrdtId, newParent: Option<CrdtId>, position: string)
    | AddRefEdge(category: EdgeCategory, from: CrdtId, to: CrdtId)
    | RemoveRefEdge(target: CrdtId)
    | SetNodeProperty(target: CrdtId, path: Path, delta: WireDelta)
    | SetRefEdgeProperty(target: CrdtId, path: Path, delta: WireDelta)

  /** The replicated maps. The in-flight move tracker is local and is kept apart. */
  datatype Topo = Topo(nodes: map<CrdtId, NodeStructure>, edges: map<CrdtId, EdgeStructure>)

  const EMPTY: Topo := Topo(map[], map[])

  // ---- What a reader of the topology can see ----

  predicate LiveNode(t: Topo, id: CrdtId) {
    id in t.nodes && !t.nodes[id].tombstoned
  }

  predicate LiveEdge(t: Topo, id: CrdtId) {
    id in t.edges && !t.edges[id].tombstoned
  }

  function TreeParent(t: Topo, id: CrdtId): Option<CrdtId> {
    if LiveNode(t, id) then t.nodes[id].treeParent else None
  }

  function NodeOrderKey(t: Topo, id: CrdtId): Option<string> {
    if LiveNode(t, id) then t.nodes[id].orderKey else None
  }

  function EdgeEndpoints(t: Topo, id: CrdtId): Option<(CrdtId, CrdtId)> {
    if LiveEdge(t, id) then Some((t.edges[id].from, t.edges[id].to)) else None
  }

  function EdgeCategoryOf(t: Topo, id: CrdtId): Option<EdgeCategory> {
    if LiveEdge(t, id) then Some(t.edges[id].category) else None
  }

  function OutgoingEdgeIds(t: Topo, n: CrdtId): set<CrdtId> {
    set e | e in t.edges && !t.edges[e].tombstoned && t.edges[e].from == n
  }

  function IncomingEdgeIds(t: Topo, n: CrdtId): set<CrdtId> {
    set e | e in t.edges && !t.edges[e].tombstoned && t.edges[e].to == n
  }

  function LiveNodes(t: Topo): set<CrdtId> {
    set id | id in t.nodes && !t.nodes[id].tombstoned
  }

  function LiveEdges(t: Topo): set<CrdtId> {
    set id | id in t.edges && !t.edges[id].tombstoned
  }

  /** Everything but the tombstones. */
  function Visible(t: Topo): Topo {
    Topo(map id | id in LiveNodes(t) :: t.nodes[id], map id | id in LiveEdges(t) :: t.edges[id])
  }

  // ---- The parent chain ----

  /** The node `k` parent steps above `id`; `None` once the chain has ended. */
  ghost function Up(t: Topo, id: CrdtId, k: nat): Option<CrdtId>
    decreases k
  {
    if k == 0 then Some(id) else
    match Up(t, id, k - 1)
    case None => None
    case Some(x) => TreeParent(t, x)
  }

  /** `ancestor` is `id` itself or lies above it. */
  ghost predicate OnChain(t: Topo, id: CrdtId, ancestor: CrdtId) {
    exists k: nat :: Up(t, id, k) == Some(ancestor)
  }

  /** Making `proposed` the parent of `target` would close a loop. */
  ghost predicate WouldCycle(t: Topo, target: CrdtId, proposed: CrdtId) {
    OnChain(t, proposed, target)
  }

  ghost predicate Acyclic(t: Topo) {
    forall id, k: nat | k > 0 :: Up(t, id, k) != Some(id)
  }

  ghost predicate NoOrphans(t: Topo) {
    forall e | e in t.edges && !t.edges[e].tombstoned :: LiveNode(t, t.edges[e].from) && LiveNode(t, t.edges[e].to)
  }

  ghost predicate WellFormed(t: Topo) {
    Acyclic(t) && NoOrphans(t)
  }

  // ---- One confirmed op ----

  function Bury(n: NodeStructure): NodeStructure {
    n.(tombstoned := true)
  }

  /** Tombstones every edge incident to `target`. */
  function Cascade(edges: map<CrdtId, EdgeStructure>, target: CrdtId): map<CrdtId, EdgeStructure> {
    map e | e in edges ::
      if edges[e].from == target || edges[e].to == target then edges[e].(tombstoned := true) else edges[e]
  }

  ghost function Apply(t: Topo, id: CrdtId, kind: OpKind): Topo {
    match kind
    case AddNode =>
      if id in t.nodes then t else t.(nodes := t.nodes[id := NodeStructure(false, None, None)])
    case RemoveNode(target) =>
      if target in t.nodes then Topo(t.nodes[target := Bury(t.nodes[target])], Cascade(t.edges, target)) else t
    case AddRefEdge(category, from, to) =>
      t.(edges := t.edges[id := EdgeStructure(from, to, category, !(LiveNode(t, from) && LiveNode(t, to)))])
    case RemoveRefEdge(target) =>
      if target in t.edges then t.(edges := t.edges[target := t.edges[target].(tombstoned := true)]) else t
    case Move(target, newParent, position) =>
      if newParent.Some? && WouldCycle(t, target, newParent.value) then t
      else if target in t.nodes then
        t.(nodes := t.nodes[target := t.nodes[target].(treeParent := newParent, orderKey := Some(position))])
      else t
    case SetNodeProperty(_, _, _) => t
    case SetRefEdgeProperty(_, _, _) => t
  }

  // ---- Facts about chains ----

  lemma {:induction false} UpStep(t: Topo, id: CrdtId, k: nat)
    requires TreeParent(t, id).Some?
    ensures Up(t, id, k + 1) == Up(t, TreeParent(t, id).value, k)
    decreases k
  {
    if k == 0 {
      assert Up(t, id, 1) == (match Up(t, id, 0) case None => None case Some(x) => TreeParent(t, x));
    } else {
      UpStep(t, id, k - 1);
    }
  }

  lemma {:induction false} UpEnded(t: Topo, id: CrdtId, j: nat, k: nat)
    requires j <= k && Up(t, id, j) == None
    ensures Up(t, id, k) == None
    decreases k
  {
    if j < k { UpEnded(t, id, j, k - 1); }
  }

  lemma {:induction false} UpAdd(t: Topo, id: CrdtId, j: nat, k: nat)
    requires Up(t, id, j).Some?
    ensures Up(t, id, j + k) == Up(t, Up(t, id, j).value, k)
    decreases k
  {
    if k > 0 { UpAdd(t, id, j, k - 1); }
  }

  /** Two topologies with the same parents have the same chains. */
  lemma {:induction false} UpCongruent(t: Topo, u: Topo, id: CrdtId, k: nat)
    requires forall x :: TreeParent(t, x) == TreeParent(u, x)
    ensures Up(t, id, k) == Up(u, id, k)
    decreases k
  {
    if k > 0 { UpCongruent(t, u, id, k - 1); }
  }

  /** A chain that avoids `x` up to step `k` does not notice a change of `x`'s parent. */
  lemma {:induction false} UpAvoids(t: Topo, u: Topo, x: CrdtId, id: CrdtId, k: nat)
    requires forall y | y != x :: TreeParent(t, y) == TreeParent(u, y)
    requires forall j: nat | j < k :: Up(t, id, j) != Some(x)
    ensures Up(t, id, k) == Up(u, id, k)
    decreases k
  {
    if k > 0 { UpAvoids(t, u, x, id, k - 1); }
  }

  // ---- The forest stays a forest ----

  lemma AcyclicCongruent(t: Topo, u: Topo)
    requires Acyclic(t)
    requires forall x :: TreeParent(t, x) == TreeParent(u, x)
    ensures Acyclic(u)
  {
    forall id, k: nat | k > 0 ensures Up(u, id, k) != Some(id) {
      UpCongruent(t, u, id, k);
    }
  }

  /** Cutting one node off from its parent cannot close a loop. */
  lemma AcyclicCut(t: Topo, u: Topo, x: CrdtId)
    requires Acyclic(t)
    requires TreeParent(u, x) == None
    requires forall y | y != x :: TreeParent(t, y) == TreeParent(u, y)
    ensures Acyclic(u)
  {
    forall id, k: nat | k > 0 ensures Up(u, id, k) != Some(id) {
      if j: nat :| j < k && Up(u, id, j) == Some(x) {
        UpEnded(u, id, j + 1, k);
      } else {
        UpAvoids(u, t, x, id, k);
      }
    }
  }

  /** Hanging `x` under `p` is safe when `x` is not on the chain of `p`. */
  lemma AcyclicGraft(t: Topo, u: Topo, x: CrdtId, p: CrdtId)
    requires Acyclic(t) && !OnChain(t, p, x)
    requires TreeParent(u, x) == Some(p)
    requires forall y | y != x :: TreeParent(t, y) == TreeParent(u, y)
    ensures Acyclic(u)
  {
    forall id, k: nat | k > 0 ensures Up(u, id, k) != Some(id) {
      if Up(u, id, k) == Some(id) {
        if j: nat :| j < k && Up(u, id, j) == Some(x) {
          // Turn the loop so that it starts at x; it then runs through p.
          UpAdd(u, id, j, k - j);
          UpAdd(u, id, k, j);
          UpAdd(u, id, j, k);
          assert Up(u, x, k) == Some(x);
          UpStep(u, x, k - 1);
          assert Up(u, p, k - 1) == Some(x);
          UpAvoids(t, u, x, p, k - 1);
          assert false;
        } else {
          UpAvoids(u, t, x, id, k);
          assert false;
        }
      }
    }
  }

  lemma ApplyKeepsAcyclic(t: Topo, id: CrdtId, kind: OpKind)
    requires Acyclic(t)
    ensures Acyclic(Apply(t, id, kind))
  {
    var u := Apply(t, id, kind);
    match kind
    case RemoveNode(target) =>
      AcyclicCut(t, u, target);
    case Move(target, newParent, position) =>
      if u == t {
      } else if LiveNode(t, target) {
        if newParent.Some? {
          AcyclicGraft(t, u, target, newParent.value);
        } else {
          AcyclicCut(t, u, target);
        }
      } else {
        AcyclicCongruent(t, u);
      }
    case _ =>
      AcyclicCongruent(t, u);
  }

  /**
   * Every op, whatever ids it names, keeps the visible parent relation acyclic and every
   * live edge between live nodes.
   */
  lemma ApplyKeepsWellFormed(t: Topo, id: CrdtId, kind: OpKind)
    requires WellFormed(t)
    ensures WellFormed(Apply(t, id, kind))
  {
    ApplyKeepsAcyclic(t, id, kind);
  }
}
