/** The structural checker (`kyoso_graph_crdt::invariants`) and why its step bound is exact. */
module Invariants {
  import opened Wrappers
  import opened Ids
  import opened Topology
  import opened View

  /** A reported violation, with the ids its message names. */
  datatype Violation = TreeCycle(node: CrdtId) | OrphanEdge(edge: CrdtId, endpoint: CrdtId)

  /** The parent chain of `id` never reaches a root. */
  ghost predicate Endless(t: Topo, id: CrdtId) {
    forall k: nat :: Up(t, id, k).Some?
  }

  ghost predicate Dangles(t: Topo, e: CrdtId, n: CrdtId) {
    LiveEdge(t, e) && (t.edges[e].from == n || t.edges[e].to == n) && !LiveNode(t, n)
  }

  /** Pigeonhole: `|s| + 1` picks from `s` pick something twice. */
  lemma {:induction false} Pigeonhole(f: seq<CrdtId>, s: set<CrdtId>)
    requires |f| > |s|
    requires forall i | 0 <= i < |f| :: f[i] in s
    ensures exists i, j :: 0 <= i < j < |f| && f[i] == f[j]
    decreases |s|
  {
    var last := f[|f| - 1];
    if i :| 0 <= i < |f| - 1 && f[i] == last {
    } else {
      Pigeonhole(f[..|f| - 1], s - {last});
    }
  }

  /** A chain with more steps than there are live nodes comes back to a node it has seen. */
  lemma LongChainRepeats(t: Topo, id: CrdtId, k: nat)
    requires Up(t, id, k).Some? && k > |LiveNodes(t)|
    ensures exists i: nat, j: nat :: i < j < k && Up(t, id, i) == Up(t, id, j)
  {
    forall i: nat | i < k ensures Up(t, id, i).Some? && LiveNode(t, Up(t, id, i).value) {
      if Up(t, id, i + 1) == None { UpEnded(t, id, i + 1, k); }
    }
    var f := seq(k, i requires 0 <= i < k => Up(t, id, i).value);
    Pigeonhole(f, LiveNodes(t));
    var i, j :| 0 <= i < j < |f| && f[i] == f[j];
    assert Up(t, id, i) == Up(t, id, j);
  }

  lemma LongChainEndless(t: Topo, id: CrdtId, k: nat)
    requires Up(t, id, k).Some? && k > |LiveNodes(t)|
    ensures Endless(t, id)
  {
    LongChainRepeats(t, id, k);
    var i: nat, j: nat :| i < j < k && Up(t, id, i) == Up(t, id, j);
    if Up(t, id, i) == None { UpEnded(t, id, i, k); }
    forall m: nat ensures Up(t, id, m).Some? { ChainRepeats(t, id, i, j, m); }
  }

  /** The parent relation has a loop exactly when some live node's chain never ends. */
  lemma AcyclicIffChainsEnd(t: Topo)
    ensures Acyclic(t) <==> forall id | LiveNode(t, id) :: !Endless(t, id)
  {
    if id, k: nat :| k > 0 && Up(t, id, k) == Some(id) {
      forall m: nat ensures Up(t, id, m).Some? {
        assert Up(t, id, 0) == Some(id);
        ChainRepeats(t, id, 0, k, m);
      }
      assert Up(t, id, 1).Some? && Up(t, id, 0) == Some(id);
    }
    if id :| LiveNode(t, id) && Endless(t, id) {
      var k := |LiveNodes(t)| + 1;
      assert Up(t, id, k).Some?;
      LongChainRepeats(t, id, k);
      var i: nat, j: nat :| i < j < k && Up(t, id, i) == Up(t, id, j);
      assert Up(t, id, i).Some?;
      UpAdd(t, id, i, j - i);
      assert Up(t, Up(t, id, i).value, j - i) == Some(Up(t, id, i).value);
    }
  }

  /** One walk of the cycle check, with the checker's bound of `node_count + 1` steps. */
  method WalkNeverEnds(t: Topo, start: CrdtId) returns (flagged: bool)
    requires LiveNode(t, start)
    ensures flagged <==> Endless(t, start)
  {
    var maxDepth := |LiveNodes(t)| + 1;
    var cursor := TreeParent(t, start);
    assert cursor == Up(t, start, 1) by { assert Up(t, start, 0) == Some(start); }
    var steps := 0;
    while cursor.Some?
      invariant 0 <= steps <= maxDepth && cursor == Up(t, start, steps + 1)
      decreases maxDepth - steps
    {
      var parent := cursor.value;
      if parent == start {
        forall m: nat ensures Up(t, start, m).Some? {
          assert Up(t, start, 0) == Some(start);
          ChainRepeats(t, start, 0, steps + 1, m);
        }
        return true;
      }
      steps := steps + 1;
      if steps > maxDepth {
        LongChainEndless(t, start, steps);
        return true;
      }
      cursor := TreeParent(t, parent);
    }
    assert Up(t, start, steps + 1) == None;
    return false;
  }

  method CheckNoTreeCycles(t: Topo) returns (out: seq<Violation>)
    ensures forall v :: v in out <==> v.TreeCycle? && LiveNode(t, v.node) && Endless(t, v.node)
  {
    out := [];
    var rest := LiveNodes(t);
    while rest != {}
      invariant rest <= LiveNodes(t)
      invariant forall v :: v in out <==> v.TreeCycle? && v.node in LiveNodes(t) - rest && Endless(t, v.node)
    {
      var start :| start in rest;
      var flagged := WalkNeverEnds(t, start);
      if flagged { out := out + [TreeCycle(start)]; }
      rest := rest - {start};
    }
  }

  method CheckNoOrphanEdges(t: Topo) returns (out: seq<Violation>)
    ensures forall v :: v in out <==> v.OrphanEdge? && Dangles(t, v.edge, v.endpoint)
  {
    out := [];
    var rest := LiveEdges(t);
    while rest != {}
      invariant rest <= LiveEdges(t)
      invariant forall v :: v in out <==> v.OrphanEdge? && v.edge !in rest && Dangles(t, v.edge, v.endpoint)
    {
      var e :| e in rest;
      var from, to := t.edges[e].from, t.edges[e].to;
      if !LiveNode(t, from) { out := out + [OrphanEdge(e, from)]; }
      if !LiveNode(t, to) { out := out + [OrphanEdge(e, to)]; }
      rest := rest - {e};
    }
  }

  /**
   * Exact on every topology: a report for each live node whose chain never ends and for each
   * dead endpoint of a live edge, nothing else, so an empty report is the same as well-formedness.
   */
  method CheckTopology(t: Topo) returns (out: seq<Violation>)
    ensures forall v :: v in out <==>
      match v
      case TreeCycle(n) => LiveNode(t, n) && Endless(t, n)
      case OrphanEdge(e, n) => Dangles(t, e, n)
    ensures out == [] <==> WellFormed(t)
  {
    var cycles := CheckNoTreeCycles(t);
    var orphans := CheckNoOrphanEdges(t);
    out := cycles + orphans;
    AcyclicIffChainsEnd(t);
    if out != [] {
      assert out[0] in out;
    } else {
      forall id | LiveNode(t, id) ensures !Endless(t, id) { assert TreeCycle(id) !in out; }
      forall e | LiveEdge(t, e) ensures LiveNode(t, t.edges[e].from) && LiveNode(t, t.edges[e].to) {
        assert OrphanEdge(e, t.edges[e].from) !in out && OrphanEdge(e, t.edges[e].to) !in out;
      }
    }
  }
}
