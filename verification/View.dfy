/** Traversals over the live graph (`kyoso_graph_crdt::view`). */
module View {
  import opened Sequences
  import opened Wrappers
  import opened Ids
  import opened Topology
  import opened Reachability

  // ---- Repetition on a parent chain ----

  /** Once a chain has come back to a node it never ends and shows nothing new. */
  lemma {:induction false} ChainRepeats(t: Topo, id: CrdtId, j: nat, m: nat, k: nat)
    requires j < m && Up(t, id, j).Some? && Up(t, id, m) == Up(t, id, j)
    ensures exists i: nat :: i < m && Up(t, id, k) == Up(t, id, i)
    ensures Up(t, id, k).Some?
    decreases k
  {
    if k < m {
      if Up(t, id, k) == None { UpEnded(t, id, k, m); }
    } else {
      UpAdd(t, id, m, k - m);
      UpAdd(t, id, j, k - m);
      assert Up(t, id, k) == Up(t, id, j + (k - m));
      ChainRepeats(t, id, j, m, j + (k - m));
    }
  }

  /** On an acyclic topology no node occurs twice on a chain. */
  lemma ChainInjective(t: Topo, id: CrdtId, j: nat, m: nat)
    requires Acyclic(t) && j < m && Up(t, id, j).Some?
    ensures Up(t, id, m) != Up(t, id, j)
  {
    UpAdd(t, id, j, m - j);
  }

  // ---- The cycle test ----

  method WouldCreateCycle(t: Topo, target: CrdtId, proposed: CrdtId) returns (r: bool)
    requires Acyclic(t)
    ensures r == WouldCycle(t, target, proposed)
    ensures r <==> exists k: nat :: Up(t, proposed, k) == Some(target)
  {
    if target == proposed {
      assert Up(t, proposed, 0) == Some(target);
      return true;
    }
    var cursor := Some(proposed);
    ghost var k: nat := 0;
    ghost var seen: set<CrdtId> := {};
    while cursor.Some?
      invariant cursor == Up(t, proposed, k)
      invariant forall j: nat | j < k :: Up(t, proposed, j) != Some(target)
      invariant seen <= t.nodes.Keys
      invariant forall x | x in seen :: exists j: nat :: j < k && Up(t, proposed, j) == Some(x)
      decreases t.nodes.Keys - seen, cursor.Some?
    {
      var id := cursor.value;
      if id == target { return true; }
      if id in seen {
        var j: nat :| j < k && Up(t, proposed, j) == Some(id);
        ChainInjective(t, proposed, j, k);
      }
      if LiveNode(t, id) { seen := seen + {id}; }
      cursor := TreeParent(t, id);
      k := k + 1;
    }
    forall j: nat ensures Up(t, proposed, j) != Some(target) {
      if j >= k { UpEnded(t, proposed, k, j); }
    }
    return false;
  }

  // ---- Ancestors ----

  ghost predicate ChainIs(t: Topo, start: CrdtId, out: seq<CrdtId>) {
    forall i: nat :: i < |out| ==> Up(t, start, i + 1) == Some(out[i])
  }

  /**
   * The proper ancestors, nearest first, each once. It ends on every topology: on one with a
   * parent loop the walk stops where it would repeat itself, and has then seen every ancestor.
   */
  method Ancestors(t: Topo, start: CrdtId) returns (out: seq<CrdtId>)
    ensures ChainIs(t, start, out) && NoDup(out)
    ensures forall x :: x in out <==> x != start && OnChain(t, start, x)
    ensures Acyclic(t) ==> Up(t, start, |out| + 1) == None
  {
    out := [];
    var cursor := TreeParent(t, start);
    assert cursor == Up(t, start, 1) by { assert Up(t, start, 0) == Some(start); }
    ghost var seen: set<CrdtId> := {};
    while cursor.Some?
      invariant cursor == Up(t, start, |out| + 1)
      invariant ChainIs(t, start, out) && NoDup(out) && start !in out
      invariant seen <= t.nodes.Keys && forall x :: x in seen ==> x in out
      decreases t.nodes.Keys - seen, cursor.Some?
    {
      var id := cursor.value;
      if id in out || id == start {
        RepeatsSeen(t, start, out, id);
        return;
      }
      if LiveNode(t, id) { seen := seen + {id}; }
      out := out + [id];
      cursor := TreeParent(t, id);
    }
    EndedSeen(t, start, out);
  }

  /** The walk has come back to a node it has seen: nothing is missing, and there is a loop. */
  lemma RepeatsSeen(t: Topo, start: CrdtId, out: seq<CrdtId>, id: CrdtId)
    requires ChainIs(t, start, out) && start !in out
    requires Up(t, start, |out| + 1) == Some(id) && (id in out || id == start)
    ensures forall x :: x in out <==> x != start && OnChain(t, start, x)
    ensures !Acyclic(t)
  {
    var m := |out| + 1;
    var j: nat :| j < m && Up(t, start, j) == Some(id) by {
      if id == start { assert Up(t, start, 0) == Some(id); }
      else { var i :| 0 <= i < |out| && out[i] == id; assert Up(t, start, i + 1) == Some(id); }
    }
    UpAdd(t, start, j, m - j);
    assert Up(t, id, m - j) == Some(id);
    forall x ensures x in out <==> x != start && OnChain(t, start, x) {
      if x in out {
        var i :| 0 <= i < |out| && out[i] == x;
        assert Up(t, start, i + 1) == Some(x);
      }
      if x != start && OnChain(t, start, x) {
        var k: nat :| Up(t, start, k) == Some(x);
        ChainRepeats(t, start, j, m, k);
        var i: nat :| i < m && Up(t, start, k) == Up(t, start, i);
        if i > 0 { assert Up(t, start, i - 1 + 1) == Some(out[i - 1]); }
      }
    }
  }

  lemma EndedSeen(t: Topo, start: CrdtId, out: seq<CrdtId>)
    requires ChainIs(t, start, out) && start !in out && Up(t, start, |out| + 1) == None
    ensures forall x :: x in out <==> x != start && OnChain(t, start, x)
  {
    forall x ensures x in out <==> x != start && OnChain(t, start, x) {
      if x in out {
        var i :| 0 <= i < |out| && out[i] == x;
        assert Up(t, start, i + 1) == Some(x);
      }
      if x != start && OnChain(t, start, x) {
        var k: nat :| Up(t, start, k) == Some(x);
        if k > |out| { UpEnded(t, start, |out| + 1, k); }
        if k > 0 { assert Up(t, start, k - 1 + 1) == Some(out[k - 1]); }
      }
    }
  }

  // ---- Descendants ----

  ghost predicate ChildrenSeen(t: Topo, n: CrdtId, out: seq<CrdtId>) {
    forall c | LiveNode(t, c) && TreeParent(t, c) == Some(n) :: c in out
  }

  /** A list that holds the root and the children of its members holds all below the root. */
  lemma {:induction false} BelowSeen(t: Topo, root: CrdtId, out: seq<CrdtId>, x: CrdtId, k: nat)
    requires root in out
    requires forall n | n in out :: ChildrenSeen(t, n, out)
    requires Up(t, x, k) == Some(root)
    ensures x in out
    decreases k
  {
    if k > 0 {
      if TreeParent(t, x) == None {
        assert Up(t, x, 0) == Some(x);
        assert Up(t, x, 1) == None;
        UpEnded(t, x, 1, k);
      } else {
        var p := TreeParent(t, x).value;
        UpStep(t, x, k - 1);
        BelowSeen(t, root, out, p, k - 1);
        assert ChildrenSeen(t, p, out);
      }
    }
  }

  lemma ChildOnChain(t: Topo, c: CrdtId, n: CrdtId, root: CrdtId)
    requires TreeParent(t, c) == Some(n) && OnChain(t, n, root)
    ensures OnChain(t, c, root)
  {
    var k: nat :| Up(t, n, k) == Some(root);
    UpStep(t, c, k);
    assert Up(t, c, k + 1) == Some(root);
  }

  /** Exactly the nodes whose parent chain meets `root`, each once, whatever order the hash map is read in. */
  method Descendants(t: Topo, root: CrdtId) returns (out: seq<CrdtId>)
    ensures NoDup(out)
    ensures forall x :: x in out <==> OnChain(t, x, root)
  {
    out := [root];
    var frontier := [root];
    ghost var all := LiveNodes(t) + {root};
    assert Up(t, root, 0) == Some(root);
    while frontier != []
      invariant NoDup(out) && root in out
      invariant forall x | x in out :: x in all && OnChain(t, x, root)
      invariant forall x | x in frontier :: x in out
      invariant forall n | n in out :: n in frontier || ChildrenSeen(t, n, out)
      decreases all - (set x | x in out), |frontier|
    {
      var n := frontier[|frontier| - 1];
      ghost var before, waiting := out, frontier;
      frontier := frontier[..|frontier| - 1];
      assert forall x | x in waiting :: x == n || x in frontier;
      var rest := LiveNodes(t);
      while rest != {}
        invariant rest <= LiveNodes(t)
        invariant NoDup(out) && n in out && before <= out
        invariant out == before ==> frontier == waiting[..|waiting| - 1]
        invariant forall x | x in out :: x in all && OnChain(t, x, root)
        invariant forall x | x in frontier :: x in out
        invariant forall x | x in out :: x == n || x in frontier || ChildrenSeen(t, x, out)
        invariant forall c | c in LiveNodes(t) - rest && TreeParent(t, c) == Some(n) :: c in out
        decreases rest
      {
        var candidate :| candidate in rest;
        if TreeParent(t, candidate) == Some(n) && candidate !in out {
          ChildOnChain(t, candidate, n, root);
          out := out + [candidate];
          frontier := frontier + [candidate];
        }
        rest := rest - {candidate};
      }
      assert ChildrenSeen(t, n, out);
      if out != before {
        var added := out[|before|];
        assert added in all - (set x | x in before) && added in out;
        assert all - (set x | x in out) < all - (set x | x in before);
      }
    }
    forall x | OnChain(t, x, root) ensures x in out {
      var k: nat :| Up(t, x, k) == Some(root);
      BelowSeen(t, root, out, x, k);
    }
  }

  // ---- Undirected components ----

  predicate EdgeOut(t: Topo, e: CrdtId, a: CrdtId, b: CrdtId) {
    LiveEdge(t, e) && t.edges[e].from == a && t.edges[e].to == b && LiveNode(t, b)
  }

  predicate EdgeIn(t: Topo, e: CrdtId, a: CrdtId, b: CrdtId) {
    LiveEdge(t, e) && t.edges[e].to == a && t.edges[e].from == b && LiveNode(t, b)
  }

  ghost predicate Linked(t: Topo, a: CrdtId, b: CrdtId) {
    exists e :: EdgeOut(t, e, a, b) || EdgeIn(t, e, a, b)
  }

  ghost function Link(t: Topo): (CrdtId, CrdtId) -> bool {
    (a, b) => Linked(t, a, b)
  }

  /** Connected by a walk over live edges, in either direction, to live nodes. */
  ghost predicate Connected(t: Topo, a: CrdtId, b: CrdtId) {
    Reach(Link(t), a, b)
  }

  method Outgoing(t: Topo, n: CrdtId) returns (r: seq<(CrdtId, CrdtId)>)
    ensures forall e, b :: (e, b) in r <==> EdgeOut(t, e, n, b)
  {
    r := [];
    var rest := LiveEdges(t);
    while rest != {}
      invariant rest <= LiveEdges(t)
      invariant forall e, b :: (e, b) in r <==> e !in rest && EdgeOut(t, e, n, b)
    {
      var e :| e in rest;
      var rec := t.edges[e];
      if rec.from == n && LiveNode(t, rec.to) { r := r + [(e, rec.to)]; }
      rest := rest - {e};
    }
  }

  method Incoming(t: Topo, n: CrdtId) returns (r: seq<(CrdtId, CrdtId)>)
    ensures forall e, b :: (e, b) in r <==> EdgeIn(t, e, n, b)
  {
    r := [];
    var rest := LiveEdges(t);
    while rest != {}
      invariant rest <= LiveEdges(t)
      invariant forall e, b :: (e, b) in r <==> e !in rest && EdgeIn(t, e, n, b)
    {
      var e :| e in rest;
      var rec := t.edges[e];
      if rec.to == n && LiveNode(t, rec.from) { r := r + [(e, rec.from)]; }
      rest := rest - {e};
    }
  }

  ghost predicate LinkedSeen(t: Topo, n: CrdtId, out: seq<CrdtId>) {
    forall b | Linked(t, n, b) :: b in out
  }

  /** Appends to both lists the neighbours that are new. */
  method Discover(neighbours: seq<(CrdtId, CrdtId)>, out: seq<CrdtId>, frontier: seq<CrdtId>)
    returns (out': seq<CrdtId>, frontier': seq<CrdtId>)
    requires NoDup(out)
    ensures NoDup(out')
    ensures |out| <= |out'| && out'[..|out|] == out && frontier' == frontier + out'[|out|..]
    ensures forall x | x in out'[|out|..] :: exists i :: 0 <= i < |neighbours| && neighbours[i].1 == x
    ensures forall i | 0 <= i < |neighbours| :: neighbours[i].1 in out'
  {
    out', frontier' := out, frontier;
    ghost var added: seq<CrdtId> := [];
    for i := 0 to |neighbours|
      invariant NoDup(out') && out' == out + added && frontier' == frontier + added
      invariant forall x | x in added :: exists j :: 0 <= j < |neighbours| && neighbours[j].1 == x
      invariant forall j | 0 <= j < i :: neighbours[j].1 in out'
    {
      var neighbour := neighbours[i].1;
      if neighbour !in out' {
        out', frontier' := out' + [neighbour], frontier' + [neighbour];
        added := added + [neighbour];
      }
    }
    assert out'[|out|..] == added;
  }

  lemma LinkedSeenAll(t: Topo, n: CrdtId, outgoing: seq<(CrdtId, CrdtId)>, incoming: seq<(CrdtId, CrdtId)>,
                      out: seq<CrdtId>)
    requires forall e, b :: (e, b) in outgoing <==> EdgeOut(t, e, n, b)
    requires forall e, b :: (e, b) in incoming <==> EdgeIn(t, e, n, b)
    requires forall i | 0 <= i < |outgoing| :: outgoing[i].1 in out
    requires forall i | 0 <= i < |incoming| :: incoming[i].1 in out
    ensures LinkedSeen(t, n, out)
  {
    forall b | Linked(t, n, b) ensures b in out {
      var e :| EdgeOut(t, e, n, b) || EdgeIn(t, e, n, b);
      assert (e, b) in outgoing || (e, b) in incoming;
    }
  }

  lemma LinkedFrom(t: Topo, n: CrdtId, outgoing: seq<(CrdtId, CrdtId)>, incoming: seq<(CrdtId, CrdtId)>, x: CrdtId)
    requires forall e, b :: (e, b) in outgoing <==> EdgeOut(t, e, n, b)
    requires forall e, b :: (e, b) in incoming <==> EdgeIn(t, e, n, b)
    requires (exists i :: 0 <= i < |outgoing| && outgoing[i].1 == x)
      || (exists i :: 0 <= i < |incoming| && incoming[i].1 == x)
    ensures Linked(t, n, x) && LiveNode(t, x)
  {
    if i :| 0 <= i < |outgoing| && outgoing[i].1 == x {
      assert (outgoing[i].0, x) == outgoing[i] && outgoing[i] in outgoing;
      assert EdgeOut(t, outgoing[i].0, n, x);
    } else {
      var i :| 0 <= i < |incoming| && incoming[i].1 == x;
      assert (incoming[i].0, x) == incoming[i] && incoming[i] in incoming;
      assert EdgeIn(t, incoming[i].0, n, x);
    }
  }

  /** Both loops of the component walk for one node. */
  method Expand(t: Topo, n: CrdtId, out: seq<CrdtId>, frontier: seq<CrdtId>)
    returns (out': seq<CrdtId>, frontier': seq<CrdtId>)
    requires NoDup(out)
    ensures NoDup(out') && LinkedSeen(t, n, out')
    ensures |out| <= |out'| && out'[..|out|] == out && frontier' == frontier + out'[|out|..]
    ensures forall x | x in out'[|out|..] :: Linked(t, n, x) && LiveNode(t, x)
  {
    var outgoing := Outgoing(t, n);
    out', frontier' := Discover(outgoing, out, frontier);
    ghost var mid := out';
    var incoming := Incoming(t, n);
    out', frontier' := Discover(incoming, out', frontier');
    assert forall i | 0 <= i < |outgoing| :: outgoing[i].1 in mid && mid == out'[..|mid|];
    LinkedSeenAll(t, n, outgoing, incoming, out');
    assert out'[|out|..] == mid[|out|..] + out'[|mid|..];
    forall x | x in out'[|out|..] ensures Linked(t, n, x) && LiveNode(t, x) {
      LinkedFrom(t, n, outgoing, incoming, x);
    }
  }

  /** What the component walk keeps: all found is connected, and all found is waiting or expanded. */
  ghost predicate Exploring(t: Topo, start: CrdtId, out: seq<CrdtId>, frontier: seq<CrdtId>) {
    && NoDup(out) && start in out
    && (forall x | x in out :: Connected(t, start, x))
    && (forall x | x in out :: x == start || LiveNode(t, x))
    && (forall x | x in frontier :: x in out)
    && (forall n | n in out :: n in frontier || LinkedSeen(t, n, out))
  }

  ghost function Unfound(t: Topo, start: CrdtId, out: seq<CrdtId>): set<CrdtId> {
    (LiveNodes(t) + {start}) - (set x | x in out)
  }

  lemma ExploringStep(t: Topo, start: CrdtId, n: CrdtId, out: seq<CrdtId>, rest: seq<CrdtId>, added: seq<CrdtId>)
    requires Exploring(t, start, out, rest + [n])
    requires NoDup(out + added) && LinkedSeen(t, n, out + added)
    requires forall x | x in added :: Linked(t, n, x) && LiveNode(t, x)
    ensures Exploring(t, start, out + added, rest + added)
    ensures added != [] ==> Unfound(t, start, out + added) < Unfound(t, start, out)
  {
    assert n in rest + [n] && Connected(t, start, n);
    forall x | x in added ensures Connected(t, start, x) { ReachStep(Link(t), start, n, x); }
    forall m | m in out + added ensures m in rest + added || LinkedSeen(t, m, out + added) {
      if m in out && m != n && m !in rest { assert m !in rest + [n] && LinkedSeen(t, m, out); }
    }
    if added != [] {
      assert (out + added)[|out|] == added[0];
      assert added[0] !in out by {
        forall i | 0 <= i < |out| ensures out[i] != added[0] { assert (out + added)[i] == out[i]; }
      }
      assert added[0] in added && LiveNode(t, added[0]);
      assert added[0] in Unfound(t, start, out) && added[0] !in Unfound(t, start, out + added);
    }
  }

  /** Exactly what is connected to `start`, each once. */
  method ConnectedComponent(t: Topo, start: CrdtId) returns (out: seq<CrdtId>)
    ensures NoDup(out)
    ensures forall x :: x in out <==> Connected(t, start, x)
  {
    out := [start];
    var frontier := [start];
    assert ReachIn(Link(t), start, start, 0);
    while frontier != []
      invariant Exploring(t, start, out, frontier)
      decreases Unfound(t, start, out), |frontier|
    {
      var n := frontier[|frontier| - 1];
      var rest := frontier[..|frontier| - 1];
      assert frontier == rest + [n];
      ghost var before := out;
      out, frontier := Expand(t, n, out, rest);
      ghost var added := out[|before|..];
      assert out == before + added;
      ExploringStep(t, start, n, before, rest, added);
    }
    forall x | Connected(t, start, x) ensures x in out {
      var k: nat :| ReachIn(Link(t), start, x, k);
      ClosedContains(Link(t), a => a in out, start, x, k);
    }
  }

  /** Sharing a component is an equivalence on live nodes, so the components partition them. */
  lemma ComponentsPartition(t: Topo, a: CrdtId, b: CrdtId, c: CrdtId)
    requires LiveNode(t, a) && LiveNode(t, b) && LiveNode(t, c)
    ensures Connected(t, a, a)
    ensures Connected(t, a, b) <==> Connected(t, b, a)
    ensures Connected(t, a, b) && Connected(t, b, c) ==> Connected(t, a, c)
  {
    var step := Link(t);
    assert ReachIn(step, a, a, 0);
    ConnectedBack(t, a, b);
    ConnectedBack(t, b, a);
    if Connected(t, a, b) && Connected(t, b, c) { ReachTransitive(step, a, b, c); }
  }

  lemma ConnectedBack(t: Topo, a: CrdtId, b: CrdtId)
    requires LiveNode(t, a)
    ensures Connected(t, a, b) ==> Connected(t, b, a)
  {
    var step := Link(t);
    if k: nat :| ReachIn(step, a, b, k) {
      forall x, y | LiveNode(t, x) && step(x, y) ensures LiveNode(t, y) && step(y, x) {
        var e :| EdgeOut(t, e, x, y) || EdgeIn(t, e, x, y);
        assert EdgeOut(t, e, y, x) || EdgeIn(t, e, y, x);
      }
      ReachInBack(step, x => LiveNode(t, x), a, b, k);
    }
  }
}
