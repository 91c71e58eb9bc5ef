/**
 * Subgraph patterns and the greedy join planner (`kyoso_graph::pattern`). Slots and pattern
 * edges are numbered in the order the builder handed them out.
 */
module Pattern {
  import opened Ecs
  import opened Sequences
  import opened Wrappers
  import opened Sorting
  import opened Reachability

  datatype Direction = Forward | Backward

  datatype SearchDir = Outgoing | Incoming

  datatype NodeDef = NodeDef(pred: Entity -> bool, anchor: Option<Entity>)

  datatype EdgeDef = EdgeDef(from: nat, to: nat, direction: Direction, pred: Option<Entity -> bool>)

  datatype Shape = Shape(nodes: seq<NodeDef>, edges: seq<EdgeDef>)

  datatype JoinSpec = JoinSpec(edge: nat, anchorSlot: nat, search: SearchDir)

  datatype ConstraintEdge = ConstraintEdge(edge: nat, fromSlot: nat, toSlot: nat, direction: Direction)

  datatype PlanStep = PlanStep(slot: nat, join: Option<JoinSpec>, constraints: seq<ConstraintEdge>)

  /** The slot whose binding the matched graph edge leaves. */
  function Source(e: EdgeDef): nat {
    if e.direction.Forward? then e.from else e.to
  }

  /** The slot whose binding the matched graph edge enters. */
  function Target(e: EdgeDef): nat {
    if e.direction.Forward? then e.to else e.from
  }

  // ---- Patterns the planner accepts ----

  predicate IsLoop(e: EdgeDef) {
    e.from == e.to
  }

  predicate Loopless(p: Shape) {
    forall e | 0 <= e < |p.edges| :: !IsLoop(p.edges[e])
  }

  predicate Touch(p: Shape, i: nat, j: nat) {
    exists e :: 0 <= e < |p.edges| && Joins(p.edges[e], i, j)
  }

  predicate Joins(e: EdgeDef, i: nat, j: nat) {
    (e.from == i && e.to == j) || (e.from == j && e.to == i)
  }

  ghost predicate Together(p: Shape, i: nat, j: nat) {
    Reach(TouchStep(p), i, j)
  }

  ghost function TouchStep(p: Shape): (nat, nat) -> bool {
    (a: nat, b: nat) => Touch(p, a, b)
  }

  /** Edges name slots of the pattern: what the builder's slot handles guarantee. */
  predicate InRange(p: Shape) {
    forall e | 0 <= e < |p.edges| :: p.edges[e].from < |p.nodes| && p.edges[e].to < |p.nodes|
  }

  /** At least one slot, and all slots in one piece. */
  ghost predicate OnePiece(p: Shape) {
    p.nodes != [] && forall i: nat, j: nat | i < |p.nodes| && j < |p.nodes| :: Together(p, i, j)
  }

  // ---- Scores ----

  function Degree(edges: seq<EdgeDef>, i: nat): nat {
    if edges == [] then 0 else
      var e := edges[|edges| - 1];
      Degree(edges[..|edges| - 1], i) + if e.from == i || e.to == i then 1 else 0
  }

  function EdgesAt(edges: seq<EdgeDef>, i: nat): set<nat> {
    set e: nat | e < |edges| && (edges[e].from == i || edges[e].to == i)
  }

  /** The degree of a slot is the number of pattern edges at it; a loop counts once. */
  lemma {:induction false} DegreeCounts(edges: seq<EdgeDef>, i: nat)
    ensures Degree(edges, i) == |EdgesAt(edges, i)|
  {
    if edges == [] {
      assert EdgesAt(edges, i) == {};
    } else {
      var l := |edges| - 1;
      DegreeCounts(edges[..l], i);
      assert EdgesAt(edges, i) == EdgesAt(edges[..l], i) + if edges[l].from == i || edges[l].to == i then {l} else {};
    }
  }

  predicate Counts(e: EdgeDef, placed: seq<bool>, i: nat) {
    && e.from < |placed| && e.to < |placed|
    && ((e.from == i && placed[e.to]) || (e.to == i && placed[e.from]))
  }

  function JoinCount(edges: seq<EdgeDef>, placed: seq<bool>, i: nat): nat {
    if edges == [] then 0 else
      JoinCount(edges[..|edges| - 1], placed, i) + if Counts(edges[|edges| - 1], placed, i) then 1 else 0
  }

  lemma {:induction false} JoinCountPositive(edges: seq<EdgeDef>, placed: seq<bool>, i: nat)
    ensures JoinCount(edges, placed, i) > 0 <==> exists e :: 0 <= e < |edges| && Counts(edges[e], placed, i)
  {
    if edges == [] {
    } else {
      var m := |edges| - 1;
      JoinCountPositive(edges[..m], placed, i);
      if e :| 0 <= e < |edges| && Counts(edges[e], placed, i) {
        if e < m { assert Counts(edges[..m][e], placed, i); }
      }
      if e :| 0 <= e < m && Counts(edges[..m][e], placed, i) { assert Counts(edges[e], placed, i); }
    }
  }

  function EdgesTo(edges: seq<EdgeDef>, before: seq<nat>, i: nat): set<nat> {
    set e: nat | e < |edges|
      && ((edges[e].from == i && edges[e].to in before) || (edges[e].to == i && edges[e].from in before))
  }

  /** The joins of a slot are the pattern edges between it and placed slots. */
  lemma {:induction false} JoinsCount(edges: seq<EdgeDef>, before: seq<nat>, n: nat, i: nat)
    requires forall e | e in edges :: e.from < n && e.to < n
    ensures JoinCount(edges, Flags(before, n), i) == |EdgesTo(edges, before, i)|
  {
    if edges == [] {
      assert EdgesTo(edges, before, i) == {};
    } else {
      var l := |edges| - 1;
      assert edges[l] in edges && forall e | e in edges[..l] :: e in edges;
      JoinsCount(edges[..l], before, n, i);
      assert EdgesTo(edges, before, i) ==
        EdgesTo(edges[..l], before, i) + if Counts(edges[l], Flags(before, n), i) then {l} else {};
    }
  }

  /** More joins to placed slots, or as many and a higher degree. */
  predicate Beats(j: nat, d: nat, j': nat, d': nat) {
    j > j' || (j == j' && d > d')
  }

  // ---- The order of slots ----

  function Flags(order: seq<nat>, n: nat): seq<bool> {
    seq(n, i => i in order)
  }

  /** The first anchored slot if there is one, else the last slot of the highest degree. */
  predicate StartsWell(p: Shape, first: nat) {
    && first < |p.nodes|
    && if exists i :: 0 <= i < |p.nodes| && p.nodes[i].anchor.Some? then
         p.nodes[first].anchor.Some? && forall i | 0 <= i < first :: p.nodes[i].anchor.None?
       else
         forall i: nat | i < |p.nodes| ::
           Degree(p.edges, i) <= Degree(p.edges, first) && (i > first ==> Degree(p.edges, i) < Degree(p.edges, first))
  }

  /**
   * Of the unplaced slots one with most joins to placed ones, of those one with the highest degree, and
   * of those the first.
   */
  predicate PicksBest(p: Shape, before: seq<nat>, pick: nat) {
    var placed := Flags(before, |p.nodes|);
    var joins, degree := JoinCount(p.edges, placed, pick), Degree(p.edges, pick);
    && pick < |p.nodes| && pick !in before
    && forall i: nat | i < |p.nodes| && i !in before ::
         || JoinCount(p.edges, placed, i) < joins
         || (JoinCount(p.edges, placed, i) == joins && Degree(p.edges, i) < degree)
         || (JoinCount(p.edges, placed, i) == joins && Degree(p.edges, i) == degree && pick <= i)
  }

  ghost predicate Greedy(p: Shape, order: seq<nat>) {
    && |order| >= 1 && NoDup(order) && (forall x | x in order :: x < |p.nodes|)
    && StartsWell(p, order[0])
    && forall k | 1 <= k < |order| :: PicksBest(p, order[..k], order[k])
  }

  method PickFirst(p: Shape) returns (first: nat)
    requires p.nodes != []
    ensures StartsWell(p, first)
  {
    var i := 0;
    while i < |p.nodes|
      invariant 0 <= i <= |p.nodes|
      invariant forall j | 0 <= j < i :: p.nodes[j].anchor.None?
    {
      if p.nodes[i].anchor.Some? { return i; }
      i := i + 1;
    }
    first := 0;
    i := 1;
    while i < |p.nodes|
      invariant 1 <= i <= |p.nodes| && first < i
      invariant forall j: nat | j < i :: Degree(p.edges, j) <= Degree(p.edges, first)
      invariant forall j: nat | first < j < i :: Degree(p.edges, j) < Degree(p.edges, first)
    {
      if Degree(p.edges, i) >= Degree(p.edges, first) { first := i; }
      i := i + 1;
    }
  }

  /** One round of the greedy loop. */
  method PickNext(p: Shape, placed: array<bool>, ghost order: seq<nat>) returns (pick: nat)
    requires placed[..] == Flags(order, |p.nodes|)
    requires exists i: nat :: i < |p.nodes| && i !in order
    ensures PicksBest(p, order, pick)
  {
    var n := |p.nodes|;
    assert placed.Length == |placed[..]| == n;
    assert forall j: nat | j < n :: placed[j] == placed[..][j] == (j in order);
    var best: Option<(nat, nat, nat)> := None;
    var i: nat := 0;
    while i < n
      invariant i <= n
      invariant best.None? ==> forall j: nat | j < i :: j in order
      invariant best.Some? ==>
        && best.value.0 < i && best.value.0 !in order
        && best.value.1 == JoinCount(p.edges, Flags(order, n), best.value.0)
        && best.value.2 == Degree(p.edges, best.value.0)
        && forall j: nat | j < i && j !in order ::
             && !Beats(JoinCount(p.edges, Flags(order, n), j), Degree(p.edges, j), best.value.1, best.value.2)
             && (j < best.value.0 ==>
               Beats(best.value.1, best.value.2, JoinCount(p.edges, Flags(order, n), j), Degree(p.edges, j)))
    {
      if !placed[i] {
        var joins, degree := JoinCount(p.edges, placed[..], i), Degree(p.edges, i);
        if best.None? || Beats(joins, degree, best.value.1, best.value.2) {
          best := Some((i, joins, degree));
        }
      }
      i := i + 1;
    }
    pick := best.value.0;
  }

  /** A sequence that holds every number below `n` has at least `n` members. */
  lemma {:induction false} HoldsAll(s: seq<nat>, n: nat)
    requires forall i: nat | i < n :: i in s
    ensures |s| >= n
    decreases n
  {
    if n > 0 {
      var last: nat := n - 1;
      assert last in s;
      var k :| 0 <= k < |s| && s[k] == last;
      var rest := s[..k] + s[k + 1..];
      forall i: nat | i < n - 1 ensures i in rest {
        assert i in s;
        var j :| 0 <= j < |s| && s[j] == i;
        assert rest[if j < k then j else j - 1] == i;
      }
      HoldsAll(rest, n - 1);
    }
  }

  lemma ShortMisses(order: seq<nat>, n: nat)
    requires |order| < n
    ensures exists i: nat :: i < n && i !in order
  {
    if forall i: nat | i < n :: i in order { HoldsAll(order, n); }
  }

  method ComputeOrder(p: Shape) returns (order: seq<nat>)
    requires p.nodes != []
    ensures |order| == |p.nodes| && Greedy(p, order)
  {
    var n := |p.nodes|;
    var placed := new bool[n](_ => false);
    var first := PickFirst(p);
    order := [first];
    placed[first] := true;
    while |order| < n
      invariant 1 <= |order| <= n && Greedy(p, order)
      invariant placed[..] == Flags(order, n)
    {
      ShortMisses(order, n);
      var pick := PickNext(p, placed, order);
      ghost var before := order;
      order := order + [pick];
      placed[pick] := true;
      assert forall k | 1 <= k < |before| :: order[..k] == before[..k];
      assert order[..|before|] == before;
    }
  }
}
