module MatchSemantics {
  // The listed matches against the documented ones: where the search of `kyoso_graph::subgraph` meets
  // the semantics its documentation states, and exactly when it does not.

  import opened Ecs
  import opened Sequences
  import opened Wrappers
  import opened Pattern
  import opened Plan
  import opened Search
  import opened Enumeration
  import opened Matches
  import opened Exactness

  /** What the search promises instead of `IsMatch`: only the first anchor is met. */
  ghost predicate IsLooseMatch(g: Graph, p: Shape, m: Match) {
    Embeds(g, p, m) && FirstAnchored(p, m) && NoDup(m.edges)
  }

  /** Both pattern edges ask for an edge from the same slot to the same slot. */
  predicate Parallel(p: Shape, e: nat, f: nat) {
    && e < |p.edges| && f < |p.edges|
    && Source(p.edges[e]) == Source(p.edges[f]) && Target(p.edges[e]) == Target(p.edges[f])
  }

  predicate NoParallel(p: Shape) {
    forall e: nat, f: nat | e < f < |p.edges| :: !Parallel(p, e, f)
  }

  predicate AtMostOneAnchor(p: Shape) {
    forall r, s | 0 <= r < s < |p.nodes| :: p.nodes[r].anchor.None? || p.nodes[s].anchor.None?
  }

  /** A pattern without loops and a plan the planner may make for it. */
  ghost predicate Searchable(p: Shape, steps: seq<PlanStep>) {
    InRange(p) && Loopless(p) && ValidPlan(p, steps) && Greedy(p, Slots(steps))
  }

  lemma LooplessEmbeds(g: Graph, p: Shape, m: Match)
    requires Loopless(p)
    ensures Embeds(g, p, m) <==> EmbedsBarLoops(g, p, m)
  {
  }

  // ---- Distinct edges ----

  lemma {:induction false} EmbeddedApart(g: Graph, p: Shape, m: Match)
    requires Consistent(g) && Loopless(p) && NoParallel(p) && Embeds(g, p, m)
    ensures NoDup(m.edges)
  {
    forall e: nat, f: nat | e < f < |m.edges| ensures m.edges[e] != m.edges[f] {
      UnparallelApart(g, p, m, e, f);
    }
  }

  lemma ApartWithinStep(step: PlanStep, m: Match)
    requires StepInMatch(step, m) && NoDup(EdgesOf(step)) && NoDup(m.edges)
    ensures NoDup(ConstraintEdgesOf(step, m))
  {
    var shift := if step.join.Some? then 1 else 0;
    forall i, j | 0 <= i < j < |step.constraints| ensures step.constraints[i].edge != step.constraints[j].edge {
      assert EdgesOf(step)[i + shift] != EdgesOf(step)[j + shift];
    }
  }

  lemma ApartWithinSteps(p: Shape, steps: seq<PlanStep>, m: Match)
    requires ValidPlan(p, steps) && Sized(p, m) && NoDup(m.edges)
    ensures ConstraintsApart(steps, m)
  {
    forall k: nat | k < |steps| ensures StepInMatch(steps[k], m) && NoDup(ConstraintEdgesOf(steps[k], m)) {
      StepInSized(p, steps, k, m);
      FitsAt(p, steps, k);
      ApartWithinStep(steps[k], m);
    }
  }

  /** The edge a step joins by is also the first listed edge for its constraint `i`, which is parallel to the join. */
  predicate SharesJoin(g: Graph, p: Shape, step: PlanStep, i: nat, m: Match) {
    && i < |step.constraints| && step.join.Some?
    && var c, j := step.constraints[i], step.join.value;
       && Parallel(p, j.edge, c.edge) && j.edge < |m.edges| && c.fromSlot < |m.nodes| && c.toSlot < |m.nodes|
       && FindEdgeDir(g, m.nodes[c.fromSlot], m.nodes[c.toSlot], c.direction) == Some(m.edges[j.edge])
  }

  lemma JoinIsNoConstraint(step: PlanStep, i: nat)
    requires NoDup(EdgesOf(step)) && step.join.Some? && i < |step.constraints|
    ensures step.join.value.edge != step.constraints[i].edge
  {
    assert EdgesOf(step)[0] != EdgesOf(step)[i + 1];
  }

  /** The constraints of a step do not share an edge. */
  lemma ConstraintsApartAt(step: PlanStep, m: Match, x: nat, y: nat)
    requires StepInMatch(step, m) && NoDup(ConstraintEdgesOf(step, m)) && x < y < |EdgesOf(step)|
    requires step.join.None? || x > 0
    requires EdgesOf(step)[x] < |m.edges| && EdgesOf(step)[y] < |m.edges|
    ensures m.edges[EdgesOf(step)[x]] != m.edges[EdgesOf(step)[y]]
  {
    var es, shift := ConstraintEdgesOf(step, m), if step.join.Some? then 1 else 0;
    assert es[x - shift] != es[y - shift];
  }

  /** Where one step binds two pattern edges to one graph edge, one of them is its join. */
  lemma SharedWithinStep(g: Graph, p: Shape, steps: seq<PlanStep>, m: Match, k: nat, x: nat, y: nat)
    requires FirstFound(g, steps, m) && ConstraintsApart(steps, m) && k < |steps|
    requires x < y < |EdgesOf(steps[k])| && Parallel(p, EdgesOf(steps[k])[x], EdgesOf(steps[k])[y])
    requires EdgesOf(steps[k])[x] < |m.edges| && EdgesOf(steps[k])[y] < |m.edges|
    requires m.edges[EdgesOf(steps[k])[x]] == m.edges[EdgesOf(steps[k])[y]]
    ensures SharesJoin(g, p, steps[k], y - 1, m)
  {
    if steps[k].join.None? || x > 0 { ConstraintsApartAt(steps[k], m, x, y); }
    assert Takes(g, m, steps[k].constraints[y - 1]);
  }

  lemma ParallelBindsAt(p: Shape, order: seq<nat>, e: nat, f: nat)
    requires Parallel(p, e, f)
    ensures BindsAt(p, order, e) == BindsAt(p, order, f)
  {
  }

  /** One step binds parallel edges. */
  lemma ParallelTogether(p: Shape, steps: seq<PlanStep>, e: nat, f: nat) returns (k: nat)
    requires Searchable(p, steps) && Parallel(p, e, f)
    ensures k < |steps| && e in EdgesOf(steps[k]) && f in EdgesOf(steps[k])
  {
    var _ := SlotAt(p, steps, p.edges[e].from);
    EdgeBoundOnce(p, steps, e, 0);
    k := BindsAt(p, Slots(steps), e);
    ParallelBindsAt(p, Slots(steps), e, f);
    EdgeBoundOnce(p, steps, e, k);
    EdgeBoundOnce(p, steps, f, k);
  }

  lemma ParallelPlaces(p: Shape, steps: seq<PlanStep>, e: nat, f: nat) returns (k: nat, x: nat, y: nat)
    requires Searchable(p, steps) && e != f && Parallel(p, e, f)
    ensures k < |steps| && x < y < |EdgesOf(steps[k])|
    ensures (EdgesOf(steps[k])[x], EdgesOf(steps[k])[y]) in [(e, f), (f, e)]
  {
    k := ParallelTogether(p, steps, e, f);
    x :| 0 <= x < |EdgesOf(steps[k])| && EdgesOf(steps[k])[x] == e;
    y :| 0 <= y < |EdgesOf(steps[k])| && EdgesOf(steps[k])[y] == f;
    if y < x { x, y := y, x; }
  }

  lemma SharedJoinRepeats(g: Graph, p: Shape, steps: seq<PlanStep>, m: Match, k: nat, i: nat)
    requires ValidPlan(p, steps) && FirstFound(g, steps, m) && k < |steps| && SharesJoin(g, p, steps[k], i, m)
    ensures !NoDup(m.edges)
  {
    FitsAt(p, steps, k);
    JoinIsNoConstraint(steps[k], i);
    assert Takes(g, m, steps[k].constraints[i]);
  }

  lemma ListedParallel(g: Graph, p: Shape, steps: seq<PlanStep>, m: Match, e: nat, f: nat)
    requires Consistent(g) && Searchable(p, steps) && m in All(g, p, steps)
    requires e < f < |m.edges| && m.edges[e] == m.edges[f]
    ensures Parallel(p, e, f)
  {
    SearchExact(g, p, steps, m);
    SharedEdgeSharesEnds(g, p, m, e, f);
  }

  lemma ListedSharesJoin(g: Graph, p: Shape, steps: seq<PlanStep>, m: Match, k: nat, x: nat, y: nat)
    requires Consistent(g) && Searchable(p, steps) && m in All(g, p, steps)
    requires k < |steps| && x < y < |EdgesOf(steps[k])| && Parallel(p, EdgesOf(steps[k])[x], EdgesOf(steps[k])[y])
    requires EdgesOf(steps[k])[x] < |m.edges| && EdgesOf(steps[k])[y] < |m.edges|
    requires m.edges[EdgesOf(steps[k])[x]] == m.edges[EdgesOf(steps[k])[y]]
    ensures SharesJoin(g, p, steps[k], y - 1, m)
  {
    SearchExact(g, p, steps, m);
    SharedWithinStep(g, p, steps, m, k, x, y);
  }

  lemma RepeatSharesJoin(g: Graph, p: Shape, steps: seq<PlanStep>, m: Match, e: nat, f: nat) returns (k: nat, i: nat)
    requires Consistent(g) && Searchable(p, steps) && m in All(g, p, steps)
    requires e < f < |m.edges| && m.edges[e] == m.edges[f]
    ensures k < |steps| && SharesJoin(g, p, steps[k], i, m)
  {
    ListedParallel(g, p, steps, m, e, f);
    var x, y;
    k, x, y := ParallelPlaces(p, steps, e, f);
    ListedSharesJoin(g, p, steps, m, k, x, y);
    i := y - 1;
  }

  /**
   * On any consistent graph a listed match binds two pattern edges to one graph edge exactly when
   * some step's join edge is the first listed edge of a constraint parallel to the join: the join
   * edge is not yet in use while the constraints of its step are resolved.
   */
  lemma RepeatsIffJoinShared(g: Graph, p: Shape, steps: seq<PlanStep>, m: Match)
    requires Consistent(g) && Searchable(p, steps) && m in All(g, p, steps)
    ensures !NoDup(m.edges) <==> exists k: nat, i: nat :: k < |steps| && SharesJoin(g, p, steps[k], i, m)
  {
    SearchExact(g, p, steps, m);
    if k: nat, i: nat :| k < |steps| && SharesJoin(g, p, steps[k], i, m) {
      SharedJoinRepeats(g, p, steps, m, k, i);
    }
    if e: nat, f: nat :| e < f < |m.edges| && m.edges[e] == m.edges[f] {
      var k, i := RepeatSharesJoin(g, p, steps, m, e, f);
    }
  }

  /** With at most one edge between two nodes, matches repeat an edge exactly when the pattern has parallel edges. */
  lemma RepeatsIffParallel(g: Graph, p: Shape, steps: seq<PlanStep>, m: Match)
    requires Consistent(g) && Simple(g) && Searchable(p, steps) && m in All(g, p, steps)
    ensures NoDup(m.edges) <==> NoParallel(p)
  {
    SearchExact(g, p, steps, m);
    if NoParallel(p) { EmbeddedApart(g, p, m); }
    if e: nat, f: nat :| e < f < |p.edges| && Parallel(p, e, f) {
      assert EdgeFits(g, p, m, e) && EdgeFits(g, p, m, f);
    }
  }

  // ---- Exactness ----

  /**
   * On any consistent graph: the listed matches that repeat no edge are those whose constraints take
   * the first listed edge; those among them that meet all anchors are the documented matches that do.
   */
  lemma SearchFindsFirstListed(g: Graph, p: Shape, steps: seq<PlanStep>, m: Match)
    requires Consistent(g) && Searchable(p, steps)
    ensures m in All(g, p, steps) && NoDup(m.edges) <==> IsLooseMatch(g, p, m) && FirstFound(g, steps, m)
    ensures m in All(g, p, steps) && NoDup(m.edges) && AllAnchored(p, m) <==>
      IsMatch(g, p, m) && FirstFound(g, steps, m)
    ensures NoParallel(p) && m in All(g, p, steps) ==> NoDup(m.edges)
    ensures AtMostOneAnchor(p) && m in All(g, p, steps) ==> AllAnchored(p, m)
  {
    SearchExact(g, p, steps, m);
    LooplessEmbeds(g, p, m);
    if Embeds(g, p, m) && NoDup(m.edges) { ApartWithinSteps(p, steps, m); }
    if Embeds(g, p, m) && NoParallel(p) { EmbeddedApart(g, p, m); }
  }

  /** With at most one edge between two nodes, the first listed edge is the edge. */
  lemma OnlyEdgeIsFirst(g: Graph, e: Entity, a: Entity, b: Entity)
    requires Simple(g) && Arc(g, e, a, b)
    ensures FirstTo(g.outgoing(a), b) == Some(e)
  {
    FirstToSound(g.outgoing(a), b);
    if FirstTo(g.outgoing(a), b).Some? { assert Arc(g, FirstTo(g.outgoing(a), b).value, a, b); }
  }

  lemma SimpleTakesFirst(g: Graph, p: Shape, steps: seq<PlanStep>, m: Match)
    requires Consistent(g) && Simple(g) && ValidPlan(p, steps) && EmbedsBarLoops(g, p, m)
    ensures FirstFound(g, steps, m)
  {
    forall k: nat, i: nat | k < |steps| && i < |steps[k].constraints| ensures Takes(g, m, steps[k].constraints[i]) {
      var c := steps[k].constraints[i];
      ConstraintOfStep(p, steps, k, i);
      EdgeBoundOnce(p, steps, c.edge, k);
      assert EdgeFits(g, p, m, c.edge);
      OnlyEdgeIsFirst(g, m.edges[c.edge], m.nodes[Source(p.edges[c.edge])], m.nodes[Target(p.edges[c.edge])]);
    }
  }

  lemma ListedOnce(g: Graph, p: Shape, steps: seq<PlanStep>)
    requires Consistent(g) && InRange(p) && ValidPlan(p, steps)
    ensures NoDup(All(g, p, steps))
  {
    UnboundAt(p, steps);
    BelowDistinct(g, p, steps, 0, Unbound(p));
  }

  /**
   * On a simple graph every documented match is listed, once, and what else is listed repeats an edge
   * or misses an anchor. For a pattern without parallel edges and with at most one anchor nothing
   * else is listed.
   */
  lemma SearchFindsExactlyTheMatches(g: Graph, p: Shape, steps: seq<PlanStep>)
    requires Consistent(g) && Simple(g) && Searchable(p, steps)
    ensures NoDup(All(g, p, steps))
    ensures forall m :: IsMatch(g, p, m) <==> m in All(g, p, steps) && NoDup(m.edges) && AllAnchored(p, m)
    ensures forall m | m in All(g, p, steps) :: NoDup(m.edges) <==> NoParallel(p)
    ensures NoParallel(p) && AtMostOneAnchor(p) ==> forall m :: m in All(g, p, steps) <==> IsMatch(g, p, m)
  {
    ListedOnce(g, p, steps);
    forall m
      ensures IsMatch(g, p, m) <==> m in All(g, p, steps) && NoDup(m.edges) && AllAnchored(p, m)
      ensures m in All(g, p, steps) ==> (NoDup(m.edges) <==> NoParallel(p))
      ensures AtMostOneAnchor(p) && m in All(g, p, steps) ==> AllAnchored(p, m)
    {
      SearchFindsFirstListed(g, p, steps, m);
      if IsMatch(g, p, m) { SimpleTakesFirst(g, p, steps, m); }
      if m in All(g, p, steps) { RepeatsIffParallel(g, p, steps, m); }
    }
  }

  // ---- Loops on one slot ----

  /**
   * On a simple graph a pattern with loops but no parallel edges is matched as if it had no loops,
   * until a match is read.
   */
  lemma LoopsUnchecked(g: Graph, p: Shape, steps: seq<PlanStep>)
    requires Consistent(g) && Simple(g) && InRange(p) && ValidPlan(p, steps) && Greedy(p, Slots(steps)) && NoParallel(p)
    ensures All(g, p, steps) != [] <==> exists m :: EmbedsBarLoops(g, p, m) && FirstAnchored(p, m)
  {
    if m :| EmbedsBarLoops(g, p, m) && FirstAnchored(p, m) {
      SimpleTakesFirst(g, p, steps, m);
      BarLoopsApart(g, p, steps, m);
      SearchExact(g, p, steps, m);
    }
    if All(g, p, steps) != [] {
      SearchExact(g, p, steps, All(g, p, steps)[0]);
    }
  }

  /** Distinct constraints of a step are distinct pattern edges, and neither is a loop. */
  lemma ConstraintsDistinct(p: Shape, steps: seq<PlanStep>, k: nat, i: nat, j: nat)
    requires InRange(p) && ValidPlan(p, steps) && k < |steps| && i < j < |steps[k].constraints|
    ensures
      var e, f := steps[k].constraints[i].edge, steps[k].constraints[j].edge;
      && e < |p.edges| && f < |p.edges| && e != f && !IsLoop(p.edges[e]) && !IsLoop(p.edges[f])
  {
    FitsAt(p, steps, k);
    var shift := if steps[k].join.Some? then 1 else 0;
    assert EdgesOf(steps[k])[i + shift] != EdgesOf(steps[k])[j + shift];
    ConstraintOfStep(p, steps, k, i);
    ConstraintOfStep(p, steps, k, j);
    EdgeBoundOnce(p, steps, steps[k].constraints[i].edge, k);
    EdgeBoundOnce(p, steps, steps[k].constraints[j].edge, k);
  }

  lemma UnparallelApart(g: Graph, p: Shape, m: Match, e: nat, f: nat)
    requires Consistent(g) && NoParallel(p) && EmbedsBarLoops(g, p, m) && e < |p.edges| && f < |p.edges| && e != f
    requires !IsLoop(p.edges[e]) && !IsLoop(p.edges[f])
    ensures m.edges[e] != m.edges[f]
  {
    SharedEdgeSharesEnds(g, p, m, e, f);
    assert !Parallel(p, if e < f then e else f, if e < f then f else e);
  }

  lemma BarLoopsApart(g: Graph, p: Shape, steps: seq<PlanStep>, m: Match)
    requires Consistent(g) && ValidPlan(p, steps) && NoParallel(p) && EmbedsBarLoops(g, p, m)
    ensures ConstraintsApart(steps, m)
  {
    forall k: nat | k < |steps| ensures StepInMatch(steps[k], m) && NoDup(ConstraintEdgesOf(steps[k], m)) {
      StepInSized(p, steps, k, m);
      forall i: nat, j: nat | i < j < |steps[k].constraints|
        ensures ConstraintEdgesOf(steps[k], m)[i] != ConstraintEdgesOf(steps[k], m)[j]
      {
        ConstraintsDistinct(p, steps, k, i, j);
        UnparallelApart(g, p, m, steps[k].constraints[i].edge, steps[k].constraints[j].edge);
      }
    }
  }
}
