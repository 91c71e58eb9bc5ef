/** What exactly the search of `kyoso_graph::subgraph` lists, on any consistent graph and for any pattern. */
module Exactness {
  import opened Ecs
  import opened Sequences
  import opened Wrappers
  import opened Pattern
  import opened Plan
  import opened Search
  import opened Enumeration
  import opened Matches

  /** Every constraint is bound to the first listed edge between its ends. */
  ghost predicate FirstFound(g: Graph, steps: seq<PlanStep>, m: Match) {
    forall k, i | 0 <= k < |steps| && 0 <= i < |steps[k].constraints| :: Takes(g, m, steps[k].constraints[i])
  }

  predicate Takes(g: Graph, m: Match, c: ConstraintEdge) {
    && c.edge < |m.edges| && c.fromSlot < |m.nodes| && c.toSlot < |m.nodes|
    && FindEdgeDir(g, m.nodes[c.fromSlot], m.nodes[c.toSlot], c.direction) == Some(m.edges[c.edge])
  }

  /** The constraints of one step are bound to distinct edges. */
  ghost predicate ConstraintsApart(steps: seq<PlanStep>, m: Match) {
    forall k | 0 <= k < |steps| :: StepInMatch(steps[k], m) && NoDup(ConstraintEdgesOf(steps[k], m))
  }

  // ---- From embeddings to steps ----

  /** In an embedding a graph edge is bound only between one pair of slots. */
  lemma SharedEdgeSharesEnds(g: Graph, p: Shape, m: Match, e: nat, f: nat)
    requires Consistent(g) && EmbedsBarLoops(g, p, m)
    requires e < |p.edges| && f < |p.edges| && !IsLoop(p.edges[e]) && !IsLoop(p.edges[f])
    ensures m.edges[e] == m.edges[f] ==>
      Source(p.edges[e]) == Source(p.edges[f]) && Target(p.edges[e]) == Target(p.edges[f])
  {
    assert EdgeFits(g, p, m, e) && EdgeFits(g, p, m, f);
  }

  /** Edges bound at different steps of an embedding are different: their ends are. */
  lemma EmbeddedUnused(g: Graph, p: Shape, steps: seq<PlanStep>, k: nat, m: Match, e: nat)
    requires Consistent(g) && ValidPlan(p, steps) && EmbedsBarLoops(g, p, m)
    requires k < |steps| && e < |p.edges| && BindsAt(p, Slots(steps), e) == k
    ensures Unused(p, steps, k, m, m.edges[e])
  {
    EdgeBoundOnce(p, steps, e, k);
    forall f: nat | f < |p.edges| && BindsAt(p, Slots(steps), f) < k ensures m.edges[f] != m.edges[e] {
      EdgeBoundOnce(p, steps, f, k);
      SharedEdgeSharesEnds(g, p, m, e, f);
    }
  }

  lemma FirstSlotAnchor(p: Shape, order: seq<nat>)
    requires Greedy(p, order)
    ensures order[0] < |p.nodes|
    ensures p.nodes[order[0]].anchor.Some? ==> forall r | 0 <= r < order[0] :: p.nodes[r].anchor.None?
    ensures p.nodes[order[0]].anchor.None? ==> forall s | 0 <= s < |p.nodes| :: p.nodes[s].anchor.None?
  {
  }

  lemma EmbeddedOrigin(g: Graph, p: Shape, steps: seq<PlanStep>, k: nat, m: Match)
    requires Consistent(g) && ValidPlan(p, steps) && Greedy(p, Slots(steps)) && k < |steps|
    requires EmbedsBarLoops(g, p, m) && FirstAnchored(p, m) && StepInMatch(steps[k], m)
    ensures steps[k].join.Some? ==> steps[k].join.value.anchorSlot < |p.nodes|
    ensures OriginSat(g, p, steps, k, m)
  {
    var order, step := Slots(steps), steps[k];
    assert StepFits(p, order, k, step);
    match step.join {
      case None => FirstSlotAnchor(p, order);
      case Some(j) =>
        assert EdgesOf(step)[0] == j.edge;
        EdgeBoundOnce(p, steps, j.edge, k);
        EmbeddedUnused(g, p, steps, k, m, j.edge);
        assert Arc(g, m.edges[j.edge], m.nodes[Source(p.edges[j.edge])], m.nodes[Target(p.edges[j.edge])]);
    }
  }

  lemma ConstraintOfStep(p: Shape, steps: seq<PlanStep>, k: nat, i: nat)
    requires ValidPlan(p, steps) && InRange(p) && k < |steps| && i < |steps[k].constraints|
    ensures
      var c := steps[k].constraints[i];
      c.edge < |p.edges| && ConstraintFits(p, c) && BindsAt(p, Slots(steps), c.edge) == k
  {
    var step, c := steps[k], steps[k].constraints[i];
    assert StepFits(p, Slots(steps), k, step);
    assert c in step.constraints && ConstraintFits(p, c);
    assert EdgesOf(step)[if step.join.Some? then i + 1 else i] == c.edge;
    EdgeBoundOnce(p, steps, c.edge, k);
  }

  lemma EmbeddedConstraint(g: Graph, p: Shape, steps: seq<PlanStep>, k: nat, m: Match, i: nat)
    requires Consistent(g) && ValidPlan(p, steps) && k < |steps| && i < |steps[k].constraints|
    requires EmbedsBarLoops(g, p, m) && Takes(g, m, steps[k].constraints[i])
    ensures ConstraintSat(g, p, steps, k, m, steps[k].constraints[i])
  {
    ConstraintOfStep(p, steps, k, i);
    EmbeddedUnused(g, p, steps, k, m, steps[k].constraints[i].edge);
  }

  lemma EmbeddedNode(g: Graph, p: Shape, steps: seq<PlanStep>, k: nat, m: Match)
    requires ValidPlan(p, steps) && k < |steps| && EmbedsBarLoops(g, p, m) && steps[k].slot < |p.nodes|
    ensures NodeSat(p, steps, k, m)
  {
    PositionOf(Slots(steps), k);
  }

  lemma EmbeddedStep(g: Graph, p: Shape, steps: seq<PlanStep>, k: nat, m: Match)
    requires Consistent(g) && ValidPlan(p, steps) && Greedy(p, Slots(steps)) && k < |steps|
    requires EmbedsBarLoops(g, p, m) && FirstAnchored(p, m) && FirstFound(g, steps, m) && ConstraintsApart(steps, m)
    ensures StepSat(g, p, steps, k, m)
  {
    StepInSized(p, steps, k, m);
    EmbeddedOrigin(g, p, steps, k, m);
    EmbeddedNode(g, p, steps, k, m);
    forall i | 0 <= i < |steps[k].constraints| ensures ConstraintSat(g, p, steps, k, m, steps[k].constraints[i]) {
      assert Takes(g, m, steps[k].constraints[i]);
      EmbeddedConstraint(g, p, steps, k, m, i);
    }
  }

  // ---- From steps to embeddings ----

  lemma {:induction false} FirstToSound(pairs: seq<(Entity, Entity)>, to: Entity)
    ensures FirstTo(pairs, to).Some? ==> (FirstTo(pairs, to).value, to) in pairs
    ensures FirstTo(pairs, to).None? ==> forall e :: (e, to) !in pairs
  {
    if pairs != [] {
      FirstToSound(pairs[1..], to);
      assert pairs == [pairs[0]] + pairs[1..];
    }
  }

  /** A join's edge has the ends its pattern edge asks for. */
  lemma JoinArc(g: Graph, p: Shape, order: seq<nat>, k: nat, m: Match, j: JoinSpec)
    requires Consistent(g) && Sized(p, m) && InRange(p) && k < |order| && JoinFits(p, order, k, j)
    requires order[k] < |p.nodes| && j.anchorSlot < |p.nodes|
    requires (m.edges[j.edge], m.nodes[order[k]]) in (if j.search.Outgoing? then g.outgoing(m.nodes[j.anchorSlot])
      else g.incoming(m.nodes[j.anchorSlot]))
    ensures Arc(g, m.edges[j.edge], m.nodes[Source(p.edges[j.edge])], m.nodes[Target(p.edges[j.edge])])
  {
  }

  /** So has the edge a constraint is resolved to. */
  lemma ConstraintArc(g: Graph, p: Shape, m: Match, c: ConstraintEdge)
    requires Sized(p, m) && InRange(p) && ConstraintFits(p, c)
    requires FindEdgeDir(g, m.nodes[c.fromSlot], m.nodes[c.toSlot], c.direction) == Some(m.edges[c.edge])
    ensures Arc(g, m.edges[c.edge], m.nodes[Source(p.edges[c.edge])], m.nodes[Target(p.edges[c.edge])])
  {
    FirstToSound(g.outgoing(m.nodes[c.fromSlot]), m.nodes[c.toSlot]);
    FirstToSound(g.outgoing(m.nodes[c.toSlot]), m.nodes[c.fromSlot]);
  }

  /** The pattern edges of a step are that of its join and those of its constraints. */
  lemma EdgeOfStep(step: PlanStep, e: nat)
    requires e in EdgesOf(step)
    ensures (step.join.Some? && step.join.value.edge == e) || exists i ::
      0 <= i < |step.constraints| && step.constraints[i].edge == e
  {
    var at :| 0 <= at < |EdgesOf(step)| && EdgesOf(step)[at] == e;
    var shift := if step.join.Some? then 1 else 0;
    if at >= shift { assert step.constraints[at - shift].edge == e; }
  }

  lemma SatConstraintArc(g: Graph, p: Shape, steps: seq<PlanStep>, k: nat, m: Match, i: nat)
    requires ValidPlan(p, steps) && InRange(p) && k < |steps| && Sized(p, m)
    requires StepSat(g, p, steps, k, m) && i < |steps[k].constraints|
    ensures steps[k].constraints[i].edge < |p.edges| && EdgeFits(g, p, m, steps[k].constraints[i].edge)
  {
    var c := steps[k].constraints[i];
    FitsAt(p, steps, k);
    assert c in steps[k].constraints && ConstraintFits(p, c);
    assert ConstraintSat(g, p, steps, k, m, c);
    ConstraintArc(g, p, m, c);
  }

  lemma SatJoinArc(g: Graph, p: Shape, steps: seq<PlanStep>, k: nat, m: Match)
    requires Consistent(g) && ValidPlan(p, steps) && InRange(p) && k < |steps| && Sized(p, m)
    requires StepSat(g, p, steps, k, m) && steps[k].join.Some?
    ensures steps[k].join.value.edge < |p.edges| && EdgeFits(g, p, m, steps[k].join.value.edge)
  {
    FitsAt(p, steps, k);
    JoinArc(g, p, Slots(steps), k, m, steps[k].join.value);
  }

  /** The edge a satisfied step gives a pattern edge has the right ends. */
  lemma StepArc(g: Graph, p: Shape, steps: seq<PlanStep>, k: nat, m: Match, e: nat)
    requires Consistent(g) && ValidPlan(p, steps) && InRange(p) && k < |steps| && Sized(p, m)
    requires StepSat(g, p, steps, k, m) && e in EdgesOf(steps[k])
    ensures e < |p.edges| && EdgeFits(g, p, m, e)
  {
    EdgeOfStep(steps[k], e);
    if steps[k].join.Some? && e == steps[k].join.value.edge {
      SatJoinArc(g, p, steps, k, m);
    } else {
      var i: nat :| i < |steps[k].constraints| && steps[k].constraints[i].edge == e;
      SatConstraintArc(g, p, steps, k, m, i);
    }
  }

  lemma SlotAt(p: Shape, steps: seq<PlanStep>, s: nat) returns (k: nat)
    requires ValidPlan(p, steps) && s < |p.nodes|
    ensures k < |steps| && steps[k].slot == s && Position(Slots(steps), s) == k
  {
    PermutationHoldsAll(Slots(steps), |p.nodes|);
    assert s in Slots(steps);
    k := Position(Slots(steps), s);
  }

  lemma NodesApart(p: Shape, steps: seq<PlanStep>, m: Match, k: nat, l: nat)
    requires Sized(p, m) && k < |steps| && l < |steps| && k < l
    requires steps[k].slot < |p.nodes| && steps[l].slot < |p.nodes|
    requires Position(Slots(steps), steps[k].slot) == k && NodeSat(p, steps, l, m)
    ensures m.nodes[steps[k].slot] != m.nodes[steps[l].slot]
  {
  }

  ghost predicate NodesSat(p: Shape, steps: seq<PlanStep>, m: Match) {
    Sized(p, m) && forall k | 0 <= k < |steps| :: steps[k].slot < |p.nodes| && NodeSat(p, steps, k, m)
  }

  lemma NodesInjective(p: Shape, steps: seq<PlanStep>, m: Match, s: nat, r: nat)
    requires ValidPlan(p, steps) && NodesSat(p, steps, m) && s < |p.nodes| && r < |p.nodes| && s != r
    ensures m.nodes[s] != m.nodes[r]
  {
    var k := SlotAt(p, steps, s);
    var l := SlotAt(p, steps, r);
    if k < l { NodesApart(p, steps, m, k, l); } else { NodesApart(p, steps, m, l, k); }
  }

  lemma StepsArc(g: Graph, p: Shape, steps: seq<PlanStep>, m: Match, e: nat)
    requires Consistent(g) && ValidPlan(p, steps) && InRange(p) && Sized(p, m)
    requires e < |p.edges| && !IsLoop(p.edges[e])
    requires forall k | 0 <= k < |steps| :: StepSat(g, p, steps, k, m)
    ensures EdgeFits(g, p, m, e)
  {
    var _ := SlotAt(p, steps, p.edges[e].from);
    var _ := SlotAt(p, steps, p.edges[e].to);
    var k := BindsAt(p, Slots(steps), e);
    EdgeBoundOnce(p, steps, e, k);
    StepArc(g, p, steps, k, m, e);
  }

  /** The slot of the first step is the first anchored one; a slot without anchor is a node the graph lists. */
  lemma StepsAnchored(g: Graph, p: Shape, steps: seq<PlanStep>, m: Match)
    requires Consistent(g) && ValidPlan(p, steps) && InRange(p) && Greedy(p, Slots(steps)) && Sized(p, m)
    requires forall k | 0 <= k < |steps| :: StepSat(g, p, steps, k, m)
    ensures FirstAnchored(p, m)
    ensures forall s: nat | s < |p.nodes| && p.nodes[s].anchor.None? :: m.nodes[s] in g.nodes
  {
    var order := Slots(steps);
    FirstSlotAnchor(p, order);
    assert StepFits(p, order, 0, steps[0]);
    assert StepSat(g, p, steps, 0, m) && OriginSat(g, p, steps, 0, m);
    forall s: nat | s < |p.nodes| && p.nodes[s].anchor.None? ensures m.nodes[s] in g.nodes {
      var k := SlotAt(p, steps, s);
      assert StepFits(p, order, k, steps[k]);
      if k > 0 {
        var j := steps[k].join.value;
        assert EdgesOf(steps[k])[0] == j.edge;
        assert StepSat(g, p, steps, k, m);
        StepArc(g, p, steps, k, m, j.edge);
      }
    }
  }

  lemma StepsNodes(g: Graph, p: Shape, steps: seq<PlanStep>, m: Match)
    requires ValidPlan(p, steps) && Sized(p, m)
    requires forall k | 0 <= k < |steps| :: StepSat(g, p, steps, k, m)
    ensures NoDup(m.nodes) && forall s: nat | s < |p.nodes| :: p.nodes[s].pred(m.nodes[s])
  {
    forall k: nat | k < |steps| ensures steps[k].slot < |p.nodes| && NodeSat(p, steps, k, m) {
      assert StepSat(g, p, steps, k, m);
    }
    forall s: nat | s < |p.nodes| ensures p.nodes[s].pred(m.nodes[s]) {
      var k := SlotAt(p, steps, s);
      assert NodeSat(p, steps, k, m);
    }
    forall s: nat, r: nat | s < r < |m.nodes| ensures m.nodes[s] != m.nodes[r] {
      NodesInjective(p, steps, m, s, r);
    }
  }

  lemma StepsEmbed(g: Graph, p: Shape, steps: seq<PlanStep>, m: Match)
    requires Consistent(g) && ValidPlan(p, steps) && InRange(p) && Greedy(p, Slots(steps)) && Sized(p, m)
    requires forall k | 0 <= k < |steps| :: StepSat(g, p, steps, k, m)
    ensures EmbedsBarLoops(g, p, m) && FirstAnchored(p, m)
  {
    StepsNodes(g, p, steps, m);
    StepsAnchored(g, p, steps, m);
    forall e: nat | e < |p.edges| && !IsLoop(p.edges[e]) ensures EdgeFits(g, p, m, e) {
      StepsArc(g, p, steps, m, e);
    }
  }

  /** On any consistent graph: the embeddings whose constraints take the first listed edge, distinct within a step. */
  lemma SearchExact(g: Graph, p: Shape, steps: seq<PlanStep>, m: Match)
    requires Consistent(g) && InRange(p) && ValidPlan(p, steps) && Greedy(p, Slots(steps))
    ensures m in All(g, p, steps) <==>
      EmbedsBarLoops(g, p, m) && FirstAnchored(p, m) && FirstFound(g, steps, m) && ConstraintsApart(steps, m)
  {
    FoundIffStepsSat(g, p, steps, m);
    if m in All(g, p, steps) {
      StepsEmbed(g, p, steps, m);
      forall k: nat, i: nat | k < |steps| && i < |steps[k].constraints| ensures Takes(g, m, steps[k].constraints[i]) {
        assert StepSat(g, p, steps, k, m);
        assert ConstraintSat(g, p, steps, k, m, steps[k].constraints[i]);
      }
      forall k: nat | k < |steps| ensures StepInMatch(steps[k], m) && NoDup(ConstraintEdgesOf(steps[k], m)) {
        assert StepSat(g, p, steps, k, m);
      }
    }
    if EmbedsBarLoops(g, p, m) && FirstAnchored(p, m) && FirstFound(g, steps, m) && ConstraintsApart(steps, m) {
      forall k | 0 <= k < |steps| ensures StepSat(g, p, steps, k, m) { EmbeddedStep(g, p, steps, k, m); }
    }
  }
}
