/**
 * Subgraph matches stated without any search: which bindings of a pattern into a graph are
 * matches.
 *
 * The search of module Enumeration passes a match through the steps of a plan one by one; here
 * each step is restated in terms of the match alone, and the search is shown to list exactly
 * the matches that satisfy every step.
 */
module Matches {
  import opened Ecs
  import opened Sequences
  import opened Wrappers
  import opened Pattern
  import opened Plan
  import opened Search
  import opened Enumeration

  // ---- Graphs ----

  predicate Arc(g: Graph, e: Entity, a: Entity, b: Entity) {
    (e, b) in g.outgoing(a)
  }

  /** Both adjacency lists describe the same edges, an edge has one pair of ends, and ends are nodes. */
  ghost predicate Consistent(g: Graph) {
    && DistinctLists(g)
    && (forall e: Entity, a: Entity, b: Entity :: Arc(g, e, a, b) <==> (e, a) in g.incoming(b))
    && (forall e, a, b, a', b' :: Arc(g, e, a, b) && Arc(g, e, a', b') ==> a == a' && b == b')
    && (forall e, a, b :: Arc(g, e, a, b) ==> a in g.nodes && b in g.nodes)
  }

  /** At most one edge leads from one node to another. */
  ghost predicate Simple(g: Graph) {
    forall e, e', a, b :: Arc(g, e, a, b) && Arc(g, e', a, b) ==> e == e'
  }

  // ---- Matches ----

  /** Distinct nodes that satisfy the predicates; those of slots without an anchor are listed in the graph. */
  ghost predicate NodesFit(g: Graph, p: Shape, m: Match) {
    && |m.nodes| == |p.nodes| && NoDup(m.nodes)
    && (forall s: nat | s < |p.nodes| :: p.nodes[s].pred(m.nodes[s]))
    && (forall s: nat | s < |p.nodes| && p.nodes[s].anchor.None? :: m.nodes[s] in g.nodes)
  }

  /**
   * Pattern edge `e` is bound to an edge that passes its predicate, between the nodes of its slots and
   * in its direction.
   */
  ghost predicate EdgeFits(g: Graph, p: Shape, m: Match, e: nat)
    requires |m.nodes| == |p.nodes| && |m.edges| == |p.edges| && InRange(p) && e < |p.edges|
  {
    var def := p.edges[e];
    && (def.pred.Some? ==> def.pred.value(m.edges[e]))
    && match def.direction
       case Forward => Arc(g, m.edges[e], m.nodes[def.from], m.nodes[def.to])
       case Backward => Arc(g, m.edges[e], m.nodes[def.to], m.nodes[def.from])
  }

  /** `x` passes the predicate of pattern edge `e`. */
  predicate Wanted(p: Shape, e: nat, x: Entity) {
    e < |p.edges| && match p.edges[e].pred case None => true case Some(pred) => pred(x)
  }

  /** Fitting nodes, joined as the pattern asks. */
  ghost predicate Embeds(g: Graph, p: Shape, m: Match) {
    && NodesFit(g, p, m) && |m.edges| == |p.edges| && InRange(p)
    && (forall e: nat | e < |p.edges| :: EdgeFits(g, p, m, e))
  }

  /** An embedding of the pattern without its loops. */
  ghost predicate EmbedsBarLoops(g: Graph, p: Shape, m: Match) {
    && NodesFit(g, p, m) && Sized(p, m) && InRange(p)
    && (forall e: nat | e < |p.edges| && !IsLoop(p.edges[e]) :: EdgeFits(g, p, m, e))
  }

  predicate IsFirstAnchor(p: Shape, s: nat) {
    s < |p.nodes| && p.nodes[s].anchor.Some? && forall r | 0 <= r < s :: p.nodes[r].anchor.None?
  }

  /** The first anchored slot is bound to its anchor. */
  ghost predicate FirstAnchored(p: Shape, m: Match) {
    && |m.nodes| == |p.nodes|
    && forall s: nat | IsFirstAnchor(p, s) :: m.nodes[s] == p.nodes[s].anchor.value
  }

  /** Every anchored slot is bound to its anchor. */
  ghost predicate AllAnchored(p: Shape, m: Match) {
    && |m.nodes| == |p.nodes|
    && forall s: nat | s < |p.nodes| && p.nodes[s].anchor.Some? :: m.nodes[s] == p.nodes[s].anchor.value
  }

  /**
   * A match as documented: an embedding that meets all anchors and binds distinct pattern edges to
   * distinct graph edges.
   */
  ghost predicate IsMatch(g: Graph, p: Shape, m: Match) {
    Embeds(g, p, m) && AllAnchored(p, m) && NoDup(m.edges)
  }

  // ---- The constraint loop ----

  ghost predicate Checked(g: Graph, p: Shape, cs: seq<ConstraintEdge>, mapping: seq<Option<Entity>>, used: set<Entity>,
                          found: seq<Entity>, es: seq<Entity>)
    requires forall c | c in cs :: ConstraintBound(c, mapping)
  {
    && |es| == |cs|
    && (forall i | 0 <= i < |cs| ::
      Resolve(g, cs[i], mapping) == Some(es[i]) && es[i] !in used && es[i] !in found
      && Wanted(p, cs[i].edge, es[i]))
    && NoDup(es)
  }

  lemma {:induction false} CheckedIff(g: Graph, p: Shape, cs: seq<ConstraintEdge>, mapping: seq<Option<Entity>>,
                                      used: set<Entity>, found: seq<Entity>, es: seq<Entity>)
    requires forall c | c in cs :: ConstraintBound(c, mapping)
    ensures CheckConstraints(g, p, cs, mapping, used, found) == Some(found + es) <==>
      Checked(g, p, cs, mapping, used, found, es)
    decreases |cs|
  {
    var r := CheckConstraints(g, p, cs, mapping, used, found);
    if cs == [] {
      if r == Some(found + es) { assert |found + es| == |found|; }
      if es == [] { assert found + es == found; }
    } else {
      CheckedFirst(g, p, cs, mapping, used, found, es);
      if |es| == |cs| && Resolve(g, cs[0], mapping) == Some(es[0]) {
        var e, rest := es[0], es[1..];
        assert es == [e] + rest && (found + [e]) + rest == found + es;
        CheckedIff(g, p, cs[1..], mapping, used, found + [e], rest);
        CheckedHead(g, p, cs, mapping, used, found, es);
      }
    }
  }

  /** A result of the loop continues `found` with what the first constraint resolves to. */
  lemma CheckedFirst(g: Graph, p: Shape, cs: seq<ConstraintEdge>, mapping: seq<Option<Entity>>,
                     used: set<Entity>, found: seq<Entity>, es: seq<Entity>)
    requires cs != [] && forall c | c in cs :: ConstraintBound(c, mapping)
    ensures CheckConstraints(g, p, cs, mapping, used, found) == Some(found + es) ==>
      |es| == |cs| && Resolve(g, cs[0], mapping) == Some(es[0])
  {
    CheckedLength(g, p, cs, mapping, used, found);
    if CheckConstraints(g, p, cs, mapping, used, found) == Some(found + es) {
      var e := Resolve(g, cs[0], mapping).value;
      CheckedPrefix(g, p, cs[1..], mapping, used, found + [e]);
      assert found + [e] <= found + es;
      assert (found + [e])[|found|] == (found + es)[|found|];
    }
  }

  lemma {:induction false} CheckedPrefix(g: Graph, p: Shape, cs: seq<ConstraintEdge>, mapping: seq<Option<Entity>>,
                                         used: set<Entity>, found: seq<Entity>)
    requires forall c | c in cs :: ConstraintBound(c, mapping)
    ensures var r := CheckConstraints(g, p, cs, mapping, used, found); r.Some? ==> found <= r.value
    decreases |cs|
  {
    if cs != [] && Resolve(g, cs[0], mapping).Some? {
      CheckedPrefix(g, p, cs[1..], mapping, used, found + [Resolve(g, cs[0], mapping).value]);
    }
  }

  lemma CheckedHead(g: Graph, p: Shape, cs: seq<ConstraintEdge>, mapping: seq<Option<Entity>>, used: set<Entity>,
                    found: seq<Entity>, es: seq<Entity>)
    requires forall c | c in cs :: ConstraintBound(c, mapping)
    requires cs != [] && |es| == |cs| && Resolve(g, cs[0], mapping) == Some(es[0])
    ensures Checked(g, p, cs, mapping, used, found, es) <==>
      es[0] !in used && es[0] !in found && Wanted(p, cs[0].edge, es[0])
      && Checked(g, p, cs[1..], mapping, used, found + [es[0]], es[1..])
  {
    var rest := es[1..];
    if Checked(g, p, cs, mapping, used, found, es) {
      forall i | 0 <= i < |rest| ensures rest[i] != es[0] { assert es[0] != es[i + 1]; }
      assert NoDup(rest) by { forall i, j | 0 <= i < j < |rest|
        ensures rest[i] != rest[j] { assert es[i + 1] != es[j + 1]; } }
    }
    if es[0] !in used && es[0] !in found && Wanted(p, cs[0].edge, es[0])
      && Checked(g, p, cs[1..], mapping, used, found + [es[0]], rest)
    {
      forall i | 0 <= i < |cs|
        ensures Resolve(g, cs[i], mapping) == Some(es[i]) && es[i] !in used && es[i] !in found
          && Wanted(p, cs[i].edge, es[i])
      {
        if i > 0 { assert cs[1..][i - 1] == cs[i] && rest[i - 1] == es[i]; }
      }
      forall i, j | 0 <= i < j < |es| ensures es[i] != es[j] {
        assert es[j] == rest[j - 1] && rest[j - 1] !in found + [es[0]];
        if i > 0 { assert rest[i - 1] != rest[j - 1]; }
      }
    }
  }

  // ---- One step in terms of the match alone ----

  ghost predicate NodeSat(p: Shape, steps: seq<PlanStep>, k: nat, m: Match)
    requires Sized(p, m) && k < |steps| && steps[k].slot < |p.nodes|
  {
    && p.nodes[steps[k].slot].pred(m.nodes[steps[k].slot])
    && forall s: nat | s < |p.nodes| && Position(Slots(steps), s) < k :: m.nodes[s] != m.nodes[steps[k].slot]
  }

  /** `x` is not the edge of a pattern edge bound before step `k`. */
  ghost predicate Unused(p: Shape, steps: seq<PlanStep>, k: nat, m: Match, x: Entity)
    requires Sized(p, m)
  {
    forall e: nat | e < |p.edges| && BindsAt(p, Slots(steps), e) < k :: m.edges[e] != x
  }

  ghost predicate OriginSat(g: Graph, p: Shape, steps: seq<PlanStep>, k: nat, m: Match)
    requires Sized(p, m) && k < |steps| && steps[k].slot < |p.nodes|
    requires steps[k].join.Some? ==> steps[k].join.value.anchorSlot < |p.nodes| && steps[k].join.value.edge < |p.edges|
  {
    var node := m.nodes[steps[k].slot];
    match steps[k].join
    case None =>
      if p.nodes[steps[k].slot].anchor.Some? then node == p.nodes[steps[k].slot].anchor.value else node in g.nodes
    case Some(j) =>
      && (m.edges[j.edge], node) in (if j.search.Outgoing? then g.outgoing(m.nodes[j.anchorSlot])
        else g.incoming(m.nodes[j.anchorSlot]))
      && Unused(p, steps, k, m, m.edges[j.edge]) && Wanted(p, j.edge, m.edges[j.edge])
  }

  ghost predicate ConstraintSat(g: Graph, p: Shape, steps: seq<PlanStep>, k: nat, m: Match, c: ConstraintEdge)
    requires Sized(p, m)
  {
    && c.edge < |p.edges| && c.fromSlot < |p.nodes| && c.toSlot < |p.nodes|
    && FindEdgeDir(g, m.nodes[c.fromSlot], m.nodes[c.toSlot], c.direction) == Some(m.edges[c.edge])
    && Unused(p, steps, k, m, m.edges[c.edge]) && Wanted(p, c.edge, m.edges[c.edge])
  }

  ghost predicate StepSat(g: Graph, p: Shape, steps: seq<PlanStep>, k: nat, m: Match)
    requires Sized(p, m) && k < |steps|
  {
    && StepInMatch(steps[k], m)
    && (steps[k].join.Some? ==> steps[k].join.value.anchorSlot < |p.nodes|)
    && NodeSat(p, steps, k, m) && OriginSat(g, p, steps, k, m)
    && (forall i | 0 <= i < |steps[k].constraints| :: ConstraintSat(g, p, steps, k, m, steps[k].constraints[i]))
    && NoDup(ConstraintEdgesOf(steps[k], m))
  }

  // ---- The search checks exactly that ----

  /** What a binding on the way to `m` holds. */
  lemma BoundValues(p: Shape, steps: seq<PlanStep>, k: nat, b: Binding, m: Match)
    requires At(p, steps, k, b) && Sized(p, m) && Agrees(b, m)
    ensures forall x :: x in b.usedNodes <==>
      exists s: nat :: s < |p.nodes| && Position(Slots(steps), s) < k && m.nodes[s] == x
    ensures forall x :: x in b.usedEdges <==>
      exists e: nat :: e < |p.edges| && BindsAt(p, Slots(steps), e) < k && m.edges[e] == x
  {
    BoundMembers(b.mapping);
    BoundMembers(b.edgeMapping);
    forall x ensures x in b.usedNodes <==>
      exists s: nat :: s < |p.nodes| && Position(Slots(steps), s) < k && m.nodes[s] == x
    {
      if x in b.usedNodes { var s: nat :| s < |b.mapping| && b.mapping[s] == Some(x); assert m.nodes[s] == x; }
      if s: nat :| s < |p.nodes| && Position(Slots(steps), s) < k && m.nodes[s] == x { assert b.mapping[s] == Some(x); }
    }
    forall x ensures x in b.usedEdges <==>
      exists e: nat :: e < |p.edges| && BindsAt(p, Slots(steps), e) < k && m.edges[e] == x
    {
      if x in b.usedEdges { var e: nat :| e < |b.edgeMapping| && b.edgeMapping[e] == Some(x); assert m.edges[e] == x; }
      if e: nat :| e < |p.edges| && BindsAt(p, Slots(steps), e) < k && m.edges[e] == x {
        assert b.edgeMapping[e] == Some(x);
      }
    }
  }

  lemma UnusedIff(p: Shape, steps: seq<PlanStep>, k: nat, b: Binding, m: Match, x: Entity)
    requires At(p, steps, k, b) && Sized(p, m) && Agrees(b, m)
    ensures x !in b.usedEdges <==> Unused(p, steps, k, m, x)
  {
    BoundValues(p, steps, k, b, m);
  }

  lemma HopsMember(pairs: seq<(Entity, Entity)>, e: Entity, n: Entity)
    ensures (Some(e), n) in Hops(pairs) <==> (e, n) in pairs
  {
    var hs := Hops(pairs);
    if (e, n) in pairs { var i :| 0 <= i < |pairs| && pairs[i] == (e, n); assert hs[i] == (Some(e), n); }
    if (Some(e), n) in hs { var i :| 0 <= i < |hs| && hs[i] == (Some(e), n); assert pairs[i] == (e, n); }
  }

  /** The candidate of `m` is enumerated and passes the join checks. */
  lemma OriginIff(g: Graph, p: Shape, steps: seq<PlanStep>, k: nat, b: Binding, m: Match)
    requires At(p, steps, k, b) && k < |steps| && Sized(p, m) && StepInMatch(steps[k], m) && Agrees(b, m)
    ensures steps[k].join.Some? ==> steps[k].join.value.anchorSlot < |p.nodes|
    ensures CandidateOf(steps[k], m) in CandidatesAt(g, p, steps, k, b)
      && JoinAccepts(p, steps[k], b, CandidateOf(steps[k], m).0)
      <==> OriginSat(g, p, steps, k, m)
  {
    ReadyAt(p, steps, k, b);
    var step, c := steps[k], CandidateOf(steps[k], m);
    match step.join {
      case None =>
        if p.nodes[step.slot].anchor.None? {
          var cands := CandidatesAt(g, p, steps, k, b);
          if c.1 in g.nodes { var i :| 0 <= i < |g.nodes| && g.nodes[i] == c.1; assert cands[i] == c; }
        }
      case Some(j) =>
        var at := b.mapping[j.anchorSlot].value;
        assert at == m.nodes[j.anchorSlot];
        HopsMember(g.outgoing(at), m.edges[j.edge], c.1);
        HopsMember(g.incoming(at), m.edges[j.edge], c.1);
        UnusedIff(p, steps, k, b, m, m.edges[j.edge]);
    }
  }

  /** With the slot bound, a constraint resolves between the nodes of `m`. */
  lemma ResolveInMatch(g: Graph, p: Shape, steps: seq<PlanStep>, k: nat, b: Binding, m: Match, c: ConstraintEdge)
    requires At(p, steps, k, b) && k < |steps| && Sized(p, m) && StepInMatch(steps[k], m) && Agrees(b, m)
    requires c in steps[k].constraints && StepReady(steps[k], b)
    ensures
      var mapping := b.mapping[steps[k].slot := Some(m.nodes[steps[k].slot])];
      && c.edge < |p.edges| && c.fromSlot < |p.nodes| && c.toSlot < |p.nodes| && ConstraintBound(c, mapping)
      && Resolve(g, c, mapping) == FindEdgeDir(g, m.nodes[c.fromSlot], m.nodes[c.toSlot], c.direction)
  {
    assert StepFits(p, Slots(steps), k, steps[k]);
    assert ConstraintFits(p, c);
    BoundWith(steps[k], b, m.nodes[steps[k].slot]);
  }

  lemma ConstraintsIff(g: Graph, p: Shape, steps: seq<PlanStep>, k: nat, b: Binding, m: Match)
    requires At(p, steps, k, b) && k < |steps| && Sized(p, m) && StepInMatch(steps[k], m) && Agrees(b, m)
    requires StepReady(steps[k], b)
    requires forall c | c in steps[k].constraints ::
      ConstraintBound(c, b.mapping[steps[k].slot := Some(m.nodes[steps[k].slot])])
    ensures
      Checked(g, p, steps[k].constraints, b.mapping[steps[k].slot := Some(m.nodes[steps[k].slot])], b.usedEdges, [],
        ConstraintEdgesOf(steps[k], m)) <==>
      (forall i | 0 <= i < |steps[k].constraints| :: ConstraintSat(g, p, steps, k, m, steps[k].constraints[i]))
        && NoDup(ConstraintEdgesOf(steps[k], m))
  {
    var cs, es := steps[k].constraints, ConstraintEdgesOf(steps[k], m);
    var mapping := b.mapping[steps[k].slot := Some(m.nodes[steps[k].slot])];
    forall i | 0 <= i < |cs|
      ensures assert cs[i] in cs; ConstraintSat(g, p, steps, k, m, cs[i]) <==>
        Resolve(g, cs[i], mapping) == Some(es[i]) && es[i] !in b.usedEdges && es[i] !in []
          && Wanted(p, cs[i].edge, es[i])
    {
      ResolveInMatch(g, p, steps, k, b, m, cs[i]);
      UnusedIff(p, steps, k, b, m, es[i]);
    }
  }

  lemma NodeIff(p: Shape, steps: seq<PlanStep>, k: nat, b: Binding, m: Match)
    requires At(p, steps, k, b) && k < |steps| && Sized(p, m) && StepInMatch(steps[k], m) && Agrees(b, m)
    ensures
      var node := m.nodes[steps[k].slot];
      node !in b.usedNodes && p.nodes[steps[k].slot].pred(node) <==> NodeSat(p, steps, k, m)
  {
    BoundValues(p, steps, k, b, m);
    var node := m.nodes[steps[k].slot];
    assert node !in b.usedNodes <==>
      forall s: nat | s < |p.nodes| && Position(Slots(steps), s) < k :: m.nodes[s] != node;
  }

  lemma ConstraintPartIff(g: Graph, p: Shape, steps: seq<PlanStep>, k: nat, b: Binding, m: Match)
    requires At(p, steps, k, b) && k < |steps| && Sized(p, m) && StepInMatch(steps[k], m) && Agrees(b, m)
    requires StepReady(steps[k], b)
    requires forall c | c in steps[k].constraints ::
      ConstraintBound(c, b.mapping[steps[k].slot := Some(m.nodes[steps[k].slot])])
    ensures
      var mapping := b.mapping[steps[k].slot := Some(m.nodes[steps[k].slot])];
      var es := ConstraintEdgesOf(steps[k], m);
      CheckConstraints(g, p, steps[k].constraints, mapping, b.usedEdges, []) == Some(es) <==>
        (forall i | 0 <= i < |steps[k].constraints| :: ConstraintSat(g, p, steps, k, m, steps[k].constraints[i]))
          && NoDup(es)
  {
    var es := ConstraintEdgesOf(steps[k], m);
    ConstraintsIff(g, p, steps, k, b, m);
    CheckedIff(g, p, steps[k].constraints, b.mapping[steps[k].slot := Some(m.nodes[steps[k].slot])], b.usedEdges, [],
      es);
    assert [] + es == es;
  }

  /** The checks on the candidate of `m`, one after the other. */
  lemma AdmitParts(g: Graph, p: Shape, steps: seq<PlanStep>, k: nat, b: Binding, m: Match)
    requires At(p, steps, k, b) && k < |steps| && Sized(p, m) && StepInMatch(steps[k], m)
    ensures steps[k].slot < |p.nodes| && StepReady(steps[k], b)
    ensures forall c | c in steps[k].constraints ::
      ConstraintBound(c, b.mapping[steps[k].slot := Some(m.nodes[steps[k].slot])])
    ensures
      var step, c := steps[k], CandidateOf(steps[k], m);
      AdmitAt(g, p, steps, k, b, c) ==
        if c.1 in b.usedNodes || !p.nodes[step.slot].pred(c.1) || !JoinAccepts(p, step, b, c.0) then None
        else CheckConstraints(g, p, step.constraints, b.mapping[step.slot := Some(c.1)], b.usedEdges, [])
  {
    ReadyAt(p, steps, k, b);
    BoundWith(steps[k], b, m.nodes[steps[k].slot]);
  }

  lemma PassesIff(g: Graph, p: Shape, steps: seq<PlanStep>, k: nat, b: Binding, m: Match)
    requires At(p, steps, k, b) && k < |steps| && Sized(p, m) && Agrees(b, m)
    ensures Passes(g, p, steps, k, b, CandidatesAt(g, p, steps, k, b), m) <==> StepSat(g, p, steps, k, m)
  {
    StepInSized(p, steps, k, m);
    AdmitParts(g, p, steps, k, b, m);
    NodeIff(p, steps, k, b, m);
    OriginIff(g, p, steps, k, b, m);
    ConstraintPartIff(g, p, steps, k, b, m);
  }

  /** A binding of exactly the first `k` steps, on the way to `m`. */
  ghost predicate Towards(p: Shape, steps: seq<PlanStep>, k: nat, b: Binding, m: Match) {
    At(p, steps, k, b) && Agrees(b, m)
  }

  lemma NextTowards(p: Shape, steps: seq<PlanStep>, k: nat, b: Binding, m: Match)
    requires Towards(p, steps, k, b, m) && k < |steps| && Sized(p, m)
    ensures StepInMatch(steps[k], m) && Towards(p, steps, k + 1, Next(steps, k, b, m), m)
  {
    StepInSized(p, steps, k, m);
    CommitStays(p, steps, k, b, CandidateOf(steps[k], m), ConstraintEdgesOf(steps[k], m));
    CommitAgrees(p, steps, k, b, CandidateOf(steps[k], m), ConstraintEdgesOf(steps[k], m), m);
  }

  lemma PassesStep(g: Graph, p: Shape, steps: seq<PlanStep>, k: nat, b: Binding, m: Match)
    requires Towards(p, steps, k, b, m) && Sized(p, m) && k < |steps|
    ensures StepInMatch(steps[k], m)
    ensures PassesFrom(g, p, steps, k, b, m) <==>
      StepSat(g, p, steps, k, m) && PassesFrom(g, p, steps, k + 1, Next(steps, k, b, m), m)
  {
    StepInSized(p, steps, k, m);
    PassesIff(g, p, steps, k, b, m);
  }

  /** The match satisfies every step from `k` on. */
  ghost predicate SatFrom(g: Graph, p: Shape, steps: seq<PlanStep>, k: nat, m: Match)
    requires Sized(p, m)
  {
    forall i | k <= i < |steps| :: StepSat(g, p, steps, i, m)
  }

  lemma SatFromStep(g: Graph, p: Shape, steps: seq<PlanStep>, k: nat, m: Match)
    requires Sized(p, m)
    ensures SatFrom(g, p, steps, k, m) <==>
      k >= |steps| || (StepSat(g, p, steps, k, m) && SatFrom(g, p, steps, k + 1, m))
  {
  }

  lemma PassesEnd(g: Graph, p: Shape, steps: seq<PlanStep>, k: nat, b: Binding, m: Match)
    requires k == |steps| && Sized(p, m) && Agrees(b, m)
    ensures PassesFrom(g, p, steps, k, b, m)
  {
  }

  lemma {:induction false} PassesFromIff(g: Graph, p: Shape, steps: seq<PlanStep>, k: nat, b: Binding, m: Match)
    requires Towards(p, steps, k, b, m) && Sized(p, m)
    ensures PassesFrom(g, p, steps, k, b, m) <==> SatFrom(g, p, steps, k, m)
    decreases |steps| - k
  {
    SatFromStep(g, p, steps, k, m);
    if k < |steps| {
      PassesStep(g, p, steps, k, b, m);
      NextTowards(p, steps, k, b, m);
      PassesFromIff(g, p, steps, k + 1, Next(steps, k, b, m), m);
    } else {
      PassesEnd(g, p, steps, k, b, m);
    }
  }

  /** The search finds `m` exactly when `m` satisfies every step. */
  lemma FoundIffStepsSat(g: Graph, p: Shape, steps: seq<PlanStep>, m: Match)
    requires ValidPlan(p, steps) && InRange(p)
    ensures m in All(g, p, steps) <==> Sized(p, m) && forall i | 0 <= i < |steps| :: StepSat(g, p, steps, i, m)
  {
    UnboundAt(p, steps);
    BelowIff(g, p, steps, 0, Unbound(p), m);
    PassesFromAgrees(g, p, steps, 0, Unbound(p), m);
    if Sized(p, m) {
      PassesFromIff(g, p, steps, 0, Unbound(p), m);
    }
  }
}
