/**
 * The list of matches the search finds, and which matches are on it. The list is a function of
 * graph, pattern and plan: candidates are tried in order, and each admitted one is followed by
 * all matches below it. It is compared with the single steps a match has to pass, so that
 * module Matches can compare those with the declarative definition, and it is shown to hold
 * no match twice.
 */
module Enumeration {
  import opened Ecs
  import opened Sequences
  import opened Wrappers
  import opened Pattern
  import opened Plan
  import opened Search

  /** A plan, and a binding of exactly its first `k` steps. */
  ghost predicate At(p: Shape, steps: seq<PlanStep>, k: nat, b: Binding) {
    ValidPlan(p, steps) && InRange(p) && k <= |steps| && BoundTo(p, steps, k, b)
  }

  /** Candidates of a joined step carry an edge, those of the first step do not. */
  predicate Fitting(step: PlanStep, cands: seq<Candidate>) {
    forall i | 0 <= i < |cands| :: cands[i].0.Some? <==> step.join.Some?
  }

  function OrZero(o: Option<Entity>): Entity {
    match o case None => 0 case Some(x) => x
  }

  function Complete(b: Binding): Match {
    Match(seq(|b.mapping|, i requires 0 <= i < |b.mapping| => OrZero(b.mapping[i])),
          seq(|b.edgeMapping|, i requires 0 <= i < |b.edgeMapping| => OrZero(b.edgeMapping[i])))
  }

  /** The candidates for step `k`; none when its join has nothing to start from. */
  function CandidatesAt(g: Graph, p: Shape, steps: seq<PlanStep>, k: nat, b: Binding): (r: seq<Candidate>)
    requires k < |steps|
    ensures Fitting(steps[k], r)
  {
    var step := steps[k];
    if step.slot < |p.nodes| && (step.join.Some? ==> Defined(b.mapping, step.join.value.anchorSlot))
      then Candidates(g, p, step, b) else []
  }

  function AdmitAt(g: Graph, p: Shape, steps: seq<PlanStep>, k: nat, b: Binding, c: Candidate): (r: Option<seq<Entity>>)
    requires k < |steps|
    ensures r.Some? ==> |r.value| == |steps[k].constraints|
  {
    if steps[k].slot < |p.nodes| && StepReady(steps[k], b) then Admit(g, p, steps[k], b, c.0, c.1) else None
  }

  function CommitAt(steps: seq<PlanStep>, k: nat, b: Binding, c: Candidate, es: seq<Entity>): Binding
    requires k < |steps|
  {
    if StepInRange(steps[k], b) && |es| == |steps[k].constraints| && (c.0.Some? <==> steps[k].join.Some?)
    then Commit(steps[k], b, c.0, c.1, es) else b
  }

  /** The matches found from `b` by trying `cands` in order for step `k`. */
  function Found(g: Graph, p: Shape, steps: seq<PlanStep>, k: nat, b: Binding, cands: seq<Candidate>): seq<Match>
    requires k < |steps|
    decreases |steps| - k, |cands|, 0
  {
    if cands == [] then [] else
      (match AdmitAt(g, p, steps, k, b, cands[0])
       case None => []
       case Some(es) => Below(g, p, steps, k + 1, CommitAt(steps, k, b, cands[0], es)))
      + Found(g, p, steps, k, b, cands[1..])
  }

  /** The matches that extend a binding of the first `k` steps. */
  function Below(g: Graph, p: Shape, steps: seq<PlanStep>, k: nat, b: Binding): seq<Match>
    requires k <= |steps|
    decreases |steps| - k + 1, 0, 0
  {
    if k == |steps| then [Complete(b)] else Found(g, p, steps, k, b, CandidatesAt(g, p, steps, k, b))
  }

  /** On a binding of exactly the earlier steps nothing is out of range, and a commit adds step `k`. */
  lemma CommitStays(p: Shape, steps: seq<PlanStep>, k: nat, b: Binding, c: Candidate, es: seq<Entity>)
    requires At(p, steps, k, b) && k < |steps|
    requires |es| == |steps[k].constraints| && (c.0.Some? <==> steps[k].join.Some?)
    ensures At(p, steps, k + 1, CommitAt(steps, k, b, c, es))
    ensures StepInRange(steps[k], b) && CommitAt(steps, k, b, c, es) == Commit(steps[k], b, c.0, c.1, es)
  {
    CommitBinds(p, steps, k, b, c.0, c.1, es);
  }

  lemma UnboundAt(p: Shape, steps: seq<PlanStep>)
    requires ValidPlan(p, steps) && InRange(p)
    ensures At(p, steps, 0, Unbound(p))
  {
  }

  /** All matches, in the order of discovery. */
  function All(g: Graph, p: Shape, steps: seq<PlanStep>): seq<Match>
  {
    Below(g, p, steps, 0, Unbound(p))
  }

  // ---- A match seen step by step ----

  /** One node per slot and one edge per pattern edge; the place of a loop, which is never bound, holds a filler. */
  ghost predicate Sized(p: Shape, m: Match) {
    && |m.nodes| == |p.nodes| && |m.edges| == |p.edges|
    && forall e: nat :: LeavesLoop(p, m, e)
  }

  predicate LeavesLoop(p: Shape, m: Match, e: nat) {
    e < |p.edges| && e < |m.edges| && IsLoop(p.edges[e]) ==> m.edges[e] == 0
  }

  ghost predicate Agrees(b: Binding, m: Match) {
    && |b.mapping| == |m.nodes| && |b.edgeMapping| == |m.edges|
    && (forall s | 0 <= s < |m.nodes| :: b.mapping[s].Some? ==> b.mapping[s] == Some(m.nodes[s]))
    && (forall e | 0 <= e < |m.edges| :: b.edgeMapping[e].Some? ==> b.edgeMapping[e] == Some(m.edges[e]))
  }

  predicate StepInMatch(step: PlanStep, m: Match) {
    && step.slot < |m.nodes|
    && (step.join.Some? ==> step.join.value.edge < |m.edges|)
    && (forall i | 0 <= i < |step.constraints| :: step.constraints[i].edge < |m.edges|)
  }

  /** The edge a match gives to constraint `i` of a step. */
  function ConstraintEdgesOf(step: PlanStep, m: Match): seq<Entity>
    requires StepInMatch(step, m)
  {
    seq(|step.constraints|, i requires 0 <= i < |step.constraints| => m.edges[step.constraints[i].edge])
  }

  /** The candidate by which a match goes through a step. */
  function CandidateOf(step: PlanStep, m: Match): Candidate
    requires StepInMatch(step, m)
  {
    (if step.join.None? then None else Some(m.edges[step.join.value.edge]), m.nodes[step.slot])
  }

  lemma StepInSized(p: Shape, steps: seq<PlanStep>, k: nat, m: Match)
    requires ValidPlan(p, steps) && k < |steps| && Sized(p, m)
    ensures StepInMatch(steps[k], m)
  {
    var step := steps[k];
    assert StepFits(p, Slots(steps), k, step);
    assert Slots(steps)[k] in Slots(steps);
    if step.join.Some? { assert EdgesOf(step)[0] == step.join.value.edge; }
    forall i | 0 <= i < |step.constraints| ensures step.constraints[i].edge < |m.edges| {
      assert step.constraints[i] in step.constraints;
    }
  }

  lemma CommitAgreesHere(step: PlanStep, b: Binding, c: Candidate, es: seq<Entity>, m: Match)
    requires StepInRange(step, b) && StepInMatch(step, m) && NoDup(EdgesOf(step))
    requires |b.mapping| == |m.nodes| && |b.edgeMapping| == |m.edges|
    requires |es| == |step.constraints| && (c.0.Some? <==> step.join.Some?)
    requires b.mapping[step.slot] == None && forall e | e in EdgesOf(step) :: b.edgeMapping[e] == None
    ensures Agrees(Commit(step, b, c.0, c.1, es), m) <==>
      Agrees(b, m) && c == CandidateOf(step, m) && es == ConstraintEdgesOf(step, m)
  {
    var ps, gs := EdgesOf(step), BoundEdges(c.0, es);
    SetAllAt(ps, gs, b.edgeMapping);
    forall i | 0 <= i < |ps| ensures ps[i] < |b.edgeMapping| && b.edgeMapping[ps[i]] == None { assert ps[i] in ps; }
    EdgesAgree(b.edgeMapping, SetAll(ps, gs, b.edgeMapping), ps, gs, m.edges);
    EdgesSplit(step, c.0, es, m);
    NodesAgree(b.mapping, step.slot, c.1, m.nodes);
  }

  /** A commit leads towards `m` exactly when `b` does and the candidate is the one of `m`. */
  lemma CommitAgrees(p: Shape, steps: seq<PlanStep>, k: nat, b: Binding, c: Candidate, es: seq<Entity>, m: Match)
    requires At(p, steps, k, b) && k < |steps| && Sized(p, m)
    requires |es| == |steps[k].constraints| && (c.0.Some? <==> steps[k].join.Some?)
    ensures StepInMatch(steps[k], m)
    ensures Agrees(CommitAt(steps, k, b, c, es), m) <==>
      Agrees(b, m) && c == CandidateOf(steps[k], m) && es == ConstraintEdgesOf(steps[k], m)
  {
    StepInSized(p, steps, k, m);
    ReadyAt(p, steps, k, b);
    CommitStays(p, steps, k, b, c, es);
    assert StepFits(p, Slots(steps), k, steps[k]);
    CommitAgreesHere(steps[k], b, c, es, m);
  }

  lemma NodesAgree(mapping: seq<Option<Entity>>, slot: nat, node: Entity, nodes: seq<Entity>)
    requires |mapping| == |nodes| && slot < |nodes| && mapping[slot] == None
    ensures
      (forall s | 0 <= s < |nodes| :: mapping[slot := Some(node)][s].Some? ==>
        mapping[slot := Some(node)][s] == Some(nodes[s])) <==>
      (forall s | 0 <= s < |nodes| :: mapping[s].Some? ==> mapping[s] == Some(nodes[s])) && node == nodes[slot]
  {
    var mapping' := mapping[slot := Some(node)];
    assert mapping'[slot] == Some(node);
    assert forall s | 0 <= s < |nodes| && s != slot :: mapping'[s] == mapping[s];
  }

  lemma EdgesAgree(em: seq<Option<Entity>>, em': seq<Option<Entity>>, ps: seq<nat>, gs: seq<Entity>, edges: seq<Entity>)
    requires |em| == |em'| == |edges| && |ps| == |gs|
    requires forall i | 0 <= i < |ps| :: ps[i] < |em| && em[ps[i]] == None && em'[ps[i]] == Some(gs[i])
    requires forall x: nat | x < |em| && x !in ps :: em'[x] == em[x]
    ensures
      (forall e | 0 <= e < |edges| :: em'[e].Some? ==> em'[e] == Some(edges[e])) <==>
      (forall e | 0 <= e < |edges| :: em[e].Some? ==> em[e] == Some(edges[e]))
        && (forall i | 0 <= i < |ps| :: gs[i] == edges[ps[i]])
  {
    if forall e | 0 <= e < |edges| :: em'[e].Some? ==> em'[e] == Some(edges[e]) {
      forall i | 0 <= i < |ps| ensures gs[i] == edges[ps[i]] { assert em'[ps[i]].Some?; }
      forall e: nat | e < |edges| && em[e].Some? ensures em[e] == Some(edges[e]) {
        assert e !in ps;
        assert em'[e] == em[e];
      }
    }
    if (forall e | 0 <= e < |edges| :: em[e].Some? ==> em[e] == Some(edges[e]))
      && (forall i | 0 <= i < |ps| :: gs[i] == edges[ps[i]])
    {
      forall e: nat | e < |edges| && em'[e].Some? ensures em'[e] == Some(edges[e]) {
        if e in ps { var i :| 0 <= i < |ps| && ps[i] == e; } else { assert em'[e] == em[e]; }
      }
    }
  }

  /** Read off along `EdgesOf`, the edges of a match are its candidate's edge and its constraint edges. */
  lemma EdgesOfMatch(step: PlanStep, m: Match)
    requires StepInMatch(step, m)
    ensures
      var ps, gs := EdgesOf(step), BoundEdges(CandidateOf(step, m).0, ConstraintEdgesOf(step, m));
      |ps| == |gs| && forall i | 0 <= i < |ps| :: ps[i] < |m.edges| && gs[i] == m.edges[ps[i]]
  {
  }

  lemma BoundEdgesInjective(a: Option<Entity>, x: seq<Entity>, b: Option<Entity>, y: seq<Entity>)
    requires a.Some? == b.Some? && BoundEdges(a, x) == BoundEdges(b, y)
    ensures a == b && x == y
  {
    var shift := if a.Some? then 1 else 0;
    assert BoundEdges(a, x)[shift..] == x && BoundEdges(b, y)[shift..] == y;
    if a.Some? { assert BoundEdges(a, x)[0] == BoundEdges(b, y)[0]; }
  }

  lemma EdgesSplit(step: PlanStep, edgeOpt: Option<Entity>, es: seq<Entity>, m: Match)
    requires StepInMatch(step, m) && |es| == |step.constraints| && (edgeOpt.Some? <==> step.join.Some?)
    ensures
      (forall i | 0 <= i < |EdgesOf(step)| ::
        EdgesOf(step)[i] < |m.edges| && BoundEdges(edgeOpt, es)[i] == m.edges[EdgesOf(step)[i]]) <==>
      edgeOpt == CandidateOf(step, m).0 && es == ConstraintEdgesOf(step, m)
  {
    EdgesOfMatch(step, m);
    var ps, gs := EdgesOf(step), BoundEdges(edgeOpt, es);
    if forall i | 0 <= i < |ps| :: ps[i] < |m.edges| && gs[i] == m.edges[ps[i]] {
      assert gs == BoundEdges(CandidateOf(step, m).0, ConstraintEdgesOf(step, m));
      BoundEdgesInjective(edgeOpt, es, CandidateOf(step, m).0, ConstraintEdgesOf(step, m));
    }
  }

  // ---- Which matches are found ----

  /** The match goes through step `k` from `b`, its candidate being among `cands`. */
  ghost predicate Passes(g: Graph, p: Shape, steps: seq<PlanStep>, k: nat, b: Binding, cands: seq<Candidate>, m: Match)
    requires k < |steps|
  {
    && Sized(p, m) && StepInMatch(steps[k], m) && Agrees(b, m)
    && CandidateOf(steps[k], m) in cands
    && AdmitAt(g, p, steps, k, b, CandidateOf(steps[k], m)) == Some(ConstraintEdgesOf(steps[k], m))
  }

  /** The match goes through every step from `k` on. */
  ghost predicate PassesFrom(g: Graph, p: Shape, steps: seq<PlanStep>, k: nat, b: Binding, m: Match)
    requires k <= |steps|
    decreases |steps| - k
  {
    if k == |steps| then Sized(p, m) && Agrees(b, m)
    else
      && Passes(g, p, steps, k, b, CandidatesAt(g, p, steps, k, b), m)
      && PassesFrom(g, p, steps, k + 1, Next(steps, k, b, m), m)
  }

  /** The binding after `m`'s candidate at step `k`. */
  ghost function Next(steps: seq<PlanStep>, k: nat, b: Binding, m: Match): Binding
    requires k < |steps| && StepInMatch(steps[k], m)
  {
    CommitAt(steps, k, b, CandidateOf(steps[k], m), ConstraintEdgesOf(steps[k], m))
  }

  /** After the last step everything is bound except the loops. */
  lemma AllBound(p: Shape, steps: seq<PlanStep>, b: Binding)
    requires At(p, steps, |steps|, b)
    ensures forall s: nat | s < |b.mapping| :: b.mapping[s].Some?
    ensures forall e: nat | e < |b.edgeMapping| :: b.edgeMapping[e].Some? <==> !IsLoop(p.edges[e])
  {
    var order := Slots(steps);
    PermutationHoldsAll(order, |p.nodes|);
    forall e: nat | e < |p.edges| ensures b.edgeMapping[e].Some? <==> !IsLoop(p.edges[e]) {
      assert p.edges[e].from in order && p.edges[e].to in order;
      assert BindsAt(p, order, e) < |steps| <==> !IsLoop(p.edges[e]);
    }
  }

  lemma CompleteIsOnly(p: Shape, steps: seq<PlanStep>, b: Binding, m: Match)
    requires At(p, steps, |steps|, b)
    ensures m == Complete(b) <==> Sized(p, m) && Agrees(b, m)
  {
    AllBound(p, steps, b);
    var full := Complete(b);
    if Sized(p, m) && Agrees(b, m) {
      assert m.nodes == full.nodes;
      forall e: nat | e < |p.edges| ensures m.edges[e] == full.edges[e] { assert LeavesLoop(p, m, e); }
      assert m.edges == full.edges;
    }
    if m == full {
      forall e: nat ensures LeavesLoop(p, m, e) { }
    }
  }

  lemma AgreeingGoesThrough(p: Shape, steps: seq<PlanStep>, k: nat, b: Binding, c: Candidate, es: seq<Entity>, m: Match)
    requires At(p, steps, k, b) && k < |steps| && (c.0.Some? <==> steps[k].join.Some?) && |es| == |steps[k].constraints|
    requires Sized(p, m) && Agrees(CommitAt(steps, k, b, c, es), m)
    ensures StepInMatch(steps[k], m) && Agrees(b, m)
    ensures c == CandidateOf(steps[k], m) && es == ConstraintEdgesOf(steps[k], m)
  {
    CommitAgrees(p, steps, k, b, c, es, m);
  }

  /** Going on from an admitted candidate is going on from `b` with that candidate. */
  lemma PassesWith(g: Graph, p: Shape, steps: seq<PlanStep>, k: nat, b: Binding, c: Candidate, es: seq<Entity>,
                   m: Match)
    requires At(p, steps, k, b) && k < |steps| && (c.0.Some? <==> steps[k].join.Some?)
    requires AdmitAt(g, p, steps, k, b, c) == Some(es)
    ensures PassesFrom(g, p, steps, k + 1, CommitAt(steps, k, b, c, es), m) <==>
      Passes(g, p, steps, k, b, [c], m) && PassesFrom(g, p, steps, k + 1, Next(steps, k, b, m), m)
  {
    if PassesFrom(g, p, steps, k + 1, CommitAt(steps, k, b, c, es), m) {
      PassesFromAgrees(g, p, steps, k + 1, CommitAt(steps, k, b, c, es), m);
      AgreeingGoesThrough(p, steps, k, b, c, es, m);
    } else if Passes(g, p, steps, k, b, [c], m) {
      assert c == CandidateOf(steps[k], m);
    }
  }

  /** A candidate is the first or one of the rest. */
  lemma PassesSplit(g: Graph, p: Shape, steps: seq<PlanStep>, k: nat, b: Binding, cands: seq<Candidate>, m: Match)
    requires k < |steps| && cands != []
    ensures Passes(g, p, steps, k, b, cands, m) <==>
      Passes(g, p, steps, k, b, [cands[0]], m) || Passes(g, p, steps, k, b, cands[1..], m)
  {
    assert forall x :: x in cands <==> x in [cands[0]] || x in cands[1..];
  }

  /** Whether `m` is found from an admitted candidate. */
  lemma {:induction false} HeadIff(g: Graph, p: Shape, steps: seq<PlanStep>, k: nat, b: Binding, c: Candidate,
                                   es: seq<Entity>, m: Match)
    requires At(p, steps, k, b) && k < |steps| && (c.0.Some? <==> steps[k].join.Some?)
    requires AdmitAt(g, p, steps, k, b, c) == Some(es)
    ensures m in Below(g, p, steps, k + 1, CommitAt(steps, k, b, c, es)) <==>
      Passes(g, p, steps, k, b, [c], m) && PassesFrom(g, p, steps, k + 1, Next(steps, k, b, m), m)
    decreases |steps| - k, 0, 1
  {
    CommitStays(p, steps, k, b, c, es);
    BelowIff(g, p, steps, k + 1, CommitAt(steps, k, b, c, es), m);
    PassesWith(g, p, steps, k, b, c, es, m);
  }

  lemma {:induction false} FoundIff(g: Graph, p: Shape, steps: seq<PlanStep>, k: nat, b: Binding,
                                    cands: seq<Candidate>, m: Match)
    requires At(p, steps, k, b) && k < |steps| && Fitting(steps[k], cands)
    ensures m in Found(g, p, steps, k, b, cands) <==>
      Passes(g, p, steps, k, b, cands, m) && PassesFrom(g, p, steps, k + 1, Next(steps, k, b, m), m)
    decreases |steps| - k, |cands|, 0
  {
    if cands != [] {
      var c, rest := cands[0], cands[1..];
      FoundIff(g, p, steps, k, b, rest, m);
      PassesSplit(g, p, steps, k, b, cands, m);
      var es := AdmitAt(g, p, steps, k, b, c);
      if es.Some? { HeadIff(g, p, steps, k, b, c, es.value, m); }
    }
  }

  lemma {:induction false} BelowIff(g: Graph, p: Shape, steps: seq<PlanStep>, k: nat, b: Binding, m: Match)
    requires At(p, steps, k, b)
    ensures m in Below(g, p, steps, k, b) <==> PassesFrom(g, p, steps, k, b, m)
    decreases |steps| - k + 1, 0, 0
  {
    if k == |steps| {
      CompleteIsOnly(p, steps, b, m);
    } else {
      FoundIff(g, p, steps, k, b, CandidatesAt(g, p, steps, k, b), m);
    }
  }

  lemma PassesFromAgrees(g: Graph, p: Shape, steps: seq<PlanStep>, k: nat, b: Binding, m: Match)
    requires k <= |steps|
    ensures PassesFrom(g, p, steps, k, b, m) ==> Sized(p, m) && Agrees(b, m)
  {
  }

  // ---- No match is found twice ----

  ghost predicate DistinctLists(g: Graph) {
    NoDup(g.nodes) && (forall n :: NoDup(g.outgoing(n))) && (forall n :: NoDup(g.incoming(n)))
  }

  lemma CandidatesDistinct(g: Graph, p: Shape, steps: seq<PlanStep>, k: nat, b: Binding)
    requires At(p, steps, k, b) && k < |steps| && DistinctLists(g)
    ensures NoDup(CandidatesAt(g, p, steps, k, b))
  {
    ReadyAt(p, steps, k, b);
    if steps[k].join.Some? {
      var j := steps[k].join.value;
      var at := b.mapping[j.anchorSlot].value;
      assert NoDup(g.outgoing(at)) && NoDup(g.incoming(at));
    }
  }

  lemma BelowGoesThrough(g: Graph, p: Shape, steps: seq<PlanStep>, k: nat, b: Binding, c: Candidate, es: seq<Entity>,
                         m: Match)
    requires At(p, steps, k, b) && k < |steps|
    requires |es| == |steps[k].constraints| && (c.0.Some? <==> steps[k].join.Some?)
    requires m in Below(g, p, steps, k + 1, CommitAt(steps, k, b, c, es))
    ensures StepInMatch(steps[k], m) && CandidateOf(steps[k], m) == c
  {
    var b' := CommitAt(steps, k, b, c, es);
    CommitStays(p, steps, k, b, c, es);
    BelowIff(g, p, steps, k + 1, b', m);
    PassesFromAgrees(g, p, steps, k + 1, b', m);
    CommitAgrees(p, steps, k, b, c, es, m);
  }

  lemma FoundGoesThrough(g: Graph, p: Shape, steps: seq<PlanStep>, k: nat, b: Binding, cands: seq<Candidate>, m: Match)
    requires At(p, steps, k, b) && k < |steps| && Fitting(steps[k], cands)
    requires m in Found(g, p, steps, k, b, cands)
    ensures StepInMatch(steps[k], m) && CandidateOf(steps[k], m) in cands
  {
    FoundIff(g, p, steps, k, b, cands, m);
  }

  /** Matches below different candidates differ at the slot or edge the candidate binds. */
  lemma HeadApart(g: Graph, p: Shape, steps: seq<PlanStep>, k: nat, b: Binding, c: Candidate, rest: seq<Candidate>,
                  es: seq<Entity>, m: Match)
    requires At(p, steps, k, b) && k < |steps| && Fitting(steps[k], rest) && c !in rest
    requires |es| == |steps[k].constraints| && (c.0.Some? <==> steps[k].join.Some?)
    requires m in Below(g, p, steps, k + 1, CommitAt(steps, k, b, c, es))
    ensures m !in Found(g, p, steps, k, b, rest)
  {
    BelowGoesThrough(g, p, steps, k, b, c, es, m);
    if m in Found(g, p, steps, k, b, rest) { FoundGoesThrough(g, p, steps, k, b, rest, m); }
  }

  lemma HeadJoins(g: Graph, p: Shape, steps: seq<PlanStep>, k: nat, b: Binding, c: Candidate, rest: seq<Candidate>,
                  es: seq<Entity>)
    requires At(p, steps, k, b) && k < |steps| && Fitting(steps[k], rest) && c !in rest
    requires |es| == |steps[k].constraints| && (c.0.Some? <==> steps[k].join.Some?)
    requires NoDup(Below(g, p, steps, k + 1, CommitAt(steps, k, b, c, es))) && NoDup(Found(g, p, steps, k, b, rest))
    ensures NoDup(Below(g, p, steps, k + 1, CommitAt(steps, k, b, c, es)) + Found(g, p, steps, k, b, rest))
  {
    forall m | m in Below(g, p, steps, k + 1, CommitAt(steps, k, b, c, es))
      ensures m !in Found(g, p, steps, k, b, rest)
    {
      HeadApart(g, p, steps, k, b, c, rest, es, m);
    }
    NoDupJoin(Below(g, p, steps, k + 1, CommitAt(steps, k, b, c, es)), Found(g, p, steps, k, b, rest));
  }

  lemma {:induction false} FoundDistinct(g: Graph, p: Shape, steps: seq<PlanStep>, k: nat, b: Binding,
                                         cands: seq<Candidate>)
    requires At(p, steps, k, b) && k < |steps| && Fitting(steps[k], cands) && DistinctLists(g) && NoDup(cands)
    ensures NoDup(Found(g, p, steps, k, b, cands))
    decreases |steps| - k, |cands|, 0
  {
    if cands != [] {
      FoundDistinct(g, p, steps, k, b, cands[1..]);
      if AdmitAt(g, p, steps, k, b, cands[0]).Some? {
        HeadDistinct(g, p, steps, k, b, cands[0]);
        HeadJoins(g, p, steps, k, b, cands[0], cands[1..], AdmitAt(g, p, steps, k, b, cands[0]).value);
      }
    }
  }

  lemma {:induction false} HeadDistinct(g: Graph, p: Shape, steps: seq<PlanStep>, k: nat, b: Binding, c: Candidate)
    requires At(p, steps, k, b) && k < |steps| && DistinctLists(g) && (c.0.Some? <==> steps[k].join.Some?)
    requires AdmitAt(g, p, steps, k, b, c).Some?
    ensures NoDup(Below(g, p, steps, k + 1, CommitAt(steps, k, b, c, AdmitAt(g, p, steps, k, b, c).value)))
    decreases |steps| - k, 0, 1
  {
    var es := AdmitAt(g, p, steps, k, b, c).value;
    CommitStays(p, steps, k, b, c, es);
    BelowDistinct(g, p, steps, k + 1, CommitAt(steps, k, b, c, es));
  }

  lemma {:induction false} BelowDistinct(g: Graph, p: Shape, steps: seq<PlanStep>, k: nat, b: Binding)
    requires At(p, steps, k, b) && DistinctLists(g)
    ensures NoDup(Below(g, p, steps, k, b))
    decreases |steps| - k + 1, 0, 0
  {
    if k < |steps| {
      CandidatesDistinct(g, p, steps, k, b);
      FoundDistinct(g, p, steps, k, b, CandidatesAt(g, p, steps, k, b));
    }
  }
}
