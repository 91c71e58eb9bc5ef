/**
 * The backtracking search of `kyoso_graph::subgraph` as a value: candidate lists, the checks on
 * a candidate, and its commit.
 *
 * A binding of the first steps of a plan binds their slots and edges and nothing else; a commit
 * adds the next step.
 */
module Search {
  import opened Ecs
  import opened Sequences
  import opened Wrappers
  import opened Pattern
  import opened Plan

  /** A read view: all nodes, and per node the `(edge, neighbour)` pairs in iteration order. */
  datatype Graph = Graph(nodes: seq<Entity>, outgoing: Entity -> seq<(Entity, Entity)>,
                         incoming: Entity -> seq<(Entity, Entity)>)

  /** One graph entity per slot and one edge entity per pattern edge. */
  datatype Match = Match(nodes: seq<Entity>, edges: seq<Entity>)

  /** The four structures the search updates. */
  datatype Binding = Binding(mapping: seq<Option<Entity>>, edgeMapping: seq<Option<Entity>>, usedNodes: set<Entity>,
                             usedEdges: set<Entity>)

  type Candidate = (Option<Entity>, Entity)

  predicate Defined<T>(s: seq<Option<T>>, i: nat) {
    i < |s| && s[i].Some?
  }

  // ---- Candidates ----

  function Hops(pairs: seq<(Entity, Entity)>): seq<Candidate> {
    seq(|pairs|, i requires 0 <= i < |pairs| => (Some(pairs[i].0), pairs[i].1))
  }

  /** What the iterator made for a step yields. */
  function Candidates(g: Graph, p: Shape, step: PlanStep, b: Binding): seq<Candidate>
    requires step.slot < |p.nodes|
    requires step.join.Some? ==> Defined(b.mapping, step.join.value.anchorSlot)
  {
    match step.join
    case None =>
      if p.nodes[step.slot].anchor.Some? then [(None, p.nodes[step.slot].anchor.value)]
      else seq(|g.nodes|, i requires 0 <= i < |g.nodes| => (None, g.nodes[i]))
    case Some(j) =>
      var at := b.mapping[j.anchorSlot].value;
      if j.search.Outgoing? then Hops(g.outgoing(at)) else Hops(g.incoming(at))
  }

  // ---- Committing a candidate ----

  function FirstTo(pairs: seq<(Entity, Entity)>, to: Entity): Option<Entity> {
    if pairs == [] then None else if pairs[0].1 == to then Some(pairs[0].0) else FirstTo(pairs[1..], to)
  }

  function FindEdgeDir(g: Graph, from: Entity, to: Entity, direction: Direction): Option<Entity> {
    if direction.Forward? then FirstTo(g.outgoing(from), to) else FirstTo(g.outgoing(to), from)
  }

  predicate EdgeAccepts(p: Shape, e: nat, entity: Entity) {
    e < |p.edges| && (p.edges[e].pred.Some? ==> p.edges[e].pred.value(entity))
  }

  predicate ConstraintBound(c: ConstraintEdge, mapping: seq<Option<Entity>>) {
    Defined(mapping, c.fromSlot) && Defined(mapping, c.toSlot)
  }

  /** The graph edge a constraint is resolved to. */
  function Resolve(g: Graph, c: ConstraintEdge, mapping: seq<Option<Entity>>): Option<Entity>
    requires ConstraintBound(c, mapping)
  {
    FindEdgeDir(g, mapping[c.fromSlot].value, mapping[c.toSlot].value, c.direction)
  }

  /** The constraint loop; `found` holds the edges of the constraints already passed. */
  function CheckConstraints(g: Graph, p: Shape, cs: seq<ConstraintEdge>, mapping: seq<Option<Entity>>,
                            used: set<Entity>, found: seq<Entity>): Option<seq<Entity>>
    requires forall c | c in cs :: ConstraintBound(c, mapping)
    decreases |cs|
  {
    if cs == [] then Some(found) else
      match Resolve(g, cs[0], mapping)
      case None => None
      case Some(e) =>
        if e in used || e in found || !EdgeAccepts(p, cs[0].edge, e) then None
        else CheckConstraints(g, p, cs[1..], mapping, used, found + [e])
  }

  predicate JoinAccepts(p: Shape, step: PlanStep, b: Binding, edgeOpt: Option<Entity>) {
    step.join.Some? && edgeOpt.Some? ==>
      edgeOpt.value !in b.usedEdges && EdgeAccepts(p, step.join.value.edge, edgeOpt.value)
  }

  /** The graph edges a step binds, in the order of `EdgesOf`: the join edge, then the constraint edges. */
  function BoundEdges(edgeOpt: Option<Entity>, es: seq<Entity>): seq<Entity> {
    (if edgeOpt.Some? then [edgeOpt.value] else []) + es
  }

  function SetOf(s: seq<Entity>): set<Entity> {
    set e | e in s
  }

  function SetAll(at: seq<nat>, values: seq<Entity>, m: seq<Option<Entity>>): (r: seq<Option<Entity>>)
    requires |at| == |values| && forall e | e in at :: e < |m|
    ensures |r| == |m|
  {
    if at == [] then m else
      var l := |at| - 1;
      assert at[l] in at;
      assert forall e | e in at[..l] :: e in at;
      SetAll(at[..l], values[..l], m)[at[l] := Some(values[l])]
  }

  function Commit(step: PlanStep, b: Binding, edgeOpt: Option<Entity>, node: Entity, es: seq<Entity>): Binding
    requires StepInRange(step, b) && |es| == |step.constraints|
    requires edgeOpt.Some? <==> step.join.Some?
  {
    Binding(
      b.mapping[step.slot := Some(node)],
      SetAll(EdgesOf(step), BoundEdges(edgeOpt, es), b.edgeMapping),
      b.usedNodes + {node},
      b.usedEdges + SetOf(BoundEdges(edgeOpt, es)))
  }

  predicate StepInRange(step: PlanStep, b: Binding) {
    && step.slot < |b.mapping|
    && (forall e | e in EdgesOf(step) :: e < |b.edgeMapping|)
  }

  /** Everything a commit looks at is bound once the slot itself is. */
  predicate StepReady(step: PlanStep, b: Binding) {
    && StepInRange(step, b)
    && (step.join.Some? ==> Defined(b.mapping, step.join.value.anchorSlot))
    && (forall c | c in step.constraints :: ConstraintBound(c, b.mapping[step.slot := Some(0)]))
  }

  /** The constraint edges of a candidate that passes every check. */
  function Admit(g: Graph, p: Shape, step: PlanStep, b: Binding, edgeOpt: Option<Entity>,
                 node: Entity): (r: Option<seq<Entity>>)
    requires step.slot < |p.nodes| && StepReady(step, b)
    ensures r.Some? ==> |r.value| == |step.constraints|
  {
    if node in b.usedNodes || !p.nodes[step.slot].pred(node) || !JoinAccepts(p, step, b, edgeOpt) then None
    else
      BoundWith(step, b, node);
      CheckedLength(g, p, step.constraints, b.mapping[step.slot := Some(node)], b.usedEdges, []);
      CheckConstraints(g, p, step.constraints, b.mapping[step.slot := Some(node)], b.usedEdges, [])
  }

  lemma BoundWith(step: PlanStep, b: Binding, node: Entity)
    requires StepReady(step, b)
    ensures forall c | c in step.constraints :: ConstraintBound(c, b.mapping[step.slot := Some(node)])
  {
    forall c | c in step.constraints ensures ConstraintBound(c, b.mapping[step.slot := Some(node)]) {
      assert ConstraintBound(c, b.mapping[step.slot := Some(0)]);
    }
  }

  lemma {:induction false} CheckedLength(g: Graph, p: Shape, cs: seq<ConstraintEdge>, mapping: seq<Option<Entity>>,
                                         used: set<Entity>, found: seq<Entity>)
    requires forall c | c in cs :: ConstraintBound(c, mapping)
    ensures CheckConstraints(g, p, cs, mapping, used, found).Some? ==>
      |CheckConstraints(g, p, cs, mapping, used, found).value| == |found| + |cs|
    decreases |cs|
  {
    if cs != [] && Resolve(g, cs[0], mapping).Some? {
      CheckedLength(g, p, cs[1..], mapping, used, found + [Resolve(g, cs[0], mapping).value]);
    }
  }

  // ---- Partial bindings ----

  /** What the entries are bound to. */
  function Bound(m: seq<Option<Entity>>): set<Entity> {
    set i | 0 <= i < |m| && m[i].Some? :: m[i].value
  }

  lemma BoundMembers(m: seq<Option<Entity>>)
    ensures forall x :: x in Bound(m) <==> Some(x) in m
  {
    forall x ensures x in Bound(m) <==> Some(x) in m {
      if Some(x) in m { var i :| 0 <= i < |m| && m[i] == Some(x); assert m[i].Some? && m[i].value == x; }
    }
  }

  /**
   * The slots and edges of the steps before `k` are bound and nothing else is; the used sets say what
   * they are bound to.
   */
  ghost predicate BoundTo(p: Shape, steps: seq<PlanStep>, k: nat, b: Binding)
    requires k <= |steps|
  {
    && |b.mapping| == |p.nodes| && |b.edgeMapping| == |p.edges|
    && (forall s: nat | s < |p.nodes| :: b.mapping[s].Some? <==> Position(Slots(steps), s) < k)
    && (forall e: nat | e < |p.edges| :: b.edgeMapping[e].Some? <==> BindsAt(p, Slots(steps), e) < k)
    && b.usedNodes == Bound(b.mapping) && b.usedEdges == Bound(b.edgeMapping)
  }

  /** The step that binds a pattern edge: that of its later end. A loop on one slot is bound by none. */
  function BindsAt(p: Shape, order: seq<nat>, e: nat): nat
    requires e < |p.edges|
  {
    var a, b := Position(order, p.edges[e].from), Position(order, p.edges[e].to);
    if IsLoop(p.edges[e]) then |order| else if a < b then b else a
  }

  function Unbound(p: Shape): Binding {
    Binding(seq(|p.nodes|, _ => None), seq(|p.edges|, _ => None), {}, {})
  }

  /** An edge closes exactly at the step of its later end, so a plan binds every edge once. */
  lemma EdgeBoundOnce(p: Shape, steps: seq<PlanStep>, e: nat, k: nat)
    requires ValidPlan(p, steps) && InRange(p) && e < |p.edges| && k < |steps|
    ensures e in EdgesOf(steps[k]) <==> k == BindsAt(p, Slots(steps), e)
    ensures BindsAt(p, Slots(steps), e) < |steps| <==> !IsLoop(p.edges[e])
  {
    var order := Slots(steps);
    assert StepFits(p, order, k, steps[k]);
    PermutationHoldsAll(order, |p.nodes|);
    var from, to := p.edges[e].from, p.edges[e].to;
    assert from in order && to in order;
    PositionOf(order, k);
    assert !IsLoop(p.edges[e]) ==> Position(order, from) != Position(order, to);
  }

  lemma EndsBound(p: Shape, order: seq<nat>, k: nat, mapping: seq<Option<Entity>>, c: ConstraintEdge)
    requires InRange(p) && ConstraintFits(p, c) && k < |order| && ClosesAt(p, order, c.edge, k)
    requires order[k] < |mapping| == |p.nodes|
    requires forall s: nat | s < |p.nodes| :: mapping[s].Some? <==> Position(order, s) < k
    ensures ConstraintBound(c, mapping[order[k] := Some(0)])
  {
  }

  /** A constraint of a step has both ends bound once the step's own slot is. */
  lemma ConstraintReady(p: Shape, steps: seq<PlanStep>, k: nat, b: Binding, c: ConstraintEdge)
    requires ValidPlan(p, steps) && InRange(p) && k < |steps| && BoundTo(p, steps, k, b) && c in steps[k].constraints
    ensures c.edge < |p.edges| && steps[k].slot < |b.mapping| && ConstraintBound(c, b.mapping[steps[k].slot := Some(0)])
  {
    FitsAt(p, steps, k);
    ConstraintOf(steps[k], c);
    EndsBound(p, Slots(steps), k, b.mapping, c);
  }

  lemma ConstraintOf(step: PlanStep, c: ConstraintEdge)
    requires c in step.constraints
    ensures c.edge in EdgesOf(step)
  {
    var i :| 0 <= i < |step.constraints| && step.constraints[i] == c;
    assert EdgesOf(step)[if step.join.Some? then i + 1 else i] == c.edge;
  }

  lemma EdgesReady(p: Shape, steps: seq<PlanStep>, k: nat, b: Binding)
    requires ValidPlan(p, steps) && InRange(p) && k < |steps| && BoundTo(p, steps, k, b)
    ensures forall e | e in EdgesOf(steps[k]) :: e < |p.edges| && b.edgeMapping[e] == None
  {
    FitsAt(p, steps, k);
    forall e | e in EdgesOf(steps[k]) ensures e < |p.edges| && b.edgeMapping[e] == None {
      EdgeBoundOnce(p, steps, e, k);
    }
  }

  lemma ReadyAt(p: Shape, steps: seq<PlanStep>, k: nat, b: Binding)
    requires ValidPlan(p, steps) && InRange(p) && k < |steps| && BoundTo(p, steps, k, b)
    ensures steps[k].slot < |p.nodes| && StepReady(steps[k], b)
    ensures b.mapping[steps[k].slot] == None
    ensures forall e | e in EdgesOf(steps[k]) :: e < |p.edges| && b.edgeMapping[e] == None
  {
    FitsAt(p, steps, k);
    EdgesReady(p, steps, k, b);
    forall c | c in steps[k].constraints ensures ConstraintBound(c, b.mapping[steps[k].slot := Some(0)]) {
      ConstraintReady(p, steps, k, b, c);
    }
  }

  // ---- What a commit changes ----

  lemma {:induction false} SetAllAt(at: seq<nat>, values: seq<Entity>, m: seq<Option<Entity>>)
    requires |at| == |values| && NoDup(at) && forall e | e in at :: e < |m|
    ensures forall i | 0 <= i < |at| :: at[i] < |m| && SetAll(at, values, m)[at[i]] == Some(values[i])
    ensures forall x: nat | x < |m| && x !in at :: SetAll(at, values, m)[x] == m[x]
  {
    forall i | 0 <= i < |at| ensures at[i] < |m| { assert at[i] in at; }
    if at != [] {
      var l := |at| - 1;
      SetAllAt(at[..l], values[..l], m);
      forall i | 0 <= i < l ensures SetAll(at[..l], values[..l], m)[at[i]] == Some(values[i]) {
        assert at[..l][i] == at[i];
      }
    }
  }

  lemma CommitBinds(p: Shape, steps: seq<PlanStep>, k: nat, b: Binding, edgeOpt: Option<Entity>, node: Entity,
                    es: seq<Entity>)
    requires ValidPlan(p, steps) && InRange(p) && k < |steps| && BoundTo(p, steps, k, b)
    requires edgeOpt.Some? <==> steps[k].join.Some?
    requires |es| == |steps[k].constraints|
    ensures StepInRange(steps[k], b) && BoundTo(p, steps, k + 1, Commit(steps[k], b, edgeOpt, node, es))
  {
    var step := steps[k];
    ReadyAt(p, steps, k, b);
    FitsAt(p, steps, k);
    var gs := BoundEdges(edgeOpt, es);
    SlotsAfter(p, steps, k, b, node);
    EdgesAfter(p, steps, k, b, gs);
    UsedNodesAfter(b, step.slot, node);
    EdgesUsedAfter(step, b, gs);
  }

  lemma EdgesUsedAfter(step: PlanStep, b: Binding, gs: seq<Entity>)
    requires |gs| == |EdgesOf(step)| && NoDup(EdgesOf(step)) && forall e | e in EdgesOf(step) ::
      e < |b.edgeMapping| && b.edgeMapping[e] == None
    requires b.usedEdges == Bound(b.edgeMapping)
    ensures b.usedEdges + SetOf(gs) == Bound(SetAll(EdgesOf(step), gs, b.edgeMapping))
  {
    var ps := EdgesOf(step);
    SetAllAt(ps, gs, b.edgeMapping);
    forall i | 0 <= i < |ps| ensures ps[i] < |b.edgeMapping| && b.edgeMapping[ps[i]] == None { assert ps[i] in ps; }
    UsedEdgesAfter(b.edgeMapping, SetAll(ps, gs, b.edgeMapping), ps, gs, b.usedEdges);
  }

  lemma SlotsAfter(p: Shape, steps: seq<PlanStep>, k: nat, b: Binding, node: Entity)
    requires ValidPlan(p, steps) && k < |steps| && BoundTo(p, steps, k, b) && steps[k].slot < |p.nodes|
    ensures forall s: nat | s < |p.nodes| ::
      b.mapping[steps[k].slot := Some(node)][s].Some? <==> Position(Slots(steps), s) < k + 1
  {
    var order := Slots(steps);
    PositionOf(order, k);
    forall s: nat | s < |p.nodes|
      ensures b.mapping[steps[k].slot := Some(node)][s].Some? <==> Position(order, s) < k + 1
    {
      if Position(order, s) == k { assert order[k] == s; }
    }
  }

  lemma EdgesAfter(p: Shape, steps: seq<PlanStep>, k: nat, b: Binding, gs: seq<Entity>)
    requires ValidPlan(p, steps) && InRange(p) && k < |steps| && BoundTo(p, steps, k, b)
    requires |gs| == |EdgesOf(steps[k])| && NoDup(EdgesOf(steps[k])) && forall e | e in EdgesOf(steps[k]) ::
      e < |p.edges|
    ensures forall e: nat | e < |p.edges| ::
      SetAll(EdgesOf(steps[k]), gs, b.edgeMapping)[e].Some? <==> BindsAt(p, Slots(steps), e) < k + 1
  {
    var ps := EdgesOf(steps[k]);
    SetAllAt(ps, gs, b.edgeMapping);
    forall e: nat | e < |p.edges|
      ensures SetAll(ps, gs, b.edgeMapping)[e].Some? <==> BindsAt(p, Slots(steps), e) < k + 1
    {
      EdgeBoundOnce(p, steps, e, k);
      if e in ps { var i :| 0 <= i < |ps| && ps[i] == e; }
    }
  }

  lemma UsedNodesAfter(b: Binding, slot: nat, node: Entity)
    requires slot < |b.mapping| && b.mapping[slot] == None
    requires b.usedNodes == Bound(b.mapping)
    ensures b.usedNodes + {node} == Bound(b.mapping[slot := Some(node)])
  {
    var m' := b.mapping[slot := Some(node)];
    BoundMembers(b.mapping);
    BoundMembers(m');
    forall x ensures x in b.usedNodes + {node} <==> Some(x) in m' {
      if Some(x) in b.mapping {
        var i :| 0 <= i < |b.mapping| && b.mapping[i] == Some(x);
        assert m'[i] == Some(x);
      }
      assert m'[slot] == Some(node);
    }
  }

  lemma UsedEdgesAfter(m: seq<Option<Entity>>, m': seq<Option<Entity>>, ps: seq<nat>, gs: seq<Entity>,
                       used: set<Entity>)
    requires |m| == |m'| && |ps| == |gs|
    requires forall i | 0 <= i < |ps| :: ps[i] < |m| && m[ps[i]] == None && m'[ps[i]] == Some(gs[i])
    requires forall x: nat | x < |m| && x !in ps :: m'[x] == m[x]
    requires used == Bound(m)
    ensures used + SetOf(gs) == Bound(m')
  {
    BoundMembers(m);
    BoundMembers(m');
    forall x ensures x in used + SetOf(gs) <==> Some(x) in m' {
      if Some(x) in m {
        var i: nat :| i < |m| && m[i] == Some(x);
        assert i !in ps;
        assert m'[i] == Some(x);
      }
      if x in gs {
        var i :| 0 <= i < |gs| && gs[i] == x;
        assert m'[ps[i]] == Some(x);
      }
      if Some(x) in m' {
        var i: nat :| i < |m'| && m'[i] == Some(x);
        if i in ps { var j :| 0 <= j < |ps| && ps[j] == i; assert gs[j] == x; } else { assert m[i] == Some(x); }
      }
    }
  }
}
