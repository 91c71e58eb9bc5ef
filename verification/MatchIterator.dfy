/**
 * The iterator object: `SubgraphMatches::{new, unbind_top, try_commit, next}`. Its methods change
 * the stack, two arrays and two sets in place. Each is proved to do what module
 * SubgraphIterator says about stacks as values, so that `Next` hands out the list of module
 * Enumeration one match at a time.
 *
 * The four structures always hold the union of the commits on the stack.
 */
module MatchIterator {
  import opened Ecs
  import opened Sequences
  import opened Wrappers
  import opened Pattern
  import opened Plan
  import opened Search
  import opened Enumeration
  import opened SubgraphIterator

  predicate Names(cs: seq<ConstraintEdge>, x: nat) {
    exists i :: 0 <= i < |cs| && cs[i].edge == x
  }

  lemma EdgesOfNames(step: PlanStep)
    ensures forall x: nat :: x in EdgesOf(step) <==>
      (step.join.Some? && step.join.value.edge == x) || Names(step.constraints, x)
  {
    var es := EdgesOf(step);
    var shift := if step.join.Some? then 1 else 0;
    forall x: nat ensures x in es <==> (step.join.Some? && step.join.value.edge == x) || Names(step.constraints, x) {
      if x in es {
        var i :| 0 <= i < |es| && es[i] == x;
        if i >= shift { assert step.constraints[i - shift].edge == x; }
      }
      if Names(step.constraints, x) {
        var i :| 0 <= i < |step.constraints| && step.constraints[i].edge == x;
        assert es[i + shift] == x;
      }
      if step.join.Some? { assert es[0] == step.join.value.edge; }
    }
  }

  lemma SetOfBound(edgeOpt: Option<Entity>, es: seq<Entity>)
    ensures SetOf(BoundEdges(edgeOpt, es)) == (if edgeOpt.Some? then {edgeOpt.value} else {}) + SetOf(es)
  {
  }

  /** A map with the given entries written and all others kept is what `SetAll` makes. */
  lemma WrittenIsSetAll(at: seq<nat>, values: seq<Entity>, m: seq<Option<Entity>>, m': seq<Option<Entity>>)
    requires |at| == |values| && NoDup(at) && (forall e | e in at :: e < |m|) && |m'| == |m|
    requires forall i | 0 <= i < |at| :: at[i] < |m| && m'[at[i]] == Some(values[i])
    requires forall x: nat | x < |m| && x !in at :: m'[x] == m[x]
    ensures m' == SetAll(at, values, m)
  {
    SetAllAt(at, values, m);
    forall x: nat | x < |m| ensures m'[x] == SetAll(at, values, m)[x] {
      if x in at { var i :| 0 <= i < |at| && at[i] == x; }
    }
  }

  /** The edges of a step, when they are distinct. */
  lemma ConstraintsOf(step: PlanStep)
    requires NoDup(EdgesOf(step))
    ensures forall i | 0 <= i < |step.constraints| :: step.constraints[i].edge in EdgesOf(step)
    ensures forall i, j | 0 <= i < j < |step.constraints| :: step.constraints[i].edge != step.constraints[j].edge
    ensures step.join.Some? ==> step.join.value.edge in EdgesOf(step) && !Names(step.constraints, step.join.value.edge)
  {
    var ps, shift := EdgesOf(step), if step.join.Some? then 1 else 0;
    assert forall i | 0 <= i < |step.constraints| :: ps[i + shift] == step.constraints[i].edge;
    if step.join.Some? {
      assert ps[0] == step.join.value.edge;
      forall i | 0 <= i < |step.constraints| ensures step.constraints[i].edge != ps[0] { assert ps[0] != ps[i + 1]; }
    }
  }

  /** A property of every edge of a step and the graph edge it is bound to. */
  lemma EachBound(step: PlanStep, edgeOpt: Option<Entity>, es: seq<Entity>, m: seq<Option<Entity>>)
    requires |es| == |step.constraints| && (edgeOpt.Some? <==> step.join.Some?)
    requires step.join.Some? ==> step.join.value.edge < |m| && m[step.join.value.edge] == edgeOpt
    requires forall i | 0 <= i < |es| :: step.constraints[i].edge < |m| && m[step.constraints[i].edge] == Some(es[i])
    ensures
      var ps, gs := EdgesOf(step), BoundEdges(edgeOpt, es);
      |ps| == |gs| && forall i | 0 <= i < |ps| :: ps[i] < |m| && m[ps[i]] == Some(gs[i])
  {
    var ps, gs, shift := EdgesOf(step), BoundEdges(edgeOpt, es), if step.join.Some? then 1 else 0;
    forall i | 0 <= i < |ps| ensures ps[i] < |m| && m[ps[i]] == Some(gs[i]) {
      if i >= shift { assert ps[i] == step.constraints[i - shift].edge && gs[i] == es[i - shift]; }
    }
  }

  /** Writing the join edge and then the constraint edges writes all edges of the step. */
  lemma JoinThenConstraints(step: PlanStep, edgeOpt: Option<Entity>, es: seq<Entity>,
                            was: seq<Option<Entity>>, mid: seq<Option<Entity>>, now: seq<Option<Entity>>)
    requires NoDup(EdgesOf(step)) && (forall e | e in EdgesOf(step) :: e < |was|)
    requires |es| == |step.constraints| && (edgeOpt.Some? <==> step.join.Some?)
    requires step.join.Some? ==> step.join.value.edge < |was|
    requires mid == if step.join.Some? then was[step.join.value.edge := edgeOpt] else was
    requires |now| == |was| && forall i | 0 <= i < |es| ::
      step.constraints[i].edge < |was| && now[step.constraints[i].edge] == Some(es[i])
    requires forall x: nat | x < |was| && !Names(step.constraints, x) :: now[x] == mid[x]
    ensures now == SetAll(EdgesOf(step), BoundEdges(edgeOpt, es), was)
  {
    EdgesOfNames(step);
    ConstraintsOf(step);
    EachBound(step, edgeOpt, es, now);
    WrittenIsSetAll(EdgesOf(step), BoundEdges(edgeOpt, es), was, now);
  }

  /** The checks on a candidate of a step that is ready, and what its commit writes. */
  lemma AdmitReady(g: Graph, p: Shape, steps: seq<PlanStep>, k: nat, b: Binding, edgeOpt: Option<Entity>, node: Entity)
    requires k < |steps| && Ready(p, steps[k], b) && (edgeOpt.Some? <==> steps[k].join.Some?)
    ensures
      var step, mapping := steps[k], b.mapping[steps[k].slot := Some(node)];
      && (step.join.Some? ==> step.join.value.edge < |p.edges|)
      && (forall c | c in step.constraints :: c.edge < |p.edges| && ConstraintBound(c, mapping))
      && AdmitAt(g, p, steps, k, b, (edgeOpt, node)) ==
           (if node in b.usedNodes || !p.nodes[step.slot].pred(node) || !JoinAccepts(p, step, b, edgeOpt) then None
            else CheckConstraints(g, p, step.constraints, mapping, b.usedEdges, []))
    ensures
      var es := AdmitAt(g, p, steps, k, b, (edgeOpt, node));
      es.Some? ==> CommitAt(steps, k, b, (edgeOpt, node), es.value) == Commit(steps[k], b, edgeOpt, node, es.value)
  {
    var step := steps[k];
    ConstraintsOf(step);
    BoundWith(step, b, node);
    CheckedLength(g, p, step.constraints, b.mapping[step.slot := Some(node)], b.usedEdges, []);
    forall c | c in step.constraints ensures c.edge < |p.edges| {
      var i :| 0 <= i < |step.constraints| && step.constraints[i] == c;
    }
  }

  /** The commit of a candidate that passes every check on the top frame; a refused one changes nothing. */
  predicate Tried(g: Graph, p: Shape, steps: seq<PlanStep>, k: nat, c: Candidate, was: seq<Frame>, base: Binding,
                  ok: bool, stack: seq<Frame>, b: Binding)
    requires k < |steps| && was != []
  {
    match AdmitAt(g, p, steps, k, base, c)
    case None => !ok && stack == was && b == base
    case Some(es) =>
      && ok && b == CommitAt(steps, k, base, c, es)
      && stack == Top(was, was[|was| - 1].(committed := Some(Bindings(c, es))))
  }

  /** What trying the top frame's next candidate does to the stack and the binding. */
  lemma CandidateTried(g: Graph, p: Shape, steps: seq<PlanStep>, was: seq<Frame>, base: Binding, c: Candidate,
                       taken: seq<Frame>, ok: bool, stack: seq<Frame>, b: Binding)
    requires ValidPlan(p, steps) && InRange(p) && 0 < |was| <= |steps| && Stacked(p, steps, was, base)
    requires was[|was| - 1].committed.None? && was[|was| - 1].rest != [] && was[|was| - 1].stepIdx == |was| - 1
    requires c == was[|was| - 1].rest[0] && taken == Top(was, was[|was| - 1].(rest := was[|was| - 1].rest[1..]))
    requires Tried(g, p, steps, |was| - 1, c, taken, base, ok, stack, b)
    ensures stack != [] && Stacked(p, steps, stack, b) && |stack| == |was| && ok == stack[|stack| - 1].committed.Some?
    ensures !ok ==> Remaining(g, p, steps, stack, b) == Remaining(g, p, steps, was, base)
    ensures !ok ==> TotalWork(g, p, steps, stack, b) < TotalWork(g, p, steps, was, base)
    ensures ok ==>
      Remaining(g, p, steps, was, base) == Below(g, p, steps, |stack|, b) + Remaining(g, p, steps, stack, b)
    ensures ok ==>
      TotalWork(g, p, steps, was, base) > WorkBelow(g, p, steps, |stack|, b) + TotalWork(g, p, steps, stack, b)
  {
    var k := |was| - 1;
    if ok {
      var es := AdmitAt(g, p, steps, k, base, c).value;
      assert stack == Top(was, Frame(k, was[k].rest[1..], Some(Bindings(c, es))));
      TopCommitted(g, p, steps, was, base, es);
    } else {
      TopRefused(g, p, steps, was, base);
    }
  }

  /** What a call of `Next` comes to. */
  datatype Outcome = Found(m: Match) | Finished | Panicked

  function Yields(p: Shape, m: Match): Outcome {
    if Loopless(p) then Found(m) else Panicked
  }

  predicate AllSome(s: seq<Option<Entity>>) {
    forall i | 0 <= i < |s| :: s[i].Some?
  }

  function Values(s: seq<Option<Entity>>): seq<Entity> {
    seq(|s|, i requires 0 <= i < |s| => OrZero(s[i]))
  }

  predicate Whole(b: Binding) {
    AllSome(b.mapping) && AllSome(b.edgeMapping)
  }

  /** With every step committed nothing is left unbound, except loops. */
  lemma StackWhole(p: Shape, steps: seq<PlanStep>, stack: seq<Frame>, b: Binding)
    requires ValidPlan(p, steps) && InRange(p) && Stacked(p, steps, stack, b)
    requires stack != [] && |stack| == |steps| && stack[|stack| - 1].committed.Some?
    ensures Whole(b) <==> Loopless(p)
  {
    StackBinds(p, steps, stack, b);
    AllBound(p, steps, b);
  }

  class SubgraphMatches {
    const graph: Graph
    const pattern: Shape
    const steps: seq<PlanStep>
    var stack: seq<Frame>
    const mapping: array<Option<Entity>>
    const edgeMapping: array<Option<Entity>>
    var usedNodes: set<Entity>
    var usedEdges: set<Entity>
    var done: bool

    function Current(): Binding
      reads this, mapping, edgeMapping
    {
      Binding(mapping[..], edgeMapping[..], usedNodes, usedEdges)
    }

    ghost predicate Planned() {
      mapping != edgeMapping && ValidPlan(pattern, steps) && InRange(pattern)
    }

    /** The four structures hold the union of the commits on the stack, and nothing else. */
    ghost predicate Valid()
      reads this, mapping, edgeMapping
    {
      Planned() && Stacked(pattern, steps, stack, Current()) && (done <==> stack == [])
    }

    /** The matches the iterator will still yield, in order. */
    ghost function ToCome(): seq<Match>
      reads this, mapping, edgeMapping
    {
      Remaining(graph, pattern, steps, stack, Current())
    }

    ghost function Effort(): nat
      reads this, mapping, edgeMapping
    {
      TotalWork(graph, pattern, steps, stack, Current())
    }

    // ---- Making the iterator ----

    constructor (g: Graph, p: Shape, plan: seq<PlanStep>)
      requires ValidPlan(p, plan) && InRange(p) && plan != []
      ensures Valid() && fresh(mapping) && fresh(edgeMapping)
      ensures graph == g && pattern == p && steps == plan
      ensures ToCome() == All(g, p, plan)
    {
      graph, pattern, steps := g, p, plan;
      mapping := new Option<Entity>[|p.nodes|](_ => None);
      edgeMapping := new Option<Entity>[|p.edges|](_ => None);
      usedNodes, usedEdges, done, stack := {}, {}, false, [];
      new;
      assert Current() == Unbound(p);
      TopPushed(graph, pattern, steps, stack, Current());
      NextReady(pattern, steps, stack, Current());
      var rest := MakeStepIter(0);
      stack := stack + [Frame(0, rest, None)];
    }

    /** The candidates of step `k`. */
    method MakeStepIter(k: nat) returns (rest: seq<Candidate>)
      requires k < |steps| && steps[k].slot < |pattern.nodes|
      requires steps[k].join.Some? ==> Defined(mapping[..], steps[k].join.value.anchorSlot)
      ensures rest == CandidatesAt(graph, pattern, steps, k, Current())
    {
      var step := steps[k];
      match step.join
      case None =>
        if pattern.nodes[step.slot].anchor.Some? {
          rest := [(None, pattern.nodes[step.slot].anchor.value)];
        } else {
          rest := seq(|graph.nodes|, i requires 0 <= i < |graph.nodes| => (None, graph.nodes[i]));
        }
      case Some(join) =>
        var anchor := mapping[join.anchorSlot].value;
        match join.search
        case Outgoing => rest := Hops(graph.outgoing(anchor));
        case Incoming => rest := Hops(graph.incoming(anchor));
    }

    // ---- Writing and clearing one step ----

    method ClearConstraints(cs: seq<ConstraintEdge>, es: seq<Entity>)
      requires |cs| == |es| && forall i | 0 <= i < |cs| :: cs[i].edge < edgeMapping.Length
      modifies this`usedEdges, edgeMapping
      ensures usedEdges == old(usedEdges) - SetOf(es)
      ensures forall x: nat | x < edgeMapping.Length ::
        edgeMapping[x] == if Names(cs, x) then None else old(edgeMapping[x])
    {
      for i: nat := 0 to |cs|
        invariant usedEdges == old(usedEdges) - SetOf(es[..i])
        invariant forall x: nat | x < edgeMapping.Length ::
          edgeMapping[x] == if Names(cs[..i], x) then None else old(edgeMapping[x])
      {
        usedEdges := usedEdges - {es[i]};
        edgeMapping[cs[i].edge] := None;
        assert es[..i + 1] == es[..i] + [es[i]];
        forall x: nat ensures Names(cs[..i + 1], x) <==> Names(cs[..i], x) || x == cs[i].edge {
          if Names(cs[..i], x) { var j :| 0 <= j < i && cs[..i][j].edge == x; assert cs[..i + 1][j].edge == x; }
          assert cs[..i + 1][i].edge == cs[i].edge;
        }
      }
      assert cs[..|cs|] == cs && es[..|es|] == es;
    }

    method ClearStep(step: PlanStep, f: FrameBindings)
      requires mapping != edgeMapping && CommittedFits(step, f)
      requires step.slot < mapping.Length && forall e | e in EdgesOf(step) :: e < edgeMapping.Length
      modifies this`usedNodes, this`usedEdges, mapping, edgeMapping
      ensures Current() == Undo(step, old(Current()), f)
    {
      EdgesOfNames(step);
      SetOfBound(f.joinEdge, f.constraintEdges);
      usedNodes := usedNodes - {f.slotNode};
      mapping[step.slot] := None;
      if f.joinEdge.Some? && step.join.Some? {
        assert step.join.value.edge in EdgesOf(step);
        usedEdges := usedEdges - {f.joinEdge.value};
        edgeMapping[step.join.value.edge] := None;
      }
      forall i | 0 <= i < |step.constraints| ensures step.constraints[i].edge < edgeMapping.Length {
        assert Names(step.constraints, step.constraints[i].edge);
      }
      ClearConstraints(step.constraints, f.constraintEdges);
      assert edgeMapping[..] == ClearAll(EdgesOf(step), old(edgeMapping[..]));
    }

    method WriteConstraints(cs: seq<ConstraintEdge>, es: seq<Entity>)
      requires |cs| == |es| && forall i | 0 <= i < |cs| :: cs[i].edge < edgeMapping.Length
      requires forall i, j | 0 <= i < j < |cs| :: cs[i].edge != cs[j].edge
      modifies this`usedEdges, edgeMapping
      ensures usedEdges == old(usedEdges) + SetOf(es)
      ensures forall i | 0 <= i < |cs| :: edgeMapping[cs[i].edge] == Some(es[i])
      ensures forall x: nat | x < edgeMapping.Length && !Names(cs, x) :: edgeMapping[x] == old(edgeMapping[x])
    {
      for i: nat := 0 to |cs|
        invariant usedEdges == old(usedEdges) + SetOf(es[..i])
        invariant forall j | 0 <= j < i :: edgeMapping[cs[j].edge] == Some(es[j])
        invariant forall x: nat | x < edgeMapping.Length && !Names(cs, x) :: edgeMapping[x] == old(edgeMapping[x])
      {
        usedEdges := usedEdges + {es[i]};
        edgeMapping[cs[i].edge] := Some(es[i]);
        assert es[..i + 1] == es[..i] + [es[i]];
      }
      assert es[..|es|] == es;
    }

    method WriteJoin(step: PlanStep, edgeOpt: Option<Entity>)
      requires (step.join.Some? ==> step.join.value.edge < edgeMapping.Length) && (edgeOpt.Some? <==> step.join.Some?)
      modifies this`usedEdges, edgeMapping
      ensures usedEdges == old(usedEdges) + (if edgeOpt.Some? then {edgeOpt.value} else {})
      ensures edgeMapping[..] == if step.join.Some? then old(edgeMapping[..])[step.join.value.edge := edgeOpt]
        else old(edgeMapping[..])
    {
      if edgeOpt.Some? && step.join.Some? {
        usedEdges := usedEdges + {edgeOpt.value};
        edgeMapping[step.join.value.edge] := edgeOpt;
      }
    }

    method WriteStep(step: PlanStep, edgeOpt: Option<Entity>, node: Entity, es: seq<Entity>)
      requires mapping != edgeMapping && (forall e | e in EdgesOf(step) :: e < edgeMapping.Length)
        && NoDup(EdgesOf(step))
      requires |es| == |step.constraints| && (edgeOpt.Some? <==> step.join.Some?)
      modifies this`usedNodes, this`usedEdges, edgeMapping
      ensures usedNodes == old(usedNodes) + {node} && usedEdges == old(usedEdges) + SetOf(BoundEdges(edgeOpt, es))
      ensures edgeMapping[..] == SetAll(EdgesOf(step), BoundEdges(edgeOpt, es), old(edgeMapping[..]))
    {
      SetOfBound(edgeOpt, es);
      ConstraintsOf(step);
      usedNodes := usedNodes + {node};
      WriteJoin(step, edgeOpt);
      ghost var em := edgeMapping[..];
      WriteConstraints(step.constraints, es);
      JoinThenConstraints(step, edgeOpt, es, old(edgeMapping[..]), em, edgeMapping[..]);
    }

    // ---- The stages of the search loop ----

    /** Undoes what the top frame committed last. */
    method UnbindTop()
      requires Valid() && stack != []
      modifies this`stack, this`usedNodes, this`usedEdges, mapping, edgeMapping
      ensures Valid() && |stack| == |old(stack)| <= |steps| && stack[|stack| - 1].committed.None?
      ensures ToCome() == old(ToCome()) && Effort() == old(Effort())
    {
      var t := |stack| - 1;
      var frame := stack[t];
      TopUnbound(graph, pattern, steps, stack, Current());
      if frame.committed.Some? {
        TopClears(pattern, steps, stack, Current(), frame.committed.value);
        stack := Top(stack, frame.(committed := None));
        ClearStep(steps[frame.stepIdx], frame.committed.value);
      }
    }

    /** The graph edges that close the pattern cycles at a step, if all of them are there and may be used. */
    method CloseCycles(cs: seq<ConstraintEdge>) returns (r: Option<seq<Entity>>)
      requires forall c | c in cs :: c.edge < |pattern.edges| && ConstraintBound(c, mapping[..])
      ensures r == CheckConstraints(graph, pattern, cs, mapping[..], usedEdges, [])
    {
      var found: seq<Entity> := [];
      for i := 0 to |cs|
        invariant CheckConstraints(graph, pattern, cs, mapping[..], usedEdges, [])
               == CheckConstraints(graph, pattern, cs[i..], mapping[..], usedEdges, found)
      {
        var c := cs[i];
        assert cs[i..][0] == c && cs[i..][1..] == cs[i + 1..];
        match FindEdgeDir(graph, mapping[c.fromSlot].value, mapping[c.toSlot].value, c.direction)
        case None => return None;
        case Some(e) =>
          if e in usedEdges || e in found { return None; }
          if pattern.edges[c.edge].pred.Some? && !pattern.edges[c.edge].pred.value(e) { return None; }
          found := found + [e];
      }
      return Some(found);
    }

    method JoinAllowed(step: PlanStep, edgeOpt: Option<Entity>) returns (ok: bool)
      requires step.join.Some? ==> step.join.value.edge < |pattern.edges|
      ensures ok == JoinAccepts(pattern, step, Current(), edgeOpt)
    {
      if edgeOpt.Some? && step.join.Some? {
        var e, def := edgeOpt.value, pattern.edges[step.join.value.edge];
        if e in usedEdges || (def.pred.Some? && !def.pred.value(e)) { return false; }
      }
      return true;
    }

    /** Binds the slot for the constraint lookups, and unbinds it again if one of them fails. */
    method BindSlot(step: PlanStep, node: Entity) returns (closing: Option<seq<Entity>>)
      requires step.slot < mapping.Length && mapping[step.slot] == None
      requires forall c | c in step.constraints ::
        c.edge < |pattern.edges| && ConstraintBound(c, mapping[..][step.slot := Some(node)])
      modifies mapping
      ensures closing
        == CheckConstraints(graph, pattern, step.constraints, old(mapping[..])[step.slot := Some(node)], usedEdges, [])
      ensures mapping[..] == if closing.Some? then old(mapping[..])[step.slot := Some(node)] else old(mapping[..])
    {
      mapping[step.slot] := Some(node);
      assert mapping[..] == old(mapping[..])[step.slot := Some(node)];
      closing := CloseCycles(step.constraints);
      if closing.None? {
        mapping[step.slot] := None;
        assert mapping[..] == old(mapping[..]);
      }
    }

    /** The checks before the constraint loop. */
    method Acceptable(step: PlanStep, edgeOpt: Option<Entity>, node: Entity) returns (ok: bool)
      requires step.slot < |pattern.nodes| && (step.join.Some? ==> step.join.value.edge < |pattern.edges|)
      ensures ok
        == (node !in usedNodes && pattern.nodes[step.slot].pred(node) && JoinAccepts(pattern, step, Current(), edgeOpt))
    {
      if node in usedNodes || !pattern.nodes[step.slot].pred(node) { return false; }
      ok := JoinAllowed(step, edgeOpt);
    }

    /** Commits a candidate on the top frame, or changes nothing. */
    method TryCommit(k: nat, edgeOpt: Option<Entity>, node: Entity) returns (ok: bool)
      requires mapping != edgeMapping && stack != [] && k < |steps| && Ready(pattern, steps[k], Current())
      requires edgeOpt.Some? <==> steps[k].join.Some?
      modifies this`stack, this`usedNodes, this`usedEdges, mapping, edgeMapping
      ensures Tried(graph, pattern, steps, k, (edgeOpt, node), old(stack), old(Current()), ok, stack, Current())
    {
      var step := steps[k];
      AdmitReady(graph, pattern, steps, k, Current(), edgeOpt, node);
      ok := Acceptable(step, edgeOpt, node);
      if !ok { return; }
      var closing := BindSlot(step, node);
      if closing.None? { return false; }
      Record(step, edgeOpt, node, closing.value);
    }

    /** Writes an accepted candidate to the four structures and to the top frame. */
    method Record(step: PlanStep, edgeOpt: Option<Entity>, node: Entity, es: seq<Entity>)
      requires mapping != edgeMapping && stack != [] && NoDup(EdgesOf(step))
        && (forall e | e in EdgesOf(step) :: e < edgeMapping.Length)
      requires |es| == |step.constraints| && (edgeOpt.Some? <==> step.join.Some?)
      modifies this`stack, this`usedNodes, this`usedEdges, edgeMapping
      ensures usedNodes == old(usedNodes) + {node} && usedEdges == old(usedEdges) + SetOf(BoundEdges(edgeOpt, es))
      ensures edgeMapping[..] == SetAll(EdgesOf(step), BoundEdges(edgeOpt, es), old(edgeMapping[..]))
      ensures stack == Top(old(stack), old(stack)[|old(stack)| - 1].(committed := Some(Bindings((edgeOpt, node), es))))
    {
      WriteStep(step, edgeOpt, node, es);
      stack := Top(stack, stack[|stack| - 1].(committed := Some(Bindings((edgeOpt, node), es))));
    }

    /** Reads the match off the two arrays; `None` where it meets an entry that is not bound and panics. */
    method CurrentMatch() returns (m: Option<Match>)
      ensures m == if Whole(Current()) then Some(Complete(Current())) else None
    {
      var nodes := Unwrap(mapping);
      if nodes.None? { return None; }
      var edges := Unwrap(edgeMapping);
      if edges.None? { return None; }
      m := Some(Match(nodes.value, edges.value));
      assert m.value == Complete(Current());
    }

    method Unwrap(a: array<Option<Entity>>) returns (r: Option<seq<Entity>>)
      ensures r == if AllSome(a[..]) then Some(Values(a[..])) else None
    {
      var values: seq<Entity> := [];
      for i := 0 to a.Length
        invariant |values| == i && AllSome(a[..i]) && values == Values(a[..i])
      {
        if a[i].None? { return None; }
        values := values + [a[i].value];
      }
      assert a[..a.Length] == a[..];
      return Some(values);
    }

    /** Takes the next candidate of the top frame and tries it. */
    method TryTop() returns (ok: bool)
      requires Valid() && stack != [] && stack[|stack| - 1].committed.None? && stack[|stack| - 1].rest != []
      modifies this`stack, this`usedNodes, this`usedEdges, mapping, edgeMapping
      ensures Valid() && |stack| == |old(stack)| <= |steps| && ok == stack[|stack| - 1].committed.Some?
      ensures !ok ==> ToCome() == old(ToCome()) && Effort() < old(Effort())
      ensures ok ==> old(ToCome()) == Below(graph, pattern, steps, |stack|, Current()) + ToCome()
      ensures ok ==> old(Effort()) > WorkBelow(graph, pattern, steps, |stack|, Current()) + Effort()
    {
      ghost var was, base := stack, Current();
      ghost var taken;
      ok, taken := TryNext();
      CandidateTried(graph, pattern, steps, was, base, was[|was| - 1].rest[0], taken, ok, stack, Current());
    }

    /** The step of the top frame is tried with the candidate taken off its list. */
    method TryNext() returns (ok: bool, ghost taken: seq<Frame>)
      requires Valid() && stack != [] && stack[|stack| - 1].committed.None? && stack[|stack| - 1].rest != []
      modifies this`stack, this`usedNodes, this`usedEdges, mapping, edgeMapping
      ensures |old(stack)| <= |steps| && old(stack)[|old(stack)| - 1].stepIdx == |old(stack)| - 1
      ensures
        var top := old(stack)[|old(stack)| - 1];
        && taken == Top(old(stack), top.(rest := top.rest[1..]))
        && Tried(graph, pattern, steps, |old(stack)| - 1, top.rest[0], taken, old(Current()), ok, stack, Current())
    {
      var k, edgeOpt, node := TakeCandidate();
      taken := stack;
      ok := TryCommit(k, edgeOpt, node);
    }

    /** Advances the iterator of the top frame. */
    method TakeCandidate() returns (k: nat, edgeOpt: Option<Entity>, node: Entity)
      requires Valid() && stack != [] && stack[|stack| - 1].committed.None? && stack[|stack| - 1].rest != []
      modifies this`stack
      ensures k == |old(stack)| - 1 == old(stack)[|old(stack)| - 1].stepIdx && k < |steps|
        && Ready(pattern, steps[k], Current())
      ensures (edgeOpt, node) == old(stack)[k].rest[0] && (edgeOpt.Some? <==> steps[k].join.Some?)
      ensures stack == Top(old(stack), old(stack)[k].(rest := old(stack)[k].rest[1..]))
    {
      var frame := stack[|stack| - 1];
      TopReady(pattern, steps, stack, Current());
      k, edgeOpt, node := frame.stepIdx, frame.rest[0].0, frame.rest[0].1;
      stack := Top(stack, frame.(rest := frame.rest[1..]));
    }

    /** Opens the frame of the next step. */
    method Descend()
      requires Valid() && stack != [] && stack[|stack| - 1].committed.Some? && |stack| < |steps|
      modifies this`stack
      ensures Valid() && stack != []
      ensures ToCome() == Below(graph, pattern, steps, |old(stack)|, Current()) + old(ToCome())
      ensures Effort() == WorkBelow(graph, pattern, steps, |old(stack)|, Current()) + old(Effort())
    {
      TopPushed(graph, pattern, steps, stack, Current());
      NextReady(pattern, steps, stack, Current());
      var rest := MakeStepIter(|stack|);
      stack := stack + [Frame(|stack|, rest, None)];
    }

    /** Drops the top frame when its candidates are used up. */
    method Pop()
      requires Valid() && stack != [] && stack[|stack| - 1].committed.None? && stack[|stack| - 1].rest == []
      modifies this`stack, this`done
      ensures Valid() && ToCome() == old(ToCome()) && Effort() < old(Effort())
    {
      TopPopped(graph, pattern, steps, stack, Current());
      stack := stack[..|stack| - 1];
      if stack == [] { done := true; }
    }

    /**
     * Hands out the next match, in the order of `All`. With a loop in the pattern there is none to
     * hand out: the search panics where it has found everything else.
     */
    method Next() returns (r: Outcome)
      requires Valid()
      modifies this, mapping, edgeMapping
      ensures Valid()
      ensures if old(ToCome()) == [] then r == Finished && done else r == Yields(pattern, old(ToCome())[0])
      ensures ToCome() == if old(ToCome()) == [] then [] else old(ToCome())[1..]
    {
      if done { return Finished; }
      while true
        invariant Valid() && stack != [] && ToCome() == old(ToCome())
        decreases Effort()
      {
        UnbindTop();
        if stack[|stack| - 1].rest == [] {
          Pop();
          if done { return Finished; }
          continue;
        }
        var admitted := TryTop();
        if !admitted { continue; }
        if |stack| == |steps| {
          assert Below(graph, pattern, steps, |stack|, Current()) == [Complete(Current())];
          r := Emit();
          return;
        }
        Descend();
      }
    }

    /** Hands out the binding of a full stack, or panics where a loop of the pattern is left unbound. */
    method Emit() returns (r: Outcome)
      requires Valid() && stack != [] && |stack| == |steps| && stack[|stack| - 1].committed.Some?
      ensures r == Yields(pattern, Complete(Current()))
    {
      StackWhole(pattern, steps, stack, Current());
      var m := CurrentMatch();
      if m.None? { return Panicked; }
      return Found(m.value);
    }
  }
}
