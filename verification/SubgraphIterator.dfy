/**
 * The stack of the streaming iterator of `kyoso_graph::subgraph` as a value: candidate lists
 * and commits, frame by frame.
 *
 * Every move of the search is a lemma: what it does to the stack, to the matches still to come,
 * and to the work left.
 */
module SubgraphIterator {
  import opened Ecs
  import opened Sequences
  import opened Wrappers
  import opened Pattern
  import opened Plan
  import opened Search
  import opened Enumeration

  datatype FrameBindings = FrameBindings(slotNode: Entity, joinEdge: Option<Entity>, constraintEdges: seq<Entity>)

  datatype Frame = Frame(stepIdx: nat, rest: seq<Candidate>, committed: Option<FrameBindings>)

  // ---- Size of the search tree still to be walked ----

  function Work(g: Graph, p: Shape, steps: seq<PlanStep>, k: nat, b: Binding, cands: seq<Candidate>): nat
    requires k < |steps|
    decreases |steps| - k, |cands|, 0
  {
    if cands == [] then 1 else
      2 + (match AdmitAt(g, p, steps, k, b, cands[0])
           case None => 0
           case Some(es) => WorkBelow(g, p, steps, k + 1, CommitAt(steps, k, b, cands[0], es)))
      + Work(g, p, steps, k, b, cands[1..])
  }

  function WorkBelow(g: Graph, p: Shape, steps: seq<PlanStep>, k: nat, b: Binding): nat
    requires k <= |steps|
    decreases |steps| - k + 1, 0, 0
  {
    if k == |steps| then 0 else Work(g, p, steps, k, b, CandidatesAt(g, p, steps, k, b))
  }

  // ---- One frame ----

  predicate CommittedFits(step: PlanStep, f: FrameBindings) {
    |f.constraintEdges| == |step.constraints| && (f.joinEdge.Some? <==> step.join.Some?)
  }

  /** What was committed was not in use before. */
  predicate Undoable(b: Binding, f: FrameBindings) {
    f.slotNode !in b.usedNodes && forall e | e in BoundEdges(f.joinEdge, f.constraintEdges) :: e !in b.usedEdges
  }

  function After(steps: seq<PlanStep>, k: nat, b: Binding, f: FrameBindings): Binding
    requires k < |steps|
  {
    CommitAt(steps, k, b, (f.joinEdge, f.slotNode), f.constraintEdges)
  }

  /** Handing out a candidate that is refused loses no match. */
  lemma HeadRefused(g: Graph, p: Shape, steps: seq<PlanStep>, k: nat, b: Binding, cands: seq<Candidate>)
    requires k < |steps| && cands != [] && AdmitAt(g, p, steps, k, b, cands[0]).None?
    ensures Found(g, p, steps, k, b, cands) == Found(g, p, steps, k, b, cands[1..])
    ensures Work(g, p, steps, k, b, cands[1..]) < Work(g, p, steps, k, b, cands)
  {
  }

  /** Committing a candidate splits off the matches below it. */
  lemma HeadAdmitted(g: Graph, p: Shape, steps: seq<PlanStep>, k: nat, b: Binding, cands: seq<Candidate>,
                     es: seq<Entity>)
    requires k < |steps| && cands != [] && AdmitAt(g, p, steps, k, b, cands[0]) == Some(es)
    ensures
      var b' := CommitAt(steps, k, b, cands[0], es);
      && Found(g, p, steps, k, b, cands) == Below(g, p, steps, k + 1, b') + Found(g, p, steps, k, b, cands[1..])
      && Work(g, p, steps, k, b, cands) > WorkBelow(g, p, steps, k + 1, b') + Work(g, p, steps, k, b, cands[1..])
  {
  }

  function Bindings(c: Candidate, es: seq<Entity>): FrameBindings {
    FrameBindings(c.1, c.0, es)
  }

  // ---- Undo ----

  /** Clearing what a commit wrote. */
  function Undo(step: PlanStep, b: Binding, f: FrameBindings): Binding
    requires step.slot < |b.mapping| && forall e | e in EdgesOf(step) :: e < |b.edgeMapping|
  {
    Binding(b.mapping[step.slot := None], ClearAll(EdgesOf(step), b.edgeMapping),
            b.usedNodes - {f.slotNode}, b.usedEdges - SetOf(BoundEdges(f.joinEdge, f.constraintEdges)))
  }

  function ClearAll(at: seq<nat>, m: seq<Option<Entity>>): seq<Option<Entity>>
    requires forall e | e in at :: e < |m|
  {
    seq(|m|, x requires 0 <= x < |m| => if x in at then None else m[x])
  }

  lemma ClearSet(at: seq<nat>, values: seq<Entity>, m: seq<Option<Entity>>)
    requires |at| == |values| && NoDup(at) && forall e | e in at :: e < |m| && m[e] == None
    ensures ClearAll(at, SetAll(at, values, m)) == m
  {
    SetAllAt(at, values, m);
    assert forall x: nat | x < |m| :: ClearAll(at, SetAll(at, values, m))[x] == m[x];
  }

  lemma UndoHere(step: PlanStep, b: Binding, f: FrameBindings)
    requires StepInRange(step, b) && CommittedFits(step, f) && NoDup(EdgesOf(step)) && Undoable(b, f)
    requires b.mapping[step.slot] == None && forall e | e in EdgesOf(step) :: b.edgeMapping[e] == None
    ensures Undo(step, Commit(step, b, f.joinEdge, f.slotNode, f.constraintEdges), f) == b
  {
    var gs := BoundEdges(f.joinEdge, f.constraintEdges);
    ClearSet(EdgesOf(step), gs, b.edgeMapping);
    assert (b.usedEdges + SetOf(gs)) - SetOf(gs) == b.usedEdges;
    assert b.mapping[step.slot := Some(f.slotNode)][step.slot := None] == b.mapping;
    assert (b.usedNodes + {f.slotNode}) - {f.slotNode} == b.usedNodes;
  }

  function UndoAt(steps: seq<PlanStep>, k: nat, b: Binding, f: FrameBindings): Binding
    requires k < |steps|
  {
    var step := steps[k];
    if step.slot < |b.mapping| && forall e | e in EdgesOf(step) :: e < |b.edgeMapping| then Undo(step, b, f) else b
  }

  /** Undoing the commit on a frame restores the binding the frame started from. */
  lemma UndoCommit(p: Shape, steps: seq<PlanStep>, k: nat, b: Binding, f: FrameBindings)
    requires At(p, steps, k, b) && k < |steps| && CommittedFits(steps[k], f) && Undoable(b, f)
    ensures UndoAt(steps, k, After(steps, k, b, f), f) == b
  {
    ReadyAt(p, steps, k, b);
    CommitStays(p, steps, k, b, (f.joinEdge, f.slotNode), f.constraintEdges);
    assert StepFits(p, Slots(steps), k, steps[k]);
    UndoHere(steps[k], b, f);
  }

  /** An admitted candidate was not in use. */
  lemma AdmittedUndoable(g: Graph, p: Shape, steps: seq<PlanStep>, k: nat, b: Binding, c: Candidate)
    requires k < |steps| && (c.0.Some? <==> steps[k].join.Some?)
    requires AdmitAt(g, p, steps, k, b, c).Some?
    ensures Undoable(b, Bindings(c, AdmitAt(g, p, steps, k, b, c).value))
  {
    BoundWith(steps[k], b, c.1);
    CheckedUnused(g, p, steps[k].constraints, b.mapping[steps[k].slot := Some(c.1)], b.usedEdges, []);
  }

  lemma {:induction false} CheckedUnused(g: Graph, p: Shape, cs: seq<ConstraintEdge>, mapping: seq<Option<Entity>>,
                                         used: set<Entity>, found: seq<Entity>)
    requires forall c | c in cs :: ConstraintBound(c, mapping)
    requires forall e | e in found :: e !in used
    ensures
      var r := CheckConstraints(g, p, cs, mapping, used, found);
      r.Some? ==> forall e | e in r.value :: e !in used
    decreases |cs|
  {
    if cs != [] && Resolve(g, cs[0], mapping).Some? && Resolve(g, cs[0], mapping).value !in used {
      CheckedUnused(g, p, cs[1..], mapping, used, found + [Resolve(g, cs[0], mapping).value]);
    }
  }

  // ---- The stack ----

  /** The binding a frame started from, given the one after what it committed. */
  function Base(steps: seq<PlanStep>, k: nat, f: Frame, b: Binding): Binding
    requires k < |steps|
  {
    if f.committed.None? then b else UndoAt(steps, k, b, f.committed.value)
  }

  /** Frame `f` of step `k` started from the binding below it, and its commit, if any, has led to `b`. */
  predicate FrameFits(steps: seq<PlanStep>, k: nat, f: Frame, b: Binding)
    requires k < |steps|
  {
    var base := Base(steps, k, f, b);
    && f.stepIdx == k && Fitting(steps[k], f.rest)
    && (f.committed.Some? ==>
          && CommittedFits(steps[k], f.committed.value) && Undoable(base, f.committed.value)
          && b == After(steps, k, base, f.committed.value))
  }

  /** `b` is the union of what the frames of the stack committed, in their order. */
  predicate Stacked(p: Shape, steps: seq<PlanStep>, stack: seq<Frame>, b: Binding) {
    if stack == [] then b == Unbound(p) else
      var t := |stack| - 1;
      && t < |steps| && FrameFits(steps, t, stack[t], b)
      && (t > 0 ==> stack[t - 1].committed.Some?)
      && Stacked(p, steps, stack[..t], Base(steps, t, stack[t], b))
  }

  /** The matches a stack still leads to, the top frame's first. */
  function Remaining(g: Graph, p: Shape, steps: seq<PlanStep>, stack: seq<Frame>, b: Binding): seq<Match> {
    if stack == [] || |stack| > |steps| then [] else
      var t := |stack| - 1;
      var base := Base(steps, t, stack[t], b);
      Found(g, p, steps, t, base, stack[t].rest) + Remaining(g, p, steps, stack[..t], base)
  }

  function TotalWork(g: Graph, p: Shape, steps: seq<PlanStep>, stack: seq<Frame>, b: Binding): nat {
    if stack == [] || |stack| > |steps| then 0 else
      var t := |stack| - 1;
      var base := Base(steps, t, stack[t], b);
      Work(g, p, steps, t, base, stack[t].rest) + TotalWork(g, p, steps, stack[..t], base)
  }

  /** The stack with another top frame. */
  function Top(stack: seq<Frame>, f: Frame): seq<Frame>
    requires stack != []
  {
    stack[|stack| - 1 := f]
  }

  // ---- The moves of the search ----

  /** A top frame that starts from the same binding keeps what the frames below it stand for. */
  lemma TopStacked(p: Shape, steps: seq<PlanStep>, stack: seq<Frame>, b: Binding, f: Frame, b': Binding)
    requires 0 < |stack| <= |steps| && Stacked(p, steps, stack, b)
    requires FrameFits(steps, |stack| - 1, f, b')
    requires Base(steps, |stack| - 1, f, b') == Base(steps, |stack| - 1, stack[|stack| - 1], b)
    ensures Stacked(p, steps, Top(stack, f), b')
  {
    assert Top(stack, f)[..|stack| - 1] == stack[..|stack| - 1];
  }

  lemma TopSums(g: Graph, p: Shape, steps: seq<PlanStep>, stack: seq<Frame>, b: Binding, f: Frame, b': Binding)
    requires 0 < |stack| <= |steps|
    requires Base(steps, |stack| - 1, f, b') == Base(steps, |stack| - 1, stack[|stack| - 1], b)
    ensures
      var t, next := |stack| - 1, Top(stack, f);
      var base := Base(steps, t, stack[t], b);
      && Remaining(g, p, steps, stack, b) == Found(g, p, steps, t, base, stack[t].rest)
        + Remaining(g, p, steps, stack[..t], base)
      && Remaining(g, p, steps, next, b') == Found(g, p, steps, t, base, f.rest)
        + Remaining(g, p, steps, stack[..t], base)
      && TotalWork(g, p, steps, stack, b) == Work(g, p, steps, t, base, stack[t].rest)
        + TotalWork(g, p, steps, stack[..t], base)
      && TotalWork(g, p, steps, next, b') == Work(g, p, steps, t, base, f.rest)
        + TotalWork(g, p, steps, stack[..t], base)
  {
    assert Top(stack, f)[..|stack| - 1] == stack[..|stack| - 1];
  }

  lemma TopInRange(p: Shape, steps: seq<PlanStep>, stack: seq<Frame>, b: Binding)
    requires stack != [] && Stacked(p, steps, stack, b)
    ensures |stack| <= |steps| && FrameFits(steps, |stack| - 1, stack[|stack| - 1], b)
  {
  }

  lemma FrameUnbound(steps: seq<PlanStep>, k: nat, f: Frame, b: Binding)
    requires k < |steps| && FrameFits(steps, k, f, b)
    ensures FrameFits(steps, k, f.(committed := None), Base(steps, k, f, b))
  {
  }

  lemma TopUnbound(g: Graph, p: Shape, steps: seq<PlanStep>, stack: seq<Frame>, b: Binding)
    requires stack != [] && Stacked(p, steps, stack, b)
    ensures |stack| <= |steps|
    ensures
      var t := |stack| - 1;
      var next, base := Top(stack, stack[t].(committed := None)), Base(steps, t, stack[t], b);
      && Stacked(p, steps, next, base)
      && Remaining(g, p, steps, next, base) == Remaining(g, p, steps, stack, b)
      && TotalWork(g, p, steps, next, base) == TotalWork(g, p, steps, stack, b)
  {
    var t := |stack| - 1;
    TopInRange(p, steps, stack, b);
    var f, base := stack[t].(committed := None), Base(steps, t, stack[t], b);
    FrameUnbound(steps, t, stack[t], b);
    TopStacked(p, steps, stack, b, f, base);
    TopSums(g, p, steps, stack, b, f, base);
  }

  /** A stack over a plan binds exactly the steps below its top, and the top's own if it has committed. */
  lemma {:induction false} StackBinds(p: Shape, steps: seq<PlanStep>, stack: seq<Frame>, b: Binding)
    requires ValidPlan(p, steps) && InRange(p) && Stacked(p, steps, stack, b)
    ensures |stack| <= |steps|
    ensures stack != [] ==> At(p, steps, |stack| - 1, Base(steps, |stack| - 1, stack[|stack| - 1], b))
    ensures stack == [] || stack[|stack| - 1].committed.Some? ==> At(p, steps, |stack|, b)
    decreases |stack|
  {
    if stack == [] {
      UnboundAt(p, steps);
    } else {
      var t := |stack| - 1;
      StackBinds(p, steps, stack[..t], Base(steps, t, stack[t], b));
      if stack[t].committed.Some? {
        var f := stack[t].committed.value;
        CommitStays(p, steps, t, Base(steps, t, stack[t], b), (f.joinEdge, f.slotNode), f.constraintEdges);
      }
    }
  }

  /** What is needed to clear what the top frame committed, and what that leaves. */
  lemma TopClears(p: Shape, steps: seq<PlanStep>, stack: seq<Frame>, b: Binding, f: FrameBindings)
    requires ValidPlan(p, steps) && InRange(p)
    requires stack != [] && Stacked(p, steps, stack, b) && stack[|stack| - 1].committed == Some(f)
    ensures |stack| <= |steps| && stack[|stack| - 1].stepIdx == |stack| - 1
    ensures
      var step := steps[|stack| - 1];
      && CommittedFits(step, f) && step.slot < |b.mapping| && (forall e | e in EdgesOf(step) :: e < |b.edgeMapping|)
      && Undo(step, b, f) == Base(steps, |stack| - 1, stack[|stack| - 1], b)
  {
    var t := |stack| - 1;
    StackBinds(p, steps, stack, b);
    CommitInRange(p, steps, t, Base(steps, t, stack[t], b), f);
  }

  lemma CommitInRange(p: Shape, steps: seq<PlanStep>, k: nat, b: Binding, f: FrameBindings)
    requires At(p, steps, k, b) && k < |steps| && CommittedFits(steps[k], f)
    ensures
      var next := After(steps, k, b, f);
      steps[k].slot < |next.mapping| && forall e | e in EdgesOf(steps[k]) :: e < |next.edgeMapping|
  {
    ReadyAt(p, steps, k, b);
    CommitStays(p, steps, k, b, (f.joinEdge, f.slotNode), f.constraintEdges);
  }

  lemma TopPopped(g: Graph, p: Shape, steps: seq<PlanStep>, stack: seq<Frame>, b: Binding)
    requires stack != [] && Stacked(p, steps, stack, b)
    requires stack[|stack| - 1].rest == [] && stack[|stack| - 1].committed.None?
    ensures Stacked(p, steps, stack[..|stack| - 1], b)
    ensures
      var t := |stack| - 1;
      && Remaining(g, p, steps, stack[..t], b) == Remaining(g, p, steps, stack, b)
      && TotalWork(g, p, steps, stack[..t], b) < TotalWork(g, p, steps, stack, b)
  {
    TopInRange(p, steps, stack, b);
    TopSums(g, p, steps, stack, b, stack[|stack| - 1], b);
  }

  lemma FrameRefused(steps: seq<PlanStep>, k: nat, f: Frame, b: Binding)
    requires k < |steps| && FrameFits(steps, k, f, b) && f.committed.None? && f.rest != []
    ensures FrameFits(steps, k, f.(rest := f.rest[1..]), b)
  {
  }

  lemma TopRefused(g: Graph, p: Shape, steps: seq<PlanStep>, stack: seq<Frame>, b: Binding)
    requires stack != [] && Stacked(p, steps, stack, b) && |stack| <= |steps|
    requires stack[|stack| - 1].committed.None? && stack[|stack| - 1].rest != []
    requires AdmitAt(g, p, steps, |stack| - 1, b, stack[|stack| - 1].rest[0]).None?
    ensures
      var t := |stack| - 1;
      var next := Top(stack, stack[t].(rest := stack[t].rest[1..]));
      && Stacked(p, steps, next, b)
      && Remaining(g, p, steps, next, b) == Remaining(g, p, steps, stack, b)
      && TotalWork(g, p, steps, next, b) < TotalWork(g, p, steps, stack, b)
  {
    var t := |stack| - 1;
    var f := stack[t].(rest := stack[t].rest[1..]);
    TopInRange(p, steps, stack, b);
    FrameRefused(steps, t, stack[t], b);
    TopStacked(p, steps, stack, b, f, b);
    TopSums(g, p, steps, stack, b, f, b);
    HeadRefused(g, p, steps, t, b, stack[t].rest);
  }

  lemma CommittedFrame(g: Graph, p: Shape, steps: seq<PlanStep>, k: nat, b: Binding, c: Candidate,
                       rest: seq<Candidate>, es: seq<Entity>)
    requires k < |steps| && At(p, steps, k, b) && Fitting(steps[k], [c] + rest)
    requires AdmitAt(g, p, steps, k, b, c) == Some(es)
    ensures
      var f, b' := Frame(k, rest, Some(Bindings(c, es))), CommitAt(steps, k, b, c, es);
      FrameFits(steps, k, f, b') && Base(steps, k, f, b') == b && At(p, steps, k + 1, b')
  {
    assert ([c] + rest)[0] == c;
    assert forall i | 0 <= i < |rest| :: rest[i] == ([c] + rest)[i + 1];
    AdmittedUndoable(g, p, steps, k, b, c);
    CommitStays(p, steps, k, b, c, es);
    UndoCommit(p, steps, k, b, Bindings(c, es));
  }

  lemma CommittedStack(g: Graph, p: Shape, steps: seq<PlanStep>, stack: seq<Frame>, b: Binding, es: seq<Entity>)
    requires ValidPlan(p, steps) && InRange(p) && 0 < |stack| <= |steps| && Stacked(p, steps, stack, b)
    requires stack[|stack| - 1].committed.None? && stack[|stack| - 1].rest != []
    requires AdmitAt(g, p, steps, |stack| - 1, b, stack[|stack| - 1].rest[0]) == Some(es)
    ensures
      var t := |stack| - 1;
      var c := stack[t].rest[0];
      var f, b' := Frame(t, stack[t].rest[1..], Some(Bindings(c, es))), CommitAt(steps, t, b, c, es);
      Stacked(p, steps, Top(stack, f), b') && Base(steps, t, f, b') == b
  {
    var t := |stack| - 1;
    var c, rest := stack[t].rest[0], stack[t].rest[1..];
    assert stack[t].rest == [c] + rest;
    StackBinds(p, steps, stack, b);
    CommittedFrame(g, p, steps, t, b, c, rest, es);
    TopStacked(p, steps, stack, b, Frame(t, rest, Some(Bindings(c, es))), CommitAt(steps, t, b, c, es));
  }

  lemma CommittedSums(g: Graph, p: Shape, steps: seq<PlanStep>, stack: seq<Frame>, b: Binding, es: seq<Entity>,
                      f: Frame)
    requires 0 < |stack| <= |steps| && stack[|stack| - 1].committed.None? && stack[|stack| - 1].rest != []
    requires AdmitAt(g, p, steps, |stack| - 1, b, stack[|stack| - 1].rest[0]) == Some(es)
    requires f.rest == stack[|stack| - 1].rest[1..]
    requires Base(steps, |stack| - 1, f, CommitAt(steps, |stack| - 1, b, stack[|stack| - 1].rest[0], es)) == b
    ensures
      var t := |stack| - 1;
      var next, b' := Top(stack, f), CommitAt(steps, t, b, stack[t].rest[0], es);
      && Remaining(g, p, steps, stack, b) == Below(g, p, steps, t + 1, b') + Remaining(g, p, steps, next, b')
      && TotalWork(g, p, steps, stack, b) > WorkBelow(g, p, steps, t + 1, b') + TotalWork(g, p, steps, next, b')
  {
    var t := |stack| - 1;
    var b' := CommitAt(steps, t, b, stack[t].rest[0], es);
    TopSums(g, p, steps, stack, b, f, b');
    HeadAdmitted(g, p, steps, t, b, stack[t].rest, es);
    Regroup(Below(g, p, steps, t + 1, b'), Found(g, p, steps, t, b, f.rest), Remaining(g, p, steps, stack[..t], b));
  }

  lemma Regroup<T>(a: seq<T>, b: seq<T>, c: seq<T>)
    ensures (a + b) + c == a + (b + c)
  {
  }

  lemma TopCommitted(g: Graph, p: Shape, steps: seq<PlanStep>, stack: seq<Frame>, b: Binding, es: seq<Entity>)
    requires ValidPlan(p, steps) && InRange(p) && 0 < |stack| <= |steps| && Stacked(p, steps, stack, b)
    requires stack[|stack| - 1].committed.None? && stack[|stack| - 1].rest != []
    requires AdmitAt(g, p, steps, |stack| - 1, b, stack[|stack| - 1].rest[0]) == Some(es)
    ensures
      var t := |stack| - 1;
      var c := stack[t].rest[0];
      var next, b' := Top(stack, Frame(t, stack[t].rest[1..], Some(Bindings(c, es)))), CommitAt(steps, t, b, c, es);
      && Stacked(p, steps, next, b')
      && Remaining(g, p, steps, stack, b) == Below(g, p, steps, t + 1, b') + Remaining(g, p, steps, next, b')
      && TotalWork(g, p, steps, stack, b) > WorkBelow(g, p, steps, t + 1, b') + TotalWork(g, p, steps, next, b')
  {
    var t := |stack| - 1;
    var c := stack[t].rest[0];
    CommittedStack(g, p, steps, stack, b, es);
    CommittedSums(g, p, steps, stack, b, es, Frame(t, stack[t].rest[1..], Some(Bindings(c, es))));
  }

  predicate LeadsOn(stack: seq<Frame>) {
    stack != [] ==> stack[|stack| - 1].committed.Some?
  }

  lemma TopPushed(g: Graph, p: Shape, steps: seq<PlanStep>, stack: seq<Frame>, b: Binding)
    requires |stack| < |steps| && Stacked(p, steps, stack, b) && LeadsOn(stack)
    ensures
      var k := |stack|;
      var next := stack + [Frame(k, CandidatesAt(g, p, steps, k, b), None)];
      && Stacked(p, steps, next, b)
      && Remaining(g, p, steps, next, b) == Below(g, p, steps, k, b) + Remaining(g, p, steps, stack, b)
      && TotalWork(g, p, steps, next, b) == WorkBelow(g, p, steps, k, b) + TotalWork(g, p, steps, stack, b)
  {
    var k := |stack|;
    assert (stack + [Frame(k, CandidatesAt(g, p, steps, k, b), None)])[..k] == stack;
  }

  /** The next step can be enumerated. */
  lemma NextReady(p: Shape, steps: seq<PlanStep>, stack: seq<Frame>, b: Binding)
    requires ValidPlan(p, steps) && InRange(p) && |stack| < |steps| && Stacked(p, steps, stack, b) && LeadsOn(stack)
    ensures steps[|stack|].slot < |p.nodes|
    ensures steps[|stack|].join.Some? ==> Defined(b.mapping, steps[|stack|].join.value.anchorSlot)
  {
    StackBinds(p, steps, stack, b);
    ReadyAt(p, steps, |stack|, b);
  }

  /** The top frame's next candidate can be tried. */
  lemma TopReady(p: Shape, steps: seq<PlanStep>, stack: seq<Frame>, b: Binding)
    requires ValidPlan(p, steps) && InRange(p)
    requires stack != [] && Stacked(p, steps, stack, b) && stack[|stack| - 1].committed.None?
    ensures |stack| <= |steps| && stack[|stack| - 1].stepIdx == |stack| - 1
    ensures Fitting(steps[|stack| - 1], stack[|stack| - 1].rest)
    ensures Ready(p, steps[|stack| - 1], b)
  {
    StackBinds(p, steps, stack, b);
    ReadyAt(p, steps, |stack| - 1, b);
    FitsAt(p, steps, |stack| - 1);
  }

  /** Nothing of the step is bound yet, and everything its commit looks at is. */
  predicate Ready(p: Shape, step: PlanStep, b: Binding) {
    && step.slot < |p.nodes| == |b.mapping| && |b.edgeMapping| == |p.edges|
    && b.mapping[step.slot] == None && StepReady(step, b) && NoDup(EdgesOf(step))
  }
}
