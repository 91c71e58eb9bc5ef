/** From the greedy slot order to the match plan, and what the matcher may rely on. */
module Plan {
  import opened Sequences
  import opened Wrappers
  import opened Sorting
  import opened Reachability
  import opened Pattern

  /** Where a slot stands in the order; the length of the order if it is absent. */
  function Position(order: seq<nat>, slot: nat): (r: nat)
    ensures r <= |order| && (r < |order| <==> slot in order)
    ensures r < |order| ==> order[r] == slot
  {
    if order == [] then 0 else if order[0] == slot then 0 else 1 + Position(order[1..], slot)
  }

  lemma PositionOf(order: seq<nat>, k: nat)
    requires NoDup(order) && k < |order|
    ensures Position(order, order[k]) == k
  {
  }

  /** A pattern edge between a slot and one placed earlier. */
  datatype Link = Link(edge: nat, anchor: nat, direction: Direction, slotIsTo: bool)

  function LinkAt(p: Shape, order: seq<nat>, k: nat, e: nat): Option<Link>
    requires k < |order| && e < |p.edges|
  {
    var edge, slot := p.edges[e], order[k];
    if edge.from == slot && Position(order, edge.to) < k then Some(Link(e, edge.to, edge.direction, false))
    else if edge.to == slot && Position(order, edge.from) < k then Some(Link(e, edge.from, edge.direction, true))
    else None
  }

  /** The links of step `k` among the first `m` pattern edges. */
  function Linking(p: Shape, order: seq<nat>, k: nat, m: nat): seq<Link>
    requires k < |order| && m <= |p.edges|
  {
    if m == 0 then [] else
      match LinkAt(p, order, k, m - 1)
      case None => Linking(p, order, k, m - 1)
      case Some(l) => Linking(p, order, k, m - 1) + [l]
  }

  function Earlier(order: seq<nat>): (Link, Link) -> bool {
    (a: Link, b: Link) => Position(order, a.anchor) <= Position(order, b.anchor)
  }

  function Search(direction: Direction, slotIsTo: bool): SearchDir {
    match (direction, slotIsTo)
    case (Forward, true) => SearchDir.Outgoing
    case (Forward, false) => SearchDir.Incoming
    case (Backward, true) => SearchDir.Incoming
    case (Backward, false) => SearchDir.Outgoing
  }

  function Constraint(p: Shape, l: Link): ConstraintEdge
    requires l.edge < |p.edges|
  {
    ConstraintEdge(l.edge, p.edges[l.edge].from, p.edges[l.edge].to, l.direction)
  }

  // ---- What a plan promises ----

  /** The pattern edges a step binds. */
  function EdgesOf(step: PlanStep): seq<nat> {
    (if step.join.Some? then [step.join.value.edge] else [])
      + seq(|step.constraints|, i requires 0 <= i < |step.constraints| => step.constraints[i].edge)
  }

  function Slots(steps: seq<PlanStep>): seq<nat> {
    seq(|steps|, i requires 0 <= i < |steps| => steps[i].slot)
  }

  /** Edge `e` joins the slot of step `k` to a slot of an earlier step. */
  predicate ClosesAt(p: Shape, order: seq<nat>, e: nat, k: nat)
    requires k < |order| && e < |p.edges|
  {
    var edge := p.edges[e];
    || (edge.from == order[k] && Position(order, edge.to) < k)
    || (edge.to == order[k] && Position(order, edge.from) < k)
  }

  /**
   * A join that enumerates candidates for its slot: it follows the pattern edge from the
   * bound end, in the edge's effective direction.
   */
  predicate JoinFits(p: Shape, order: seq<nat>, k: nat, j: JoinSpec)
    requires k < |order|
  {
    && j.edge < |p.edges| && Position(order, j.anchorSlot) < k
    && match j.search
       case Outgoing => Source(p.edges[j.edge]) == j.anchorSlot && Target(p.edges[j.edge]) == order[k]
       case Incoming => Target(p.edges[j.edge]) == j.anchorSlot && Source(p.edges[j.edge]) == order[k]
  }

  predicate ConstraintFits(p: Shape, c: ConstraintEdge) {
    c.edge < |p.edges| && c.fromSlot == p.edges[c.edge].from && c.toSlot == p.edges[c.edge].to
    && c.direction == p.edges[c.edge].direction
  }

  /** One step of a plan over a given slot order. */
  ghost predicate StepFits(p: Shape, order: seq<nat>, k: nat, step: PlanStep)
    requires k < |order|
  {
    && step.slot == order[k]
    && (step.join.None? <==> k == 0)
    && (step.join.Some? ==> JoinFits(p, order, k, step.join.value))
    && (forall c | c in step.constraints :: ConstraintFits(p, c))
    && NoDup(EdgesOf(step))
    && (forall e: nat :: e in EdgesOf(step) <==> e < |p.edges| && ClosesAt(p, order, e, k))
  }

  /**
   * The slots in a new order; every step after the first joined to an earlier slot; and every
   * pattern edge bound once, in the step of its later end.
   */
  ghost predicate ValidPlan(p: Shape, steps: seq<PlanStep>) {
    var order := Slots(steps);
    && |steps| == |p.nodes| && NoDup(order) && (forall x | x in order :: x < |p.nodes|)
    && forall k {:trigger StepFits(p, order, k, steps[k])} | 0 <= k < |steps| :: StepFits(p, order, k, steps[k])
  }

  /** One step of a valid plan. */
  lemma FitsAt(p: Shape, steps: seq<PlanStep>, k: nat)
    requires ValidPlan(p, steps) && k < |steps|
    ensures StepFits(p, Slots(steps), k, steps[k]) && steps[k].slot == Slots(steps)[k] < |p.nodes|
    ensures Position(Slots(steps), steps[k].slot) == k
  {
    assert Slots(steps)[k] in Slots(steps);
    PositionOf(Slots(steps), k);
  }

  // ---- Links ----

  lemma {:induction false} LinkingMembers(p: Shape, order: seq<nat>, k: nat, m: nat)
    requires k < |order| && m <= |p.edges|
    ensures forall l :: l in Linking(p, order, k, m) <==> l.edge < m && LinkAt(p, order, k, l.edge) == Some(l)
    ensures forall i, j | 0 <= i < j < |Linking(p, order, k, m)| ::
      Linking(p, order, k, m)[i].edge < Linking(p, order, k, m)[j].edge
  {
    if m > 0 {
      LinkingMembers(p, order, k, m - 1);
      var rest := Linking(p, order, k, m - 1);
      forall i | 0 <= i < |rest| ensures rest[i].edge < m - 1 { assert rest[i] in rest; }
    }
  }

  lemma SortedLinks(p: Shape, order: seq<nat>, k: nat)
    requires k < |order|
    ensures
      var links := StableSort(Linking(p, order, k, |p.edges|), Earlier(order));
      && (forall l :: l in links <==> l.edge < |p.edges| && LinkAt(p, order, k, l.edge) == Some(l))
      && (forall i, j | 0 <= i < j < |links| :: links[i].edge != links[j].edge)
  {
    var raw := Linking(p, order, k, |p.edges|);
    var links := StableSort(raw, Earlier(order));
    SortKeeps(raw, Earlier(order));
    LinkingMembers(p, order, k, |p.edges|);
    forall l ensures l in links <==> l in raw {
      assert l in links <==> l in multiset(links);
      assert l in raw <==> l in multiset(raw);
    }
    NoDupMultiset(raw);
    NoDupMultiset(links);
    forall i, j | 0 <= i < j < |links| ensures links[i].edge != links[j].edge {
      assert links[i] in links && links[j] in links && links[i] != links[j];
    }
  }

  /** Some unplaced slot has an edge to a placed one. */
  ghost predicate Touched(p: Shape, before: seq<nat>) {
    exists e, i: nat ::
      0 <= e < |p.edges| && i < |p.nodes| && i !in before && Counts(p.edges[e], Flags(before, |p.nodes|), i)
  }

  /** In a connected pattern placed slots are never closed under edges while one is missing. */
  lemma OnePieceTouched(p: Shape, before: seq<nat>, missing: nat)
    requires OnePiece(p) && InRange(p) && before != [] && (forall x | x in before :: x < |p.nodes|)
    requires missing < |p.nodes| && missing !in before
    ensures Touched(p, before)
  {
    var first := before[0];
    assert first in before && Together(p, first, missing);
    if !Touched(p, before) {
      var steps: nat :| ReachIn(TouchStep(p), first, missing, steps);
      forall x: nat, y: nat | x in before && TouchStep(p)(x, y) ensures y in before {
        var e :| 0 <= e < |p.edges| && Joins(p.edges[e], x, y);
        assert Counts(p.edges[e], Flags(before, |p.nodes|), y) || y in before;
      }
      ClosedContains(TouchStep(p), (x: nat) => x in before, first, missing, steps);
    }
  }

  /** The best pick has an edge to a placed slot if any unplaced slot has. */
  lemma BestPickCounts(p: Shape, before: seq<nat>, pick: nat) returns (e: nat)
    requires Touched(p, before) && PicksBest(p, before, pick)
    ensures e < |p.edges| && Counts(p.edges[e], Flags(before, |p.nodes|), pick)
  {
    var placed := Flags(before, |p.nodes|);
    var e0, i: nat :| 0 <= e0 < |p.edges| && i < |p.nodes| && i !in before && Counts(p.edges[e0], placed, i);
    JoinCountPositive(p.edges, placed, i);
    JoinCountPositive(p.edges, placed, pick);
    e :| 0 <= e < |p.edges| && Counts(p.edges[e], placed, pick);
  }

  lemma CountedCloses(p: Shape, order: seq<nat>, k: nat, e: nat)
    requires NoDup(order) && k < |order| && e < |p.edges| && Counts(p.edges[e], Flags(order[..k], |p.nodes|), order[k])
    ensures ClosesAt(p, order, e, k)
  {
    var placed := Flags(order[..k], |p.nodes|);
    var other := if p.edges[e].from == order[k] && placed[p.edges[e].to] then p.edges[e].to else p.edges[e].from;
    var q :| 0 <= q < k && order[q] == other;
    PositionOf(order, q);
  }

  /** In a connected pattern the greedy pick always touches a placed slot. */
  lemma GreedyPickTouches(p: Shape, order: seq<nat>, k: nat)
    requires OnePiece(p) && InRange(p) && Greedy(p, order) && 1 <= k < |order|
    ensures exists e: nat :: e < |p.edges| && ClosesAt(p, order, e, k)
  {
    var before := order[..k];
    assert PicksBest(p, before, order[k]);
    assert order[k] in order && forall x | x in before :: x in order;
    OnePieceTouched(p, before, order[k]);
    var e := BestPickCounts(p, before, order[k]);
    CountedCloses(p, order, k, e);
  }

  // ---- The plan ----

  /** Among the links of step `k` the join takes one whose anchor was placed earliest, and of those the first edge. */
  ghost predicate JoinsEarliest(p: Shape, order: seq<nat>, k: nat, j: JoinSpec)
    requires k < |order|
  {
    forall e: nat | e < |p.edges| && LinkAt(p, order, k, e).Some? ::
      var here, there := Position(order, j.anchorSlot), Position(order, LinkAt(p, order, k, e).value.anchor);
      here <= there && (e < j.edge ==> here < there)
  }

  /** The remaining links as constraints, in sorted order. */
  function Constraints(p: Shape, links: seq<Link>): seq<ConstraintEdge>
    requires forall l | l in links :: l.edge < |p.edges|
  {
    seq(|links|, i requires 0 <= i < |links| => assert links[i] in links; Constraint(p, links[i]))
  }

  function JoinOf(l: Link): JoinSpec {
    JoinSpec(l.edge, l.anchor, Search(l.direction, l.slotIsTo))
  }

  lemma LinkJoinFits(p: Shape, order: seq<nat>, k: nat, l: Link)
    requires k < |order| && l.edge < |p.edges| && LinkAt(p, order, k, l.edge) == Some(l)
    ensures JoinFits(p, order, k, JoinOf(l))
  {
  }

  lemma EarlierIsPreorder(order: seq<nat>)
    ensures TotalPreorder(Earlier(order))
  {
  }

  lemma FrontJoinsEarliest(p: Shape, order: seq<nat>, k: nat, raw: seq<Link>, m: nat)
    requires k < |order| && raw == Linking(p, order, k, |p.edges|) && m < |raw|
    requires FirstLeast(raw, Earlier(order), m)
    ensures JoinsEarliest(p, order, k, JoinOf(raw[m]))
  {
    LinkingMembers(p, order, k, |p.edges|);
    forall e: nat | e < |p.edges| && LinkAt(p, order, k, e).Some?
      ensures
        var here, there := Position(order, raw[m].anchor), Position(order, LinkAt(p, order, k, e).value.anchor);
        here <= there && (e < raw[m].edge ==> here < there)
    {
      var other := LinkAt(p, order, k, e).value;
      assert other in raw;
      var i :| 0 <= i < |raw| && raw[i] == other;
      assert Earlier(order)(raw[m], raw[i]);
      if e < raw[m].edge {
        assert i < m;
        assert !Earlier(order)(raw[i], raw[m]);
      }
    }
  }

  lemma JoinOfLinks(p: Shape, order: seq<nat>, k: nat, links: seq<Link>)
    requires k < |order|
    requires links == StableSort(Linking(p, order, k, |p.edges|), Earlier(order)) && links != []
    ensures JoinFits(p, order, k, JoinOf(links[0])) && JoinsEarliest(p, order, k, JoinOf(links[0]))
  {
    var raw := Linking(p, order, k, |p.edges|);
    EarlierIsPreorder(order);
    var m := StableSortHead(raw, Earlier(order));
    FrontJoinsEarliest(p, order, k, raw, m);
    LinkingMembers(p, order, k, |p.edges|);
    assert raw[m] in raw;
    LinkJoinFits(p, order, k, raw[m]);
  }

  function StepOf(p: Shape, slot: nat, links: seq<Link>): PlanStep
    requires links != [] && forall l | l in links :: l.edge < |p.edges|
  {
    PlanStep(slot, Some(JoinOf(links[0])), Constraints(p, links[1..]))
  }

  lemma EdgesOfStep(p: Shape, slot: nat, links: seq<Link>)
    requires links != [] && forall l | l in links :: l.edge < |p.edges|
    ensures |EdgesOf(StepOf(p, slot, links))| == |links|
    ensures forall i | 0 <= i < |links| :: EdgesOf(StepOf(p, slot, links))[i] == links[i].edge
    ensures forall c | c in StepOf(p, slot, links).constraints :: exists l :: l in links && c == Constraint(p, l)
  {
    var step := StepOf(p, slot, links);
    forall c | c in step.constraints ensures exists l :: l in links && c == Constraint(p, l) {
      var i :| 0 <= i < |step.constraints| && step.constraints[i] == c;
      assert links[1..][i] in links;
    }
  }

  lemma StepOfLinks(p: Shape, order: seq<nat>, k: nat, links: seq<Link>)
    requires 1 <= k < |order|
    requires links != []
    requires forall l :: l in links <==> l.edge < |p.edges| && LinkAt(p, order, k, l.edge) == Some(l)
    requires forall i, j | 0 <= i < j < |links| :: links[i].edge != links[j].edge
    requires JoinFits(p, order, k, JoinOf(links[0]))
    ensures StepFits(p, order, k, StepOf(p, order[k], links))
  {
    var step := StepOf(p, order[k], links);
    EdgesOfStep(p, order[k], links);
    forall c | c in step.constraints ensures ConstraintFits(p, c) {
      var l :| l in links && c == Constraint(p, l);
    }
    var es := EdgesOf(step);
    forall e: nat ensures e in es <==> e < |p.edges| && ClosesAt(p, order, e, k) {
      if e < |p.edges| && ClosesAt(p, order, e, k) {
        var l := LinkAt(p, order, k, e).value;
        assert l in links;
        var i :| 0 <= i < |links| && links[i] == l;
        assert es[i] == e;
      }
      if e in es {
        var i :| 0 <= i < |es| && es[i] == e;
        assert links[i] in links;
      }
    }
  }

  lemma FirstStepFits(p: Shape, order: seq<nat>)
    requires order != []
    ensures StepFits(p, order, 0, PlanStep(order[0], None, []))
  {
  }

  /** The inner loop over the pattern edges. */
  method CollectLinks(p: Shape, order: seq<nat>, position: array<nat>, k: nat) returns (linking: seq<Link>)
    requires InRange(p) && k < |order|
    requires position.Length == |p.nodes| && forall x: nat | x < |p.nodes| :: position[x] == Position(order, x)
    ensures linking == Linking(p, order, k, |p.edges|)
  {
    var slot := order[k];
    linking := [];
    for ei: nat := 0 to |p.edges|
      invariant linking == Linking(p, order, k, ei)
    {
      var e := p.edges[ei];
      if e.from == slot && position[e.to] < k {
        linking := linking + [Link(ei, e.to, e.direction, false)];
      } else if e.to == slot && position[e.from] < k {
        linking := linking + [Link(ei, e.from, e.direction, true)];
      }
    }
  }

  lemma LinksFit(p: Shape, order: seq<nat>, k: nat, links: seq<Link>)
    requires InRange(p) && Greedy(p, order) && 1 <= k < |order|
    requires links == StableSort(Linking(p, order, k, |p.edges|), Earlier(order))
    ensures OnePiece(p) ==> links != []
    ensures forall l | l in links :: l.edge < |p.edges|
    ensures links != [] ==>
      StepFits(p, order, k, StepOf(p, order[k], links)) && JoinsEarliest(p, order, k, JoinOf(links[0]))
  {
    SortedLinks(p, order, k);
    if OnePiece(p) {
      GreedyPickTouches(p, order, k);
      var e: nat :| e < |p.edges| && ClosesAt(p, order, e, k);
      assert LinkAt(p, order, k, e).value in links;
    }
    if links != [] {
      JoinOfLinks(p, order, k, links);
      StepOfLinks(p, order, k, links);
    }
  }

  /** One round of the step loop, for a step after the first; `None` where it indexes an empty list of links. */
  method BuildStep(p: Shape, order: seq<nat>, position: array<nat>, k: nat) returns (step: Option<PlanStep>)
    requires InRange(p) && Greedy(p, order) && 1 <= k < |order|
    requires position.Length == |p.nodes| && forall x: nat | x < |p.nodes| :: position[x] == Position(order, x)
    ensures step.None? ==> !OnePiece(p)
    ensures step.Some? ==> StepFits(p, order, k, step.value) && JoinsEarliest(p, order, k, step.value.join.value)
  {
    var linking := CollectLinks(p, order, position, k);
    var links := StableSort(linking, Earlier(order));
    LinksFit(p, order, k, links);
    if links == [] { return None; }
    step := Some(StepOf(p, order[k], links));
  }

  method Positions(order: seq<nat>) returns (position: array<nat>)
    requires NoDup(order) && forall x | x in order :: x < |order|
    ensures fresh(position) && position.Length == |order|
    ensures forall x: nat | x < |order| :: position[x] == Position(order, x)
  {
    var n := |order|;
    position := new nat[n](_ => 0);
    for k: nat := 0 to n
      invariant forall i: nat | i < k :: order[i] in order && position[order[i]] == i
    {
      assert order[k] in order;
      position[order[k]] := k;
    }
    PermutationHoldsAll(order, n);
    forall x: nat | x < n ensures position[x] == Position(order, x) {
      assert x in order;
      var k: nat :| k < |order| && order[k] == x;
      PositionOf(order, k);
    }
  }

  /** A valid plan ties every slot to the first one. */
  lemma {:induction false} PlanReaches(p: Shape, steps: seq<PlanStep>, k: nat)
    requires ValidPlan(p, steps) && k < |steps|
    ensures Together(p, steps[0].slot, steps[k].slot)
    decreases k
  {
    var order, step := Slots(steps), TouchStep(p);
    if k == 0 {
      assert ReachIn(step, order[0], order[0], 0);
    } else {
      assert StepFits(p, order, k, steps[k]);
      var j := steps[k].join.value;
      var q := Position(order, j.anchorSlot);
      PlanReaches(p, steps, q);
      assert Joins(p.edges[j.edge], order[q], order[k]);
      ReachStep(step, order[0], order[q], order[k]);
    }
  }

  lemma TouchBack(p: Shape, a: nat, b: nat)
    requires Together(p, a, b)
    ensures Together(p, b, a)
  {
    var step := TouchStep(p);
    forall x: nat, y: nat | step(x, y) ensures step(y, x) {
      var e :| 0 <= e < |p.edges| && Joins(p.edges[e], x, y);
      assert Joins(p.edges[e], y, x);
    }
    var k: nat :| ReachIn(step, a, b, k);
    ReachInBack(step, (_: nat) => true, a, b, k);
  }

  /** Only patterns in one piece have a valid plan. */
  lemma PlanMeansOnePiece(p: Shape, steps: seq<PlanStep>)
    requires ValidPlan(p, steps) && steps != []
    ensures OnePiece(p)
  {
    PermutationHoldsAll(Slots(steps), |p.nodes|);
    forall i: nat, j: nat | i < |p.nodes| && j < |p.nodes| ensures Together(p, i, j) {
      assert i in Slots(steps) && j in Slots(steps);
      var a: nat :| a < |steps| && Slots(steps)[a] == i;
      var b: nat :| b < |steps| && Slots(steps)[b] == j;
      PlanReaches(p, steps, a);
      PlanReaches(p, steps, b);
      TouchBack(p, steps[0].slot, i);
      ReachTransitive(TouchStep(p), i, steps[0].slot, j);
    }
  }

  /** A loop on one slot is bound by no step, so the finished match has no edge for it. */
  lemma SelfLoopNeverBound(p: Shape, steps: seq<PlanStep>, e: nat, k: nat)
    requires ValidPlan(p, steps) && e < |p.edges| && p.edges[e].from == p.edges[e].to && k < |steps|
    ensures e !in EdgesOf(steps[k])
  {
    assert StepFits(p, Slots(steps), k, steps[k]);
    PositionOf(Slots(steps), k);
  }

  /** The first steps of a plan over a slot order. */
  ghost predicate Planned(p: Shape, order: seq<nat>, steps: seq<PlanStep>) {
    && |steps| <= |order|
    && (forall i | 0 <= i < |steps| :: StepFits(p, order, i, steps[i]))
    && (forall i | 1 <= i < |steps| :: JoinsEarliest(p, order, i, steps[i].join.value))
  }

  lemma PlannedNext(p: Shape, order: seq<nat>, steps: seq<PlanStep>, step: PlanStep)
    requires Planned(p, order, steps) && 1 <= |steps| < |order|
    requires StepFits(p, order, |steps|, step) && JoinsEarliest(p, order, |steps|, step.join.value)
    ensures Planned(p, order, steps + [step])
  {
  }

  lemma PlannedAll(p: Shape, order: seq<nat>, steps: seq<PlanStep>)
    requires Greedy(p, order) && |order| == |p.nodes| && Planned(p, order, steps) && |steps| == |order|
    ensures Slots(steps) == order && ValidPlan(p, steps)
  {
    forall i | 0 <= i < |steps| ensures steps[i].slot == order[i] { assert StepFits(p, order, i, steps[i]); }
    assert Slots(steps) == order;
  }

  /** A valid plan in greedy order exactly for patterns in one piece; on others the planner panics. */
  method ComputePlan(p: Shape) returns (plan: Option<seq<PlanStep>>)
    requires InRange(p)
    ensures plan.Some? <==> OnePiece(p)
    ensures plan.Some? ==>
      ValidPlan(p, plan.value) && Greedy(p, Slots(plan.value)) && Planned(p, Slots(plan.value), plan.value)
  {
    if p.nodes == [] { return None; }
    var n := |p.nodes|;
    var order := ComputeOrder(p);
    var position := Positions(order);
    FirstStepFits(p, order);
    var steps := [PlanStep(order[0], None, [])];
    for k := 1 to n
      invariant |steps| == k && Planned(p, order, steps)
      invariant forall x: nat | x < n :: position[x] == Position(order, x)
    {
      var step := BuildStep(p, order, position, k);
      if step.None? { return None; }
      PlannedNext(p, order, steps, step.value);
      steps := steps + [step.value];
    }
    PlannedAll(p, order, steps);
    PlanMeansOnePiece(p, steps);
    return Some(steps);
  }

  /** A duplicate-free sequence of `n` numbers below `n` holds all of them. */
  lemma {:induction false} PermutationHoldsAll(s: seq<nat>, n: nat)
    requires |s| == n && NoDup(s) && forall x | x in s :: x < n
    ensures forall i: nat | i < n :: i in s
  {
    forall i: nat | i < n ensures i in s {
      if i !in s { AtMost(s + [i], n); }
    }
  }

  lemma {:induction false} AtMost(s: seq<nat>, n: nat)
    requires NoDup(s) && forall x | x in s :: x < n
    ensures |s| <= n
    decreases n
  {
    if s != [] {
      assert s[0] in s;
      var last: nat := n - 1;
      if last in s {
        var k :| 0 <= k < |s| && s[k] == last;
        var rest := s[..k] + s[k + 1..];
        forall x | x in rest ensures x < n - 1 { assert x in s; }
        AtMost(rest, n - 1);
      } else {
        AtMost(s, n - 1);
      }
    }
  }
}
