module ListableMatches {
  // Which bindings any graph can make the search list, and so for which patterns all anchors are met.
  //
  // From a binding that passes the checks a graph is made that consists of its nodes and edges. Each
  // node lists the edges of constraints before those of joins, so that a constraint finds its own edge
  // first even where a join is parallel to it.

  import opened Ecs
  import opened Sequences
  import opened Wrappers
  import opened Pattern
  import opened Plan
  import opened Search
  import opened Enumeration
  import opened Matches
  import opened Exactness
  import opened MatchSemantics

  /** Graph edges shared only by parallel pattern edges. */
  ghost predicate SharesParallels(p: Shape, m: Match) {
    && |m.edges| == |p.edges|
    && forall e: nat, f: nat | e < |m.edges| && f < |m.edges| && m.edges[e] == m.edges[f] :: Parallel(p, e, f)
  }

  predicate ConstraintsUnparallel(p: Shape, step: PlanStep) {
    forall i: nat, j: nat | i < j < |step.constraints| ::
      !Parallel(p, step.constraints[i].edge, step.constraints[j].edge)
  }

  /** Distinct nodes and edges that pass the predicates and meet the first anchor; no graph is involved. */
  ghost predicate Assignable(p: Shape, steps: seq<PlanStep>, m: Match) {
    && |m.nodes| == |p.nodes| && NoDup(m.nodes) && (forall s: nat | s < |p.nodes| :: p.nodes[s].pred(m.nodes[s]))
    && FirstAnchored(p, m) && SharesParallels(p, m)
    && (forall e: nat | e < |p.edges| && p.edges[e].pred.Some? :: p.edges[e].pred.value(m.edges[e]))
    && (forall k: nat | k < |steps| :: ConstraintsUnparallel(p, steps[k]))
  }

  // ---- What is listed is assignable ----

  lemma ParallelConstraintsAgree(g: Graph, p: Shape, m: Match, c: ConstraintEdge, d: ConstraintEdge)
    requires Takes(g, m, c) && Takes(g, m, d) && ConstraintFits(p, c) && ConstraintFits(p, d)
      && Parallel(p, c.edge, d.edge)
    ensures m.edges[c.edge] == m.edges[d.edge]
  {
  }

  lemma ListedUnparallel(g: Graph, p: Shape, steps: seq<PlanStep>, m: Match, k: nat)
    requires ValidPlan(p, steps) && InRange(p) && FirstFound(g, steps, m) && ConstraintsApart(steps, m) && k < |steps|
    ensures ConstraintsUnparallel(p, steps[k])
  {
    var cs := steps[k].constraints;
    forall i: nat, j: nat | i < j < |cs| ensures !Parallel(p, cs[i].edge, cs[j].edge) {
      ConstraintOfStep(p, steps, k, i);
      ConstraintOfStep(p, steps, k, j);
      assert ConstraintEdgesOf(steps[k], m)[i] != ConstraintEdgesOf(steps[k], m)[j];
      assert Takes(g, m, cs[i]) && Takes(g, m, cs[j]);
      if Parallel(p, cs[i].edge, cs[j].edge) { ParallelConstraintsAgree(g, p, m, cs[i], cs[j]); }
    }
  }

  lemma ListedAssignable(g: Graph, p: Shape, steps: seq<PlanStep>, m: Match)
    requires Consistent(g) && Searchable(p, steps) && m in All(g, p, steps)
    ensures Assignable(p, steps, m)
  {
    SearchExact(g, p, steps, m);
    forall e: nat, f: nat | e < |m.edges| && f < |m.edges| && m.edges[e] == m.edges[f] ensures Parallel(p, e, f) {
      SharedEdgeSharesEnds(g, p, m, e, f);
    }
    forall e: nat | e < |p.edges| && p.edges[e].pred.Some? ensures p.edges[e].pred.value(m.edges[e]) {
      assert EdgeFits(g, p, m, e);
    }
    forall k: nat | k < |steps| ensures ConstraintsUnparallel(p, steps[k]) { ListedUnparallel(g, p, steps, m, k); }
  }

  // ---- Graphs from lists of edges ----

  datatype Line = Line(edge: Entity, source: Entity, target: Entity)

  function Leaving(lines: seq<Line>, n: Entity): seq<(Entity, Entity)> {
    if lines == [] then [] else
      (if lines[0].source == n then [(lines[0].edge, lines[0].target)] else []) + Leaving(lines[1..], n)
  }

  function Entering(lines: seq<Line>, n: Entity): seq<(Entity, Entity)> {
    if lines == [] then [] else
      (if lines[0].target == n then [(lines[0].edge, lines[0].source)] else []) + Entering(lines[1..], n)
  }

  function GraphOf(nodes: seq<Entity>, lines: seq<Line>): Graph {
    Graph(nodes, (n: Entity) => Leaving(lines, n), (n: Entity) => Entering(lines, n))
  }

  lemma {:induction false} LeavingMembers(lines: seq<Line>, x: Entity, a: Entity, b: Entity)
    ensures (x, b) in Leaving(lines, a) <==> Line(x, a, b) in lines
    ensures (x, a) in Entering(lines, b) <==> Line(x, a, b) in lines
  {
    if lines != [] {
      LeavingMembers(lines[1..], x, a, b);
      assert lines == [lines[0]] + lines[1..];
    }
  }

  predicate EdgesApart(lines: seq<Line>) {
    forall i, j | 0 <= i < j < |lines| :: lines[i].edge != lines[j].edge
  }

  lemma RestApart(lines: seq<Line>)
    requires EdgesApart(lines) && lines != []
    ensures EdgesApart(lines[1..]) && forall l | l in lines[1..] :: l.edge != lines[0].edge
  {
    assert forall i | 0 <= i < |lines[1..]| :: lines[1..][i] == lines[i + 1];
  }

  lemma NoDupFront<T>(x: T, s: seq<T>)
    requires NoDup(s)
    ensures x !in s ==> NoDup([x] + s)
  {
    if x !in s { NoDupJoin([x], s); }
  }

  lemma {:induction false} LeavingDistinct(lines: seq<Line>, n: Entity)
    requires EdgesApart(lines)
    ensures NoDup(Leaving(lines, n)) && NoDup(Entering(lines, n))
  {
    if lines != [] {
      var l, rest := lines[0], lines[1..];
      RestApart(lines);
      LeavingDistinct(rest, n);
      LeavingMembers(rest, l.edge, n, l.target);
      LeavingMembers(rest, l.edge, l.source, n);
      NoDupFront((l.edge, l.target), Leaving(rest, n));
      NoDupFront((l.edge, l.source), Entering(rest, n));
    }
  }

  lemma GraphConsistent(nodes: seq<Entity>, lines: seq<Line>)
    requires NoDup(nodes) && EdgesApart(lines) && forall l | l in lines :: l.source in nodes && l.target in nodes
    ensures Consistent(GraphOf(nodes, lines))
    ensures forall x, a, b :: Arc(GraphOf(nodes, lines), x, a, b) <==> Line(x, a, b) in lines
  {
    var g := GraphOf(nodes, lines);
    forall n: Entity ensures NoDup(g.outgoing(n)) && NoDup(g.incoming(n)) { LeavingDistinct(lines, n); }
    forall x: Entity, a: Entity, b: Entity
      ensures Arc(g, x, a, b) <==> Line(x, a, b) in lines
      ensures (x, a) in g.incoming(b) <==> Line(x, a, b) in lines
    {
      LeavingMembers(lines, x, a, b);
    }
  }

  lemma LeavingFront(l: Line, rest: seq<Line>, n: Entity)
    ensures Leaving([l] + rest, n) == (if l.source == n then [(l.edge, l.target)] else []) + Leaving(rest, n)
  {
    assert ([l] + rest)[1..] == rest;
  }

  lemma {:induction false} LeavingJoin(lines: seq<Line>, more: seq<Line>, n: Entity)
    ensures Leaving(lines + more, n) == Leaving(lines, n) + Leaving(more, n)
  {
    if lines == [] {
      assert lines + more == more;
    } else {
      var l, rest := lines[0], lines[1..];
      assert lines == [l] + rest && lines + more == [l] + (rest + more);
      LeavingFront(l, rest, n);
      LeavingFront(l, rest + more, n);
      LeavingJoin(rest, more, n);
    }
  }

  lemma {:induction false} FirstToJoin(a: seq<(Entity, Entity)>, b: seq<(Entity, Entity)>, to: Entity)
    requires FirstTo(a, to).Some?
    ensures FirstTo(a + b, to) == FirstTo(a, to)
  {
    assert (a + b)[1..] == a[1..] + b;
    if a[0].1 != to { FirstToJoin(a[1..], b, to); }
  }

  /** Of the edges between two nodes, one that is alone among the earlier part of the list comes first. */
  lemma EarlierFirst(nodes: seq<Entity>, lines: seq<Line>, more: seq<Line>, l: Line)
    requires l in lines && forall k | k in lines && k.source == l.source && k.target == l.target :: k == l
    ensures FirstTo(GraphOf(nodes, lines + more).outgoing(l.source), l.target) == Some(l.edge)
  {
    LeavingJoin(lines, more, l.source);
    var here := Leaving(lines, l.source);
    LeavingMembers(lines, l.edge, l.source, l.target);
    FirstToSound(here, l.target);
    LeavingMembers(lines, FirstTo(here, l.target).value, l.source, l.target);
    FirstToJoin(here, Leaving(more, l.source), l.target);
  }

  // ---- The graph of a binding ----

  /** The numbers below `n` that are kept, in ascending order. */
  function Kept(n: nat, keep: nat -> bool): (r: seq<nat>)
    ensures forall x: nat :: x in r <==> x < n && keep(x)
    ensures NoDup(r)
  {
    if n == 0 then [] else Kept(n - 1, keep) + if keep(n - 1) then [n - 1] else []
  }

  predicate IsConstraint(steps: seq<PlanStep>, e: nat) {
    exists k, i :: 0 <= k < |steps| && 0 <= i < |steps[k].constraints| && steps[k].constraints[i].edge == e
  }

  /** Pattern edge `e` is bound to a graph edge that no constraint is bound to. */
  predicate OwnEdge(p: Shape, steps: seq<PlanStep>, m: Match, e: nat) {
    forall f: nat | f < |p.edges| && f < |m.edges| && e < |m.edges| && IsConstraint(steps, f) ::
      m.edges[f] != m.edges[e]
  }

  function ConstraintsOf(p: Shape, steps: seq<PlanStep>): seq<nat> {
    Kept(|p.edges|, (e: nat) => IsConstraint(steps, e))
  }

  function Others(p: Shape, steps: seq<PlanStep>, m: Match): seq<nat> {
    Kept(|p.edges|, (e: nat) => OwnEdge(p, steps, m, e))
  }

  predicate Within(p: Shape, m: Match) {
    |m.nodes| == |p.nodes| && |m.edges| == |p.edges| && InRange(p)
  }

  function LineOf(p: Shape, m: Match, e: nat): Line
    requires Within(p, m) && e < |p.edges|
  {
    Line(m.edges[e], m.nodes[Source(p.edges[e])], m.nodes[Target(p.edges[e])])
  }

  function Lines(p: Shape, m: Match, es: seq<nat>): seq<Line>
    requires Within(p, m) && forall e | e in es :: e < |p.edges|
  {
    seq(|es|, i requires 0 <= i < |es| => assert es[i] in es; LineOf(p, m, es[i]))
  }

  lemma LinesMembers(p: Shape, m: Match, es: seq<nat>)
    requires Within(p, m) && forall e | e in es :: e < |p.edges|
    ensures forall l :: l in Lines(p, m, es) <==> exists e: nat :: e in es && l == LineOf(p, m, e)
  {
    forall l ensures l in Lines(p, m, es) <==> exists e: nat :: e in es && l == LineOf(p, m, e) {
      if l in Lines(p, m, es) { var i :| 0 <= i < |es| && Lines(p, m, es)[i] == l; assert es[i] in es; }
      if e: nat :| e in es && l == LineOf(p, m, e) {
        var i :| 0 <= i < |es| && es[i] == e;
        assert Lines(p, m, es)[i] == l;
      }
    }
  }

  function ListingGraph(p: Shape, steps: seq<PlanStep>, m: Match): Graph
    requires Within(p, m)
  {
    GraphOf(m.nodes, Lines(p, m, ConstraintsOf(p, steps)) + Lines(p, m, Others(p, steps, m)))
  }

  // ---- Its edges ----

  lemma ConstraintAt(p: Shape, steps: seq<PlanStep>, e: nat, k: nat) returns (i: nat)
    requires Searchable(p, steps) && IsConstraint(steps, e) && k < |steps| && e in EdgesOf(steps[k])
    ensures i < |steps[k].constraints| && steps[k].constraints[i].edge == e
  {
    var l: nat, j: nat :| l < |steps| && j < |steps[l].constraints| && steps[l].constraints[j].edge == e;
    ConstraintOfStep(p, steps, l, j);
    EdgeBoundOnce(p, steps, e, k);
    i := j;
  }

  lemma ConstraintsAt(p: Shape, step: PlanStep, i: nat, j: nat)
    requires ConstraintsUnparallel(p, step) && i < |step.constraints| && j < |step.constraints| && i != j
    ensures !Parallel(p, step.constraints[i].edge, step.constraints[j].edge)
  {
    assert !Parallel(p, step.constraints[if i < j then i else j].edge, step.constraints[if i < j then j else i].edge);
  }

  /** Distinct constraints are bound to distinct edges, and so are distinct joins. */
  lemma KindApart(p: Shape, steps: seq<PlanStep>, m: Match, e: nat, f: nat)
    requires Searchable(p, steps) && Assignable(p, steps, m) && e < |p.edges| && f < |p.edges| && e != f
    requires IsConstraint(steps, e) <==> IsConstraint(steps, f)
    ensures m.edges[e] != m.edges[f]
  {
    if m.edges[e] == m.edges[f] {
      var k := ParallelTogether(p, steps, e, f);
      if IsConstraint(steps, e) {
        var i := ConstraintAt(p, steps, e, k);
        var j := ConstraintAt(p, steps, f, k);
        ConstraintsAt(p, steps[k], i, j);
      } else {
        EdgeOfStep(steps[k], e);
        EdgeOfStep(steps[k], f);
      }
    }
  }

  lemma LinesApart(p: Shape, steps: seq<PlanStep>, m: Match, es: seq<nat>)
    requires Searchable(p, steps) && Assignable(p, steps, m) && NoDup(es) && forall e | e in es :: e < |p.edges|
    requires forall e, f | e in es && f in es :: IsConstraint(steps, e) <==> IsConstraint(steps, f)
    ensures EdgesApart(Lines(p, m, es))
  {
    forall i, j | 0 <= i < j < |es| ensures Lines(p, m, es)[i].edge != Lines(p, m, es)[j].edge {
      assert es[i] in es && es[j] in es;
      KindApart(p, steps, m, es[i], es[j]);
    }
  }

  lemma ApartJoin(a: seq<Line>, b: seq<Line>)
    requires EdgesApart(a) && EdgesApart(b) && forall k, l | k in a && l in b :: k.edge != l.edge
    ensures EdgesApart(a + b)
  {
    forall i, j | 0 <= i < j < |a + b| ensures (a + b)[i].edge != (a + b)[j].edge {
      if i < |a| <= j { assert a[i] in a && b[j - |a|] in b; }
    }
  }

  lemma ListingApart(p: Shape, steps: seq<PlanStep>, m: Match)
    requires Searchable(p, steps) && Assignable(p, steps, m)
    ensures EdgesApart(Lines(p, m, ConstraintsOf(p, steps)) + Lines(p, m, Others(p, steps, m)))
  {
    var cs, os := ConstraintsOf(p, steps), Others(p, steps, m);
    forall e | e in os ensures OwnEdge(p, steps, m, e) && !IsConstraint(steps, e) { OthersAreJoins(p, steps, m, e); }
    LinesApart(p, steps, m, cs);
    LinesApart(p, steps, m, os);
    LinesMembers(p, m, cs);
    LinesMembers(p, m, os);
    ApartJoin(Lines(p, m, cs), Lines(p, m, os));
  }

  lemma OthersAreJoins(p: Shape, steps: seq<PlanStep>, m: Match, e: nat)
    requires |m.edges| == |p.edges|
    ensures e in Others(p, steps, m) ==> !IsConstraint(steps, e)
  {
    if e in Others(p, steps, m) { assert OwnEdge(p, steps, m, e); }
  }

  /** Every pattern edge has its line, its own or that of the constraint it shares a graph edge with. */
  lemma ListingHolds(p: Shape, steps: seq<PlanStep>, m: Match, e: nat)
    requires Searchable(p, steps) && Assignable(p, steps, m) && e < |p.edges|
    ensures LineOf(p, m, e) in Lines(p, m, ConstraintsOf(p, steps)) + Lines(p, m, Others(p, steps, m))
  {
    var cs, os := ConstraintsOf(p, steps), Others(p, steps, m);
    LinesMembers(p, m, cs);
    LinesMembers(p, m, os);
    if !IsConstraint(steps, e) && !OwnEdge(p, steps, m, e) {
      var f: nat :| f < |p.edges| && IsConstraint(steps, f) && m.edges[f] == m.edges[e];
      assert Parallel(p, e, f);
      assert LineOf(p, m, f) == LineOf(p, m, e) && f in cs;
    } else {
      assert e in cs || e in os;
    }
  }

  lemma ListingConsistent(p: Shape, steps: seq<PlanStep>, m: Match)
    requires Searchable(p, steps) && Assignable(p, steps, m)
    ensures Consistent(ListingGraph(p, steps, m)) && EmbedsBarLoops(ListingGraph(p, steps, m), p, m)
  {
    var cs, os := ConstraintsOf(p, steps), Others(p, steps, m);
    var lines := Lines(p, m, cs) + Lines(p, m, os);
    LinesMembers(p, m, cs);
    LinesMembers(p, m, os);
    ListingApart(p, steps, m);
    GraphConsistent(m.nodes, lines);
    forall e: nat | e < |p.edges| ensures EdgeFits(ListingGraph(p, steps, m), p, m, e) {
      ListingHolds(p, steps, m, e);
      assert Arc(GraphOf(m.nodes, lines), m.edges[e], m.nodes[Source(p.edges[e])], m.nodes[Target(p.edges[e])]);
    }
  }

  /** Nodes stand for one slot each, so lines with the same ends come from parallel pattern edges. */
  lemma SameEndsParallel(p: Shape, m: Match, e: nat, f: nat)
    requires Within(p, m) && NoDup(m.nodes) && e < |p.edges| && f < |p.edges|
    requires LineOf(p, m, e).source == LineOf(p, m, f).source && LineOf(p, m, e).target == LineOf(p, m, f).target
    ensures Parallel(p, e, f)
  {
    assert NodesAt(m, Source(p.edges[e]), Source(p.edges[f]));
    assert NodesAt(m, Target(p.edges[e]), Target(p.edges[f]));
  }

  predicate NodesAt(m: Match, r: nat, s: nat) {
    r < |m.nodes| && s < |m.nodes| && (m.nodes[r] == m.nodes[s] ==> r == s)
  }

  /** In the graph of the binding a constraint finds its own edge first. */
  lemma ListingTakes(p: Shape, steps: seq<PlanStep>, m: Match, k: nat, i: nat)
    requires Searchable(p, steps) && Assignable(p, steps, m) && k < |steps| && i < |steps[k].constraints|
    ensures Takes(ListingGraph(p, steps, m), m, steps[k].constraints[i])
  {
    ConstraintOfStep(p, steps, k, i);
    var c := steps[k].constraints[i];
    var cs := ConstraintsOf(p, steps);
    var l := LineOf(p, m, c.edge);
    LinesMembers(p, m, cs);
    assert c.edge in cs;
    forall k | k in Lines(p, m, cs) && k.source == l.source && k.target == l.target ensures k == l {
      var e: nat :| e in cs && k == LineOf(p, m, e);
      SameEndsParallel(p, m, e, c.edge);
      var at := ParallelTogether(p, steps, e, c.edge);
      var x := ConstraintAt(p, steps, e, at);
      var y := ConstraintAt(p, steps, c.edge, at);
      if x != y { ConstraintsAt(p, steps[at], x, y); }
    }
    EarlierFirst(m.nodes, Lines(p, m, cs), Lines(p, m, Others(p, steps, m)), l);
  }

  lemma AssignableListed(p: Shape, steps: seq<PlanStep>, m: Match)
    requires Searchable(p, steps) && Assignable(p, steps, m)
    ensures Consistent(ListingGraph(p, steps, m)) && m in All(ListingGraph(p, steps, m), p, steps)
  {
    var g := ListingGraph(p, steps, m);
    ListingConsistent(p, steps, m);
    forall k: nat, i: nat | k < |steps| && i < |steps[k].constraints| ensures Takes(g, m, steps[k].constraints[i]) {
      ListingTakes(p, steps, m, k, i);
    }
    forall k: nat | k < |steps| ensures StepInMatch(steps[k], m) && NoDup(ConstraintEdgesOf(steps[k], m)) {
      StepApart(p, steps, m, k);
    }
    SearchExact(g, p, steps, m);
  }

  lemma StepApart(p: Shape, steps: seq<PlanStep>, m: Match, k: nat)
    requires Searchable(p, steps) && Assignable(p, steps, m) && k < |steps|
    ensures StepInMatch(steps[k], m) && NoDup(ConstraintEdgesOf(steps[k], m))
  {
    StepInSized(p, steps, k, m);
    forall i: nat, j: nat | i < j < |steps[k].constraints|
      ensures ConstraintEdgesOf(steps[k], m)[i] != ConstraintEdgesOf(steps[k], m)[j]
    {
      ConstraintsAt(p, steps[k], i, j);
    }
  }

  // ---- The results ----

  /** Some consistent graph makes the search list `m` exactly when `m` is assignable. */
  lemma ListableIff(p: Shape, steps: seq<PlanStep>, m: Match)
    requires Searchable(p, steps)
    ensures (exists g :: Consistent(g) && m in All(g, p, steps)) <==> Assignable(p, steps, m)
  {
    if g :| Consistent(g) && m in All(g, p, steps) { ListedAssignable(g, p, steps, m); }
    if Assignable(p, steps, m) { AssignableListed(p, steps, m); }
  }

  /** All anchors are met on every graph exactly when no assignable binding that meets the first misses a later one. */
  lemma AnchorsMetIff(p: Shape, steps: seq<PlanStep>)
    requires Searchable(p, steps)
    ensures (forall g, m | Consistent(g) && m in All(g, p, steps) :: AllAnchored(p, m)) <==>
      (forall m | Assignable(p, steps, m) :: AllAnchored(p, m))
  {
    if forall g, m | Consistent(g) && m in All(g, p, steps) :: AllAnchored(p, m) {
      forall m | Assignable(p, steps, m) ensures AllAnchored(p, m) { AssignableListed(p, steps, m); }
    }
    if forall m | Assignable(p, steps, m) :: AllAnchored(p, m) {
      forall g, m | Consistent(g) && m in All(g, p, steps) ensures AllAnchored(p, m) {
        ListedAssignable(g, p, steps, m);
      }
    }
  }

  // ---- Two inputs on which the documented semantics is not met ----

  function OneEdge(e: Entity, a: Entity, b: Entity): Graph {
    GraphOf([a, b], [Line(e, a, b)])
  }

  lemma OneEdgeFine(e: Entity, a: Entity, b: Entity)
    requires a != b
    ensures Consistent(OneEdge(e, a, b)) && Simple(OneEdge(e, a, b)) && Arc(OneEdge(e, a, b), e, a, b)
  {
    GraphConsistent([a, b], [Line(e, a, b)]);
  }

  function Free(): NodeDef {
    NodeDef((_: Entity) => true, None)
  }

  function Pinned(at: Entity): NodeDef {
    NodeDef((_: Entity) => true, Some(at))
  }

  function Arrow(): EdgeDef {
    EdgeDef(0, 1, Forward, None)
  }

  /** Two parallel pattern edges can be bound to one graph edge. */
  lemma ParallelPatternEdgesShareAnEdge(steps: seq<PlanStep>)
    requires var p := Shape([Free(), Free()], [Arrow(), Arrow()]); ValidPlan(p, steps) && Greedy(p, Slots(steps))
    ensures
      var g, p, m := OneEdge(7, 1, 2), Shape([Free(), Free()], [Arrow(), Arrow()]), Match([1, 2], [7, 7]);
      m in All(g, p, steps) && !IsMatch(g, p, m)
  {
    var g, p, m := OneEdge(7, 1, 2), Shape([Free(), Free()], [Arrow(), Arrow()]), Match([1, 2], [7, 7]);
    OneEdgeFine(7, 1, 2);
    assert m.edges[0] == m.edges[1];
    assert Embeds(g, p, m);
    SimpleTakesFirst(g, p, steps, m);
    forall k: nat | k < |steps| ensures StepInMatch(steps[k], m) && NoDup(ConstraintEdgesOf(steps[k], m)) {
      StepInSized(p, steps, k, m);
      AtMostOneConstraint(p, steps, k);
    }
    SearchExact(g, p, steps, m);
  }

  lemma AtMostOneConstraint(p: Shape, steps: seq<PlanStep>, k: nat)
    requires ValidPlan(p, steps) && Loopless(p) && |p.edges| == 2 && k < |steps|
    ensures |steps[k].constraints| <= 1
  {
    var es := EdgesOf(steps[k]);
    assert StepFits(p, Slots(steps), k, steps[k]);
    AtMost(es, 2);
    assert es != [] ==> es[0] in es;
  }

  /** Only the first anchored slot is pinned: a second anchor is not enforced. */
  lemma SecondAnchorIgnored(steps: seq<PlanStep>)
    requires var p := Shape([Pinned(1), Pinned(9)], [Arrow()]); ValidPlan(p, steps) && Greedy(p, Slots(steps))
    ensures
      var g, p, m := OneEdge(7, 1, 2), Shape([Pinned(1), Pinned(9)], [Arrow()]), Match([1, 2], [7]);
      m in All(g, p, steps) && p.nodes[1].anchor == Some(9) && m.nodes[1] != 9
  {
    var g, p, m := OneEdge(7, 1, 2), Shape([Pinned(1), Pinned(9)], [Arrow()]), Match([1, 2], [7]);
    OneEdgeFine(7, 1, 2);
    assert Embeds(g, p, m);
    assert p.nodes[0].anchor.Some?;
    SimpleTakesFirst(g, p, steps, m);
    ApartWithinSteps(p, steps, m);
    SearchExact(g, p, steps, m);
  }
}
