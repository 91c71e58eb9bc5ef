/** Pattern, plan and iterator together: `subgraph_matches(..).collect()`. */
module SubgraphSearch {
  import opened Sequences
  import opened Wrappers
  import opened Pattern
  import opened Plan
  import opened Search
  import opened Enumeration
  import opened MatchIterator
  import opened Matches
  import opened Exactness
  import opened MatchSemantics

  /** Runs the iterator to its end; `None` where it panics. */
  method Drain(search: SubgraphMatches) returns (found: Option<seq<Match>>)
    requires search.Valid()
    modifies search, search.mapping, search.edgeMapping
    ensures found == if Loopless(search.pattern) || old(search.ToCome()) == [] then Some(old(search.ToCome())) else None
  {
    var matches: seq<Match> := [];
    ghost var all, rest := search.ToCome(), search.ToCome();
    while true
      invariant search.Valid() && search.ToCome() == rest && all == old(search.ToCome()) == matches + rest
      invariant Loopless(search.pattern) || matches == []
      decreases |rest|
    {
      var next := search.Next();
      match next {
        case Finished =>
          assert all == matches + [] == matches;
          return Some(matches);
        case Panicked =>
          assert matches == [] && all != [];
          return None;
        case Found(m) =>
          HandOver(matches, m, rest);
          matches, rest := matches + [m], rest[1..];
      }
    }
  }

  lemma HandOver(taken: seq<Match>, m: Match, rest: seq<Match>)
    requires rest != [] && rest[0] == m
    ensures taken + rest == (taken + [m]) + rest[1..]
  {
  }

  /** What the search comes to under a plan: all matches, or a panic where there is one of a pattern with loops. */
  function Collected(g: Graph, p: Shape, steps: seq<PlanStep>): Option<seq<Match>> {
    if Loopless(p) || All(g, p, steps) == [] then Some(All(g, p, steps)) else None
  }

  method CollectAll(g: Graph, p: Shape, steps: seq<PlanStep>) returns (found: Option<seq<Match>>)
    requires ValidPlan(p, steps) && InRange(p) && steps != []
    ensures found == Collected(g, p, steps)
  {
    var search := new SubgraphMatches(g, p, steps);
    found := Drain(search);
  }

  /**
   * Planner, iterator and collection together; `None` where the source panics. For a pattern without
   * loops: on a simple graph every documented match once, and what else is found repeats an edge or
   * misses an anchor; nothing else is found if the pattern has no parallel edges and one anchor at most.
   */
  method CollectMatches(g: Graph, p: Shape) returns (found: Option<seq<Match>>)
    requires Consistent(g) && InRange(p)
    ensures OnePiece(p) && Loopless(p) ==> found.Some?
    ensures !OnePiece(p) ==> found.None?
    ensures OnePiece(p) && !Loopless(p) && Simple(g) && NoParallel(p) ==>
      found == if exists m :: EmbedsBarLoops(g, p, m) && FirstAnchored(p, m) then None else Some([])
    ensures found.Some? ==> forall m | m in found.value :: Embeds(g, p, m) && FirstAnchored(p, m)
    ensures found.Some? && AtMostOneAnchor(p) ==> forall m | m in found.value :: AllAnchored(p, m)
    ensures found.Some? && NoParallel(p) ==> forall m | m in found.value :: NoDup(m.edges)
    ensures found.Some? ==> forall m, s: nat | m in found.value && s < |p.nodes| ::
      s < |m.nodes| && p.nodes[s].pred(m.nodes[s])
    ensures found.Some? ==> forall m, e: nat | m in found.value && e < |p.edges| && p.edges[e].pred.Some? ::
      e < |m.edges| && p.edges[e].pred.value(m.edges[e])
    ensures found.Some? ==> NoDup(found.value)
    ensures found.Some? && Simple(g) && Loopless(p) ==>
      && (forall m :: IsMatch(g, p, m) <==> m in found.value && NoDup(m.edges) && AllAnchored(p, m))
      && (forall m | m in found.value :: NoDup(m.edges) <==> NoParallel(p))
      && (NoParallel(p) && AtMostOneAnchor(p) ==> forall m :: m in found.value <==> IsMatch(g, p, m))
  {
    var plan := ComputePlan(p);
    if plan.None? { return None; }
    found := CollectAll(g, p, plan.value);
    if Loopless(p) {
      ListedMatches(g, p, plan.value);
      ListedPass(g, p, plan.value);
    } else if Simple(g) && NoParallel(p) {
      LoopsUnchecked(g, p, plan.value);
    }
  }

  /** What is listed passes the predicates of the slots and of the pattern edges. */
  lemma ListedPass(g: Graph, p: Shape, steps: seq<PlanStep>)
    requires Consistent(g) && Searchable(p, steps)
    ensures forall m, s: nat | m in All(g, p, steps) && s < |p.nodes| :: s < |m.nodes| && p.nodes[s].pred(m.nodes[s])
    ensures forall m, e: nat | m in All(g, p, steps) && e < |p.edges| && p.edges[e].pred.Some? ::
      e < |m.edges| && p.edges[e].pred.value(m.edges[e])
  {
    forall m | m in All(g, p, steps) ensures Embeds(g, p, m) {
      SearchExact(g, p, steps, m);
      LooplessEmbeds(g, p, m);
    }
    forall m, e: nat | m in All(g, p, steps) && e < |p.edges| && p.edges[e].pred.Some?
      ensures e < |m.edges| && p.edges[e].pred.value(m.edges[e])
    {
      assert EdgeFits(g, p, m, e);
    }
  }

  lemma ListedMatches(g: Graph, p: Shape, steps: seq<PlanStep>)
    requires Consistent(g) && Searchable(p, steps)
    ensures NoDup(All(g, p, steps))
    ensures forall m | m in All(g, p, steps) :: Embeds(g, p, m) && FirstAnchored(p, m)
    ensures forall m | m in All(g, p, steps) :: AtMostOneAnchor(p) ==> AllAnchored(p, m)
    ensures forall m | m in All(g, p, steps) :: NoParallel(p) ==> NoDup(m.edges)
    ensures Simple(g) ==>
      && (forall m :: IsMatch(g, p, m) <==> m in All(g, p, steps) && NoDup(m.edges) && AllAnchored(p, m))
      && (forall m | m in All(g, p, steps) :: NoDup(m.edges) <==> NoParallel(p))
      && (NoParallel(p) && AtMostOneAnchor(p) ==> forall m :: m in All(g, p, steps) <==> IsMatch(g, p, m))
  {
    ListedOnce(g, p, steps);
    if Simple(g) { SearchFindsExactlyTheMatches(g, p, steps); }
    forall m | m in All(g, p, steps)
      ensures Embeds(g, p, m) && FirstAnchored(p, m)
      ensures (AtMostOneAnchor(p) ==> AllAnchored(p, m)) && (NoParallel(p) ==> NoDup(m.edges))
    {
      SearchExact(g, p, steps, m);
      SearchFindsFirstListed(g, p, steps, m);
    }
  }
}
