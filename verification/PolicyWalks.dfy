/**
 * Walks steered by a policy per node: the breadth-first `BfsWalk` of `kyoso_graph::traverse`, and
 * what every such walk is to yield.
 */
module PolicyWalks {
  import opened Ecs
  import opened Wrappers
  import opened Reachability
  import opened Bfs
  import opened Walks

  /** Yield and expand; yield only; neither; or yield and end the walk. */
  datatype Step = Visit | Skip | Prune | Stop

  type Policy = TraversalNode -> Step

  /** The policy looks at the entity only, not at depth or parent. */
  ghost predicate ByEntity(p: Policy) {
    forall n: TraversalNode :: p(n) == AtEntity(p, n.entity)
  }

  ghost predicate NeverStops(p: Policy) {
    forall n :: !p(n).Stop?
  }

  function AtEntity(p: Policy, e: Entity): Step {
    p(TraversalNode(e, 0, None))
  }

  /** The steps the policy lets a walk take. */
  function Allowed(g: Entity -> seq<Entity>, p: Policy): Entity -> seq<Entity> {
    (e: Entity) => if AtEntity(p, e).Visit? then g(e) else []
  }

  function Kept(nodes: seq<TraversalNode>, p: Policy): seq<TraversalNode> {
    if nodes == [] then [] else
      var l := |nodes| - 1;
      Kept(nodes[..l], p) + if p(nodes[l]).Prune? then [] else [nodes[l]]
  }

  lemma {:induction false} KeptIs(nodes: seq<TraversalNode>, p: Policy)
    requires DistinctEntities(nodes)
    ensures DistinctEntities(Kept(nodes, p)) && |Kept(nodes, p)| <= |nodes|
    ensures forall n :: n in Kept(nodes, p) <==> n in nodes && !p(n).Prune?
  {
    if nodes != [] {
      var l := |nodes| - 1;
      KeptIs(nodes[..l], p);
      assert nodes == nodes[..l] + [nodes[l]];
      forall n | n in Kept(nodes[..l], p) ensures n.entity != nodes[l].entity {
        assert n in nodes[..l];
        var i :| 0 <= i < l && nodes[..l][i] == n;
      }
    }
  }

  /** Exactly what the policy lets the walk reach and does not prune, each once. */
  ghost predicate WalkedExactly(g: Entity -> seq<Entity>, p: Policy, start: Entity, given: seq<TraversalNode>) {
    && DistinctEntities(given)
    && forall x :: x in Entities(given) <==>
         Reach(LetsPass(g, p), start, x) && p(TraversalNode(x, 0, None)) != Step.Prune
  }

  /** A step along an edge out of an entity that the policy visits: not one it skips, prunes or stops at. */
  ghost function LetsPass(g: Entity -> seq<Entity>, p: Policy): (Entity, Entity) -> bool {
    (a: Entity, b: Entity) => p(TraversalNode(a, 0, None)) == Step.Visit && b in g(a)
  }

  lemma AllowedPass(g: Entity -> seq<Entity>, p: Policy)
    ensures forall a, b :: Reach(Follows(Allowed(g, p)), a, b) <==> Reach(LetsPass(g, p), a, b)
  {
    ReachSame(Follows(Allowed(g, p)), LetsPass(g, p));
  }

  /** If the nodes seen are exactly the reachable ones, those kept are walked exactly. */
  lemma KeptWalked(g: Entity -> seq<Entity>, p: Policy, start: Entity, seen: seq<TraversalNode>)
    requires ByEntity(p) && DistinctEntities(seen)
    requires forall x :: x in Entities(seen) <==> Reach(Follows(Allowed(g, p)), start, x)
    ensures WalkedExactly(g, p, start, Kept(seen, p))
  {
    AllowedPass(g, p);
    KeptIs(seen, p);
    forall x ensures x in Entities(Kept(seen, p)) <==> x in Entities(seen) && !AtEntity(p, x).Prune? {
      if x in Entities(seen) {
        var n :| n in seen && n.entity == x;
        assert p(n) == AtEntity(p, x);
      }
    }
  }

  // ---- Breadth first ----

  /** What taking node `i` adds: its neighbours if the policy visits it. */
  function WalkAdded(g: Entity -> seq<Entity>, p: Policy, found: seq<TraversalNode>, i: nat): seq<TraversalNode>
    requires i < |found|
  {
    if p(found[i]).Visit? then Discover(g(found[i].entity), Entities(found), found[i].depth + 1, found[i].entity)
      else []
  }

  ghost function WalkAfter(g: Entity -> seq<Entity>, p: Policy, start: Entity, n: nat): seq<TraversalNode> {
    if n == 0 then [TraversalNode(start, 0, None)] else
      WalkGrow(g, p, WalkAfter(g, p, start, n - 1), n - 1)
  }

  function WalkGrow(g: Entity -> seq<Entity>, p: Policy, found: seq<TraversalNode>, i: nat): seq<TraversalNode> {
    if i < |found| then found + WalkAdded(g, p, found, i) else found
  }

  lemma GrowSame(g: Entity -> seq<Entity>, p: Policy, found: seq<TraversalNode>, i: nat)
    requires ByEntity(p)
    ensures WalkGrow(g, p, found, i) == Grow(Allowed(g, p), None, found, i)
  {
    if i < |found| { assert p(found[i]) == AtEntity(p, found[i].entity); }
  }

  /** Under a policy by entity the walk is breadth-first search along the allowed steps. */
  lemma {:induction false} WalkIsSearch(g: Entity -> seq<Entity>, p: Policy, start: Entity, n: nat)
    requires ByEntity(p)
    ensures WalkAfter(g, p, start, n) == FoundAfter(Allowed(g, p), None, start, n)
  {
    if n > 0 {
      WalkIsSearch(g, p, start, n - 1);
      GrowSame(g, p, WalkAfter(g, p, start, n - 1), n - 1);
    }
  }

  /** The walk after `n` nodes: the queue, the visited set, and what was yielded. */
  ghost predicate WalkState(g: Entity -> seq<Entity>, p: Policy, start: Entity, n: nat,
                            queue: seq<TraversalNode>, visited: set<Entity>, given: seq<TraversalNode>) {
    Listed(p, WalkAfter(g, p, start, n), n, queue, visited, given)
  }

  predicate Listed(p: Policy, found: seq<TraversalNode>, n: nat, queue: seq<TraversalNode>, visited: set<Entity>,
                   given: seq<TraversalNode>) {
    n <= |found| && queue == found[n..] && visited == Entities(found) && given == Kept(found[..n], p)
  }

  lemma QueueAfter(g: Entity -> seq<Entity>, p: Policy, found: seq<TraversalNode>, n: nat)
    requires n < |found|
    ensures
      var node, next := found[n], found + WalkAdded(g, p, found, n);
      && next[n + 1..] == found[n..][1..]
        + (if p(node).Visit? then Discover(g(node.entity), Entities(found), node.depth + 1, node.entity) else [])
      && Entities(next) == Entities(found) + if p(node).Visit? then Members(g(node.entity)) else {}
  {
    VisitedAfter(found, g(found[n].entity), found[n].depth + 1, found[n].entity);
  }

  lemma KeptAfter(p: Policy, found: seq<TraversalNode>, added: seq<TraversalNode>, n: nat)
    requires n < |found|
    ensures Kept((found + added)[..n + 1], p) == Kept(found[..n], p) + if p(found[n]).Prune? then [] else [found[n]]
  {
    assert (found + added)[..n + 1][..n] == found[..n];
  }

  /** One node taken off the queue. */
  lemma WalkTakes(g: Entity -> seq<Entity>, p: Policy, start: Entity, n: nat,
                  queue: seq<TraversalNode>, visited: set<Entity>, given: seq<TraversalNode>,
                  queue': seq<TraversalNode>, visited': set<Entity>, given': seq<TraversalNode>)
    requires queue != [] && WalkState(g, p, start, n, queue, visited, given)
    requires queue' == queue[1..] + if p(queue[0]).Visit?
      then Discover(g(queue[0].entity), visited, queue[0].depth + 1, queue[0].entity) else []
    requires visited' == visited + if p(queue[0]).Visit? then Members(g(queue[0].entity)) else {}
    requires given' == given + if p(queue[0]).Prune? then [] else [queue[0]]
    ensures WalkState(g, p, start, n + 1, queue', visited', given')
  {
    var found := WalkAfter(g, p, start, n);
    ListedAfter(g, p, found, n, queue, visited, given, queue', visited', given');
    assert WalkAfter(g, p, start, n + 1) == found + WalkAdded(g, p, found, n);
  }

  lemma ListedAfter(g: Entity -> seq<Entity>, p: Policy, found: seq<TraversalNode>, n: nat,
                    queue: seq<TraversalNode>, visited: set<Entity>, given: seq<TraversalNode>,
                    queue': seq<TraversalNode>, visited': set<Entity>, given': seq<TraversalNode>)
    requires queue != [] && Listed(p, found, n, queue, visited, given)
    requires queue' == queue[1..] + if p(queue[0]).Visit?
      then Discover(g(queue[0].entity), visited, queue[0].depth + 1, queue[0].entity) else []
    requires visited' == visited + if p(queue[0]).Visit? then Members(g(queue[0].entity)) else {}
    requires given' == given + if p(queue[0]).Prune? then [] else [queue[0]]
    ensures n < |found| && Listed(p, found + WalkAdded(g, p, found, n), n + 1, queue', visited', given')
  {
    QueueAfter(g, p, found, n);
    KeptAfter(p, found, WalkAdded(g, p, found, n), n);
  }

  /** Takes the front node off the queue and queues its neighbours if the policy visits it. */
  method Advance(g: Entity -> seq<Entity>, p: Policy, queue: seq<TraversalNode>, visited: set<Entity>,
                 ghost start: Entity, ghost n: nat, ghost given: seq<TraversalNode>)
    returns (queue': seq<TraversalNode>, visited': set<Entity>)
    requires queue != [] && WalkState(g, p, start, n, queue, visited, given)
    ensures WalkState(g, p, start, n + 1, queue', visited', given + if p(queue[0]).Prune? then [] else [queue[0]])
    ensures !p(queue[0]).Visit? ==> queue' == queue[1..]
  {
    var node := queue[0];
    queue', visited' := queue[1..], visited;
    if p(node).Visit? {
      queue', visited' := Push(g(node.entity), node.depth + 1, node.entity, queue', visited);
    }
    ghost var given' := given + if p(node).Prune? then [] else [node];
    WalkTakes(g, p, start, n, queue, visited, given, queue', visited', given');
  }

  class BfsWalk {
    const graph: Entity -> seq<Entity>
    const policy: Policy
    var queue: seq<TraversalNode>
    var visited: set<Entity>
    var halted: bool
    ghost const start: Entity
    ghost var taken: nat
    ghost var given: seq<TraversalNode>

    /** What was yielded is what was taken and not pruned; a stop can only be the last node taken. */
    ghost predicate Valid()
      reads this
    {
      WalkState(graph, policy, start, taken, queue, visited, given) && (halted ==> exists n :: policy(n).Stop?)
    }

    constructor (g: Entity -> seq<Entity>, from: Entity, p: Policy)
      ensures Valid() && graph == g && policy == p && start == from && given == [] && !halted
    {
      graph, policy, start := g, p, from;
      queue, visited, halted, taken, given := [TraversalNode(from, 0, None)], {from}, false, 0, [];
      new;
      assert Entities(queue) == {from};
    }

    /** Takes the front node off the queue and does with it what the policy says. */
    method Take() returns (step: Step)
      requires Valid() && queue != [] && !halted
      modifies this
      ensures Valid() && step == policy(old(queue)[0]) && halted == step.Stop?
      ensures given == old(given) + if step.Prune? then [] else [old(queue)[0]]
      ensures !step.Visit? ==> queue == old(queue)[1..]
    {
      step := policy(queue[0]);
      ghost var next := given + if step.Prune? then [] else [queue[0]];
      queue, visited := Advance(graph, policy, queue, visited, start, taken, given);
      halted, given, taken := step.Stop?, next, taken + 1;
    }

    method Next() returns (r: Option<TraversalNode>)
      requires Valid()
      modifies this
      ensures Valid()
      ensures given == if r.Some? then old(given) + [r.value] else old(given)
      ensures r.None? ==> queue == [] || halted
      ensures r.Some? ==> !policy(r.value).Prune? && (halted <==> policy(r.value).Stop?)
      ensures old(halted) ==> r.None? && halted
    {
      if halted { return None; }
      while queue != []
        invariant Valid() && given == old(given) && !halted
        decreases |queue|
      {
        var node := queue[0];
        var step := Take();
        if !step.Prune? { return Some(node); }
      }
      return None;
    }
  }

  /** A walk under a policy by entity cannot find more than there is. */
  lemma WalkFits(g: Entity -> seq<Entity>, p: Policy, start: Entity, n: nat, world: set<Entity>)
    requires ByEntity(p) && n <= |WalkAfter(g, p, start, n)| && Closed(g, world) && start in world
    ensures |Kept(WalkAfter(g, p, start, n)[..n], p)| <= |world|
  {
    var found := WalkAfter(g, p, start, n);
    WalkIsSearch(g, p, start, n);
    RunFits(Allowed(g, p), None, start, found, n, world);
    RunSearches(Allowed(g, p), None, start, n);
    KeptIs(found[..n], p);
  }

  lemma WalkFinished(g: Entity -> seq<Entity>, p: Policy, start: Entity, n: nat)
    requires ByEntity(p) && n == |WalkAfter(g, p, start, n)|
    ensures WalkedExactly(g, p, start, Kept(WalkAfter(g, p, start, n), p))
  {
    var found, allowed := WalkAfter(g, p, start, n), Allowed(g, p);
    WalkIsSearch(g, p, start, n);
    RunFinishes(allowed, None, start, found);
    forall x ensures x in Entities(found) <==> Reach(Follows(allowed), start, x) {
      if x in Entities(found) {
        var m :| m in found && m.entity == x;
        assert Nearest(allowed, None, start, m.entity, m.depth);
      }
    }
    KeptWalked(g, p, start, found);
  }

  /** `bfs_walk(start, policy).collect()` on a finite graph. */
  method CollectBfsWalk(g: Entity -> seq<Entity>, start: Entity, p: Policy, ghost world: set<Entity>)
    returns (given: seq<TraversalNode>)
    requires Closed(g, world) && start in world && ByEntity(p)
    ensures NeverStops(p) ==> WalkedExactly(g, p, start, given)
  {
    var walk := new BfsWalk(g, start, p);
    given := [];
    while true
      invariant fresh(walk) && walk.Valid() && walk.graph == g && walk.policy == p && walk.start == start
      invariant given == walk.given && |given| <= |world|
      decreases |world| - |given|
    {
      var next := walk.Next();
      WalkFits(g, p, start, walk.taken, world);
      if next.None? { break; }
      given := given + [next.value];
    }
    if walk.queue == [] {
      ghost var found := WalkAfter(g, p, start, walk.taken);
      assert found[..walk.taken] == found;
      WalkFinished(g, p, start, walk.taken);
    }
  }
}
