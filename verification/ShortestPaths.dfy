/**
 * Consumers of breadth-first search: `bfs_path` and `affected_subgraph` of `kyoso_graph::algo`,
 * and `bounded_bfs` of `kyoso_agent::navigate`.
 */
module ShortestPaths {
  import opened Ecs
  import opened Sequences
  import opened Wrappers
  import opened Reachability
  import opened Bfs
  import opened Walks

  predicate IsPath(g: Entity -> seq<Entity>, path: seq<Entity>, start: Entity, goal: Entity) {
    && path != [] && path[0] == start && path[|path| - 1] == goal
    && forall k: nat | k < |path| - 1 :: StepAt(g, path, k)
  }

  predicate StepAt(g: Entity -> seq<Entity>, path: seq<Entity>, k: nat) {
    k + 1 < |path| && path[k + 1] in g(path[k])
  }

  /** Read from its end, the list is a path. */
  predicate IsBackPath(g: Entity -> seq<Entity>, back: seq<Entity>) {
    forall k: nat | k < |back| - 1 :: StepBackAt(g, back, k)
  }

  predicate StepBackAt(g: Entity -> seq<Entity>, back: seq<Entity>, k: nat) {
    k + 1 < |back| && back[k] in g(back[k + 1])
  }

  lemma BackPathGrows(g: Entity -> seq<Entity>, back: seq<Entity>, p: Entity)
    requires back != [] && IsBackPath(g, back) && back[|back| - 1] in g(p)
    ensures IsBackPath(g, back + [p])
  {
    forall k: nat | k < |back| ensures StepBackAt(g, back + [p], k) {
      if k < |back| - 1 { assert StepBackAt(g, back, k); }
    }
  }

  lemma BackPathTurned(g: Entity -> seq<Entity>, back: seq<Entity>, path: seq<Entity>)
    requires back != [] && IsBackPath(g, back) && |path| == |back| && forall k | 0 <= k < |back| ::
      path[k] == back[|back| - 1 - k]
    ensures IsPath(g, path, back[|back| - 1], back[0])
  {
    forall k: nat | k < |path| - 1 ensures StepAt(g, path, k) { assert StepBackAt(g, back, |back| - 2 - k); }
  }

  /** A path of `k` edges is a walk of `k` steps. */
  lemma {:induction false} PathWalks(g: Entity -> seq<Entity>, path: seq<Entity>, start: Entity, goal: Entity)
    requires IsPath(g, path, start, goal)
    ensures ReachIn(Follows(g), start, goal, |path| - 1)
    decreases |path|
  {
    if |path| > 1 {
      var l := |path| - 1;
      forall k: nat | k < l - 1 ensures StepAt(g, path[..l], k) { assert StepAt(g, path, k); }
      PathWalks(g, path[..l], start, path[l - 1]);
      assert StepAt(g, path, l - 1);
      assert Follows(g)(path[l - 1], path[l]);
    }
  }

  // ---- bfs_path ----

  /** The parents of the first `n` nodes of the list. */
  predicate ParentsOf(parents: map<Entity, Entity>, found: seq<TraversalNode>, n: nat)
    requires n <= |found|
  {
    forall j | 1 <= j < n :: found[j].entity in parents && Some(parents[found[j].entity]) == found[j].parent
  }

  lemma ParentsKept(parents: map<Entity, Entity>, found: seq<TraversalNode>, found': seq<TraversalNode>, n: nat)
    requires n <= |found| && found <= found' && ParentsOf(parents, found, n)
    ensures ParentsOf(parents, found', n)
  {
    assert forall j | 0 <= j < n :: found'[j] == found[j];
  }

  function WithParent(parents: map<Entity, Entity>, node: TraversalNode): map<Entity, Entity> {
    if node.parent.Some? then parents[node.entity := node.parent.value] else parents
  }

  predicate Under(g: Entity -> seq<Entity>, found: seq<TraversalNode>, h: nat, j: nat) {
    && h < |found| && j < |found| && found[j].parent == Some(found[h].entity)
    && found[h].depth + 1 == found[j].depth && found[j].entity in g(found[h].entity)
  }

  predicate HasParentBefore(g: Entity -> seq<Entity>, found: seq<TraversalNode>, j: nat) {
    exists h :: 0 <= h < j && Under(g, found, h, j)
  }

  /** A list of nodes, each but the first with its parent earlier in the list and one level up. */
  predicate Rooted(g: Entity -> seq<Entity>, start: Entity, found: seq<TraversalNode>) {
    && found != [] && found[0] == TraversalNode(start, 0, None) && DistinctEntities(found)
    && forall j | 1 <= j < |found| :: HasParentBefore(g, found, j)
  }

  lemma SearchRooted(g: Entity -> seq<Entity>, start: Entity, found: seq<TraversalNode>, i: nat)
    requires Searching(g, None, start, found, i)
    ensures Rooted(g, start, found)
  {
    forall j | 1 <= j < |found| ensures HasParentBefore(g, found, j) {
      assert ParentOf(g, found, i, found[j]);
      var h :| 0 <= h < i && h < |found| && found[h].entity == found[j].parent.value
        && found[h].depth + 1 == found[j].depth;
      ShallowerEarlier(found, i, h, j);
      assert Under(g, found, h, j);
    }
  }

  lemma ShallowerEarlier(found: seq<TraversalNode>, i: nat, h: nat, j: nat)
    requires Levels(found, i) && h < |found| && j < |found| && found[h].depth < found[j].depth
    ensures h < j
  {
  }

  lemma NextParent(g: Entity -> seq<Entity>, start: Entity, found: seq<TraversalNode>, n: nat, parents: map<Entity,
                   Entity>)
    requires n < |found| && Rooted(g, start, found) && ParentsOf(parents, found, n)
    ensures ParentsOf(WithParent(parents, found[n]), found, n + 1)
  {
    if n > 0 {
      assert HasParentBefore(g, found, n);
      var next := WithParent(parents, found[n]);
      forall j | 1 <= j < n + 1 ensures found[j].entity in next && Some(next[found[j].entity]) == found[j].parent {
        if j < n { assert found[j].entity != found[n].entity; }
      }
    }
  }

  lemma ParentEarlier(g: Entity -> seq<Entity>, start: Entity, found: seq<TraversalNode>, at: nat, parents: map<Entity,
                      Entity>, j: nat) returns (h: nat)
    requires Rooted(g, start, found) && 1 <= j <= at < |found| && ParentsOf(parents, found, at + 1)
    ensures h < j && Under(g, found, h, j) && found[j].entity in parents && parents[found[j].entity] == found[h].entity
    ensures found[h].entity == start <==> h == 0
  {
    assert HasParentBefore(g, found, j);
    h :| 0 <= h < j && Under(g, found, h, j);
    if h > 0 { assert found[0].entity != found[h].entity; }
  }

  /** Follows the parents from the goal, node `at` of the list, back to the start. */
  method Climb(g: Entity -> seq<Entity>, parents: map<Entity, Entity>, start: Entity, goal: Entity,
               ghost found: seq<TraversalNode>, ghost at: nat) returns (path: seq<Entity>)
    requires Rooted(g, start, found) && 1 <= at < |found| && found[at].entity == goal
    requires ParentsOf(parents, found, at + 1)
    ensures IsPath(g, path, start, goal) && |path| == found[at].depth + 1
  {
    var back, cur := [goal], goal;
    ghost var j: nat := at;
    ghost var h: nat := ParentEarlier(g, start, found, at, parents, j);
    while cur in parents
      invariant cur in parents && h < j && Under(g, found, h, j) && parents[cur] == found[h].entity
        && (found[h].entity == start <==> h == 0)
      invariant 1 <= j <= at && found[j].entity == cur
      invariant back != [] && back[0] == goal && back[|back| - 1] == cur
        && |back| + found[j].depth == found[at].depth + 1
      invariant IsBackPath(g, back)
      decreases j
    {
      var p := parents[cur];
      BackPathGrows(g, back, p);
      back := back + [p];
      if p == start {
        path := Backwards(back);
        BackPathTurned(g, back, path);
        return;
      }
      cur, j := p, h;
      h := ParentEarlier(g, start, found, at, parents, j);
    }
    assert false;
    path := [];
  }

  method Backwards(s: seq<Entity>) returns (r: seq<Entity>)
    ensures |r| == |s| && forall k | 0 <= k < |s| :: r[k] == s[|s| - 1 - k]
  {
    r := seq(|s|, k requires 0 <= k < |s| => s[|s| - 1 - k]);
  }

  lemma NodeTaken(g: Entity -> seq<Entity>, start: Entity, was: seq<TraversalNode>, found: seq<TraversalNode>, n: nat,
                  parents: map<Entity, Entity>)
    requires n <= |was| && was <= found && n < |found| && Running(g, None, start, found, n + 1)
      && ParentsOf(parents, was, n)
    ensures Rooted(g, start, found) && ParentsOf(WithParent(parents, found[n]), found, n + 1)
  {
    RunSearches(g, None, start, n + 1);
    SearchRooted(g, start, found, n + 1);
    ParentsKept(parents, was, found, n);
    NextParent(g, start, found, n, parents);
  }

  lemma HandedNearest(g: Entity -> seq<Entity>, start: Entity, found: seq<TraversalNode>, n: nat)
    requires n < |found| && Running(g, None, start, found, n + 1)
    ensures Nearest(g, None, start, found[n].entity, found[n].depth)
  {
    RunSearches(g, None, start, n + 1);
    TakenNearest(g, None, start, found, n + 1, n);
  }

  /** A shortest path if there is a walk at all, else nothing. */
  ghost predicate ShortestPath(g: Entity -> seq<Entity>, start: Entity, goal: Entity, r: Option<seq<Entity>>) {
    && (r.Some? ==> IsPath(g, r.value, start, goal) && forall k: nat | ReachIn(Follows(g), start, goal, k) ::
      |r.value| <= k + 1)
    && (r.None? <==> !Reach(Follows(g), start, goal))
  }

  lemma PathAnswers(g: Entity -> seq<Entity>, path: seq<Entity>, start: Entity, goal: Entity)
    requires IsPath(g, path, start, goal) && Nearest(g, None, start, goal, |path| - 1)
    ensures ShortestPath(g, start, goal, Some(path))
  {
    PathWalks(g, path, start, goal);
  }

  lemma NothingAnswers(g: Entity -> seq<Entity>, start: Entity, goal: Entity, found: seq<TraversalNode>)
    requires Running(g, None, start, found, |found|) && forall j | 0 <= j < |found| :: found[j].entity != goal
    ensures ShortestPath(g, start, goal, None)
  {
    RunFinishes(g, None, start, found);
    assert goal !in Entities(found);
  }

  /** One round of the search: a node and the record of its parent. */
  method TakeNode(it: BfsIterWithDepth, parents: map<Entity, Entity>, ghost world: set<Entity>)
    returns (next: Option<TraversalNode>, parents': map<Entity, Entity>)
    requires it.Valid() && ParentsOf(parents, it.found, it.Taken()) && Closed(it.graph, world) && it.start in world
    modifies it
    ensures it.Valid() && old(it.found) <= it.found && ParentsOf(parents', it.found, it.Taken())
    ensures next.None? ==> it.Taken() == |it.found| == |old(it.found)| && it.Taken() == old(it.Taken())
    ensures next.Some? ==>
      && it.Taken() == old(it.Taken()) + 1 <= |world| && next.value == it.found[old(it.Taken())]
      && Rooted(it.graph, it.start, it.found)
  {
    ghost var was, n := it.found, it.Taken();
    next := it.Next();
    parents' := parents;
    if next.Some? {
      RunFits(it.graph, None, it.start, it.found, it.Taken(), world);
      NodeTaken(it.graph, it.start, was, it.found, n, parents);
      parents' := WithParent(parents, next.value);
    }
  }

  /** The path to the node taken last. */
  method PathTo(g: Entity -> seq<Entity>, parents: map<Entity, Entity>, start: Entity, goal: TraversalNode,
                ghost found: seq<TraversalNode>, ghost n: nat) returns (path: seq<Entity>)
    requires 0 < n <= |found| && found[n - 1] == goal && Rooted(g, start, found) && ParentsOf(parents, found, n)
    requires goal.entity != start && Running(g, None, start, found, n)
    ensures ShortestPath(g, start, goal.entity, Some(path))
  {
    path := Climb(g, parents, start, goal.entity, found, n - 1);
    HandedNearest(g, start, found, n - 1);
    PathAnswers(g, path, start, goal.entity);
  }

  datatype Outcome = Onward | Answer(path: Option<seq<Entity>>)

  /** One round of the loop of `bfs_path`. */
  method Round(it: BfsIterWithDepth, parents: map<Entity, Entity>, start: Entity, goal: Entity,
               ghost world: set<Entity>)
    returns (outcome: Outcome, parents': map<Entity, Entity>)
    requires it.Valid() && ParentsOf(parents, it.found, it.Taken()) && Closed(it.graph, world) && it.start == start
      && start in world && start != goal
    requires forall j | 0 <= j < it.Taken() :: it.found[j].entity != goal
    modifies it
    ensures outcome.Onward? ==>
      it.Valid() && ParentsOf(parents', it.found, it.Taken()) && it.Taken() == old(it.Taken()) + 1 <= |world|
    ensures outcome.Onward? ==> forall j | 0 <= j < it.Taken() :: it.found[j].entity != goal
    ensures outcome.Answer? ==> ShortestPath(it.graph, start, goal, outcome.path)
  {
    var node;
    node, parents' := TakeNode(it, parents, world);
    if node.Some? && node.value.entity != goal { return Onward, parents'; }
    var path := Conclude(it.graph, parents', start, goal, node, it.found, it.Taken());
    return Answer(path), parents';
  }

  /** What the loop returns: nothing when the search is over, the path when its goal has been handed out. */
  method Conclude(g: Entity -> seq<Entity>, parents: map<Entity, Entity>, start: Entity, goal: Entity,
                  node: Option<TraversalNode>,
                  ghost found: seq<TraversalNode>, ghost n: nat) returns (r: Option<seq<Entity>>)
    requires Running(g, None, start, found, n) && start != goal
    requires node.None? ==> n == |found| && forall j | 0 <= j < |found| :: found[j].entity != goal
    requires node.Some? ==> node.value.entity == goal && 0 < n <= |found| && found[n - 1] == node.value
    requires node.Some? ==> Rooted(g, start, found) && ParentsOf(parents, found, n)
    ensures ShortestPath(g, start, goal, r)
  {
    if node.None? {
      NothingAnswers(g, start, goal, found);
      return None;
    }
    var path := PathTo(g, parents, start, node.value, found, n);
    return Some(path);
  }

  /** The loop of `bfs_path`. */
  method Seek(it: BfsIterWithDepth, start: Entity, goal: Entity, ghost world: set<Entity>)
    returns (r: Option<seq<Entity>>)
    requires it.Valid() && it.Taken() == 0 && it.start == start != goal && Closed(it.graph, world) && start in world
    modifies it
    ensures ShortestPath(it.graph, start, goal, r)
  {
    var parents: map<Entity, Entity> := map[];
    while true
      invariant it.Valid() && it.Taken() <= |world| && ParentsOf(parents, it.found, it.Taken())
      invariant forall j | 0 <= j < it.Taken() :: it.found[j].entity != goal
      decreases |world| - it.Taken()
    {
      var outcome;
      outcome, parents := Round(it, parents, start, goal, world);
      if outcome.Answer? { return outcome.path; }
    }
  }

  /** A shortest path, or `None` exactly when there is none. */
  method BfsPath(g: Entity -> seq<Entity>, start: Entity, goal: Entity, ghost world: set<Entity>)
    returns (r: Option<seq<Entity>>)
    requires Closed(g, world) && start in world
    ensures ShortestPath(g, start, goal, r)
  {
    if start == goal {
      assert ReachIn(Follows(g), start, start, 0);
      PathAnswers(g, [start], start, goal);
      return Some([start]);
    }
    var it := new BfsIterWithDepth(g, start);
    r := Seek(it, start, goal, world);
  }

  // ---- Balls ----

  function Names(nodes: seq<TraversalNode>): seq<Entity> {
    seq(|nodes|, i requires 0 <= i < |nodes| => nodes[i].entity)
  }

  /** At most `r` steps away. */
  ghost predicate Ball(g: Entity -> seq<Entity>, start: Entity, r: nat, x: Entity) {
    exists k: nat :: k <= r && ReachIn(Follows(g), start, x, k)
  }

  lemma NamesAre(found: seq<TraversalNode>)
    requires DistinctEntities(found)
    ensures NoDup(Names(found)) && forall x :: x in Names(found) <==> x in Entities(found)
  {
    forall x ensures x in Names(found) <==> x in Entities(found) {
      if x in Names(found) {
        var i :| 0 <= i < |found| && Names(found)[i] == x;
        assert found[i] in found;
      }
      if x in Entities(found) {
        var n :| n in found && n.entity == x;
        var i :| 0 <= i < |found| && found[i] == n;
        assert Names(found)[i] == x;
      }
    }
  }

  lemma CompleteIsBall(g: Entity -> seq<Entity>, start: Entity, r: nat, found: seq<TraversalNode>)
    requires Complete(g, Some(r), start, found)
    ensures forall x :: x in Entities(found) <==> Ball(g, start, r, x)
  {
    forall x ensures x in Entities(found) <==> Ball(g, start, r, x) {
      if x in Entities(found) {
        var n :| n in found && n.entity == x;
        assert Nearest(g, Some(r), start, n.entity, n.depth);
      }
    }
  }

  lemma FoundIsBall(g: Entity -> seq<Entity>, start: Entity, r: nat, found: seq<TraversalNode>)
    requires Running(g, Some(r), start, found, |found|)
    ensures NoDup(Names(found)) && forall x :: x in Names(found) <==> Ball(g, start, r, x)
  {
    RunFinishes(g, Some(r), start, found);
    NamesAre(found);
    CompleteIsBall(g, start, r, found);
  }

  lemma {:induction false} StartFirst(g: Entity -> seq<Entity>, limit: Option<nat>, start: Entity, n: nat)
    ensures FoundAfter(g, limit, start, n) != [] && FoundAfter(g, limit, start, n)[0] == TraversalNode(start, 0, None)
  {
    if n > 0 { StartFirst(g, limit, start, n - 1); }
  }

  lemma NamesSnoc(found: seq<TraversalNode>, added: seq<TraversalNode>, i: nat)
    requires i < |found|
    ensures Names((found + added)[..i + 1]) == Names(found[..i]) + [found[i].entity]
  {
  }

  /** Everything seen is reachable, and what it leads to is seen, except from entities still waiting. */
  ghost predicate Spreading(g: Entity -> seq<Entity>, start: Entity, queue: seq<Entity>, visited: set<Entity>) {
    && start in visited && (forall x | x in visited :: Reach(Follows(g), start, x))
    && (forall x | x in queue :: x in visited)
    && (forall x | x in visited && x !in queue :: forall y | y in g(x) :: y in visited)
  }

  lemma SpreadOut(g: Entity -> seq<Entity>, start: Entity, visited: set<Entity>)
    requires Spreading(g, start, [], visited)
    ensures forall x :: x in visited <==> Reach(Follows(g), start, x)
  {
    forall x | Reach(Follows(g), start, x) ensures x in visited {
      var k: nat :| ReachIn(Follows(g), start, x, k);
      ClosedContains(Follows(g), e => e in visited, start, x, k);
    }
  }

  /** Taking the front off the queue and queueing what it leads to and is new. */
  lemma SpreadStep(g: Entity -> seq<Entity>, start: Entity, queue: seq<Entity>, visited: set<Entity>,
                   queue': seq<Entity>, visited': set<Entity>)
    requires queue != [] && Spreading(g, start, queue, visited)
    requires visited' == visited + Members(g(queue[0]))
    requires forall x :: x in queue' <==> x in queue[1..] || (x in g(queue[0]) && x !in visited)
    ensures Spreading(g, start, queue', visited')
  {
    var current := queue[0];
    assert queue == [current] + queue[1..] && current in visited;
    forall x | x in visited' && x !in visited ensures Reach(Follows(g), start, x) {
      ReachStep(Follows(g), start, current, x);
    }
    forall x | x in visited' && x !in queue' ensures x == current || (x in visited && x !in queue) {}
  }

  /** The inner loop over the neighbours. */
  method QueueNew(neighbours: seq<Entity>, queue: seq<Entity>, visited: set<Entity>)
    returns (queue': seq<Entity>, visited': set<Entity>)
    ensures visited' == visited + Members(neighbours)
    ensures forall x :: x in queue' <==> x in queue || (x in neighbours && x !in visited)
    ensures |queue'| - |queue| == |visited'| - |visited|
  {
    queue', visited' := queue, visited;
    for i := 0 to |neighbours|
      invariant |queue'| - |queue| == |visited'| - |visited|
      invariant visited' == visited + Members(neighbours[..i])
      invariant forall x :: x in queue' <==> x in queue || (x in neighbours[..i] && x !in visited)
    {
      assert neighbours[..i + 1] == neighbours[..i] + [neighbours[i]];
      if neighbours[i] !in visited' {
        queue', visited' := queue' + [neighbours[i]], visited' + {neighbours[i]};
      }
    }
    assert neighbours[..|neighbours|] == neighbours;
  }

  /** `connected_component_undirected`, over the neighbours in both directions. */
  method UndirectedComponent(both: Entity -> seq<Entity>, start: Entity, ghost world: set<Entity>)
    returns (visited: set<Entity>)
    requires Closed(both, world) && start in world
    ensures forall x :: x in visited <==> Reach(Follows(both), start, x)
  {
    var queue := [start];
    visited := {start};
    assert ReachIn(Follows(both), start, start, 0);
    while queue != []
      invariant Spreading(both, start, queue, visited) && visited <= world
      decreases |queue| - |visited| + |world|
    {
      var current := queue[0];
      assert current in visited;
      var queue', visited' := QueueNew(both(current), queue[1..], visited);
      SpreadStep(both, start, queue, visited, queue', visited');
      WithinWorld(visited', world);
      queue, visited := queue', visited';
    }
    SpreadOut(both, start, visited);
  }

  lemma WithinWorld(s: set<Entity>, world: set<Entity>)
    requires s <= world
    ensures |s| <= |world|
  {
    assert world == s + (world - s);
  }

  /** The elements of a set, each once, in no particular order. */
  method AnyOrder(s: set<Entity>) returns (es: seq<Entity>)
    ensures NoDup(es) && forall x :: x in es <==> x in s
  {
    es := [];
    var rest := s;
    while rest != {}
      invariant rest <= s && NoDup(es) && forall x :: x in es <==> x in s - rest
      decreases |rest|
    {
      var e :| e in rest;
      assert e !in es;
      es, rest := es + [e], rest - {e};
    }
  }

  /** `affected_subgraph`, over the neighbours in both directions: without a limit the connected component. */
  method AffectedSubgraph(both: Entity -> seq<Entity>, start: Entity, depth: Option<nat>, ghost world: set<Entity>)
    returns (result: seq<Entity>)
    requires Closed(both, world) && start in world
    ensures NoDup(result)
    ensures depth.None? ==> forall x :: x in result <==> Reach(Follows(both), start, x)
    ensures depth.Some? ==> forall x :: x in result <==> Ball(both, start, depth.value, x)
  {
    match depth
    case None =>
      var component := UndirectedComponent(both, start, world);
      result := AnyOrder(component);
    case Some(maxDepth) =>
      ghost var found;
      result, found := AffectedLoop(both, start, maxDepth, world);
      FoundIsBall(both, start, maxDepth, found);
  }

  method AffectedLoop(both: Entity -> seq<Entity>, start: Entity, maxDepth: nat, ghost world: set<Entity>)
    returns (result: seq<Entity>, ghost found: seq<TraversalNode>)
    requires Closed(both, world) && start in world
    ensures Running(both, Some(maxDepth), start, found, |found|) && result == Names(found)
  {
    var queue, visited := [TraversalNode(start, 0, None)], {start};
    result := [];
    ghost var i: nat := 0;
    found := queue;
    assert Entities(found) == visited;
    while queue != []
      invariant Queued(both, Some(maxDepth), start, found, i, queue, visited) && i <= |world|
        && result == Names(found[..i])
      decreases |world| - i
    {
      ghost var added := Added(both, Some(maxDepth), found, i);
      NamesSnoc(found, added, i);
      result := result + [queue[0].entity];
      queue, visited := TakeFront(both, Some(maxDepth), queue, visited, start, found, i);
      found, i := found + added, i + 1;
      RunFits(both, Some(maxDepth), start, found, i, world);
    }
    assert found[..i] == found;
  }

  lemma NamesGrow(found: seq<TraversalNode>, added: seq<TraversalNode>)
    requires found != []
    ensures Names((found + added)[1..]) == Names(found[1..]) + Names(added)
  {
    assert (found + added)[1..] == found[1..] + added;
  }

  /** What a queue holds beyond `front`. */
  function Tail(queue: seq<TraversalNode>, front: seq<TraversalNode>,
                ghost added: seq<TraversalNode>): (r: seq<TraversalNode>)
    requires queue == front + added
    ensures r == added
  {
    queue[|front|..]
  }

  method BoundedLoop(neighbours: Entity -> seq<Entity>, from: Entity, depth: nat, ghost world: set<Entity>)
    returns (order: seq<Entity>, ghost found: seq<TraversalNode>)
    requires Closed(neighbours, world) && from in world
    ensures Running(neighbours, Some(depth), from, found, |found|) && found != [] && order == Names(found[1..])
  {
    var queue, visited := [TraversalNode(from, 0, None)], {from};
    order := [];
    ghost var i: nat := 0;
    found := queue;
    assert Entities(found) == visited;
    while queue != []
      invariant Queued(neighbours, Some(depth), from, found, i, queue, visited) && i <= |world|
      invariant found != [] && order == Names(found[1..])
      decreases |world| - i
    {
      ghost var added := Added(neighbours, Some(depth), found, i);
      NamesGrow(found, added);
      var waiting := queue[1..];
      queue, visited := TakeFront(neighbours, Some(depth), queue, visited, from, found, i);
      order := order + Names(Tail(queue, waiting, added));
      found, i := found + added, i + 1;
      RunFits(neighbours, Some(depth), from, found, i, world);
    }
  }

  /** `bounded_bfs`: the ball without its centre, in the order of discovery; one step when no limit is given. */
  method BoundedBfs(neighbours: Entity -> seq<Entity>, from: Entity, depthLimit: Option<nat>, ghost world: set<Entity>)
    returns (order: seq<Entity>)
    requires Closed(neighbours, world) && from in world
    ensures
      var depth := if depthLimit.Some? then depthLimit.value else 1;
      NoDup(order) && forall x :: x in order <==> x != from && Ball(neighbours, from, depth, x)
  {
    var depth := if depthLimit.Some? then depthLimit.value else 1;
    if depth == 0 {
      assert forall x :: Ball(neighbours, from, 0, x) ==> x == from;
      return [];
    }
    ghost var found;
    order, found := BoundedLoop(neighbours, from, depth, world);
    StartFirst(neighbours, Some(depth), from, |found|);
    FoundIsBall(neighbours, from, depth, found);
    WithoutFirst(found);
  }

  lemma WithoutFirst(found: seq<TraversalNode>)
    requires found != [] && NoDup(Names(found))
    ensures NoDup(Names(found[1..]))
    ensures forall x :: x in Names(found[1..]) <==> x in Names(found) && x != found[0].entity
  {
    var all, rest := Names(found), Names(found[1..]);
    assert forall i | 0 <= i < |rest| :: rest[i] == all[i + 1];
    forall x ensures x in rest <==> x in all && x != found[0].entity {
      if x in all && x != found[0].entity {
        var i :| 0 <= i < |all| && all[i] == x;
        assert rest[i - 1] == x;
      }
      if x in rest {
        var i :| 0 <= i < |rest| && rest[i] == x;
        assert all[i + 1] == x && all[0] != all[i + 1];
      }
    }
  }
}
