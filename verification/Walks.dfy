/** Breadth-first iteration as an object: `BfsIterWithDepth` of `kyoso_graph::traverse`. */
module Walks {
  import opened Ecs
  import opened Wrappers
  import opened Reachability
  import opened Bfs

  class BfsIterWithDepth {
    const graph: Entity -> seq<Entity>
    var queue: seq<TraversalNode>
    var visited: set<Entity>
    ghost const start: Entity
    /** All nodes found so far; those before `Taken()` have been yielded. */
    ghost var found: seq<TraversalNode>

    ghost function Taken(): int
      reads this
    {
      |found| - |queue|
    }

    ghost predicate Valid()
      reads this
    {
      0 <= Taken() && Queued(graph, None, start, found, Taken(), queue, visited)
    }

    constructor (g: Entity -> seq<Entity>, from: Entity)
      ensures Valid() && graph == g && start == from && Taken() == 0
    {
      var first := TraversalNode(from, 0, None);
      graph, start, queue, visited, found := g, from, [first], {from}, [first];
      new;
      assert Entities([first]) == {from};
    }

    /** Yields the nodes of `found` in order. */
    method Next() returns (r: Option<TraversalNode>)
      requires Valid()
      modifies this
      ensures Valid() && old(found) <= found
      ensures if old(queue) == [] then r == None && found == old(found) && Taken() == old(Taken())
              else r == Some(found[old(Taken())]) && Taken() == old(Taken()) + 1
    {
      if queue == [] { return None; }
      var current := queue[0];
      ghost var was, i := found, Taken();
      queue, visited := TakeFront(graph, None, queue, visited, start, was, i);
      found := was + Added(graph, None, was, i);
      return Some(current);
    }
  }

  lemma VisitedNext(g: Entity -> seq<Entity>, limit: Option<nat>, found: seq<TraversalNode>, i: nat)
    requires i < |found|
    ensures Entities(found + Added(g, limit, found, i)) ==
      Entities(found) + if Within(limit, found[i].depth + 1) then Members(g(found[i].entity)) else {}
  {
    if Within(limit, found[i].depth + 1) {
      VisitedAfter(found, g(found[i].entity), found[i].depth + 1, found[i].entity);
    } else {
      assert found + [] == found;
    }
  }

  lemma RunNext(g: Entity -> seq<Entity>, limit: Option<nat>, start: Entity, found: seq<TraversalNode>, i: nat)
    requires i < |found| && Running(g, limit, start, found, i)
    ensures Running(g, limit, start, found + Added(g, limit, found, i), i + 1)
  {
  }

  /** One node off the queue, what it leads to onto it. */
  lemma QueueAdvances(g: Entity -> seq<Entity>, limit: Option<nat>, start: Entity, found: seq<TraversalNode>, i: nat,
                      queue: seq<TraversalNode>, visited: set<Entity>, visited': set<Entity>)
    requires queue != [] && Queued(g, limit, start, found, i, queue, visited)
    requires visited' == visited + if Within(limit, queue[0].depth + 1) then Members(g(queue[0].entity)) else {}
    ensures i < |found| && queue[0] == found[i]
    ensures Queued(g, limit, start, found + Added(g, limit, found, i), i + 1, queue[1..] + Added(g, limit, found, i),
      visited')
  {
    VisitedNext(g, limit, found, i);
    RunNext(g, limit, start, found, i);
  }

  lemma DiscoverStep(neighbours: seq<Entity>, k: nat, queue: seq<TraversalNode>, visited: set<Entity>, depth: nat,
                     parent: Entity)
    requires k < |neighbours|
    ensures
      var n := neighbours[k];
      queue + Discover(neighbours[k..], visited, depth, parent) ==
        (if n in visited then queue else queue + [TraversalNode(n, depth, Some(parent))])
        + Discover(neighbours[k + 1..], visited + {n}, depth, parent)
  {
    assert neighbours[k..][0] == neighbours[k] && neighbours[k..][1..] == neighbours[k + 1..];
  }

  /** Queues the neighbours not visited before. */
  method Push(neighbours: seq<Entity>, depth: nat, parent: Entity, queue: seq<TraversalNode>, visited: set<Entity>)
    returns (queue': seq<TraversalNode>, visited': set<Entity>)
    ensures queue' == queue + Discover(neighbours, visited, depth, parent)
    ensures visited' == visited + Members(neighbours)
  {
    queue', visited' := queue, visited;
    assert neighbours[0..] == neighbours;
    for k := 0 to |neighbours|
      invariant queue' + Discover(neighbours[k..], visited', depth, parent) == queue
        + Discover(neighbours, visited, depth, parent)
      invariant visited' == visited + Members(neighbours[..k])
    {
      var n := neighbours[k];
      DiscoverStep(neighbours, k, queue', visited', depth, parent);
      assert neighbours[..k + 1] == neighbours[..k] + [n];
      if n !in visited' { queue' := queue' + [TraversalNode(n, depth, Some(parent))]; }
      visited' := visited' + {n};
    }
    assert neighbours[..|neighbours|] == neighbours;
  }

  /** The queue and the visited set after `i` nodes were taken. */
  ghost predicate Queued(g: Entity -> seq<Entity>, limit: Option<nat>, start: Entity, found: seq<TraversalNode>, i: nat,
                         queue: seq<TraversalNode>, visited: set<Entity>) {
    i <= |found| && queue == found[i..] && visited == Entities(found) && Running(g, limit, start, found, i)
  }

  /** Takes the front node and queues what it leads to, unless that lies beyond the limit. */
  method TakeFront(g: Entity -> seq<Entity>, limit: Option<nat>, queue: seq<TraversalNode>, visited: set<Entity>,
                   ghost start: Entity, ghost found: seq<TraversalNode>, ghost i: nat)
    returns (queue': seq<TraversalNode>, visited': set<Entity>)
    requires queue != [] && Queued(g, limit, start, found, i, queue, visited)
    ensures i < |found| && queue[0] == found[i]
    ensures Queued(g, limit, start, found + Added(g, limit, found, i), i + 1, queue', visited')
    ensures queue' == queue[1..] + Added(g, limit, found, i)
  {
    var current := queue[0];
    if Within(limit, current.depth + 1) {
      queue', visited' := Push(g(current.entity), current.depth + 1, current.entity, queue[1..], visited);
    } else {
      queue', visited' := queue[1..], visited;
    }
    QueueAdvances(g, limit, start, found, i, queue, visited, visited');
  }

  function Members(es: seq<Entity>): set<Entity> {
    set e | e in es
  }

  lemma VisitedAfter(found: seq<TraversalNode>, neighbours: seq<Entity>, depth: nat, parent: Entity)
    ensures Entities(found + Discover(neighbours, Entities(found), depth, parent)) == Entities(found)
      + Members(neighbours)
  {
    var added := Discover(neighbours, Entities(found), depth, parent);
    Discovered(neighbours, Entities(found), depth, parent);
    var all := found + added;
    forall e ensures e in Entities(all) <==> e in Entities(found) + Members(neighbours) {
      if e in Entities(all) { var n :| n in all && n.entity == e; assert n in found || n in added; }
      if e in Entities(found) { var n :| n in found && n.entity == e; assert n in all; }
      if e in neighbours && e !in Entities(found) { assert TraversalNode(e, depth, Some(parent)) in all; }
    }
  }

  /** Collects one more node. */
  method CollectNext(it: BfsIterWithDepth, nodes: seq<TraversalNode>, ghost world: set<Entity>)
    returns (more: bool, nodes': seq<TraversalNode>)
    requires it.Valid() && |nodes| == it.Taken() && nodes == it.found[..it.Taken()] && Closed(it.graph, world)
      && it.start in world
    modifies it
    ensures it.Valid() && |nodes'| == it.Taken() <= |it.found| <= |world| && nodes' == it.found[..it.Taken()]
    ensures if more then |nodes'| == |nodes| + 1 else it.found == nodes' == nodes
  {
    ghost var was := it.found;
    var next := it.Next();
    RunFits(it.graph, None, it.start, it.found, it.Taken(), world);
    more, nodes' := next.Some?, nodes;
    if more {
      PrefixGrows(was, it.found, |nodes|);
      nodes' := nodes + [next.value];
    }
  }

  lemma PrefixGrows(was: seq<TraversalNode>, found: seq<TraversalNode>, n: nat)
    requires was <= found && n <= |was| && n < |found|
    ensures found[..n + 1] == was[..n] + [found[n]]
  {
  }

  /** `bfs_iter_with_depth(start).collect()` on a finite graph. */
  method CollectBfs(g: Entity -> seq<Entity>, start: Entity, ghost world: set<Entity>)
    returns (nodes: seq<TraversalNode>)
    requires Closed(g, world) && start in world
    ensures Complete(g, None, start, nodes)
  {
    var it := new BfsIterWithDepth(g, start);
    nodes := CollectRest(it, world);
    RunFinishes(g, None, start, nodes);
  }

  method CollectRest(it: BfsIterWithDepth, ghost world: set<Entity>) returns (nodes: seq<TraversalNode>)
    requires it.Valid() && it.Taken() == 0 && Closed(it.graph, world) && it.start in world
    modifies it
    ensures Running(it.graph, None, it.start, nodes, |nodes|)
  {
    nodes := [];
    var more := true;
    while more
      invariant it.Valid() && |nodes| == it.Taken() && nodes == it.found[..it.Taken()]
      invariant if more then |nodes| <= |world| else it.found == nodes
      decreases |world| - |nodes|, more
    {
      more, nodes := CollectNext(it, nodes, world);
    }
  }
}
