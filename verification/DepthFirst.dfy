/**
 * Depth-first walks with a stack: `DfsWalk` of `kyoso_graph::traverse`, against recursive depth-first
 * search. It yields the same set as the breadth-first walk.
 */
module DepthFirst {
  import opened Ecs
  import opened Wrappers
  import opened Reachability
  import opened Bfs
  import opened Walks
  import opened PolicyWalks

  // ---- Recursive search ----

  /** The nodes in the order of their visits, and all that is visited in the end. */
  datatype Search = Search(nodes: seq<TraversalNode>, visited: set<Entity>)

  /**
   * Visits the node unless it was visited before, and then, if the policy wants it, explores the
   * neighbours that were not. The graph lies within `world`, which bounds the search.
   */
  ghost function Explore(g: Entity -> seq<Entity>, p: Policy, world: set<Entity>, node: TraversalNode,
                         visited: set<Entity>): (r: Search)
    ensures visited <= r.visited
    decreases |world - visited|, 0, 0
  {
    if node.entity in visited || node.entity !in world then Search([], visited) else
      Smaller(world, visited, node.entity);
      var below := ExploreAll(g, p, world, Pushed(g, p, node, visited), visited + {node.entity});
      Search([node] + below.nodes, below.visited)
  }

  /** Explores the nodes one after the other, the last first. */
  ghost function ExploreAll(g: Entity -> seq<Entity>, p: Policy, world: set<Entity>, nodes: seq<TraversalNode>,
                            visited: set<Entity>): (r: Search)
    ensures visited <= r.visited
    decreases |world - visited|, 1, |nodes|
  {
    if nodes == [] then Search([], visited) else
      var l := |nodes| - 1;
      var last := Explore(g, p, world, nodes[l], visited);
      Fewer(world, visited, last.visited);
      var rest := ExploreAll(g, p, world, nodes[..l], last.visited);
      Search(last.nodes + rest.nodes, rest.visited)
  }

  /** The neighbours of a visited node that are still to be visited. */
  function Pushed(g: Entity -> seq<Entity>, p: Policy, node: TraversalNode, visited: set<Entity>): seq<TraversalNode> {
    if p(node).Visit? then Unvisited(g(node.entity), visited + {node.entity}, node.depth + 1, node.entity) else []
  }

  lemma Smaller(world: set<Entity>, visited: set<Entity>, e: Entity)
    requires e in world && e !in visited
    ensures |world - (visited + {e})| < |world - visited|
  {
    assert world - visited == (world - (visited + {e})) + {e};
  }

  lemma Fewer(world: set<Entity>, visited: set<Entity>, more: set<Entity>)
    requires visited <= more
    ensures |world - more| <= |world - visited|
  {
    assert world - visited == (world - more) + ((world - visited) * more);
  }

  lemma {:induction false} ExploreJoin(g: Entity -> seq<Entity>, p: Policy, world: set<Entity>, a: seq<TraversalNode>,
                                       b: seq<TraversalNode>, visited: set<Entity>)
    ensures
      var first := ExploreAll(g, p, world, b, visited);
      var second := ExploreAll(g, p, world, a, first.visited);
      ExploreAll(g, p, world, a + b, visited) == Search(first.nodes + second.nodes, second.visited)
    decreases |b|
  {
    if b == [] {
      assert a + b == a;
    } else {
      var l := |b| - 1;
      assert (a + b)[..|a + b| - 1] == a + b[..l];
      var last := Explore(g, p, world, b[l], visited);
      ExploreJoin(g, p, world, a, b[..l], last.visited);
      var rest := ExploreAll(g, p, world, b[..l], last.visited);
      assert (last.nodes + rest.nodes) + ExploreAll(g, p, world, a, rest.visited).nodes
          == last.nodes + (rest.nodes + ExploreAll(g, p, world, a, rest.visited).nodes);
    }
  }

  /** Taking a new top off a stack and pushing its neighbours visits it and leaves the rest of the search. */
  lemma TopExplored(g: Entity -> seq<Entity>, p: Policy, world: set<Entity>, stack: seq<TraversalNode>,
                    visited: set<Entity>)
    requires stack != [] && stack[|stack| - 1].entity in world && stack[|stack| - 1].entity !in visited
    ensures
      var top, next := stack[|stack| - 1], StackNext(g, p, stack, visited);
      var rest := ExploreAll(g, p, world, next, visited + {top.entity});
      ExploreAll(g, p, world, stack, visited) == Search([top] + rest.nodes, rest.visited)
  {
    var top, rest := stack[|stack| - 1], stack[..|stack| - 1];
    ExploreJoin(g, p, world, rest, Pushed(g, p, top, visited), visited + {top.entity});
    var below := ExploreAll(g, p, world, Pushed(g, p, top, visited), visited + {top.entity});
    var after := ExploreAll(g, p, world, rest, below.visited);
    assert ([top] + below.nodes) + after.nodes == [top] + (below.nodes + after.nodes);
  }

  /** The stack after its top, which is new, was visited. */
  function StackNext(g: Entity -> seq<Entity>, p: Policy, stack: seq<TraversalNode>,
                     visited: set<Entity>): seq<TraversalNode>
    requires stack != []
  {
    stack[..|stack| - 1] + Pushed(g, p, stack[|stack| - 1], visited)
  }

  lemma TopDropped(g: Entity -> seq<Entity>, p: Policy, world: set<Entity>, stack: seq<TraversalNode>,
                   visited: set<Entity>)
    requires stack != [] && stack[|stack| - 1].entity in visited
    ensures ExploreAll(g, p, world, stack, visited) == ExploreAll(g, p, world, stack[..|stack| - 1], visited)
  {
    var rest := ExploreAll(g, p, world, stack[..|stack| - 1], visited);
    assert [] + rest.nodes == rest.nodes;
  }

  /** What a walk yields of the nodes visited: all but the pruned ones, up to the first at which the policy stops. */
  function Yielded(nodes: seq<TraversalNode>, p: Policy): seq<TraversalNode> {
    if nodes == [] then [] else
      match p(nodes[0])
      case Prune => Yielded(nodes[1..], p)
      case Stop => [nodes[0]]
      case _ => [nodes[0]] + Yielded(nodes[1..], p)
  }

  // ---- What the stack leads to ----

  /** All seen is reachable, and whatever a step leads to from there is seen or waiting. */
  ghost predicate Exploring(next: Entity -> seq<Entity>, start: Entity, seen: set<Entity>, stack: seq<TraversalNode>) {
    && (forall x | x in seen :: Reach(Follows(next), start, x))
    && (forall n | n in stack :: Reach(Follows(next), start, n.entity))
    && (start in seen || start in Entities(stack))
    && (forall x | x in seen :: forall y | y in next(x) :: y in seen || y in Entities(stack))
  }

  lemma ExploredAll(next: Entity -> seq<Entity>, start: Entity, seen: set<Entity>)
    requires Exploring(next, start, seen, [])
    ensures forall x :: x in seen <==> Reach(Follows(next), start, x)
  {
    forall x | Reach(Follows(next), start, x) ensures x in seen {
      var k: nat :| ReachIn(Follows(next), start, x, k);
      ClosedContains(Follows(next), e => e in seen, start, x, k);
    }
  }

  /** The top of the stack seen before: nothing is lost by dropping it. */
  lemma TopKnown(next: Entity -> seq<Entity>, start: Entity, seen: set<Entity>, stack: seq<TraversalNode>)
    requires stack != [] && Exploring(next, start, seen, stack) && stack[|stack| - 1].entity in seen
    ensures Exploring(next, start, seen, stack[..|stack| - 1])
  {
    var l := |stack| - 1;
    assert stack == stack[..l] + [stack[l]];
    assert Entities(stack) == Entities(stack[..l]) + {stack[l].entity};
  }

  /** A new top is seen, and what it leads to and is not seen yet goes on the stack. */
  lemma TopSeen(next: Entity -> seq<Entity>, start: Entity, seen: set<Entity>, stack: seq<TraversalNode>,
                pushed: seq<TraversalNode>)
    requires stack != [] && Exploring(next, start, seen, stack)
    requires forall n | n in pushed :: n.entity in next(stack[|stack| - 1].entity)
    requires forall y | y in next(stack[|stack| - 1].entity) ::
      y in seen + {stack[|stack| - 1].entity} || y in Entities(pushed)
    ensures Exploring(next, start, seen + {stack[|stack| - 1].entity}, stack[..|stack| - 1] + pushed)
  {
    var l := |stack| - 1;
    var top, rest := stack[l], stack[..l] + pushed;
    assert stack == stack[..l] + [top];
    assert Entities(stack) == Entities(stack[..l]) + {top.entity};
    assert Entities(rest) == Entities(stack[..l]) + Entities(pushed);
    assert top in stack;
    forall n | n in pushed ensures Reach(Follows(next), start, n.entity) {
      ReachStep(Follows(next), start, top.entity, n.entity);
    }
  }

  /** The neighbours not visited yet, in order; one listed twice is pushed twice. */
  function Unvisited(neighbours: seq<Entity>, visited: set<Entity>, depth: nat, parent: Entity): (r: seq<TraversalNode>)
    ensures forall n | n in r :: n.entity in neighbours
    ensures forall y | y in neighbours :: y in visited || y in Entities(r)
  {
    if neighbours == [] then [] else
      (if neighbours[0] in visited then [] else [TraversalNode(neighbours[0], depth, Some(parent))])
      + Unvisited(neighbours[1..], visited, depth, parent)
  }

  /** All entities on the stack lie in a world that no edge leaves. */
  predicate Contained(g: Entity -> seq<Entity>, world: set<Entity>, stack: seq<TraversalNode>) {
    Closed(g, world) && forall n | n in stack :: n.entity in world
  }

  lemma NextContained(g: Entity -> seq<Entity>, p: Policy, world: set<Entity>, stack: seq<TraversalNode>,
                      visited: set<Entity>)
    requires stack != [] && Contained(g, world, stack)
    ensures stack[|stack| - 1].entity in world
    ensures Contained(g, world, stack[..|stack| - 1]) && Contained(g, world, StackNext(g, p, stack, visited))
  {
    assert stack[|stack| - 1] in stack && forall n | n in stack[..|stack| - 1] :: n in stack;
  }

  /** Recursive search under a policy by entity visits what the policy lets it reach, each entity once. */
  lemma {:induction false} ExploresAll(g: Entity -> seq<Entity>, p: Policy, start: Entity, world: set<Entity>,
                                       stack: seq<TraversalNode>, visited: set<Entity>)
    requires ByEntity(p) && Contained(g, world, stack) && Exploring(Allowed(g, p), start, visited, stack)
    ensures
      var r := ExploreAll(g, p, world, stack, visited);
      && Exploring(Allowed(g, p), start, r.visited, [])
      && DistinctEntities(r.nodes) && Entities(r.nodes) == r.visited - visited
    decreases |world - visited|, |stack|
  {
    if stack != [] {
      var top := stack[|stack| - 1];
      NextContained(g, p, world, stack, visited);
      if top.entity in visited {
        TopDropped(g, p, world, stack, visited);
        TopKnown(Allowed(g, p), start, visited, stack);
        ExploresAll(g, p, start, world, stack[..|stack| - 1], visited);
      } else {
        var next, seen := StackNext(g, p, stack, visited), visited + {top.entity};
        TopExplores(g, p, start, stack, visited);
        Smaller(world, visited, top.entity);
        ExploresAll(g, p, start, world, next, seen);
        TopExplored(g, p, world, stack, visited);
        WithTop(top, ExploreAll(g, p, world, next, seen), visited);
      }
    }
  }

  lemma TopExplores(g: Entity -> seq<Entity>, p: Policy, start: Entity, stack: seq<TraversalNode>, visited: set<Entity>)
    requires ByEntity(p) && stack != [] && Exploring(Allowed(g, p), start, visited, stack)
    ensures
      Exploring(Allowed(g, p), start, visited + {stack[|stack| - 1].entity}, StackNext(g, p, stack, visited))
  {
    var top := stack[|stack| - 1];
    assert p(top) == AtEntity(p, top.entity);
    TopSeen(Allowed(g, p), start, visited, stack, Pushed(g, p, top, visited));
  }

  lemma WithTop(top: TraversalNode, below: Search, visited: set<Entity>)
    requires top.entity !in visited && visited + {top.entity} <= below.visited && DistinctEntities(below.nodes)
    requires Entities(below.nodes) == below.visited - (visited + {top.entity})
    ensures DistinctEntities([top] + below.nodes) && Entities([top] + below.nodes) == below.visited - visited
  {
    FirstApart(top, below.nodes);
  }

  lemma FirstApart(top: TraversalNode, rest: seq<TraversalNode>)
    ensures Entities([top] + rest) == {top.entity} + Entities(rest)
    ensures DistinctEntities(rest) && top.entity !in Entities(rest) ==> DistinctEntities([top] + rest)
  {
    forall n | n in rest ensures n in [top] + rest {}
    if DistinctEntities(rest) && top.entity !in Entities(rest) {
      forall j | 0 <= j < |rest| ensures rest[j].entity != top.entity { assert rest[j] in rest; }
    }
  }

  // ---- The iterator ----

  /** What is still to be yielded. */
  ghost function Coming(g: Entity -> seq<Entity>, p: Policy, world: set<Entity>, stack: seq<TraversalNode>,
                        visited: set<Entity>): seq<TraversalNode> {
    Yielded(ExploreAll(g, p, world, stack, visited).nodes, p)
  }

  lemma ComingTop(g: Entity -> seq<Entity>, p: Policy, world: set<Entity>, stack: seq<TraversalNode>,
                  visited: set<Entity>)
    requires stack != [] && Contained(g, world, stack) && stack[|stack| - 1].entity !in visited
    ensures
      var top := stack[|stack| - 1];
      var rest := Coming(g, p, world, StackNext(g, p, stack, visited), visited + {top.entity});
      Coming(g, p, world, stack, visited) == (if p(top).Prune? then [] else [top]) + if p(top).Stop? then [] else rest
  {
    var top := stack[|stack| - 1];
    NextContained(g, p, world, stack, visited);
    TopExplored(g, p, world, stack, visited);
    var all, rest := ExploreAll(g, p, world, stack, visited).nodes,
      ExploreAll(g, p, world, StackNext(g, p, stack, visited), visited + {top.entity}).nodes;
    assert all[0] == top && all[1..] == rest && [] + Yielded(rest, p) == Yielded(rest, p);
  }

  class DfsWalk {
    const graph: Entity -> seq<Entity>
    const policy: Policy
    var stack: seq<TraversalNode>
    var visited: set<Entity>
    var halted: bool
    /** The finite graph the walk stays in. */
    ghost const world: set<Entity>

    ghost predicate Valid()
      reads this
    {
      Contained(graph, world, stack)
    }

    /** What recursive depth-first search would still yield. */
    ghost function ToCome(): seq<TraversalNode>
      reads this
    {
      if halted then [] else Coming(graph, policy, world, stack, visited)
    }

    constructor (g: Entity -> seq<Entity>, from: Entity, p: Policy, ghost within: set<Entity>)
      requires Closed(g, within) && from in within
      ensures Valid() && graph == g && policy == p && world == within
      ensures ToCome() == Yielded(Explore(g, p, within, TraversalNode(from, 0, None), {}).nodes, p)
    {
      graph, policy, world := g, p, within;
      stack, visited, halted := [TraversalNode(from, 0, None)], {}, false;
      new;
      OnlyExplored(g, p, within, stack[0]);
    }

    /** Drops a top that was visited before. */
    method Drop()
      requires Valid() && stack != [] && stack[|stack| - 1].entity in visited
      modifies this`stack
      ensures Valid() && stack == old(stack)[..|old(stack)| - 1] && ToCome() == old(ToCome())
    {
      NextContained(graph, policy, world, stack, visited);
      TopDropped(graph, policy, world, stack, visited);
      stack := stack[..|stack| - 1];
    }

    /** Visits a new top: what the policy says decides what is pushed and whether the walk ends. */
    method Visit(node: TraversalNode)
      requires Valid() && !halted && stack != [] && node == stack[|stack| - 1] && node.entity !in visited
      modifies this
      ensures Valid() && halted == policy(node).Stop? && visited == old(visited) + {node.entity}
      ensures stack == StackNext(graph, policy, old(stack), old(visited))
      ensures old(ToCome()) == (if policy(node).Prune? then [] else [node]) + ToCome()
    {
      NextContained(graph, policy, world, stack, visited);
      ComingTop(graph, policy, world, stack, visited);
      stack, visited := StackNext(graph, policy, stack, visited), visited + {node.entity};
      halted := policy(node).Stop?;
    }

    /** Yields what recursive depth-first search yields next, and nothing after a stop. */
    method Next() returns (r: Option<TraversalNode>)
      requires Valid()
      modifies this
      ensures Valid() && (r.None? ==> stack == [] || halted)
      ensures if old(ToCome()) == [] then r == None else r.Some? && old(ToCome()) == [r.value] + ToCome()
      ensures r.None? ==> ToCome() == []
    {
      if halted { return None; }
      while stack != []
        invariant Valid() && !halted && ToCome() == old(ToCome())
        decreases |stack|
      {
        var node := stack[|stack| - 1];
        if node.entity in visited {
          Drop();
        } else {
          Visit(node);
          if !policy(node).Prune? { return Some(node); }
        }
      }
      return None;
    }
  }

  lemma OnlyExplored(g: Entity -> seq<Entity>, p: Policy, world: set<Entity>, node: TraversalNode)
    ensures ExploreAll(g, p, world, [node], {}) == Explore(g, p, world, node, {})
  {
    var r := Explore(g, p, world, node, {});
    assert [node][..0] == [] && r.nodes + [] == r.nodes;
  }

  /**
   * `dfs_walk(start, policy).collect()` on a finite graph: recursive depth-first search. Under a policy
   * by entity that never stops, it yields what the policy lets it reach and does not prune, each once.
   */
  method CollectDfsWalk(g: Entity -> seq<Entity>, start: Entity, p: Policy, ghost world: set<Entity>)
    returns (given: seq<TraversalNode>)
    requires Closed(g, world) && start in world
    ensures given == Yielded(Explore(g, p, world, TraversalNode(start, 0, None), {}).nodes, p)
    ensures ByEntity(p) && NeverStops(p) ==> WalkedExactly(g, p, start, given)
  {
    var walk := new DfsWalk(g, start, p, world);
    given := [];
    ghost var all, rest := walk.ToCome(), walk.ToCome();
    while true
      invariant fresh(walk) && walk.Valid() && walk.ToCome() == rest && given + rest == all
      decreases |rest|
    {
      var next := walk.Next();
      if next.None? { break; }
      HandOver(given, next.value, walk.ToCome());
      given, rest := given + [next.value], walk.ToCome();
    }
    assert given + [] == given;
    if ByEntity(p) && NeverStops(p) { SearchWalks(g, p, start, world); }
  }

  lemma HandOver(given: seq<TraversalNode>, next: TraversalNode, rest: seq<TraversalNode>)
    ensures given + ([next] + rest) == (given + [next]) + rest
  {
  }

  lemma {:induction false} KeptFirst(first: TraversalNode, rest: seq<TraversalNode>, p: Policy)
    ensures Kept([first] + rest, p) == (if p(first).Prune? then [] else [first]) + Kept(rest, p)
    decreases |rest|
  {
    var all := [first] + rest;
    if rest == [] {
      assert all[..0] == [];
    } else {
      assert all[..|rest|] == [first] + rest[..|rest| - 1];
      KeptFirst(first, rest[..|rest| - 1], p);
    }
  }

  /** Without stops, what is yielded is what is not pruned. */
  lemma {:induction false} YieldedKept(nodes: seq<TraversalNode>, p: Policy)
    requires NeverStops(p)
    ensures Yielded(nodes, p) == Kept(nodes, p)
  {
    if nodes != [] {
      YieldedKept(nodes[1..], p);
      assert nodes == [nodes[0]] + nodes[1..];
      KeptFirst(nodes[0], nodes[1..], p);
    }
  }

  /** Recursive search from the start yields exactly what the policy lets it reach and does not prune. */
  lemma SearchWalks(g: Entity -> seq<Entity>, p: Policy, start: Entity, world: set<Entity>)
    requires Closed(g, world) && start in world && ByEntity(p) && NeverStops(p)
    ensures WalkedExactly(g, p, start, Yielded(Explore(g, p, world, TraversalNode(start, 0, None), {}).nodes, p))
  {
    var from := TraversalNode(start, 0, None);
    var r := Explore(g, p, world, from, {});
    OnlyExplored(g, p, world, from);
    assert ReachIn(Follows(Allowed(g, p)), start, start, 0) && from in [from];
    ExploresAll(g, p, start, world, [from], {});
    ExploredAll(Allowed(g, p), start, r.visited);
    YieldedKept(r.nodes, p);
    KeptWalked(g, p, start, r.nodes);
  }
}
