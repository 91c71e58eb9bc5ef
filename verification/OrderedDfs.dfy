/**
 * `OrderedDfsIter` of `kyoso_graph::traverse`: recursive depth-first search with the first child
 * first, on any finite graph, and so preorder on a forest.
 */
module OrderedDfs {
  import opened Ecs
  import opened Wrappers
  import opened Reachability
  import opened Bfs
  import opened PolicyWalks
  import opened DepthFirst
  import opened Preorder

  // ---- The search it stands for ----

  /** The successors in reverse, so that the search, which explores the last of a list first, begins with the first. */
  function FirstLast(next: Entity -> seq<Entity>): Entity -> seq<Entity> {
    (e: Entity) => Reverse(next(e))
  }

  function Reverse(es: seq<Entity>): seq<Entity> {
    if es == [] then [] else Reverse(es[1..]) + [es[0]]
  }

  lemma {:induction false} ReverseMembers(es: seq<Entity>)
    ensures forall e :: e in Reverse(es) <==> e in es
  {
    if es != [] {
      ReverseMembers(es[1..]);
      assert es == [es[0]] + es[1..];
    }
  }

  function VisitAll(): Policy {
    (_: TraversalNode) => Step.Visit
  }

  ghost function Whole(next: Entity -> seq<Entity>, world: set<Entity>, stack: seq<TraversalNode>,
                       visited: set<Entity>): Search {
    ExploreAll(FirstLast(next), VisitAll(), world, stack, visited)
  }

  function Children(es: seq<Entity>, depth: nat, parent: Entity): seq<TraversalNode> {
    if es == [] then [] else [TraversalNode(es[0], depth, Some(parent))] + Children(es[1..], depth, parent)
  }

  /** Pushing neighbours that were visited already changes nothing: they are dropped. */
  lemma {:induction false} FilterIdle(next: Entity -> seq<Entity>, world: set<Entity>, es: seq<Entity>, depth: nat,
                                      parent: Entity, known: set<Entity>, visited: set<Entity>)
    requires known <= visited
    ensures Whole(next, world, Children(es, depth, parent), visited)
      == Whole(next, world, Unvisited(es, known, depth, parent), visited)
  {
    if es != [] {
      var g, p := FirstLast(next), VisitAll();
      var head, rest := TraversalNode(es[0], depth, Some(parent)), es[1..];
      FilterIdle(next, world, rest, depth, parent, known, visited);
      var below := Whole(next, world, Children(rest, depth, parent), visited);
      ExploreJoin(g, p, world, [head], Children(rest, depth, parent), visited);
      if es[0] in known {
        TopDropped(g, p, world, [head], below.visited);
        assert Unvisited(es, known, depth, parent) == Unvisited(rest, known, depth, parent);
        assert below.nodes + [] == below.nodes;
      } else {
        ExploreJoin(g, p, world, [head], Unvisited(rest, known, depth, parent), visited);
      }
    }
  }

  /** The stack after its top, which is new, was visited: all children go on it, the first on top. */
  function ChildrenOnTop(next: Entity -> seq<Entity>, stack: seq<TraversalNode>): seq<TraversalNode>
    requires stack != []
  {
    var top := stack[|stack| - 1];
    stack[..|stack| - 1] + Children(Reverse(next(top.entity)), top.depth + 1, top.entity)
  }

  lemma PushedAll(next: Entity -> seq<Entity>, top: TraversalNode, visited: set<Entity>)
    ensures Pushed(FirstLast(next), VisitAll(), top, visited) ==
      Unvisited(Reverse(next(top.entity)), visited + {top.entity}, top.depth + 1, top.entity)
  {
  }

  lemma SameOnTop(next: Entity -> seq<Entity>, world: set<Entity>, rest: seq<TraversalNode>, a: seq<TraversalNode>,
                  b: seq<TraversalNode>, visited: set<Entity>)
    requires Whole(next, world, a, visited) == Whole(next, world, b, visited)
    ensures Whole(next, world, rest + a, visited) == Whole(next, world, rest + b, visited)
  {
    ExploreJoin(FirstLast(next), VisitAll(), world, rest, a, visited);
    ExploreJoin(FirstLast(next), VisitAll(), world, rest, b, visited);
  }

  lemma TopWhole(next: Entity -> seq<Entity>, world: set<Entity>, stack: seq<TraversalNode>, visited: set<Entity>)
    requires stack != [] && stack[|stack| - 1].entity in world && stack[|stack| - 1].entity !in visited
    ensures
      var top := stack[|stack| - 1];
      Whole(next, world, stack, visited).nodes ==
        [top] + Whole(next, world, ChildrenOnTop(next, stack), visited + {top.entity}).nodes
  {
    var top, rest := stack[|stack| - 1], stack[..|stack| - 1];
    var es, now := Reverse(next(top.entity)), visited + {top.entity};
    TopExplored(FirstLast(next), VisitAll(), world, stack, visited);
    PushedAll(next, top, visited);
    FilterIdle(next, world, es, top.depth + 1, top.entity, now, now);
    SameOnTop(next, world, rest, Children(es, top.depth + 1, top.entity),
      Unvisited(es, now, top.depth + 1, top.entity), now);
  }

  lemma {:induction false} ChildrenMembers(es: seq<Entity>, depth: nat, parent: Entity)
    ensures forall n | n in Children(es, depth, parent) :: n.entity in es
  {
    if es != [] { ChildrenMembers(es[1..], depth, parent); }
  }

  lemma OnTopContained(next: Entity -> seq<Entity>, world: set<Entity>, stack: seq<TraversalNode>)
    requires stack != [] && Contained(next, world, stack)
    ensures stack[|stack| - 1].entity in world
    ensures Contained(next, world, stack[..|stack| - 1]) && Contained(next, world, ChildrenOnTop(next, stack))
  {
    var top := stack[|stack| - 1];
    assert top in stack && forall n | n in stack[..|stack| - 1] :: n in stack;
    ChildrenMembers(Reverse(next(top.entity)), top.depth + 1, top.entity);
    ReverseMembers(next(top.entity));
  }

  function Names(nodes: seq<TraversalNode>): seq<Entity> {
    seq(|nodes|, i requires 0 <= i < |nodes| => nodes[i].entity)
  }

  lemma {:induction false} NamesOfChildren(es: seq<Entity>, depth: nat, parent: Entity)
    ensures Names(Children(es, depth, parent)) == es
  {
    if es != [] {
      NamesOfChildren(es[1..], depth, parent);
      assert es == [es[0]] + es[1..];
    }
  }

  lemma NamesOnTop(next: Entity -> seq<Entity>, stack: seq<TraversalNode>)
    requires stack != []
    ensures Names(ChildrenOnTop(next, stack)) == Names(stack)[..|stack| - 1] + Reverse(next(stack[|stack| - 1].entity))
  {
    var top := stack[|stack| - 1];
    NamesOfChildren(Reverse(next(top.entity)), top.depth + 1, top.entity);
  }

  // ---- The iterator ----

  class OrderedDfsIter {
    const next: Entity -> seq<Entity>
    var stack: seq<Entity>
    var visited: set<Entity>
    /** The stack with depths and parents, and the finite graph the walk stays in. */
    ghost var waiting: seq<TraversalNode>
    ghost const world: set<Entity>

    ghost predicate Valid()
      reads this
    {
      stack == Names(waiting) && Contained(next, world, waiting)
    }

    /** What recursive depth-first search would still visit. */
    ghost function ToCome(): seq<TraversalNode>
      reads this
    {
      Whole(next, world, waiting, visited).nodes
    }

    constructor (g: Entity -> seq<Entity>, start: Entity, ghost within: set<Entity>)
      requires Closed(g, within) && start in within
      ensures Valid() && next == g && world == within
      ensures ToCome() == Explore(FirstLast(g), VisitAll(), within, TraversalNode(start, 0, None), {}).nodes
    {
      next, world, stack, visited, waiting := g, within, [start], {}, [TraversalNode(start, 0, None)];
      new;
      OnlyExplored(FirstLast(g), VisitAll(), within, waiting[0]);
    }

    /** Drops a top that was visited before. */
    method Drop()
      requires Valid() && stack != [] && stack[|stack| - 1] in visited
      modifies this`stack, this`waiting
      ensures Valid() && stack == old(stack)[..|old(stack)| - 1] && ToCome() == old(ToCome())
    {
      OnTopContained(next, world, waiting);
      TopDropped(FirstLast(next), VisitAll(), world, waiting, visited);
      stack, waiting := stack[..|stack| - 1], waiting[..|waiting| - 1];
    }

    /** Visits a new top and puts its children in its place. */
    method Expand(current: Entity)
      requires Valid() && stack != [] && current == stack[|stack| - 1] && current !in visited
      modifies this
      ensures Valid() && visited == old(visited) + {current}
      ensures old(ToCome()) != [] && old(ToCome())[0].entity == current && ToCome() == old(ToCome())[1..]
    {
      var pushed := PushKids(stack[..|stack| - 1], next(current));
      NamesOnTop(next, waiting);
      OnTopContained(next, world, waiting);
      TopWhole(next, world, waiting, visited);
      visited, stack, waiting := visited + {current}, pushed, ChildrenOnTop(next, waiting);
    }

    /** Skips what was visited and yields what recursive depth-first search visits next. */
    method Next() returns (r: Option<Entity>)
      requires Valid()
      modifies this
      ensures Valid()
      ensures
        if old(ToCome()) == [] then r == None && ToCome() == []
        else r == Some(old(ToCome())[0].entity) && ToCome() == old(ToCome())[1..]
    {
      while stack != []
        invariant Valid() && ToCome() == old(ToCome())
        decreases |stack|
      {
        var current := stack[|stack| - 1];
        if current in visited {
          Drop();
        } else {
          Expand(current);
          return Some(current);
        }
      }
      return None;
    }
  }

  /** Pushes the kids in reverse. */
  method PushKids(stack: seq<Entity>, kids: seq<Entity>) returns (r: seq<Entity>)
    ensures r == stack + Reverse(kids)
  {
    r := stack;
    assert kids[|kids|..] == [];
    for i := |kids| downto 0
      invariant r == stack + Reverse(kids[i..])
    {
      assert kids[i..][0] == kids[i] && kids[i..][1..] == kids[i + 1..];
      r := r + [kids[i]];
    }
    assert kids[0..] == kids;
  }

  // ---- A whole run ----

  /** A whole run is recursive depth-first search, and on a forest preorder. */
  method CollectOrderedDfs(g: Entity -> seq<Entity>, start: Entity, ghost world: set<Entity>,
                           ghost height: Entity -> nat)
    returns (out: seq<Entity>)
    requires Closed(g, world) && start in world
    ensures out == Names(Explore(FirstLast(g), VisitAll(), world, TraversalNode(start, 0, None), {}).nodes)
    ensures Forest(g, height) ==> out == Firsts(Preorder.Preorder(g, height, start, 0))
  {
    var iter := new OrderedDfsIter(g, start, world);
    out := [];
    ghost var all, rest := iter.ToCome(), iter.ToCome();
    while true
      invariant fresh(iter) && iter.Valid() && iter.ToCome() == rest && out + Names(rest) == Names(all)
      decreases |rest|
    {
      var entity := iter.Next();
      if entity.None? { break; }
      NameTaken(out, rest);
      out, rest := out + [entity.value], rest[1..];
    }
    assert out + [] == out;
    if Forest(g, height) { ForestSearch(g, height, world, start); }
  }

  lemma NameTaken(out: seq<Entity>, rest: seq<TraversalNode>)
    requires rest != []
    ensures out + Names(rest) == (out + [rest[0].entity]) + Names(rest[1..])
  {
    assert Names(rest) == [rest[0].entity] + Names(rest[1..]);
  }

  function Visits(nodes: seq<TraversalNode>): seq<Visit> {
    seq(|nodes|, i requires 0 <= i < |nodes| => (nodes[i].entity, nodes[i].depth))
  }

  lemma {:induction false} VisitsPushed(rest: seq<TraversalNode>, es: seq<Entity>, depth: nat, parent: Entity)
    ensures Visits(rest + Children(Reverse(es), depth, parent)) == PushReversed(Visits(rest), es, depth)
  {
    if es == [] {
      assert rest + [] == rest;
    } else {
      VisitsPushed(rest, es[1..], depth, parent);
      ChildrenSnoc(Reverse(es[1..]), es[0], depth, parent);
      var last := TraversalNode(es[0], depth, Some(parent));
      assert rest + (Children(Reverse(es[1..]), depth, parent) + [last])
          == (rest + Children(Reverse(es[1..]), depth, parent)) + [last];
    }
  }

  lemma {:induction false} ChildrenSnoc(es: seq<Entity>, e: Entity, depth: nat, parent: Entity)
    ensures Children(es + [e], depth, parent) == Children(es, depth, parent) + [TraversalNode(e, depth, Some(parent))]
  {
    if es == [] {
      assert [] + [e] == [e];
    } else {
      assert (es + [e])[1..] == es[1..] + [e];
      ChildrenSnoc(es[1..], e, depth, parent);
    }
  }

  lemma ForestStep(next: Entity -> seq<Entity>, height: Entity -> nat, stack: seq<TraversalNode>, visited: set<Entity>)
    requires Lowers(next, height) && stack != [] && Unseen(Pending(next, height, Visits(stack)), visited)
    ensures
      var top := stack[|stack| - 1];
      var rest := Pending(next, height, Visits(ChildrenOnTop(next, stack)));
      && top.entity !in visited && Unseen(rest, visited + {top.entity})
      && Pending(next, height, Visits(stack)) == [(top.entity, top.depth)] + rest
  {
    TopUnseen(next, height, Visits(stack), visited);
    VisitsOnTop(next, stack);
  }

  lemma VisitsOnTop(next: Entity -> seq<Entity>, stack: seq<TraversalNode>)
    requires stack != []
    ensures
      var top := stack[|stack| - 1];
      Visits(ChildrenOnTop(next, stack)) == PushReversed(Visits(stack)[..|stack| - 1], next(top.entity), top.depth + 1)
  {
    var top := stack[|stack| - 1];
    assert Visits(stack)[..|stack| - 1] == Visits(stack[..|stack| - 1]);
    VisitsPushed(stack[..|stack| - 1], next(top.entity), top.depth + 1, top.entity);
  }

  lemma SameFirst(node: TraversalNode, nodes: seq<TraversalNode>, visits: seq<Visit>)
    requires Names(nodes) == Firsts(visits)
    ensures Names([node] + nodes) == Firsts([(node.entity, node.depth)] + visits)
  {
    assert Names([node] + nodes) == [node.entity] + Names(nodes);
    assert Firsts([(node.entity, node.depth)] + visits) == [node.entity] + Firsts(visits);
  }

  /** On a forest recursive depth-first search is preorder: it never meets an entity twice. */
  lemma {:induction false} ForestWhole(next: Entity -> seq<Entity>, height: Entity -> nat, world: set<Entity>,
                                       stack: seq<TraversalNode>, visited: set<Entity>)
    requires Lowers(next, height) && Contained(next, world, stack)
    requires Unseen(Pending(next, height, Visits(stack)), visited)
    ensures Names(Whole(next, world, stack, visited).nodes) == Firsts(Pending(next, height, Visits(stack)))
    decreases |Pending(next, height, Visits(stack))|
  {
    if stack != [] {
      var top := stack[|stack| - 1];
      var onTop := ChildrenOnTop(next, stack);
      OnTopContained(next, world, stack);
      ForestStep(next, height, stack, visited);
      TopWhole(next, world, stack, visited);
      ForestWhole(next, height, world, onTop, visited + {top.entity});
      SameFirst(top, Whole(next, world, onTop, visited + {top.entity}).nodes, Pending(next, height, Visits(onTop)));
    }
  }

  lemma ForestSearch(next: Entity -> seq<Entity>, height: Entity -> nat, world: set<Entity>, start: Entity)
    requires Forest(next, height) && Closed(next, world) && start in world
    ensures
      Names(Explore(FirstLast(next), VisitAll(), world, TraversalNode(start, 0, None), {}).nodes) ==
      Firsts(Preorder.Preorder(next, height, start, 0))
  {
    var from := TraversalNode(start, 0, None);
    OnlyExplored(FirstLast(next), VisitAll(), world, from);
    OnlyPending(next, height, (start, 0));
    PreorderDistinct(next, height, start, 0);
    assert Visits([from]) == [(start, 0)];
    ForestWhole(next, height, world, [from], {});
  }
}
