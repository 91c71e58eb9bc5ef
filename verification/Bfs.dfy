module Bfs {
  // Breadth-first search over any successor function: what the queue loops keep, and what they find.
  // The queue is always the tail of the list of nodes found so far, so that list and the number
  // of nodes taken from the queue say everything about a search.

  import opened Ecs
  import opened Wrappers
  import opened Reachability

  datatype TraversalNode = TraversalNode(entity: Entity, depth: nat, parent: Option<Entity>)

  function Entities(found: seq<TraversalNode>): set<Entity> {
    set n | n in found :: n.entity
  }

  /** The neighbours not seen before, each once, in order. */
  function Discover(neighbours: seq<Entity>, seen: set<Entity>, depth: nat, parent: Entity): seq<TraversalNode> {
    if neighbours == [] then [] else
      (if neighbours[0] in seen then [] else [TraversalNode(neighbours[0], depth, Some(parent))])
      + Discover(neighbours[1..], seen + {neighbours[0]}, depth, parent)
  }

  predicate Within(limit: Option<nat>, d: nat) {
    limit.Some? ==> d <= limit.value
  }

  predicate DistinctEntities(found: seq<TraversalNode>) {
    forall i, j | 0 <= i < j < |found| :: found[i].entity != found[j].entity
  }

  /** Found at depth `d` or less. */
  predicate FoundBy(found: seq<TraversalNode>, x: Entity, d: nat) {
    exists j :: 0 <= j < |found| && found[j].entity == x && found[j].depth <= d
  }

  /** `p` is among the first `i` nodes found, one level above, and leads to `n`. */
  predicate ParentOf(next: Entity -> seq<Entity>, found: seq<TraversalNode>, i: nat, n: TraversalNode) {
    && n.parent.Some? && n.entity in next(n.parent.value)
    && exists h :: 0 <= h < i && h < |found| && found[h].entity == n.parent.value && found[h].depth + 1 == n.depth
  }

  // ---- What one search keeps ----

  /** The levels of the search: the first `i` nodes found are expanded, the others wait in the queue. */
  predicate Levels(found: seq<TraversalNode>, i: nat) {
    && i <= |found|
    && (forall j, k | 0 <= j < k < |found| :: found[j].depth <= found[k].depth)
    && (i < |found| ==> forall j | 0 <= j < |found| :: found[j].depth <= found[i].depth + 1)
  }

  ghost predicate Sound(next: Entity -> seq<Entity>, limit: Option<nat>, start: Entity, found: seq<TraversalNode>,
                        i: nat) {
    && found != [] && found[0] == TraversalNode(start, 0, None) && DistinctEntities(found)
    && (forall n | n in found :: ReachIn(Follows(next), start, n.entity, n.depth) && Within(limit, n.depth))
    && (forall j | 1 <= j < |found| :: ParentOf(next, found, i, found[j]))
  }

  /** The nodes one step from an expanded node are found, no deeper than one level down. */
  predicate Expanded(next: Entity -> seq<Entity>, limit: Option<nat>, found: seq<TraversalNode>, i: nat)
    requires i <= |found|
  {
    forall h | 0 <= h < i && Within(limit, found[h].depth + 1) ::
      forall y | y in next(found[h].entity) :: FoundBy(found, y, found[h].depth + 1)
  }

  ghost predicate Searching(next: Entity -> seq<Entity>, limit: Option<nat>, start: Entity, found: seq<TraversalNode>,
                            i: nat) {
    Levels(found, i) && Sound(next, limit, start, found, i) && Expanded(next, limit, found, i)
  }

  lemma SearchStarts(next: Entity -> seq<Entity>, limit: Option<nat>, start: Entity)
    ensures Searching(next, limit, start, [TraversalNode(start, 0, None)], 0)
  {
    assert ReachIn(Follows(next), start, start, 0);
  }

  lemma {:induction false} Discovered(neighbours: seq<Entity>, seen: set<Entity>, depth: nat, parent: Entity)
    ensures var added := Discover(neighbours, seen, depth, parent);
      && (forall n | n in added ::
        n.depth == depth && n.parent == Some(parent) && n.entity in neighbours && n.entity !in seen)
      && (forall y | y in neighbours :: y in seen || TraversalNode(y, depth, Some(parent)) in added)
      && DistinctEntities(added)
    decreases |neighbours|
  {
    if neighbours != [] {
      Discovered(neighbours[1..], seen + {neighbours[0]}, depth, parent);
      var rest := Discover(neighbours[1..], seen + {neighbours[0]}, depth, parent);
      forall n | n in rest ensures n.entity != neighbours[0] { assert n.entity !in seen + {neighbours[0]}; }
    }
  }

  /** The nodes stand for the first places of distinct neighbours, in ascending order. */
  predicate AtPlaces(neighbours: seq<Entity>, found: seq<TraversalNode>, places: seq<nat>) {
    && |places| == |found|
    && (forall i, j | 0 <= i < j < |places| :: places[i] < places[j])
    && (forall i | 0 <= i < |places| ::
          && places[i] < |neighbours| && neighbours[places[i]] == found[i].entity
          && found[i].entity !in neighbours[..places[i]])
  }

  function Shifted(places: seq<nat>): seq<nat> {
    seq(|places|, i requires 0 <= i < |places| => places[i] + 1)
  }

  lemma PlacesFront(node: TraversalNode, tail: seq<Entity>, found: seq<TraversalNode>, places: seq<nat>)
    requires AtPlaces([node.entity] + tail, found, Shifted(places))
    ensures AtPlaces([node.entity] + tail, [node] + found, [0] + Shifted(places))
  {
    var all, more := [0] + Shifted(places), [node] + found;
    forall i, j | 0 <= i < j < |all| ensures all[i] < all[j] {
      assert all[j] == Shifted(places)[j - 1];
      if i > 0 { assert all[i] == Shifted(places)[i - 1]; }
    }
    forall i | 0 <= i < |all|
      ensures all[i] < |tail| + 1 && ([node.entity] + tail)[all[i]] == more[i].entity
      ensures more[i].entity !in ([node.entity] + tail)[..all[i]]
    {
      if i > 0 { assert all[i] == Shifted(places)[i - 1] && more[i] == found[i - 1]; }
    }
  }

  lemma PlacesBehind(first: Entity, tail: seq<Entity>, found: seq<TraversalNode>, places: seq<nat>)
    requires AtPlaces(tail, found, places) && forall n | n in found :: n.entity != first
    ensures AtPlaces([first] + tail, found, Shifted(places))
  {
    forall i | 0 <= i < |places| ensures found[i].entity !in ([first] + tail)[..places[i] + 1] {
      assert found[i] in found;
      assert ([first] + tail)[..places[i] + 1] == [first] + tail[..places[i]];
    }
  }

  /** They come in the order of the list, each at its first place there. */
  lemma {:induction false} DiscoveredInOrder(neighbours: seq<Entity>, seen: set<Entity>, depth: nat, parent: Entity)
    returns (places: seq<nat>)
    ensures AtPlaces(neighbours, Discover(neighbours, seen, depth, parent), places)
    decreases |neighbours|
  {
    places := [];
    if neighbours != [] {
      var first, tail := neighbours[0], neighbours[1..];
      assert neighbours == [first] + tail;
      Discovered(tail, seen + {first}, depth, parent);
      var rest := DiscoveredInOrder(tail, seen + {first}, depth, parent);
      PlacesBehind(first, tail, Discover(tail, seen + {first}, depth, parent), rest);
      places := Shifted(rest);
      if first !in seen {
        PlacesFront(TraversalNode(first, depth, Some(parent)), tail, Discover(tail, seen + {first}, depth, parent),
          rest);
        places := [0] + places;
      }
    }
  }

  /** What taking one node from the queue adds to the list. */
  function Added(next: Entity -> seq<Entity>, limit: Option<nat>, found: seq<TraversalNode>, i: nat): seq<TraversalNode>
    requires i < |found|
  {
    if Within(limit, found[i].depth + 1)
      then Discover(next(found[i].entity), Entities(found), found[i].depth + 1, found[i].entity) else []
  }

  lemma StepLevels(found: seq<TraversalNode>, i: nat, added: seq<TraversalNode>)
    requires Levels(found, i) && i < |found| && forall n | n in added :: n.depth == found[i].depth + 1
    ensures Levels(found + added, i + 1)
  {
    var all := found + added;
    forall j | |found| <= j < |all| ensures all[j].depth == found[i].depth + 1 { assert all[j] in added; }
  }

  lemma StepDistinct(found: seq<TraversalNode>, added: seq<TraversalNode>)
    requires DistinctEntities(found) && DistinctEntities(added) && forall n | n in added :: n.entity !in Entities(found)
    ensures DistinctEntities(found + added)
  {
    var all := found + added;
    forall i, j | 0 <= i < j < |all| ensures all[i].entity != all[j].entity {
      if i < |found| <= j { assert all[i] in found && all[j] in added; }
    }
  }

  lemma StepSound(next: Entity -> seq<Entity>, limit: Option<nat>, start: Entity, found: seq<TraversalNode>, i: nat,
                  added: seq<TraversalNode>)
    requires Sound(next, limit, start, found, i) && i < |found| && DistinctEntities(found + added)
    requires forall n | n in added :: n.depth == found[i].depth + 1 && n.parent == Some(found[i].entity)
    requires forall n | n in added :: n.entity in next(found[i].entity) && Within(limit, n.depth)
    ensures Sound(next, limit, start, found + added, i + 1)
  {
    var all := found + added;
    assert found[i] in found;
    forall n | n in added ensures ReachIn(Follows(next), start, n.entity, n.depth) {
      assert Follows(next)(found[i].entity, n.entity);
    }
    forall j | 1 <= j < |all| ensures ParentOf(next, all, i + 1, all[j]) {
      if j < |found| {
        assert ParentOf(next, found, i, found[j]);
        var h :| 0 <= h < i && h < |found| && found[h].entity == found[j].parent.value
          && found[h].depth + 1 == found[j].depth;
        assert all[h] == found[h];
      } else {
        assert all[j] in added && all[i] == found[i];
      }
    }
  }

  lemma FoundStill(found: seq<TraversalNode>, added: seq<TraversalNode>, x: Entity, d: nat)
    requires FoundBy(found, x, d)
    ensures FoundBy(found + added, x, d)
  {
    var j :| 0 <= j < |found| && found[j].entity == x && found[j].depth <= d;
    assert (found + added)[j] == found[j];
  }

  /** What the node just taken leads to is found. */
  lemma NowExpanded(next: Entity -> seq<Entity>, limit: Option<nat>, found: seq<TraversalNode>, i: nat, y: Entity)
    requires Levels(found, i) && i < |found| && Within(limit, found[i].depth + 1) && y in next(found[i].entity)
    ensures FoundBy(found + Added(next, limit, found, i), y, found[i].depth + 1)
  {
    var added := Added(next, limit, found, i);
    Discovered(next(found[i].entity), Entities(found), found[i].depth + 1, found[i].entity);
    if y in Entities(found) {
      var n :| n in found && n.entity == y;
      var j :| 0 <= j < |found| && found[j] == n;
      assert FoundBy(found, y, found[i].depth + 1);
      FoundStill(found, added, y, found[i].depth + 1);
    } else {
      var n := TraversalNode(y, found[i].depth + 1, Some(found[i].entity));
      var j :| 0 <= j < |added| && added[j] == n;
      assert (found + added)[|found| + j] == n;
    }
  }

  lemma StepExpanded(next: Entity -> seq<Entity>, limit: Option<nat>, found: seq<TraversalNode>, i: nat)
    requires Levels(found, i) && i < |found| && Expanded(next, limit, found, i)
    ensures Expanded(next, limit, found + Added(next, limit, found, i), i + 1)
  {
    var added := Added(next, limit, found, i);
    var all := found + added;
    forall h | 0 <= h < i + 1 && Within(limit, all[h].depth + 1)
      ensures forall y | y in next(all[h].entity) :: FoundBy(all, y, all[h].depth + 1)
    {
      assert all[h] == found[h];
      forall y | y in next(found[h].entity) ensures FoundBy(all, y, found[h].depth + 1) {
        if h < i {
          FoundStill(found, added, y, found[h].depth + 1);
        } else {
          NowExpanded(next, limit, found, i, y);
        }
      }
    }
  }

  /** One node taken from the queue and expanded. */
  lemma SearchSteps(next: Entity -> seq<Entity>, limit: Option<nat>, start: Entity, found: seq<TraversalNode>, i: nat)
    requires Searching(next, limit, start, found, i) && i < |found|
    ensures Searching(next, limit, start, found + Added(next, limit, found, i), i + 1)
  {
    var added := Added(next, limit, found, i);
    Discovered(next(found[i].entity), Entities(found), found[i].depth + 1, found[i].entity);
    StepLevels(found, i, added);
    StepDistinct(found, added);
    StepSound(next, limit, start, found, i, added);
    StepExpanded(next, limit, found, i);
  }

  /** All nodes found once the first `n` nodes of the list have been taken from the queue. */
  ghost function FoundAfter(next: Entity -> seq<Entity>, limit: Option<nat>, start: Entity,
                            n: nat): seq<TraversalNode> {
    if n == 0 then [TraversalNode(start, 0, None)] else
      Grow(next, limit, FoundAfter(next, limit, start, n - 1), n - 1)
  }

  /** The list once its node `i` has been taken, if there is one. */
  function Grow(next: Entity -> seq<Entity>, limit: Option<nat>, found: seq<TraversalNode>,
                i: nat): seq<TraversalNode> {
    if i < |found| then found + Added(next, limit, found, i) else found
  }

  lemma {:induction false} RunSearches(next: Entity -> seq<Entity>, limit: Option<nat>, start: Entity, n: nat)
    requires Running(next, limit, start, FoundAfter(next, limit, start, n), n)
    ensures Searching(next, limit, start, FoundAfter(next, limit, start, n), n)
  {
    if n == 0 {
      SearchStarts(next, limit, start);
    } else {
      var before := FoundAfter(next, limit, start, n - 1);
      RunSearches(next, limit, start, n - 1);
      SearchSteps(next, limit, start, before, n - 1);
    }
  }

  // ---- What a finished search says ----

  /** No walk is shorter, and this one is within the limit. */
  ghost predicate Nearest(next: Entity -> seq<Entity>, limit: Option<nat>, start: Entity, x: Entity, d: nat) {
    && ReachIn(Follows(next), start, x, d) && Within(limit, d)
    && forall k: nat | ReachIn(Follows(next), start, x, k) :: d <= k
  }

  /** A walk is found at its length or less, once every node found at a smaller depth is expanded. */
  lemma {:induction false} WalkFound(next: Entity -> seq<Entity>, limit: Option<nat>, start: Entity,
                                     found: seq<TraversalNode>, i: nat, x: Entity, k: nat)
    requires Searching(next, limit, start, found, i) && ReachIn(Follows(next), start, x, k) && Within(limit, k)
    requires forall j | 0 <= j < |found| && found[j].depth < k :: j < i
    ensures FoundBy(found, x, k)
    decreases k
  {
    if k == 0 {
      assert found[0].entity == start;
    } else {
      var m :| ReachIn(Follows(next), start, m, k - 1) && Follows(next)(m, x);
      WalkFound(next, limit, start, found, i, m, k - 1);
      var j :| 0 <= j < |found| && found[j].entity == m && found[j].depth <= k - 1;
      assert FoundBy(found, x, found[j].depth + 1);
    }
  }

  lemma FoundDepth(found: seq<TraversalNode>, j: nat, k: nat)
    requires DistinctEntities(found) && j < |found| && FoundBy(found, found[j].entity, k)
    ensures found[j].depth <= k
  {
    var h :| 0 <= h < |found| && found[h].entity == found[j].entity && found[h].depth <= k;
    assert h == j;
  }

  /** A node taken from the queue stands at its true distance, however far the search has come. */
  lemma TakenNearest(next: Entity -> seq<Entity>, limit: Option<nat>, start: Entity, found: seq<TraversalNode>, i: nat,
                     j: nat)
    requires Searching(next, limit, start, found, i) && j < i
    ensures Nearest(next, limit, start, found[j].entity, found[j].depth)
  {
    assert found[j] in found;
    forall k: nat | ReachIn(Follows(next), start, found[j].entity, k) ensures found[j].depth <= k {
      if k < found[j].depth {
        WalkFound(next, limit, start, found, i, found[j].entity, k);
        FoundDepth(found, j, k);
      }
    }
  }

  /** A finished search has found exactly the nodes within the limit, each once, nearest first, at its true distance. */
  ghost predicate Complete(next: Entity -> seq<Entity>, limit: Option<nat>, start: Entity, found: seq<TraversalNode>) {
    && DistinctEntities(found) && Levels(found, |found|)
    && (forall n | n in found :: Nearest(next, limit, start, n.entity, n.depth))
    && (forall x, k: nat | ReachIn(Follows(next), start, x, k) && Within(limit, k) :: x in Entities(found))
  }

  lemma SearchFinishes(next: Entity -> seq<Entity>, limit: Option<nat>, start: Entity, found: seq<TraversalNode>)
    requires Searching(next, limit, start, found, |found|)
    ensures Complete(next, limit, start, found)
  {
    forall n | n in found ensures Nearest(next, limit, start, n.entity, n.depth) {
      var j :| 0 <= j < |found| && found[j] == n;
      TakenNearest(next, limit, start, found, |found|, j);
    }
    forall x, k: nat | ReachIn(Follows(next), start, x, k) && Within(limit, k) ensures x in Entities(found) {
      WalkFound(next, limit, start, found, |found|, x, k);
      var j :| 0 <= j < |found| && found[j].entity == x && found[j].depth <= k;
      assert found[j] in found;
    }
  }

  // ---- Finite graphs ----

  /** Finitely many entities, closed under following edges. */
  predicate Closed(next: Entity -> seq<Entity>, world: set<Entity>) {
    forall a | a in world :: forall b | b in next(a) :: b in world
  }

  lemma {:induction false} DistinctFits(found: seq<TraversalNode>, world: set<Entity>)
    requires DistinctEntities(found) && Entities(found) <= world
    ensures |found| <= |world|
    decreases |found|
  {
    if found != [] {
      var l := |found| - 1;
      assert found[l] in found;
      forall e | e in Entities(found[..l]) ensures e in world - {found[l].entity} {
        var n :| n in found[..l] && n.entity == e;
        var i :| 0 <= i < l && found[..l][i] == n;
        assert found[i] == n && n in found;
      }
      DistinctFits(found[..l], world - {found[l].entity});
    }
  }

  lemma {:induction false} ReachStays(next: Entity -> seq<Entity>, world: set<Entity>, start: Entity, x: Entity, k: nat)
    requires Closed(next, world) && start in world && ReachIn(Follows(next), start, x, k)
    ensures x in world
  {
    ClosedContains(Follows(next), e => e in world, start, x, k);
  }

  /** `found` is the list after `n` nodes were taken, each while the queue was not empty. */
  ghost predicate Running(next: Entity -> seq<Entity>, limit: Option<nat>, start: Entity, found: seq<TraversalNode>,
                          n: nat) {
    found == FoundAfter(next, limit, start, n) && n <= |found|
  }

  /** On a finite graph only so many nodes can be taken. */
  lemma RunFits(next: Entity -> seq<Entity>, limit: Option<nat>, start: Entity, found: seq<TraversalNode>, n: nat,
                world: set<Entity>)
    requires Running(next, limit, start, found, n) && Closed(next, world) && start in world
    ensures |found| <= |world|
  {
    RunSearches(next, limit, start, n);
    forall e | e in Entities(found) ensures e in world {
      var m :| m in found && m.entity == e;
      ReachStays(next, world, start, e, m.depth);
    }
    DistinctFits(found, world);
  }

  lemma RunFinishes(next: Entity -> seq<Entity>, limit: Option<nat>, start: Entity, found: seq<TraversalNode>)
    requires Running(next, limit, start, found, |found|)
    ensures Complete(next, limit, start, found)
  {
    RunSearches(next, limit, start, |found|);
    SearchFinishes(next, limit, start, found);
  }
}
