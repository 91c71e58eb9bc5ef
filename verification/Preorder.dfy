/**
 * Ordered depth-first walks: `walk_dfs_with_depth` of `kyoso_graph::tree` against recursive preorder,
 * and what preorder visits in a forest.
 */
module Preorder {
  import opened Ecs
  import opened Sequences
  import opened Wrappers
  import opened Sorting
  import opened Reachability
  import OrderKeys

  // ---- Children in key order ----

  /** A child list and the order keys of entities. */
  datatype Tree = Tree(children: Entity -> seq<Entity>, key: Entity -> Option<string>)

  function Keyed(t: Tree, es: seq<Entity>): seq<Entity> {
    if es == [] then [] else (if t.key(es[0]).Some? then [es[0]] else []) + Keyed(t, es[1..])
  }

  function KeyOrder(t: Tree): (Entity, Entity) -> bool {
    (a: Entity, b: Entity) =>
      match (t.key(a), t.key(b))
      case (Some(x), Some(y)) => !OrderKeys.Less(y, x)
      case (None, _) => true
      case (_, None) => t.key(a).None?
  }

  /** `children`: those with a key, ascending; equal keys stay in child order. */
  function SortedChildren(t: Tree, e: Entity): seq<Entity> {
    StableSort(Keyed(t, t.children(e)), KeyOrder(t))
  }

  function ByKey(t: Tree): Entity -> seq<Entity> {
    (e: Entity) => SortedChildren(t, e)
  }

  /** The entities with the given key, in order. */
  function WithKey(t: Tree, es: seq<Entity>, key: string): seq<Entity> {
    if es == [] then [] else (if t.key(es[0]) == Some(key) then [es[0]] else []) + WithKey(t, es[1..], key)
  }

  lemma {:induction false} TiesHaveKey(t: Tree, es: seq<Entity>, c: Entity)
    requires t.key(c).Some? && forall e | e in es :: t.key(e).Some?
    ensures Ties(es, c, KeyOrder(t)) == WithKey(t, es, t.key(c).value)
  {
    if es != [] {
      assert es[0] in es && forall e | e in es[1..] :: e in es;
      TiesHaveKey(t, es[1..], c);
      OrderKeys.LessTotal(t.key(es[0]).value, t.key(c).value);
    }
  }

  lemma {:induction false} KeyedWithKey(t: Tree, es: seq<Entity>, key: string)
    ensures WithKey(t, Keyed(t, es), key) == WithKey(t, es, key)
  {
    if es != [] {
      KeyedWithKey(t, es[1..], key);
      var rest := Keyed(t, es[1..]);
      if t.key(es[0]).Some? {
        assert Keyed(t, es) == [es[0]] + rest && ([es[0]] + rest)[1..] == rest;
      } else {
        assert Keyed(t, es) == rest;
      }
    }
  }

  /** Children with equal keys stay in child order. */
  lemma EqualKeysStay(t: Tree, e: Entity, key: string)
    ensures WithKey(t, SortedChildren(t, e), key) == WithKey(t, t.children(e), key)
  {
    var keyed, sorted := Keyed(t, t.children(e)), SortedChildren(t, e);
    KeyOrderTotal(t);
    SortedMembers(t, e);
    KeyedMembers(t, t.children(e));
    KeyedWithKey(t, t.children(e), key);
    if c :| c in t.children(e) && t.key(c) == Some(key) {
      StableSortStable(keyed, c, KeyOrder(t));
      TiesHaveKey(t, keyed, c);
      TiesHaveKey(t, sorted, c);
    } else {
      NoneWithKey(t, sorted, key);
      NoneWithKey(t, t.children(e), key);
    }
  }

  lemma {:induction false} NoneWithKey(t: Tree, es: seq<Entity>, key: string)
    requires forall c | c in es :: t.key(c) != Some(key)
    ensures WithKey(t, es, key) == []
  {
    if es != [] {
      assert es[0] in es && forall c | c in es[1..] :: c in es;
      NoneWithKey(t, es[1..], key);
    }
  }

  lemma KeyOrderTotal(t: Tree)
    ensures TotalPreorder(KeyOrder(t))
  {
    var leq := KeyOrder(t);
    forall a, b ensures leq(a, b) || leq(b, a) { KeysTotal(t, a, b); }
    forall a, b, c | leq(a, b) && leq(b, c) ensures leq(a, c) { KeysTransitive(t, a, b, c); }
  }

  lemma SortedMembers(t: Tree, e: Entity)
    ensures forall c :: c in SortedChildren(t, e) <==> c in t.children(e) && t.key(c).Some?
  {
    KeyedMembers(t, t.children(e));
    SortKeeps(Keyed(t, t.children(e)), KeyOrder(t));
    var keyed, sorted := Keyed(t, t.children(e)), SortedChildren(t, e);
    assert forall c :: c in sorted <==> c in multiset(sorted);
    assert forall c :: c in keyed <==> c in multiset(keyed);
  }

  /** Exactly the children with a key, no key after a greater one. */
  lemma ChildrenInKeyOrder(t: Tree, e: Entity)
    ensures forall c :: c in SortedChildren(t, e) <==> c in t.children(e) && t.key(c).Some?
    ensures
      var sorted := SortedChildren(t, e);
      forall i, j | 0 <= i < j < |sorted| ::
        && t.key(sorted[i]).Some? && t.key(sorted[j]).Some?
        && !OrderKeys.Less(t.key(sorted[j]).value, t.key(sorted[i]).value)
  {
    SortedMembers(t, e);
    KeyOrderTotal(t);
    StableSortSorted(Keyed(t, t.children(e)), KeyOrder(t));
    var sorted := SortedChildren(t, e);
    forall i, j | 0 <= i < j < |sorted|
      ensures t.key(sorted[i]).Some? && t.key(sorted[j]).Some?
      ensures !OrderKeys.Less(t.key(sorted[j]).value, t.key(sorted[i]).value)
    {
      assert sorted[i] in sorted && sorted[j] in sorted;
      assert KeyOrder(t)(sorted[i], sorted[j]);
    }
  }

  lemma {:induction false} KeyedMembers(t: Tree, es: seq<Entity>)
    ensures forall c :: c in Keyed(t, es) <==> c in es && t.key(c).Some?
  {
    if es != [] { KeyedMembers(t, es[1..]); }
  }

  lemma KeysTotal(t: Tree, a: Entity, b: Entity)
    ensures KeyOrder(t)(a, b) || KeyOrder(t)(b, a)
  {
    if t.key(a).Some? && t.key(b).Some? { OrderKeys.LessTotal(t.key(a).value, t.key(b).value); }
  }

  lemma KeysTransitive(t: Tree, a: Entity, b: Entity, c: Entity)
    requires KeyOrder(t)(a, b) && KeyOrder(t)(b, c)
    ensures KeyOrder(t)(a, c)
  {
    if t.key(a).Some? && t.key(b).Some? && t.key(c).Some? {
      var x, y, z := t.key(a).value, t.key(b).value, t.key(c).value;
      OrderKeys.LessTotal(x, y);
      OrderKeys.LessTotal(y, z);
      if OrderKeys.Less(z, x) {
        if x != y { OrderKeys.LessTransitive(z, x, y); }
      }
    }
  }

  // ---- Preorder ----

  /** Every step down lowers the height, so no walk goes on for ever. */
  ghost predicate Lowers(next: Entity -> seq<Entity>, height: Entity -> nat) {
    forall e, c | c in next(e) :: height(c) < height(e)
  }

  type Visit = (Entity, nat)

  ghost function Preorder(next: Entity -> seq<Entity>, height: Entity -> nat, e: Entity, depth: nat): seq<Visit>
    requires Lowers(next, height)
    decreases height(e), 1, 0
  {
    [(e, depth)] + PreorderAll(next, height, e, next(e), depth + 1)
  }

  /** The preorders of some children of `e`, one after the other. */
  ghost function PreorderAll(next: Entity -> seq<Entity>, height: Entity -> nat, e: Entity, es: seq<Entity>,
                             depth: nat): seq<Visit>
    requires Lowers(next, height) && forall c | c in es :: c in next(e)
    decreases height(e), 0, |es|
  {
    if es == [] then [] else
      assert es[0] in es && forall c | c in es[1..] :: c in es;
      Preorder(next, height, es[0], depth) + PreorderAll(next, height, e, es[1..], depth)
  }

  // ---- The stack loop ----

  /** What a stack still leads to, its top first. */
  ghost function Pending(next: Entity -> seq<Entity>, height: Entity -> nat, stack: seq<Visit>): seq<Visit>
    requires Lowers(next, height)
  {
    if stack == [] then [] else
      var l := |stack| - 1;
      Preorder(next, height, stack[l].0, stack[l].1) + Pending(next, height, stack[..l])
  }

  /** The children of `e` in reverse, so that the first is on top. */
  function PushReversed(stack: seq<Visit>, es: seq<Entity>, depth: nat): seq<Visit> {
    if es == [] then stack else PushReversed(stack, es[1..], depth) + [(es[0], depth)]
  }

  lemma {:induction false} PendingPushed(next: Entity -> seq<Entity>, height: Entity -> nat, stack: seq<Visit>,
                                         e: Entity, es: seq<Entity>, depth: nat)
    requires Lowers(next, height) && forall c | c in es :: c in next(e)
    ensures Pending(next, height, PushReversed(stack, es, depth)) == PreorderAll(next, height, e, es, depth)
      + Pending(next, height, stack)
    decreases |es|
  {
    if es == [] {
      assert [] + Pending(next, height, stack) == Pending(next, height, stack);
    } else {
      assert es[0] in es && forall c | c in es[1..] :: c in es;
      var pushed := PushReversed(stack, es[1..], depth);
      PendingPushed(next, height, stack, e, es[1..], depth);
      PendingOver(next, height, pushed, (es[0], depth));
      Regroup(Preorder(next, height, es[0], depth), PreorderAll(next, height, e, es[1..], depth),
        Pending(next, height, stack));
    }
  }

  lemma PendingOver(next: Entity -> seq<Entity>, height: Entity -> nat, stack: seq<Visit>, v: Visit)
    requires Lowers(next, height)
    ensures Pending(next, height, stack + [v]) == Preorder(next, height, v.0, v.1) + Pending(next, height, stack)
  {
    assert (stack + [v])[..|stack|] == stack;
  }

  /** Popping an entity and pushing its children in reverse yields it and leaves the rest of the preorder. */
  lemma PendingStep(next: Entity -> seq<Entity>, height: Entity -> nat, stack: seq<Visit>)
    requires Lowers(next, height) && stack != []
    ensures
      var l := |stack| - 1;
      Pending(next, height, stack) == [stack[l]]
        + Pending(next, height, PushReversed(stack[..l], next(stack[l].0), stack[l].1 + 1))
  {
    var l := |stack| - 1;
    var e, depth := stack[l].0, stack[l].1;
    PendingTop(next, height, stack);
    PreorderTop(next, height, e, depth);
    PendingPushed(next, height, stack[..l], e, next(e), depth + 1);
    Regroup([stack[l]], PreorderAll(next, height, e, next(e), depth + 1), Pending(next, height, stack[..l]));
  }

  lemma PendingTop(next: Entity -> seq<Entity>, height: Entity -> nat, stack: seq<Visit>)
    requires Lowers(next, height) && stack != []
    ensures
      var l := |stack| - 1;
      Pending(next, height, stack) == Preorder(next, height, stack[l].0, stack[l].1) + Pending(next, height, stack[..l])
  {
  }

  lemma PreorderTop(next: Entity -> seq<Entity>, height: Entity -> nat, e: Entity, depth: nat)
    requires Lowers(next, height)
    ensures Preorder(next, height, e, depth) == [(e, depth)] + PreorderAll(next, height, e, next(e), depth + 1)
  {
  }

  lemma Regroup(a: seq<Visit>, b: seq<Visit>, c: seq<Visit>)
    ensures (a + b) + c == a + (b + c)
  {
  }

  method PushChildren(stack: seq<Visit>, es: seq<Entity>, depth: nat) returns (r: seq<Visit>)
    ensures r == PushReversed(stack, es, depth)
  {
    r := stack;
    assert es[|es|..] == [];
    for i := |es| downto 0
      invariant r == PushReversed(stack, es[i..], depth)
    {
      assert es[i..][0] == es[i] && es[i..][1..] == es[i + 1..];
      r := r + [(es[i], depth)];
    }
    assert es[0..] == es;
  }

  method StackLoop(next: Entity -> seq<Entity>, root: Entity, ghost height: Entity -> nat) returns (out: seq<Visit>)
    requires Lowers(next, height)
    ensures out == Preorder(next, height, root, 0)
  {
    var stack := [(root, 0)];
    out := [];
    OnlyPending(next, height, (root, 0));
    while stack != []
      invariant Preorder(next, height, root, 0) == out + Pending(next, height, stack)
      decreases |Pending(next, height, stack)|
    {
      PendingStep(next, height, stack);
      var top := stack[|stack| - 1];
      out := out + [top];
      stack := PushChildren(stack[..|stack| - 1], next(top.0), top.1 + 1);
    }
  }

  lemma OnlyPending(next: Entity -> seq<Entity>, height: Entity -> nat, v: Visit)
    requires Lowers(next, height)
    ensures Pending(next, height, [v]) == Preorder(next, height, v.0, v.1)
  {
    assert [v][..0] == [];
  }

  /** `walk_dfs_with_depth` is preorder over the key-sorted children, with the depth below the root. */
  method WalkDfsWithDepth(t: Tree, root: Entity, ghost height: Entity -> nat) returns (out: seq<Visit>)
    requires Lowers(ByKey(t), height)
    ensures out == Preorder(ByKey(t), height, root, 0)
  {
    out := StackLoop(ByKey(t), root, height);
  }

  // ---- What preorder visits ----

  /** A walk of one step and more starts with a step. */
  lemma {:induction false} FirstStep(next: Entity -> seq<Entity>, e: Entity, x: Entity, k: nat) returns (c: Entity)
    requires k > 0 && ReachIn(Follows(next), e, x, k)
    ensures c in next(e) && ReachIn(Follows(next), c, x, k - 1)
    decreases k
  {
    var m :| ReachIn(Follows(next), e, m, k - 1) && Follows(next)(m, x);
    if k == 1 {
      c := x;
    } else {
      c := FirstStep(next, e, m, k - 1);
    }
  }

  lemma StepThenWalk(next: Entity -> seq<Entity>, e: Entity, c: Entity, x: Entity, k: nat)
    requires c in next(e) && ReachIn(Follows(next), c, x, k)
    ensures ReachIn(Follows(next), e, x, k + 1)
  {
    assert ReachIn(Follows(next), e, e, 0) && Follows(next)(e, c);
    assert ReachIn(Follows(next), e, c, 1);
    ReachInAdd(Follows(next), e, c, x, 1, k);
  }

  /** Preorder visits exactly what lies below, each at its distance. */
  lemma {:induction false} PreorderVisits(next: Entity -> seq<Entity>, height: Entity -> nat, e: Entity, depth: nat,
                                          x: Entity, d: nat)
    requires Lowers(next, height)
    ensures (x, d) in Preorder(next, height, e, depth) <==> d >= depth && ReachIn(Follows(next), e, x, d - depth)
    decreases height(e), 1, 0
  {
    PreorderAllVisits(next, height, e, next(e), depth + 1, x, d);
    if d > depth && ReachIn(Follows(next), e, x, d - depth) {
      var c := FirstStep(next, e, x, d - depth);
      assert WalkFrom(next, next(e), x, d - (depth + 1));
    }
    if d > depth && WalkFrom(next, next(e), x, d - (depth + 1)) {
      var c :| c in next(e) && ReachIn(Follows(next), c, x, d - (depth + 1));
      StepThenWalk(next, e, c, x, d - (depth + 1));
    }
  }

  ghost predicate WalkFrom(next: Entity -> seq<Entity>, es: seq<Entity>, x: Entity, k: nat) {
    exists c :: c in es && ReachIn(Follows(next), c, x, k)
  }

  lemma {:induction false} PreorderAllVisits(next: Entity -> seq<Entity>, height: Entity -> nat, e: Entity,
                                             es: seq<Entity>, depth: nat, x: Entity, d: nat)
    requires Lowers(next, height) && forall c | c in es :: c in next(e)
    ensures (x, d) in PreorderAll(next, height, e, es, depth) <==> d >= depth && WalkFrom(next, es, x, d - depth)
    decreases height(e), 0, |es|
  {
    if es != [] {
      assert es[0] in es && forall c | c in es[1..] :: c in es;
      PreorderVisits(next, height, es[0], depth, x, d);
      PreorderAllVisits(next, height, e, es[1..], depth, x, d);
      assert forall c :: c in es <==> c == es[0] || c in es[1..];
    }
  }

  // ---- In a forest nothing is visited twice ----

  /** Child lists without repetition, and one parent at most. */
  ghost predicate Forest(next: Entity -> seq<Entity>, height: Entity -> nat) {
    && Lowers(next, height)
    && (forall e :: NoDup(next(e)))
    && (forall p, q, c | c in next(p) && c in next(q) :: p == q)
  }

  predicate DistinctVisits(vs: seq<Visit>) {
    forall i, j | 0 <= i < j < |vs| :: vs[i].0 != vs[j].0
  }

  lemma {:induction false} WalkLowers(next: Entity -> seq<Entity>, height: Entity -> nat, a: Entity, b: Entity, k: nat)
    requires Lowers(next, height) && ReachIn(Follows(next), a, b, k)
    ensures height(b) + k <= height(a)
    decreases k
  {
    if k > 0 {
      var m :| ReachIn(Follows(next), a, m, k - 1) && Follows(next)(m, b);
      WalkLowers(next, height, a, m, k - 1);
    }
  }

  /** Of two walks to one entity, the longer passes through the start of the shorter. */
  lemma {:induction false} WalksMerge(next: Entity -> seq<Entity>, height: Entity -> nat, a: Entity, b: Entity,
                                      x: Entity, j: nat, k: nat)
    requires Forest(next, height) && j <= k && ReachIn(Follows(next), a, x, j) && ReachIn(Follows(next), b, x, k)
    ensures ReachIn(Follows(next), b, a, k - j)
    decreases j
  {
    if j > 0 {
      var m :| ReachIn(Follows(next), a, m, j - 1) && Follows(next)(m, x);
      var n :| ReachIn(Follows(next), b, n, k - 1) && Follows(next)(n, x);
      WalksMerge(next, height, a, b, m, j - 1, k - 1);
    }
  }

  /** The subtrees of different children of one entity have nothing in common. */
  lemma SubtreesApart(next: Entity -> seq<Entity>, height: Entity -> nat, e: Entity, a: Entity, b: Entity, x: Entity,
                      j: nat, k: nat)
    requires Forest(next, height) && a in next(e) && b in next(e) && j <= k
    requires ReachIn(Follows(next), a, x, j) && ReachIn(Follows(next), b, x, k)
    ensures a == b
  {
    WalksMerge(next, height, a, b, x, j, k);
    if k > j {
      var m :| ReachIn(Follows(next), b, m, k - j - 1) && Follows(next)(m, a);
      WalkLowers(next, height, b, m, k - j - 1);
    }
  }

  lemma DistinctVisitsJoin(a: seq<Visit>, b: seq<Visit>)
    requires DistinctVisits(a) && DistinctVisits(b) && forall v, w | v in a && w in b :: v.0 != w.0
    ensures DistinctVisits(a + b)
  {
    forall i, j | 0 <= i < j < |a + b| ensures (a + b)[i].0 != (a + b)[j].0 {
      if i < |a| <= j { assert a[i] in a && b[j - |a|] in b; }
    }
  }

  lemma {:induction false} PreorderDistinct(next: Entity -> seq<Entity>, height: Entity -> nat, e: Entity, depth: nat)
    requires Forest(next, height)
    ensures DistinctVisits(Preorder(next, height, e, depth))
    decreases height(e), 1, 0
  {
    PreorderAllDistinct(next, height, e, next(e), depth + 1);
    var rest := PreorderAll(next, height, e, next(e), depth + 1);
    forall v | v in rest ensures v.0 != e {
      PreorderAllVisits(next, height, e, next(e), depth + 1, v.0, v.1);
      var c :| c in next(e) && ReachIn(Follows(next), c, v.0, v.1 - (depth + 1));
      WalkLowers(next, height, c, v.0, v.1 - (depth + 1));
    }
    DistinctVisitsJoin([(e, depth)], rest);
  }

  lemma {:induction false} PreorderAllDistinct(next: Entity -> seq<Entity>, height: Entity -> nat, e: Entity,
                                               es: seq<Entity>, depth: nat)
    requires Forest(next, height) && NoDup(es) && forall c | c in es :: c in next(e)
    ensures DistinctVisits(PreorderAll(next, height, e, es, depth))
    decreases height(e), 0, |es|
  {
    if es != [] {
      var first, rest := es[0], es[1..];
      assert first in es && (forall c | c in rest :: c in es) && forall i | 0 <= i < |rest| :: rest[i] == es[i + 1];
      PreorderDistinct(next, height, first, depth);
      PreorderAllDistinct(next, height, e, rest, depth);
      FirstApart(next, height, e, es, depth);
      DistinctVisitsJoin(Preorder(next, height, first, depth), PreorderAll(next, height, e, rest, depth));
    }
  }

  lemma FirstApart(next: Entity -> seq<Entity>, height: Entity -> nat, e: Entity, es: seq<Entity>, depth: nat)
    requires Forest(next, height) && es != [] && NoDup(es) && (forall c | c in es :: c in next(e))
      && forall c | c in es[1..] :: c in next(e)
    ensures forall v, w | v in Preorder(next, height, es[0], depth)
      && w in PreorderAll(next, height, e, es[1..], depth) :: v.0 != w.0
  {
    forall v, w | v in Preorder(next, height, es[0], depth) && w in PreorderAll(next, height, e, es[1..], depth)
      ensures v.0 != w.0
    {
      PreorderVisits(next, height, es[0], depth, v.0, v.1);
      PreorderAllVisits(next, height, e, es[1..], depth, w.0, w.1);
      var c :| c in es[1..] && ReachIn(Follows(next), c, w.0, w.1 - depth);
      var i :| 0 <= i < |es[1..]| && es[1..][i] == c;
      assert es[i + 1] == c && c != es[0] && es[0] in es;
      if v.0 == w.0 {
        if v.1 <= w.1 {
          SubtreesApart(next, height, e, es[0], c, v.0, v.1 - depth, w.1 - depth);
        } else {
          SubtreesApart(next, height, e, c, es[0], v.0, w.1 - depth, v.1 - depth);
        }
      }
    }
  }

  // ---- Nothing left to visit twice ----

  function Firsts(vs: seq<Visit>): seq<Entity> {
    seq(|vs|, i requires 0 <= i < |vs| => vs[i].0)
  }

  /** Different entities, none of them visited. */
  predicate Unseen(vs: seq<Visit>, visited: set<Entity>) {
    DistinctVisits(vs) && forall i | 0 <= i < |vs| :: vs[i].0 !in visited
  }

  lemma TopUnseen(next: Entity -> seq<Entity>, height: Entity -> nat, waiting: seq<Visit>, visited: set<Entity>)
    requires Lowers(next, height) && waiting != [] && Unseen(Pending(next, height, waiting), visited)
    ensures
      var l := |waiting| - 1;
      var top, rest := waiting[l], PushReversed(waiting[..l], next(waiting[l].0), waiting[l].1 + 1);
      && top.0 !in visited && Pending(next, height, waiting) == [top] + Pending(next, height, rest)
      && Unseen(Pending(next, height, rest), visited + {top.0})
  {
    PendingStep(next, height, waiting);
    var l := |waiting| - 1;
    var all, rest := Pending(next, height, waiting),
      Pending(next, height, PushReversed(waiting[..l], next(waiting[l].0), waiting[l].1 + 1));
    assert all == [waiting[l]] + rest;
    assert all[0] == waiting[l] && forall i | 0 <= i < |rest| :: rest[i] == all[i + 1];
  }
}
