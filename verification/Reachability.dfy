/** Walks along an arbitrary step relation, and what a closed set says about them. */
module Reachability {
  /** A walk of exactly `k` steps leads from `a` to `b`. */
  ghost predicate ReachIn<T(!new)>(step: (T, T) -> bool, a: T, b: T, k: nat)
    decreases k
  {
    if k == 0 then a == b else exists m :: ReachIn(step, a, m, k - 1) && step(m, b)
  }

  ghost predicate Reach<T(!new)>(step: (T, T) -> bool, a: T, b: T) {
    exists k: nat :: ReachIn(step, a, b, k)
  }

  /** One step along lists of successors. */
  function Follows<T(==)>(next: T -> seq<T>): (T, T) -> bool {
    (a: T, b: T) => b in next(a)
  }

  /** A set that contains `a` and is closed under steps contains everything reachable from `a`. */
  lemma {:induction false} ClosedContains<T(!new)>(step: (T, T) -> bool, inside: T -> bool, a: T, b: T, k: nat)
    requires inside(a)
    requires forall x, y | inside(x) && step(x, y) :: inside(y)
    requires ReachIn(step, a, b, k)
    ensures inside(b)
    decreases k
  {
    if k > 0 {
      var m :| ReachIn(step, a, m, k - 1) && step(m, b);
      ClosedContains(step, inside, a, m, k - 1);
    }
  }

  lemma {:induction false} ReachInAdd<T(!new)>(step: (T, T) -> bool, a: T, b: T, c: T, j: nat, k: nat)
    requires ReachIn(step, a, b, j) && ReachIn(step, b, c, k)
    ensures ReachIn(step, a, c, j + k)
    decreases k
  {
    if k > 0 {
      var m :| ReachIn(step, b, m, k - 1) && step(m, c);
      ReachInAdd(step, a, b, m, j, k - 1);
      assert ReachIn(step, a, m, j + k - 1) && step(m, c);
    }
  }

  lemma ReachStep<T(!new)>(step: (T, T) -> bool, a: T, m: T, b: T)
    requires Reach(step, a, m) && step(m, b)
    ensures Reach(step, a, b)
  {
    var k: nat :| ReachIn(step, a, m, k);
    assert ReachIn(step, a, b, k + 1);
  }

  lemma ReachTransitive<T(!new)>(step: (T, T) -> bool, a: T, b: T, c: T)
    requires Reach(step, a, b) && Reach(step, b, c)
    ensures Reach(step, a, c)
  {
    var j: nat :| ReachIn(step, a, b, j);
    var k: nat :| ReachIn(step, b, c, k);
    ReachInAdd(step, a, b, c, j, k);
  }

  /** Where steps between members of `live` go both ways and stay in `live`, so do walks. */
  lemma {:induction false} ReachInBack<T(!new)>(step: (T, T) -> bool, live: T -> bool, a: T, b: T, k: nat)
    requires live(a)
    requires forall x, y | live(x) && step(x, y) :: live(y) && step(y, x)
    requires ReachIn(step, a, b, k)
    ensures live(b) && ReachIn(step, b, a, k)
    decreases k
  {
    if k > 0 {
      var m :| ReachIn(step, a, m, k - 1) && step(m, b);
      ReachInBack(step, live, a, m, k - 1);
      assert step(b, m);
      assert ReachIn(step, b, b, 0);
      assert ReachIn(step, b, m, 1);
      ReachInAdd(step, b, m, a, 1, k - 1);
    }
  }

  /** Steps that agree everywhere reach the same. */
  lemma {:induction false} ReachInSame<T(!new)>(step: (T, T) -> bool, other: (T, T) -> bool, a: T, b: T, k: nat)
    requires forall x, y :: step(x, y) <==> other(x, y)
    ensures ReachIn(step, a, b, k) <==> ReachIn(other, a, b, k)
    decreases k
  {
    if k > 0 {
      var j: nat := k - 1;
      forall m ensures ReachIn(step, a, m, j) <==> ReachIn(other, a, m, j) { ReachInSame(step, other, a, m, j); }
    }
  }

  lemma ReachSame<T(!new)>(step: (T, T) -> bool, other: (T, T) -> bool)
    requires forall x, y :: step(x, y) <==> other(x, y)
    ensures forall a, b :: Reach(step, a, b) <==> Reach(other, a, b)
  {
    forall a, b, k: nat ensures ReachIn(step, a, b, k) <==> ReachIn(other, a, b, k) {
      ReachInSame(step, other, a, b, k);
    }
  }
}
