/** Stable sorting by a comparison: what `sort_by` and `sort_by_key` promise. */
module Sorting {
  ghost predicate TotalPreorder<T(!new)>(leq: (T, T) -> bool) {
    (forall a, b :: leq(a, b) || leq(b, a)) && (forall a, b, c :: leq(a, b) && leq(b, c) ==> leq(a, c))
  }

  ghost predicate Sorted<T>(s: seq<T>, leq: (T, T) -> bool) {
    forall i, j | 0 <= i < j < |s| :: leq(s[i], s[j])
  }

  /** Puts `x` before the first element it does not exceed. */
  function Insert<T>(x: T, s: seq<T>, leq: (T, T) -> bool): seq<T> {
    if s == [] then [x]
    else if leq(x, s[0]) then [x] + s
    else [s[0]] + Insert(x, s[1..], leq)
  }

  function StableSort<T>(s: seq<T>, leq: (T, T) -> bool): seq<T> {
    if s == [] then [] else Insert(s[0], StableSort(s[1..], leq), leq)
  }

  lemma {:induction false} InsertKeeps<T>(x: T, s: seq<T>, leq: (T, T) -> bool)
    ensures |Insert(x, s, leq)| == |s| + 1 && multiset(Insert(x, s, leq)) == multiset{x} + multiset(s)
  {
    if s != [] {
      assert s == [s[0]] + s[1..];
      InsertKeeps(x, s[1..], leq);
    }
  }

  /** Sorting rearranges. */
  lemma {:induction false} SortKeeps<T>(s: seq<T>, leq: (T, T) -> bool)
    ensures |StableSort(s, leq)| == |s| && multiset(StableSort(s, leq)) == multiset(s)
  {
    if s != [] {
      assert s == [s[0]] + s[1..];
      SortKeeps(s[1..], leq);
      InsertKeeps(s[0], StableSort(s[1..], leq), leq);
    }
  }

  lemma {:induction false} InsertSorted<T(!new)>(x: T, s: seq<T>, leq: (T, T) -> bool)
    requires TotalPreorder(leq) && Sorted(s, leq)
    ensures Sorted(Insert(x, s, leq), leq)
  {
    if s == [] {
    } else if leq(x, s[0]) {
      forall j | 0 <= j < |s| ensures leq(x, s[j]) { assert j > 0 ==> leq(s[0], s[j]); }
    } else {
      var r := Insert(x, s[1..], leq);
      InsertSorted(x, s[1..], leq);
      InsertKeeps(x, s[1..], leq);
      forall j | 0 <= j < |r| ensures leq(s[0], r[j]) {
        assert r[j] in multiset(r);
        if r[j] != x {
          assert r[j] in s[1..];
          var i :| 0 <= i < |s[1..]| && s[1..][i] == r[j];
          assert leq(s[0], s[i + 1]);
        }
      }
    }
  }

  lemma {:induction false} StableSortSorted<T(!new)>(s: seq<T>, leq: (T, T) -> bool)
    requires TotalPreorder(leq)
    ensures Sorted(StableSort(s, leq), leq)
  {
    if s == [] {
    } else {
      StableSortSorted(s[1..], leq);
      InsertSorted(s[0], StableSort(s[1..], leq), leq);
    }
  }

  /** The elements that compare equal to `y`, in order. */
  function Ties<T>(s: seq<T>, y: T, leq: (T, T) -> bool): seq<T> {
    if s == [] then [] else Tie(s[0], y, leq) + Ties(s[1..], y, leq)
  }

  lemma TiesFirst<T>(x: T, s: seq<T>, y: T, leq: (T, T) -> bool)
    ensures Ties([x] + s, y, leq) == Tie(x, y, leq) + Ties(s, y, leq)
  {
    assert ([x] + s)[1..] == s;
  }

  lemma OneTie<T(!new)>(x: T, z: T, y: T, leq: (T, T) -> bool)
    requires TotalPreorder(leq) && !leq(x, z)
    ensures Tie(x, y, leq) == [] || Tie(z, y, leq) == []
  {
  }

  function Tie<T>(x: T, y: T, leq: (T, T) -> bool): seq<T> {
    if leq(x, y) && leq(y, x) then [x] else []
  }

  lemma Swap<T>(a: seq<T>, b: seq<T>, rest: seq<T>)
    requires a == [] || b == []
    ensures a + (b + rest) == b + (a + rest)
  {
  }

  lemma {:induction false} InsertStable<T(!new)>(x: T, s: seq<T>, y: T, leq: (T, T) -> bool)
    requires TotalPreorder(leq)
    ensures Ties(Insert(x, s, leq), y, leq) == Tie(x, y, leq) + Ties(s, y, leq)
  {
    if s == [] || leq(x, s[0]) {
      assert Insert(x, s, leq) == [x] + s;
      TiesFirst(x, s, y, leq);
    } else {
      var first, rest := s[0], s[1..];
      InsertStable(x, rest, y, leq);
      TiesFirst(first, Insert(x, rest, leq), y, leq);
      OneTie(x, first, y, leq);
      Swap(Tie(first, y, leq), Tie(x, y, leq), Ties(rest, y, leq));
    }
  }

  /** What compares equal stays in its order. */
  lemma {:induction false} StableSortStable<T(!new)>(s: seq<T>, y: T, leq: (T, T) -> bool)
    requires TotalPreorder(leq)
    ensures Ties(StableSort(s, leq), y, leq) == Ties(s, y, leq)
  {
    if s != [] {
      StableSortStable(s[1..], y, leq);
      InsertStable(s[0], StableSort(s[1..], leq), y, leq);
    }
  }

  /** `s[m]` is the first of the least elements. */
  ghost predicate FirstLeast<T>(s: seq<T>, leq: (T, T) -> bool, m: nat)
    requires m < |s|
  {
    (forall i | 0 <= i < |s| :: leq(s[m], s[i])) && (forall i | 0 <= i < m :: !leq(s[i], s[m]))
  }

  /** A stable sort brings the first of the least elements to the front. */
  lemma {:induction false} StableSortHead<T(!new)>(s: seq<T>, leq: (T, T) -> bool) returns (m: nat)
    requires TotalPreorder(leq) && s != []
    ensures m < |s| && FirstLeast(s, leq, m) && StableSort(s, leq)[0] == s[m]
  {
    if |s| == 1 {
      m := 0;
      assert leq(s[0], s[0]);
    } else {
      var rest := s[1..];
      var k := StableSortHead(rest, leq);
      assert forall i | 0 <= i < |rest| :: rest[i] == s[i + 1] && leq(rest[k], rest[i]);
      assert forall i | 0 < i < |s| :: s[i] == rest[i - 1];
      if leq(s[0], rest[k]) {
        m := 0;
        assert leq(s[0], s[0]);
        forall i | 0 <= i < |s| ensures leq(s[0], s[i]) {
          if i > 0 { assert leq(rest[k], rest[i - 1]); }
        }
      } else {
        m := k + 1;
        forall i | 0 <= i < |s| ensures leq(s[m], s[i]) {
          if i > 0 { assert leq(rest[k], rest[i - 1]); }
        }
        forall i | 0 <= i < m ensures !leq(s[i], s[m]) {
          if i > 0 { assert !leq(rest[i - 1], rest[k]); }
        }
      }
    }
  }

  lemma HeadLeast<T(!new)>(a: seq<T>, b: seq<T>, leq: (T, T) -> bool)
    requires TotalPreorder(leq) && a != [] && b != []
    requires Sorted(a, leq) && multiset(a) == multiset(b)
    ensures leq(a[0], b[0])
  {
    assert b[0] in multiset(b);
    assert b[0] in a;
    var j :| 0 <= j < |a| && a[j] == b[0];
    if j > 0 { assert leq(a[0], a[j]); } else { assert leq(a[0], a[0]); }
  }

  lemma TailMultiset<T>(a: seq<T>)
    requires a != []
    ensures multiset(a[1..]) == multiset(a) - multiset{a[0]}
  {
    assert a == [a[0]] + a[1..];
  }

  /** With an antisymmetric comparison a sorted arrangement is unique. */
  lemma {:induction false} SortedUnique<T(!new)>(a: seq<T>, b: seq<T>, leq: (T, T) -> bool)
    requires TotalPreorder(leq)
    requires forall x, y :: leq(x, y) && leq(y, x) ==> x == y
    requires Sorted(a, leq) && Sorted(b, leq) && multiset(a) == multiset(b)
    ensures a == b
    decreases |a|
  {
    assert |a| == |multiset(a)| == |multiset(b)| == |b|;
    if a != [] {
      HeadLeast(a, b, leq);
      HeadLeast(b, a, leq);
      TailMultiset(a);
      TailMultiset(b);
      SortedUnique(a[1..], b[1..], leq);
      assert a == [a[0]] + a[1..] && b == [b[0]] + b[1..];
    }
  }
}
