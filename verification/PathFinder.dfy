/**
 * Directed paths of a given length: `find_paths_matching` of `kyoso_graph::algo`, a recursion
 * over one shared buffer.
 */
module PathFinder {
  import opened Ecs
  import opened Sequences
  type Path = seq<Entity>

  /** The successor lists of a graph and a predicate per position. */
  datatype Query = Query(successors: Entity -> seq<Entity>, length: nat, pred: (nat, Entity) -> bool)

  /** What is asked for: a simple path along edges, whose every position passes its predicate. */
  predicate Matches(q: Query, path: Path) {
    && NoDup(path)
    && (forall i: nat | i < |path| - 1 :: StepAt(q, path, i))
    && (forall i | 0 <= i < |path| :: q.pred(i, path[i]))
  }

  predicate StepAt(q: Query, path: Path, i: nat) {
    i + 1 < |path| && path[i + 1] in q.successors(path[i])
  }

  predicate Extends(q: Query, path: Path, n: Entity) {
    n !in path && q.pred(|path|, n)
  }

  /** The paths of full length that go on from `current`, in the order they are found. */
  function PathsFrom(q: Query, current: Path): seq<Path>
    requires 0 < |current| <= q.length
    decreases q.length - |current|, 1, 0
  {
    if |current| == q.length then [current] else PathsVia(q, current, q.successors(current[|current| - 1]))
  }

  /** Those whose next node is one of `choices`. */
  function PathsVia(q: Query, current: Path, choices: seq<Entity>): seq<Path>
    requires 0 < |current| < q.length
    decreases q.length - |current|, 0, |choices|
  {
    if choices == [] then [] else
      (if Extends(q, current, choices[0]) then PathsFrom(q, current + [choices[0]]) else [])
      + PathsVia(q, current, choices[1..])
  }

  /** The recursion over one shared buffer. */
  class Finder {
    const query: Query
    var current: Path
    var out: seq<Path>

    constructor (q: Query, start: Entity)
      ensures query == q && current == [start] && out == []
    {
      query, current, out := q, [start], [];
    }

    /** Appends the paths that go on from the buffer, and leaves the buffer as it was. */
    method Recurse()
      requires 0 < |current| <= query.length
      modifies this
      ensures current == old(current) && out == old(out) + PathsFrom(query, current)
      decreases query.length - |current|
    {
      if |current| == query.length {
        out := out + [current];
        return;
      }
      var choices := query.successors(current[|current| - 1]);
      ghost var path, before := current, out;
      assert choices[0..] == choices;
      for i := 0 to |choices|
        invariant current == path
        invariant before + PathsVia(query, path, choices) == out + PathsVia(query, path, choices[i..])
      {
        var n := choices[i];
        assert choices[i..][0] == n && choices[i..][1..] == choices[i + 1..];
        if n !in current && query.pred(|current|, n) {
          current := current + [n];
          Recurse();
          current := current[..|current| - 1];
        }
      }
    }
  }

  method FindPathsMatching(q: Query, start: Entity) returns (out: seq<Path>)
    ensures q.length == 0 || !q.pred(0, start) ==> out == []
    ensures q.length > 0 && q.pred(0, start) ==> out == PathsFrom(q, [start])
  {
    if q.length == 0 || !q.pred(0, start) { return []; }
    var finder := new Finder(q, start);
    finder.Recurse();
    return finder.out;
  }

  // ---- The paths found are the paths asked for ----

  lemma MatchesSnoc(q: Query, path: Path, n: Entity)
    requires path != []
    ensures Matches(q, path + [n]) <==> Matches(q, path) && Extends(q, path, n) && n in q.successors(path[|path| - 1])
  {
    var longer := path + [n];
    if Matches(q, longer) {
      forall i | 0 <= i < |path| ensures path[i] != n && q.pred(i, path[i]) {
        assert longer[i] != longer[|path|];
        assert q.pred(i, longer[i]);
      }
      forall i, j | 0 <= i < j < |path| ensures path[i] != path[j] { assert longer[i] != longer[j]; }
      forall i: nat | i < |path| - 1 ensures StepAt(q, path, i) { assert StepAt(q, longer, i); }
      assert StepAt(q, longer, |path| - 1);
      assert q.pred(|path|, longer[|path|]);
    }
    if Matches(q, path) && Extends(q, path, n) && n in q.successors(path[|path| - 1]) {
      forall i: nat | i < |longer| - 1 ensures StepAt(q, longer, i) { if i < |path| - 1 { assert StepAt(q, path, i); } }
    }
  }

  lemma {:induction false} PathsFromIff(q: Query, current: Path, path: Path)
    requires 0 < |current| <= q.length && Matches(q, current)
    ensures path in PathsFrom(q, current) <==> |path| == q.length && current <= path && Matches(q, path)
    decreases q.length - |current|, 1, 0
  {
    if |current| < q.length {
      PathsViaIff(q, current, q.successors(current[|current| - 1]), path);
      if |path| == q.length && current <= path && Matches(q, path) { NextExtends(q, current, path); }
    } else if |path| == q.length && current <= path {
      assert path[..|current|] == path && path == current;
    }
  }

  lemma MatchesPrefix(q: Query, path: Path, k: nat)
    requires k <= |path| && Matches(q, path)
    ensures Matches(q, path[..k])
  {
    var p := path[..k];
    assert forall i | 0 <= i < k :: p[i] == path[i];
    forall i: nat | i < |p| - 1 ensures StepAt(q, p, i) { assert StepAt(q, path, i); }
  }

  lemma NextExtends(q: Query, current: Path, path: Path)
    requires current != [] && current <= path && |current| < |path| && Matches(q, path)
    ensures Extends(q, current, path[|current|]) && path[|current|] in q.successors(current[|current| - 1])
  {
    MatchesPrefix(q, path, |current| + 1);
    assert path[..|current| + 1] == current + [path[|current|]];
    MatchesSnoc(q, current, path[|current|]);
  }

  lemma {:induction false} PathsViaIff(q: Query, current: Path, choices: seq<Entity>, path: Path)
    requires 0 < |current| < q.length && Matches(q, current)
    requires forall n | n in choices :: n in q.successors(current[|current| - 1])
    ensures path in PathsVia(q, current, choices) <==>
      |path| == q.length && current <= path && path[|current|] in choices && Matches(q, path)
    decreases q.length - |current|, 0, |choices|
  {
    if choices != [] {
      var n, rest := choices[0], choices[1..];
      assert n in choices && forall x | x in rest :: x in choices;
      PathsViaIff(q, current, rest, path);
      MatchesSnoc(q, current, n);
      if |path| == q.length && current <= path && Matches(q, path) { NextExtends(q, current, path); }
      if Extends(q, current, n) {
        PathsFromIff(q, current + [n], path);
        assert current + [n] <= path <==> |path| > |current| && current <= path && path[|current|] == n;
      }
    }
  }

  // ---- No path is found twice ----

  lemma DistinctJoin(a: seq<Path>, b: seq<Path>)
    requires NoDup(a) && NoDup(b) && forall p | p in a :: p !in b
    ensures NoDup(a + b)
  {
    forall i, j | 0 <= i < j < |a + b| ensures (a + b)[i] != (a + b)[j] {
      if i < |a| <= j { assert a[i] in a && b[j - |a|] in b; }
    }
  }

  lemma {:induction false} PathsFromDistinct(q: Query, current: Path)
    requires 0 < |current| <= q.length && Matches(q, current)
    requires forall n :: NoDup(q.successors(n))
    ensures NoDup(PathsFrom(q, current))
    decreases q.length - |current|, 1, 0
  {
    if |current| < q.length { PathsViaDistinct(q, current, q.successors(current[|current| - 1])); }
  }

  lemma {:induction false} PathsViaDistinct(q: Query, current: Path, choices: seq<Entity>)
    requires 0 < |current| < q.length && Matches(q, current) && NoDup(choices)
    requires forall n | n in choices :: n in q.successors(current[|current| - 1])
    requires forall n :: NoDup(q.successors(n))
    ensures NoDup(PathsVia(q, current, choices))
    decreases q.length - |current|, 0, |choices|
  {
    if choices != [] {
      var n, rest := choices[0], choices[1..];
      assert n in choices && forall x | x in rest :: x in choices;
      assert forall i | 0 <= i < |rest| :: rest[i] == choices[i + 1];
      PathsViaDistinct(q, current, rest);
      if Extends(q, current, n) {
        MatchesSnoc(q, current, n);
        PathsFromDistinct(q, current + [n]);
        forall p | p in PathsFrom(q, current + [n]) ensures p !in PathsVia(q, current, rest) {
          PathsFromIff(q, current + [n], p);
          PathsViaIff(q, current, rest, p);
        }
        DistinctJoin(PathsFrom(q, current + [n]), PathsVia(q, current, rest));
      }
    }
  }

  /**
   * Exactly the simple paths of the requested length that start at `start` and pass, each once unless
   * edges are parallel.
   */
  lemma FoundPaths(q: Query, start: Entity)
    requires q.length > 0 && q.pred(0, start)
    ensures forall path :: path in PathsFrom(q, [start]) <==> |path| == q.length && path[0] == start && Matches(q, path)
    ensures (forall n :: NoDup(q.successors(n))) ==> NoDup(PathsFrom(q, [start]))
  {
    assert Matches(q, [start]);
    forall path ensures path in PathsFrom(q, [start]) <==> |path| == q.length && path[0] == start && Matches(q, path) {
      PathsFromIff(q, [start], path);
    }
    if forall n :: NoDup(q.successors(n)) { PathsFromDistinct(q, [start]); }
  }
}
