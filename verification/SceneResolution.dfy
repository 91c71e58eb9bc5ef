/** From scene entities to paths and back: `path_for` and `resolve_path` of `kyoso_agent::handle`. */
module SceneResolution {
  import opened Ecs
  import opened Sequences
  import opened Wrappers
  import opened Sorting
  import opened ScenePaths
  import OrderKeys

  /** The components the resolver reads; `sceneNodes` is in query order, `children` in child order. */
  datatype Scene = Scene(
    sceneNodes: seq<Entity>, childOf: map<Entity, Entity>, children: Entity -> seq<Entity>,
    frameName: Entity -> Option<string>, textContent: Entity -> Option<string>, orderKey: Entity -> Option<string>)

  /** `Children` mirrors `ChildOf`, which has no cycle. */
  ghost predicate Forest(s: Scene) {
    && NoDup(s.sceneNodes)
    && (forall p :: NoDup(s.children(p)))
    && (forall p: Entity, c: Entity {:trigger c in s.children(p)} :: c in s.children(p) <==>
      c in s.childOf && s.childOf[c] == p)
    && NoCycle(s)
  }

  ghost predicate NoCycle(s: Scene) {
    exists depth: Entity -> nat :: Deepens(s, depth)
  }

  ghost predicate Deepens(s: Scene, depth: Entity -> nat) {
    forall e | e in s.childOf :: depth(s.childOf[e]) < depth(e)
  }

  ghost function Depth(s: Scene): (depth: Entity -> nat)
    requires Forest(s)
    ensures Deepens(s, depth)
  {
    var depth: Entity -> nat :| Deepens(s, depth);
    depth
  }

  // ---- Children and names ----

  function Select(es: seq<Entity>, keep: Entity -> bool): seq<Entity> {
    if es == [] then [] else (if keep(es[0]) then [es[0]] else []) + Select(es[1..], keep)
  }

  lemma {:induction false} SelectMembers(es: seq<Entity>, keep: Entity -> bool)
    ensures forall e :: e in Select(es, keep) <==> e in es && keep(e)
  {
    if es != [] {
      SelectMembers(es[1..], keep);
      assert es == [es[0]] + es[1..];
    }
  }

  lemma {:induction false} SelectDistinct(es: seq<Entity>, keep: Entity -> bool)
    requires NoDup(es)
    ensures NoDup(Select(es, keep))
  {
    if es != [] {
      assert forall i | 0 <= i < |es[1..]| :: es[1..][i] == es[i + 1];
      SelectDistinct(es[1..], keep);
      SelectMembers(es[1..], keep);
    }
  }

  function ChildrenOf(s: Scene, parent: Option<Entity>): seq<Entity> {
    match parent
    case Some(p) => Select(s.children(p), (e: Entity) => e in s.sceneNodes)
    case None => Select(s.sceneNodes, (e: Entity) => e !in s.childOf)
  }

  /** The name of a frame, else the content of a text; an empty one counts as none. */
  function DisplayName(s: Scene, e: Entity): Option<string> {
    if s.frameName(e).Some? && s.frameName(e).value != "" then s.frameName(e)
    else if s.textContent(e).Some? && s.textContent(e).value != "" then s.textContent(e)
    else None
  }

  /** A frame name that is not empty, or else a text content that is not. */
  lemma DisplayNameIs(s: Scene, e: Entity, name: string)
    ensures DisplayName(s, e) == Some(name) <==>
      && name != ""
      && (s.frameName(e) == Some(name) || (s.textContent(e) == Some(name) && s.frameName(e) in [None, Some("")]))
  {
  }

  // ---- The order of siblings ----

  function KeyLess(a: Option<string>, b: Option<string>): bool {
    b.Some? && (a.None? || OrderKeys.Less(a.value, b.value))
  }

  /** By order key, a missing key first, and by entity among equal keys. */
  function SiblingOrder(s: Scene): (Entity, Entity) -> bool {
    (a: Entity, b: Entity) => KeyLess(s.orderKey(a), s.orderKey(b)) || (s.orderKey(a) == s.orderKey(b) && a <= b)
  }

  lemma SiblingOrderTotal(s: Scene)
    ensures TotalPreorder(SiblingOrder(s))
    ensures forall a, b :: SiblingOrder(s)(a, b) && SiblingOrder(s)(b, a) ==> a == b
  {
    forall a: Option<string>, b: Option<string>
      ensures KeyLess(a, b) || a == b || KeyLess(b, a)
      ensures !(KeyLess(a, b) && KeyLess(b, a)) && !KeyLess(a, a)
    {
      if a.Some? && b.Some? { OrderKeys.LessTotal(a.value, b.value); }
      if a.Some? { OrderKeys.LessTotal(a.value, a.value); }
    }
    forall a: Option<string>, b: Option<string>, c: Option<string> | KeyLess(a, b) && KeyLess(b, c)
      ensures KeyLess(a, c)
    {
      if a.Some? { OrderKeys.LessTransitive(a.value, b.value, c.value); }
    }
  }

  function SameName(s: Scene, siblings: seq<Entity>, name: string): seq<Entity> {
    StableSort(Select(siblings, (e: Entity) => DisplayName(s, e) == Some(name)), SiblingOrder(s))
  }

  function IndexIn(es: seq<Entity>, e: Entity): (r: Option<nat>)
    ensures r.Some? <==> e in es
    ensures r.Some? ==> r.value < |es| && es[r.value] == e
  {
    if es == [] then None else if es[0] == e then Some(0) else
      match IndexIn(es[1..], e) case None => None case Some(i) => Some(i + 1)
  }

  lemma SameNameMembers(s: Scene, siblings: seq<Entity>, name: string)
    requires NoDup(siblings)
    ensures NoDup(SameName(s, siblings, name))
    ensures forall e :: e in SameName(s, siblings, name) <==> e in siblings && DisplayName(s, e) == Some(name)
  {
    var chosen := Select(siblings, (e: Entity) => DisplayName(s, e) == Some(name));
    SelectDistinct(siblings, (e: Entity) => DisplayName(s, e) == Some(name));
    SelectMembers(siblings, (e: Entity) => DisplayName(s, e) == Some(name));
    var sorted := SameName(s, siblings, name);
    SortKeeps(chosen, SiblingOrder(s));
    assert forall e :: e in sorted <==> e in multiset(sorted);
    assert forall e :: e in chosen <==> e in multiset(chosen);
    DistinctCounts(chosen);
    CountsDistinct(sorted);
  }

  lemma {:induction false} DistinctCounts(es: seq<Entity>)
    requires NoDup(es)
    ensures forall e :: multiset(es)[e] <= 1
  {
    if es != [] {
      assert es == [es[0]] + es[1..];
      assert forall i | 0 <= i < |es[1..]| :: es[1..][i] == es[i + 1];
      DistinctCounts(es[1..]);
      assert es[0] !in es[1..];
    }
  }

  lemma CountsDistinct(es: seq<Entity>)
    requires forall e :: multiset(es)[e] <= 1
    ensures NoDup(es)
  {
    forall i, j | 0 <= i < j < |es| ensures es[i] != es[j] {
      assert es == es[..i] + [es[i]] + es[i + 1..j] + [es[j]] + es[j + 1..];
      assert multiset(es)[es[i]] <= 1;
    }
  }

  /** What is left of a number in 16 bits. */
  function Cut(i: nat): (r: Index)
    ensures r <= i && (r == i <==> i < 65536)
  {
    i % 65536
  }

  /** `same_name_index`: the place among the same-named siblings, cut to 16 bits. */
  function SameNameIndex(s: Scene, parent: Option<Entity>, child: Entity, name: string): Index {
    match IndexIn(SameName(s, ChildrenOf(s, parent), name), child)
    case None => 0
    case Some(i) => Cut(i)
  }

  /** A missing key comes first, then keys in lexicographic order, and entities with equal keys by their number. */
  predicate ComesBefore(s: Scene, a: Entity, b: Entity) {
    match (s.orderKey(a), s.orderKey(b))
    case (None, None) => a < b
    case (None, Some(_)) => true
    case (Some(_), None) => false
    case (Some(x), Some(y)) => OrderKeys.Less(x, y) || (x == y && a < b)
  }

  lemma OrderIsBefore(s: Scene, a: Entity, b: Entity)
    ensures SiblingOrder(s)(a, b) && a != b <==> ComesBefore(s, a, b)
  {
    if s.orderKey(a).Some? { OrderKeys.LessTotal(s.orderKey(a).value, s.orderKey(a).value); }
  }

  /** Of two same-named siblings the one that comes before has the lower place. */
  lemma IndexMeansEarlierSiblings(s: Scene, siblings: seq<Entity>, name: string, a: Entity, b: Entity)
    requires NoDup(siblings)
    requires a in SameName(s, siblings, name) && b in SameName(s, siblings, name)
    ensures
      var named := SameName(s, siblings, name);
      IndexIn(named, a).value < IndexIn(named, b).value <==> ComesBefore(s, a, b)
  {
    var named := SameName(s, siblings, name);
    OrderIsBefore(s, a, b);
    SiblingOrderTotal(s);
    StableSortSorted(Select(siblings, (e: Entity) => DisplayName(s, e) == Some(name)), SiblingOrder(s));
    var i, j := IndexIn(named, a).value, IndexIn(named, b).value;
    SameNameMembers(s, siblings, name);
    if i < j {
      assert SiblingOrder(s)(named[i], named[j]);
    } else if j < i {
      assert SiblingOrder(s)(named[j], named[i]);
    }
  }

  lemma {:induction false} IndexOf(es: seq<Entity>, i: nat)
    requires NoDup(es) && i < |es|
    ensures IndexIn(es, es[i]) == Some(i)
  {
    assert es[i] in es;
  }

  function Members(es: seq<Entity>): set<Entity> {
    set e | e in es
  }

  lemma {:induction false} DistinctCount(es: seq<Entity>)
    requires NoDup(es)
    ensures |Members(es)| == |es|
  {
    if es != [] {
      var l := |es| - 1;
      DistinctCount(es[..l]);
      assert es == es[..l] + [es[l]];
      assert es[l] !in es[..l];
      assert Members(es) == Members(es[..l]) + {es[l]};
    }
  }

  /** The same-named siblings that come before. */
  function Earlier(s: Scene, siblings: seq<Entity>, name: string, c: Entity): set<Entity> {
    set e | e in siblings && DisplayName(s, e) == Some(name) && ComesBefore(s, e, c)
  }

  lemma PlaceCounts(s: Scene, siblings: seq<Entity>, name: string, i: nat)
    requires NoDup(siblings) && i < |SameName(s, siblings, name)|
    ensures |Earlier(s, siblings, name, SameName(s, siblings, name)[i])| == i
  {
    var named := SameName(s, siblings, name);
    SameNameMembers(s, siblings, name);
    forall e ensures e in Earlier(s, siblings, name, named[i]) <==> e in named[..i] {
      if e in named {
        var j :| 0 <= j < |named| && named[j] == e;
        IndexOf(named, i);
        IndexOf(named, j);
        IndexMeansEarlierSiblings(s, siblings, name, e, named[i]);
        if e in named[..i] {
          var k :| 0 <= k < i && named[..i][k] == e;
          IndexOf(named, k);
        }
      }
    }
    assert Earlier(s, siblings, name, named[i]) == Members(named[..i]);
    DistinctCount(named[..i]);
  }

  // ---- One step up and one step down ----

  function PartFor(s: Scene, parent: Option<Entity>, child: Entity): Option<Part> {
    match DisplayName(s, child)
    case Some(name) => Some(Named(name, SameNameIndex(s, parent, child, name)))
    case None => match s.orderKey(child) case None => None case Some(key) => Some(Ordered(key))
  }

  function FirstWithKey(s: Scene, es: seq<Entity>, key: string): Option<Entity> {
    if es == [] then None else if s.orderKey(es[0]) == Some(key) then Some(es[0]) else FirstWithKey(s, es[1..], key)
  }

  function FindChild(s: Scene, candidates: seq<Entity>, part: Part): Option<Entity> {
    match part
    case Named(name, index) =>
      var matches := SameName(s, candidates, name);
      if index < |matches| then Some(matches[index]) else None
    case Ordered(key) => FirstWithKey(s, candidates, key)
  }

  /** The first of the candidates with the key. */
  lemma {:induction false} OrderedFinds(s: Scene, es: seq<Entity>, key: string, c: Entity)
    ensures FindChild(s, es, Ordered(key)) == Some(c) <==>
      exists i :: 0 <= i < |es| && es[i] == c && s.orderKey(c) == Some(key) && NoneHas(s, es[..i], key)
  {
    if es != [] {
      if s.orderKey(es[0]) == Some(key) {
        assert NoneHas(s, es[..0], key);
        forall i | 0 < i < |es| ensures !NoneHas(s, es[..i], key) { assert es[..i][0] == es[0]; }
      } else {
        OrderedFinds(s, es[1..], key, c);
        forall i | 0 < i < |es| ensures NoneHas(s, es[..i], key) <==> NoneHas(s, es[1..][..i - 1], key) {
          assert es[..i] == [es[0]] + es[1..][..i - 1];
        }
        if i :| 0 <= i < |es| && es[i] == c && s.orderKey(c) == Some(key) && NoneHas(s, es[..i], key) {
          assert es[1..][i - 1] == c;
        }
        if i :| 0 <= i < |es[1..]| && es[1..][i] == c && s.orderKey(c) == Some(key) && NoneHas(s, es[1..][..i], key) {
          assert es[i + 1] == c;
        }
      }
    }
  }

  predicate NoneHas(s: Scene, es: seq<Entity>, key: string) {
    forall e | e in es :: s.orderKey(e) != Some(key)
  }

  lemma {:induction false} FirstWithKeyIs(s: Scene, es: seq<Entity>, key: string)
    ensures var r := FirstWithKey(s, es, key); r.Some? ==> r.value in es && s.orderKey(r.value) == Some(key)
    ensures FirstWithKey(s, es, key).None? ==> forall e | e in es :: s.orderKey(e) != Some(key)
  {
    if es != [] { FirstWithKeyIs(s, es[1..], key); }
  }

  lemma FoundIsChild(s: Scene, candidates: seq<Entity>, part: Part)
    requires NoDup(candidates)
    ensures var r := FindChild(s, candidates, part); r.Some? ==> r.value in candidates
  {
    match part
    case Named(name, index) =>
      SameNameMembers(s, candidates, name);
      if index < |SameName(s, candidates, name)| {
        assert SameName(s, candidates, name)[index] in SameName(s, candidates, name);
      }
    case Ordered(key) => FirstWithKeyIs(s, candidates, key);
  }

  /** A name with an index finds the child of that name which so many of its namesakes come before. */
  lemma NamedFinds(s: Scene, candidates: seq<Entity>, name: string, index: Index, c: Entity)
    requires NoDup(candidates)
    ensures FindChild(s, candidates, Named(name, index)) == Some(c) <==>
      c in candidates && DisplayName(s, c) == Some(name) && |Earlier(s, candidates, name, c)| == index
  {
    var named := SameName(s, candidates, name);
    SameNameMembers(s, candidates, name);
    if index < |named| {
      assert named[index] in named;
      PlaceCounts(s, candidates, name, index);
    }
    if c in named {
      var i :| 0 <= i < |named| && named[i] == c;
      PlaceCounts(s, candidates, name, i);
    }
  }

  /** The part made for a child holds its name and how many of its namesakes come before, in 16 bits. */
  lemma PartCountsNamesakes(s: Scene, parent: Option<Entity>, child: Entity, name: string)
    requires Forest(s) && child in ChildrenOf(s, parent) && DisplayName(s, child) == Some(name)
    ensures PartFor(s, parent, child) == Some(Named(name, |Earlier(s, ChildrenOf(s, parent), name, child)| % 65536))
  {
    var siblings := ChildrenOf(s, parent);
    ChildrenDistinct(s, parent);
    SameNameMembers(s, siblings, name);
    PlaceCounts(s, siblings, name, IndexIn(SameName(s, siblings, name), child).value);
  }

  /** The part made for a child finds that child again. */
  predicate Faithful(s: Scene, parent: Option<Entity>, child: Entity) {
    var siblings := ChildrenOf(s, parent);
    && child in siblings
    && match DisplayName(s, child)
       case Some(name) => var i := IndexIn(SameName(s, siblings, name), child); i.Some? && i.value < 65536
       case None => s.orderKey(child).Some? && FirstWithKey(s, siblings, s.orderKey(child).value) == Some(child)
  }

  lemma ChildrenDistinct(s: Scene, parent: Option<Entity>)
    requires Forest(s)
    ensures NoDup(ChildrenOf(s, parent))
    ensures forall c :: c in ChildrenOf(s, parent) <==>
      c in s.sceneNodes && match parent case None => c !in s.childOf case Some(p) => c in s.childOf && s.childOf[c] == p
  {
    match parent
    case Some(p) =>
      SelectDistinct(s.children(p), (e: Entity) => e in s.sceneNodes);
      SelectMembers(s.children(p), (e: Entity) => e in s.sceneNodes);
    case None =>
      SelectDistinct(s.sceneNodes, (e: Entity) => e !in s.childOf);
      SelectMembers(s.sceneNodes, (e: Entity) => e !in s.childOf);
  }

  lemma StepFaithful(s: Scene, parent: Option<Entity>, child: Entity)
    requires Forest(s) && PartFor(s, parent, child).Some?
    ensures FindChild(s, ChildrenOf(s, parent), PartFor(s, parent, child).value) == Some(child) <==>
      Faithful(s, parent, child)
  {
    var siblings := ChildrenOf(s, parent);
    ChildrenDistinct(s, parent);
    FoundIsChild(s, siblings, PartFor(s, parent, child).value);
    if DisplayName(s, child).Some? {
      var name := DisplayName(s, child).value;
      SameNameMembers(s, siblings, name);
      IndexCut(SameName(s, siblings, name), child);
    }
  }

  lemma IndexCut(es: seq<Entity>, e: Entity)
    requires NoDup(es)
    ensures e in es ==> var i := IndexIn(es, e).value; es[Cut(i)] == e <==> i < 65536
  {
  }

  // ---- Whole paths ----

  /** The ancestors of `e`, root first, then `e` itself. */
  function Chain(s: Scene, e: Entity): (r: seq<Entity>)
    requires Forest(s)
    ensures r != [] && r[|r| - 1] == e
    decreases Depth(s)(e)
  {
    if e in s.childOf then Chain(s, s.childOf[e]) + [e] else [e]
  }

  function PartsFor(s: Scene, parent: Option<Entity>, chain: seq<Entity>): Option<ScenePath>
    decreases |chain|
  {
    if chain == [] then Some([]) else
      match PartFor(s, parent, chain[0])
      case None => None
      case Some(part) =>
        match PartsFor(s, Some(chain[0]), chain[1..]) case None => None case Some(rest) => Some([part] + rest)
  }

  function PathFor(s: Scene, e: Entity): Option<ScenePath>
    requires Forest(s)
  {
    PartsFor(s, None, Chain(s, e))
  }

  /** The entity reached from `parent`; `None` is also the answer for the empty path at the root. */
  function ResolveFrom(s: Scene, parent: Option<Entity>, path: ScenePath): Option<Entity>
    decreases |path|
  {
    if path == [] then parent else
      match FindChild(s, ChildrenOf(s, parent), path[0])
      case None => None
      case Some(next) => ResolveFrom(s, Some(next), path[1..])
  }

  /** `resolve_path`. */
  method ResolvePath(s: Scene, path: ScenePath) returns (r: Option<Entity>)
    ensures r == ResolveFrom(s, None, path)
  {
    r := None;
    assert path[0..] == path;
    for i := 0 to |path|
      invariant ResolveFrom(s, None, path) == ResolveFrom(s, r, path[i..])
    {
      assert path[i..][1..] == path[i + 1..];
      var next := FindChild(s, ChildrenOf(s, r), path[i]);
      if next.None? { return None; }
      r := next;
    }
  }

  lemma ClimbStep(s: Scene, cursor: Entity, chain: seq<Entity>)
    requires Forest(s) && cursor in s.childOf && chain != [] && chain[|chain| - 1] == cursor
    ensures
      var next := chain + [s.childOf[cursor]];
      && next[..|next| - 1] == chain
      && Chain(s, cursor) + Reversed(chain[..|chain| - 1]) == Chain(s, s.childOf[cursor]) + Reversed(chain)
  {
  }

  /** The loop up the ancestors, and the reversal of what it gathered. */
  method ClimbChain(s: Scene, e: Entity) returns (chain: seq<Entity>)
    requires Forest(s)
    ensures chain == Chain(s, e)
  {
    var cursor := e;
    chain := [e];
    while cursor in s.childOf
      invariant chain != [] && chain[|chain| - 1] == cursor
      invariant Chain(s, e) == Chain(s, cursor) + Reversed(chain[..|chain| - 1])
      decreases Depth(s)(cursor)
    {
      ClimbStep(s, cursor, chain);
      cursor := s.childOf[cursor];
      chain := chain + [cursor];
    }
    chain := Reversed(chain);
  }

  /** `path_for`. */
  method ComputePath(s: Scene, e: Entity) returns (r: Option<ScenePath>)
    requires Forest(s)
    ensures r == PathFor(s, e)
  {
    var chain := ClimbChain(s, e);
    var parts: ScenePath := [];
    var parent: Option<Entity> := None;
    assert chain[0..] == chain && (PathFor(s, e).Some? ==> [] + PathFor(s, e).value == PathFor(s, e).value);
    for i := 0 to |chain|
      invariant PathFor(s, e) == Extend(parts, PartsFor(s, parent, chain[i..]))
    {
      assert chain[i..][1..] == chain[i + 1..];
      var part := PartFor(s, parent, chain[i]);
      if part.None? { return None; }
      ExtendLast(parts, part.value, PartsFor(s, Some(chain[i]), chain[i + 1..]));
      parts := parts + [part.value];
      parent := Some(chain[i]);
    }
    assert parts + [] == parts;
    return Some(parts);
  }

  function Extend(parts: ScenePath, rest: Option<ScenePath>): Option<ScenePath> {
    match rest case None => None case Some(more) => Some(parts + more)
  }

  function Reversed(es: seq<Entity>): (r: seq<Entity>)
    ensures |r| == |es|
  {
    if es == [] then [] else [es[|es| - 1]] + Reversed(es[..|es| - 1])
  }

  function Before(part: Part, rest: Option<ScenePath>): Option<ScenePath> {
    match rest case None => None case Some(more) => Some([part] + more)
  }

  lemma ExtendLast(parts: ScenePath, part: Part, rest: Option<ScenePath>)
    ensures Extend(parts, Before(part, rest)) == Extend(parts + [part], rest)
  {
    if rest.Some? { assert parts + ([part] + rest.value) == parts + [part] + rest.value; }
  }

  // ---- The path of an entity leads back to it ----

  predicate AllFaithful(s: Scene, parent: Option<Entity>, chain: seq<Entity>)
    decreases |chain|
  {
    chain == [] || (Faithful(s, parent, chain[0]) && AllFaithful(s, Some(chain[0]), chain[1..]))
  }

  predicate ChildIn(s: Scene, parent: Option<Entity>, e: Entity) {
    match parent case None => e !in s.childOf case Some(p) => e in s.childOf && s.childOf[e] == p
  }

  /** The chain leads down from `parent`. */
  predicate Hangs(s: Scene, parent: Option<Entity>, chain: seq<Entity>)
    decreases |chain|
  {
    chain == [] || (ChildIn(s, parent, chain[0]) && Hangs(s, Some(chain[0]), chain[1..]))
  }

  lemma {:induction false} HangsPush(s: Scene, parent: Option<Entity>, chain: seq<Entity>, e: Entity)
    requires Hangs(s, parent, chain) && ChildIn(s, if chain == [] then parent else Some(chain[|chain| - 1]), e)
    ensures Hangs(s, parent, chain + [e])
    decreases |chain|
  {
    if chain != [] {
      assert (chain + [e])[1..] == chain[1..] + [e];
      HangsPush(s, Some(chain[0]), chain[1..], e);
    }
  }

  lemma {:induction false} ChainHangs(s: Scene, e: Entity)
    requires Forest(s)
    ensures Hangs(s, None, Chain(s, e))
    decreases Depth(s)(e)
  {
    if e in s.childOf {
      ChainHangs(s, s.childOf[e]);
      HangsPush(s, None, Chain(s, s.childOf[e]), e);
    }
  }

  function Ancestor(s: Scene, e: Entity, n: nat): Option<Entity> {
    if n == 0 then Some(e) else
      match Ancestor(s, e, n - 1)
      case None => None
      case Some(a) => if a in s.childOf then Some(s.childOf[a]) else None
  }

  /** What is found below an entity is its child. */
  lemma FoundBelow(s: Scene, x: Entity, part: Part)
    requires Forest(s)
    ensures var r := FindChild(s, ChildrenOf(s, Some(x)), part); r.Some? ==>
      r.value in s.childOf && s.childOf[r.value] == x
  {
    ChildrenDistinct(s, Some(x));
    FoundIsChild(s, ChildrenOf(s, Some(x)), part);
  }

  lemma ResolvedFirst(s: Scene, x: Entity, path: ScenePath, e: Entity) returns (next: Entity)
    requires Forest(s) && path != [] && ResolveFrom(s, Some(x), path) == Some(e)
    ensures next in s.childOf && s.childOf[next] == x && ResolveFrom(s, Some(next), path[1..]) == Some(e)
  {
    FoundBelow(s, x, path[0]);
    next := FindChild(s, ChildrenOf(s, Some(x)), path[0]).value;
  }

  lemma {:induction false} ResolvedAncestor(s: Scene, x: Entity, path: ScenePath, e: Entity)
    requires Forest(s) && ResolveFrom(s, Some(x), path) == Some(e)
    ensures Ancestor(s, e, |path|) == Some(x)
    decreases |path|
  {
    if path != [] {
      var next := ResolvedFirst(s, x, path, e);
      ResolvedAncestor(s, next, path[1..], e);
      AncestorStep(s, e, |path|, next);
    }
  }

  lemma AncestorStep(s: Scene, e: Entity, n: nat, a: Entity)
    requires n > 0 && Ancestor(s, e, n - 1) == Some(a) && a in s.childOf
    ensures Ancestor(s, e, n) == Some(s.childOf[a])
  {
  }

  lemma {:induction false} HangsAncestor(s: Scene, x: Entity, chain: seq<Entity>)
    requires Hangs(s, Some(x), chain)
    ensures Ancestor(s, ([x] + chain)[|chain|], |chain|) == Some(x)
    decreases |chain|
  {
    if chain != [] {
      HangsAncestor(s, chain[0], chain[1..]);
      assert chain == [chain[0]] + chain[1..];
    }
  }

  lemma {:induction false} PartsLength(s: Scene, parent: Option<Entity>, chain: seq<Entity>)
    ensures PartsFor(s, parent, chain).Some? ==> |PartsFor(s, parent, chain).value| == |chain|
    decreases |chain|
  {
    if chain != [] { PartsLength(s, Some(chain[0]), chain[1..]); }
  }

  /** A path that ends at the right entity went through the right ancestors. */
  lemma NoDetour(s: Scene, x: Entity, path: ScenePath, y: Entity, chain: seq<Entity>)
    requires Forest(s) && |path| == |chain| && Hangs(s, Some(y), chain)
    requires ResolveFrom(s, Some(x), path) == Some(([y] + chain)[|chain|])
    ensures x == y
  {
    ResolvedAncestor(s, x, path, ([y] + chain)[|chain|]);
    HangsAncestor(s, y, chain);
  }

  /** Only the right first step leads to the right entity. */
  lemma FirstStepForced(s: Scene, parent: Option<Entity>, chain: seq<Entity>, path: ScenePath, next: Entity)
    requires Forest(s) && chain != [] && Hangs(s, parent, chain) && |path| == |chain|
    requires ResolveFrom(s, Some(next), path[1..]) == Some(chain[|chain| - 1])
    ensures next == chain[0]
  {
    assert chain == [chain[0]] + chain[1..];
    NoDetour(s, next, path[1..], chain[0], chain[1..]);
  }

  lemma PartsTail(s: Scene, parent: Option<Entity>, chain: seq<Entity>, path: ScenePath)
    requires chain != [] && PartsFor(s, parent, chain) == Some(path)
    ensures path != [] && PartFor(s, parent, chain[0]) == Some(path[0])
      && PartsFor(s, Some(chain[0]), chain[1..]) == Some(path[1..])
    ensures |path| == |chain|
  {
    PartsLength(s, parent, chain);
  }

  lemma {:induction false} ResolveIffFaithful(s: Scene, parent: Option<Entity>, chain: seq<Entity>, path: ScenePath)
    requires Forest(s) && chain != [] && Hangs(s, parent, chain) && PartsFor(s, parent, chain) == Some(path)
    ensures ResolveFrom(s, parent, path) == Some(chain[|chain| - 1]) <==> AllFaithful(s, parent, chain)
    decreases |chain|
  {
    PartsTail(s, parent, chain, path);
    StepFaithful(s, parent, chain[0]);
    var next := FindChild(s, ChildrenOf(s, parent), path[0]);
    if next.Some? && ResolveFrom(s, next, path[1..]) == Some(chain[|chain| - 1]) {
      FirstStepForced(s, parent, chain, path, next.value);
    }
    if |chain| > 1 { ResolveIffFaithful(s, Some(chain[0]), chain[1..], path[1..]); }
  }

  /** The path made for an entity resolves to it exactly when every step of the way is faithful. */
  lemma ResolveInvertsPath(s: Scene, e: Entity)
    requires Forest(s) && PathFor(s, e).Some?
    ensures ResolveFrom(s, None, PathFor(s, e).value) == Some(e) <==> AllFaithful(s, None, Chain(s, e))
  {
    ChainHangs(s, e);
    ResolveIffFaithful(s, None, Chain(s, e), PathFor(s, e).value);
  }

  // ---- When there is no path ----

  /** Nothing to make a part of: no display name and no order key. */
  predicate Nameless(s: Scene, e: Entity) {
    DisplayName(s, e).None? && s.orderKey(e).None?
  }

  lemma {:induction false} PartsFailIff(s: Scene, parent: Option<Entity>, chain: seq<Entity>)
    ensures PartsFor(s, parent, chain).None? <==> exists c :: c in chain && Nameless(s, c)
    decreases |chain|
  {
    if chain != [] {
      PartsFailIff(s, Some(chain[0]), chain[1..]);
      assert PartFor(s, parent, chain[0]).None? <==> Nameless(s, chain[0]);
      if c :| c in chain && Nameless(s, c) { assert c == chain[0] || c in chain[1..]; }
      assert chain[0] in chain;
    }
  }

  /**
   * There is no path exactly when the entity or an ancestor has neither name nor key. Whether the
   * ancestors are scene nodes, which the documentation asks for, plays no part.
   */
  lemma NoPathIffNameless(s: Scene, e: Entity)
    requires Forest(s)
    ensures PathFor(s, e).None? <==> exists c :: c in Chain(s, e) && Nameless(s, c)
  {
    PartsFailIff(s, None, Chain(s, e));
  }

  /** Entity 2 below entity 1, both named, of which only 2 is a scene node. */
  function BelowAStranger(): Scene {
    Scene([2], map[2 := 1], (p: Entity) => if p == 1 then [2] else [],
          (_: Entity) => Some("a"), (_: Entity) => None, (_: Entity) => None)
  }

  lemma StrangerForest()
    ensures Forest(BelowAStranger()) && Chain(BelowAStranger(), 2) == [1, 2]
  {
    var s := BelowAStranger();
    assert Deepens(s, (e: Entity) => e);
    assert Chain(s, 1) == [1];
  }

  /** A named ancestor that is no scene node gets a part, and the path then leads nowhere. */
  lemma StrangerHasAPath()
    ensures
      var s := BelowAStranger();
      && Forest(s) && 1 in Chain(s, 2) && 1 !in s.sceneNodes
      && PathFor(s, 2).Some? && ResolveFrom(s, None, PathFor(s, 2).value) == None
  {
    var s := BelowAStranger();
    StrangerForest();
    NoPathIffNameless(s, 2);
    var path := PathFor(s, 2).value;
    PartsTail(s, None, [1, 2], path);
    assert ChildrenOf(s, None) == [] by { assert 2 in s.childOf; }
    FoundIsChild(s, [], path[0]);
  }

  /**
   * The index in a part is the place among the namesakes, cut to 16 bits: the part of the child at
   * place `i` finds the namesake at the place that is left of `i`.
   */
  lemma PartFindsCutPlace(s: Scene, parent: Option<Entity>, child: Entity, name: string, named: seq<Entity>, i: nat)
    requires Forest(s) && child in ChildrenOf(s, parent) && DisplayName(s, child) == Some(name)
    requires named == SameName(s, ChildrenOf(s, parent), name) && IndexIn(named, child) == Some(i)
    ensures FindChild(s, ChildrenOf(s, parent), PartFor(s, parent, child).value) == Some(named[Cut(i)])
    ensures named[Cut(i)] == child <==> i < 65536
  {
    ChildrenDistinct(s, parent);
    SameNameMembers(s, ChildrenOf(s, parent), name);
    IndexCut(named, child);
  }

  /** The path part of the 65537th of the namesakes finds the first of them instead. */
  lemma NamesakeTooFar(s: Scene, parent: Option<Entity>, child: Entity, name: string)
    requires Forest(s) && child in ChildrenOf(s, parent) && DisplayName(s, child) == Some(name)
    requires IndexIn(SameName(s, ChildrenOf(s, parent), name), child) == Some(65536)
    ensures
      var first := SameName(s, ChildrenOf(s, parent), name)[0];
      FindChild(s, ChildrenOf(s, parent), PartFor(s, parent, child).value) == Some(first) && first != child
  {
    PartFindsCutPlace(s, parent, child, name, SameName(s, ChildrenOf(s, parent), name), 65536);
  }

  // ---- Scenes without surprises ----

  /** Scene nodes only, order keys that tell unnamed siblings from all others, and no name shared too often. */
  ghost predicate Plain(s: Scene) {
    && (forall e | e in s.childOf :: e in s.sceneNodes && s.childOf[e] in s.sceneNodes)
    && (forall parent: Option<Entity>, a: Entity, b: Entity | a in ChildrenOf(s, parent)
      && b in ChildrenOf(s, parent) ::
          DisplayName(s, a).None? && s.orderKey(a).Some? && s.orderKey(a) == s.orderKey(b) ==> a == b)
    && (forall parent: Option<Entity>, name: string :: |SameName(s, ChildrenOf(s, parent), name)| <= 65536)
  }

  lemma PlainFaithful(s: Scene, parent: Option<Entity>, c: Entity)
    requires Forest(s) && Plain(s) && c in s.sceneNodes && ChildIn(s, parent, c) && PartFor(s, parent, c).Some?
    ensures Faithful(s, parent, c)
  {
    var siblings := ChildrenOf(s, parent);
    ChildrenDistinct(s, parent);
    match DisplayName(s, c)
    case Some(name) =>
      SameNameMembers(s, siblings, name);
      assert |SameName(s, siblings, name)| <= 65536;
    case None =>
      FirstWithKeyIs(s, siblings, s.orderKey(c).value);
  }

  lemma {:induction false} PlainAllFaithful(s: Scene, parent: Option<Entity>, chain: seq<Entity>)
    requires Forest(s) && Plain(s) && Hangs(s, parent, chain) && PartsFor(s, parent, chain).Some?
    requires forall c | c in chain :: c in s.sceneNodes
    ensures AllFaithful(s, parent, chain)
    decreases |chain|
  {
    if chain != [] {
      PlainFaithful(s, parent, chain[0]);
      PlainAllFaithful(s, Some(chain[0]), chain[1..]);
    }
  }

  lemma {:induction false} ChainOfNodes(s: Scene, e: Entity)
    requires Forest(s) && Plain(s) && e in s.sceneNodes
    ensures forall c | c in Chain(s, e) :: c in s.sceneNodes
    decreases Depth(s)(e)
  {
    if e in s.childOf { ChainOfNodes(s, s.childOf[e]); }
  }

  // ---- Through the text form ----

  predicate KeysSlashless(s: Scene, chain: seq<Entity>) {
    forall c | c in chain :: DisplayName(s, c).None? && s.orderKey(c).Some? ==> '/' !in s.orderKey(c).value
  }

  /** A display name is never empty, so only a slash in an order key can spoil the printed path. */
  lemma {:induction false} PartsWellFormed(s: Scene, parent: Option<Entity>, chain: seq<Entity>)
    requires PartsFor(s, parent, chain).Some?
    ensures WellFormed(PartsFor(s, parent, chain).value) <==> KeysSlashless(s, chain)
    decreases |chain|
  {
    if chain != [] {
      var rest := PartsFor(s, Some(chain[0]), chain[1..]).value;
      PartsWellFormed(s, Some(chain[0]), chain[1..]);
      var path := PartsFor(s, parent, chain).value;
      assert path[0] == PartFor(s, parent, chain[0]).value && path[1..] == rest;
      assert WellFormed(path) <==> PartPrints(path[0]) && Slashless(path[0]) && WellFormed(rest) by {
        assert forall i | 0 <= i < |rest| :: rest[i] == path[i + 1];
        assert forall i | 0 < i < |path| :: path[i] == rest[i - 1];
      }
      assert forall c :: c in chain <==> c == chain[0] || c in chain[1..];
    }
  }

  /** In a plain scene the printed path of a node is text that parses and resolves to that node. */
  lemma PrintedPathLeadsBack(s: Scene, e: Entity)
    requires Forest(s) && Plain(s) && e in s.sceneNodes && PathFor(s, e).Some?
    ensures ResolveFrom(s, None, PathFor(s, e).value) == Some(e)
    ensures Parse(Print(PathFor(s, e).value)) == Ok(PathFor(s, e).value) <==> KeysSlashless(s, Chain(s, e))
  {
    ChainHangs(s, e);
    ChainOfNodes(s, e);
    PlainAllFaithful(s, None, Chain(s, e));
    ResolveInvertsPath(s, e);
    PartsWellFormed(s, None, Chain(s, e));
    RoundTrip(PathFor(s, e).value);
  }
}
