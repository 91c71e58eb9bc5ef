/** Fractional sibling keys: `OrderKey` of `kyoso_graph::tree`, on ASCII strings. */
module OrderKeys {
  import opened Wrappers

  type Ascii = c: char | c < '\U{80}' witness 'n'

  type Key = seq<Ascii>

  /** `u8::midpoint`. */
  function Mid(a: Ascii, b: Ascii): (m: Ascii)
    ensures Gap(a, b) ==> a < m < b
  {
    ((a as int + b as int) / 2) as char
  }

  /** Halfway, rounded down. */
  lemma MidHalves(a: Ascii, b: Ascii)
    ensures Mid(a, b) as int + Mid(a, b) as int <= a as int + b as int <= Mid(a, b) as int + Mid(a, b) as int + 1
  {
  }

  /** Whether a byte lies strictly between. */
  predicate Gap(a: Ascii, b: Ascii) { b as int > a as int + 1 }

  /** The order of keys: lexicographic, a proper prefix first. */
  predicate Less(a: string, b: string) {
    b != [] && (a == [] || a[0] < b[0] || (a[0] == b[0] && Less(a[1..], b[1..])))
  }

  /** Letters 'a' to 'z' and the byte below 'a', the last one a letter. */
  predicate WellFormed(k: Key) {
    k != [] && (forall i | 0 <= i < |k| :: '`' <= k[i] <= 'z') && k[|k| - 1] >= 'a'
  }

  predicate Letters(k: Key) {
    forall i | 0 <= i < |k| :: 'a' <= k[i] <= 'z'
  }

  // ---- The order ----

  lemma {:induction false} LessTransitive(a: string, b: string, c: string)
    requires Less(a, b) && Less(b, c)
    ensures Less(a, c)
  {
    if a != [] && a[0] == b[0] == c[0] { LessTransitive(a[1..], b[1..], c[1..]); }
  }

  lemma {:induction false} LessTotal(a: string, b: string)
    ensures Less(a, b) || a == b || Less(b, a)
    ensures !(Less(a, b) && Less(b, a)) && !Less(a, a)
  {
    if a != [] { LessTotal(a[1..], a[1..]); }
    if a != [] && b != [] && a[0] == b[0] {
      LessTotal(a[1..], b[1..]);
      assert a == [a[0]] + a[1..] && b == [b[0]] + b[1..];
    }
  }

  /** The keys part at some place: there the first has ended, or has the lower character. */
  predicate PartAt(a: string, b: string, i: nat) {
    i <= |a| && i < |b| && a[..i] == b[..i] && (i == |a| || a[i] < b[i])
  }

  lemma {:induction false} LessIsLexicographic(a: string, b: string)
    ensures Less(a, b) <==> exists i: nat :: PartAt(a, b, i)
  {
    if a == [] || b == [] {
      if b != [] { assert PartAt(a, b, 0); }
    } else if a[0] != b[0] {
      assert forall i: nat | 0 < i <= |a| && i < |b| :: a[..i][0] == a[0] && b[..i][0] == b[0];
      if a[0] < b[0] { assert PartAt(a, b, 0); }
    } else {
      LessIsLexicographic(a[1..], b[1..]);
      if i: nat :| PartAt(a[1..], b[1..], i) {
        assert a[..i + 1] == [a[0]] + a[1..][..i] && b[..i + 1] == [b[0]] + b[1..][..i];
        assert PartAt(a, b, i + 1);
      }
      if i: nat :| PartAt(a, b, i) {
        assert i > 0;
        assert a[1..][..i - 1] == a[..i][1..] && b[1..][..i - 1] == b[..i][1..];
        assert PartAt(a[1..], b[1..], i - 1);
      }
    }
  }

  lemma {:induction false} LessExtended(a: string, s: string)
    ensures Less(a, a + s) <==> s != []
  {
    if a == [] {
      assert a + s == s;
    } else {
      assert (a + s)[1..] == a[1..] + s;
      LessExtended(a[1..], s);
    }
  }

  // ---- Below a key ----

  /** A key smaller than `r`: halfway down to 'a' at the first byte above 'a'. */
  function BelowKey(r: Key): Option<Key> {
    if r == [] then None
    else if r[0] > 'a' then Some([Mid('a', r[0])])
    else match BelowKey(r[1..]) case None => None case Some(k) => Some([r[0]] + k)
  }

  lemma {:induction false} BelowKeyLess(r: Key)
    ensures BelowKey(r).None? <==> forall i | 0 <= i < |r| :: r[i] <= 'a'
    ensures BelowKey(r).Some? ==> Less(BelowKey(r).value, r) && 0 < |BelowKey(r).value| <= |r|
  {
    if r != [] && r[0] <= 'a' {
      var tail := r[1..];
      BelowKeyLess(tail);
      assert forall i | 0 <= i < |tail| :: tail[i] == r[i + 1];
      if BelowKey(tail).None? {
        forall i | 0 <= i < |r| ensures r[i] <= 'a' { if i > 0 { assert tail[i - 1] <= 'a'; } }
      }
    }
  }

  lemma {:induction false} BelowKeyShaped(r: Key)
    ensures BelowKey(r).Some? && WellFormed(r) ==> WellFormed(BelowKey(r).value)
    ensures BelowKey(r).Some? && Letters(r) ==> Letters(BelowKey(r).value)
  {
    if r != [] && r[0] <= 'a' {
      BelowKeyShaped(r[1..]);
      assert forall i | 0 <= i < |r[1..]| :: r[1..][i] == r[i + 1];
      if BelowKey(r[1..]).Some? { LettersCons(r[0], BelowKey(r[1..]).value); }
    }
  }

  /** `before` panics exactly on keys without a byte above 'a'; otherwise its result is below `r` and no longer. */
  lemma BelowKeyBelow(r: Key)
    ensures BelowKey(r).None? <==> forall i | 0 <= i < |r| :: r[i] <= 'a'
    ensures BelowKey(r).Some? ==> Less(BelowKey(r).value, r) && 0 < |BelowKey(r).value| <= |r|
    ensures BelowKey(r).Some? && WellFormed(r) ==> WellFormed(BelowKey(r).value)
    ensures BelowKey(r).Some? && Letters(r) ==> Letters(BelowKey(r).value)
  {
    BelowKeyLess(r);
    BelowKeyShaped(r);
  }

  function Prefixed(prefix: Key, k: Option<Key>): Option<Key> {
    match k case None => None case Some(rest) => Some(prefix + rest)
  }

  lemma PrefixedStep(prefix: Key, s: Key)
    requires s != [] && s[0] <= 'a'
    ensures Prefixed(prefix, BelowKey(s)) == Prefixed(prefix + [s[0]], BelowKey(s[1..]))
  {
    if BelowKey(s[1..]).Some? {
      var k := BelowKey(s[1..]).value;
      assert prefix + ([s[0]] + k) == prefix + [s[0]] + k;
    }
  }

  /** `OrderKey::before`; `None` stands for its panic. */
  method Before(r: Key) returns (k: Option<Key>)
    ensures k == BelowKey(r)
  {
    var prefix: Key := [];
    assert r[0..] == r && (BelowKey(r).Some? ==> [] + BelowKey(r).value == BelowKey(r).value);
    for i := 0 to |r|
      invariant BelowKey(r) == Prefixed(prefix, BelowKey(r[i..]))
    {
      if r[i] > 'a' { return Some(prefix + [Mid('a', r[i])]); }
      assert r[i..][1..] == r[i + 1..];
      PrefixedStep(prefix, r[i..]);
      prefix := prefix + [r[i]];
    }
    return None;
  }

  // ---- Between two keys ----

  function LowAt(k: Key): Ascii { if k == [] then '`' else k[0] }

  function HighAt(k: Key): Ascii { if k == [] then '{' else k[0] }

  function Rest(k: Key): Key { if k == [] then [] else k[1..] }

  /** Copies `l` up to the first byte with a gap above it, and goes halfway into the gap. */
  function Middle(l: Key, r: Key): (k: Key)
    ensures k != []
    decreases |l| + |r|
  {
    if l == [] && r == [] then "n"
    else if Gap(LowAt(l), HighAt(r)) then [Mid(LowAt(l), HighAt(r))]
    else [LowAt(l)] + Middle(Rest(l), Rest(r))
  }

  lemma {:induction false} MiddleAbove(l: Key, r: Key)
    ensures Less(l, Middle(l, r))
    decreases |l| + |r|
  {
    if l != [] && !Gap(LowAt(l), HighAt(r)) { MiddleAbove(l[1..], Rest(r)); }
  }

  /** The first byte of `s` other than the one below 'a' is a letter, or above. */
  predicate Headroom(s: Key) {
    s != [] && (s[0] > '`' || (s[0] == '`' && Headroom(s[1..])))
  }

  /** There is a key between `l` and `r` that `midpoint` can reach: `r` is not `l` followed only by bytes below 'a'. */
  predicate Room(l: Key, r: Key) {
    l <= r ==> Headroom(r[|l|..])
  }

  /** The middle of two ordered keys is below the upper one exactly when there is room above the lower one. */
  lemma {:induction false} MiddleBelow(l: Key, r: Key)
    requires Less(l, r)
    ensures Less(Middle(l, r), r) <==> Room(l, r)
    decreases |l| + |r|
  {
    if l == [] {
      MiddleAfterEnd(r);
      assert r[0..] == r;
    } else if l[0] == r[0] {
      MiddleBelow(l[1..], r[1..]);
      assert l <= r <==> l[1..] <= r[1..];
      if l <= r { assert r[|l|..] == r[1..][|l[1..]|..]; }
    }
  }

  lemma {:induction false} MiddleAfterEnd(r: Key)
    ensures Less(Middle([], r), r) <==> Headroom(r)
  {
    if r != [] && r[0] <= 'a' { MiddleAfterEnd(r[1..]); }
  }

  lemma {:induction false} MiddleLength(l: Key, r: Key)
    ensures |Middle(l, r)| <= (if |l| > |r| then |l| else |r|) + 1
    decreases |l| + |r|
  {
    if (l != [] || r != []) && !Gap(LowAt(l), HighAt(r)) { MiddleLength(Rest(l), Rest(r)); }
  }

  /** Of a key with itself, which is no pair of neighbours, the middle is the key and one letter more. */
  lemma {:induction false} MiddleOfEqual(k: Key)
    ensures Middle(k, k) == k + "n"
  {
    if k != [] {
      MiddleOfEqual(k[1..]);
      assert k == [k[0]] + k[1..];
    }
  }

  predicate InRange(k: Key) {
    forall i | 0 <= i < |k| :: '`' <= k[i] <= 'z'
  }

  lemma {:induction false} MiddleWellFormed(l: Key, r: Key)
    requires InRange(l) && InRange(r)
    ensures WellFormed(Middle(l, r))
    decreases |l| + |r|
  {
    if (l != [] || r != []) && !Gap(LowAt(l), HighAt(r)) { MiddleWellFormed(Rest(l), Rest(r)); }
  }

  /** `r` goes on with 'a' where `l` ends, and before that offers no gap. */
  predicate Tight(l: Key, r: Key) {
    |l| < |r| && r[|l|] == 'a' && forall i | 0 <= i < |l| :: !Gap(l[i], r[i])
  }

  lemma LettersCons(c: Ascii, k: Key)
    ensures Letters([c] + k) <==> 'a' <= c <= 'z' && Letters(k)
  {
    if Letters([c] + k) {
      assert ([c] + k)[0] == c;
      assert forall i | 0 <= i < |k| :: k[i] == ([c] + k)[i + 1];
    }
  }

  lemma TightStep(l: Key, r: Key)
    requires l != [] && r != [] && !Gap(l[0], r[0])
    ensures Tight(l, r) <==> Tight(l[1..], r[1..])
  {
    if Tight(l, r) {
      forall i | 0 <= i < |l[1..]| ensures !Gap(l[1..][i], r[1..][i]) { assert !Gap(l[i + 1], r[i + 1]); }
    }
    if Tight(l[1..], r[1..]) {
      forall i | 0 <= i < |l| ensures !Gap(l[i], r[i]) { if i > 0 { assert !Gap(l[1..][i - 1], r[1..][i - 1]); } }
    }
  }

  /** The documented alphabet 'a' to 'z' is left exactly when the keys are tight. */
  lemma {:induction false} MiddleLetters(l: Key, r: Key)
    requires Letters(l) && Letters(r)
    ensures Letters(Middle(l, r)) <==> !Tight(l, r)
    decreases |l| + |r|
  {
    if (l != [] || r != []) && !Gap(LowAt(l), HighAt(r)) {
      LettersCons(LowAt(l), Middle(Rest(l), Rest(r)));
      if l != [] {
        MiddleLetters(Rest(l), Rest(r));
        if r != [] { TightStep(l, r); }
      }
    }
  }

  function From(k: Key, i: nat): Key { if i <= |k| then k[i..] else [] }

  lemma FromStep(k: Key, i: nat)
    ensures From(k, i + 1) == Rest(From(k, i)) && (From(k, i) == [] <==> i >= |k|)
    ensures i < |k| ==> From(k, i)[0] == k[i]
  {
  }

  /** What the loop of `midpoint` does at byte `i`. */
  lemma MiddleStep(l: Key, r: Key, i: nat, prefix: Key)
    requires i < |l| || i < |r|
    ensures
      var lc, rc := if i < |l| then l[i] else '`', if i < |r| then r[i] else '{';
      prefix + Middle(From(l, i), From(r, i)) ==
        if Gap(lc, rc) then prefix + [Mid(lc, rc)] else prefix + [lc] + Middle(From(l, i + 1), From(r, i + 1))
  {
    FromStep(l, i);
    FromStep(r, i);
  }

  lemma MiddleEnds(l: Key, r: Key, max: nat)
    requires |l| <= max && |r| <= max
    ensures "" + Middle(From(l, 0), From(r, 0)) == Middle(l, r)
    ensures Middle(From(l, max), From(r, max)) == "n"
  {
    assert From(l, 0) == l && From(r, 0) == r;
    assert From(l, max) == [] && From(r, max) == [];
  }

  /** `OrderKey::midpoint`. */
  method Midpoint(l: Key, r: Key) returns (k: Key)
    ensures k == Middle(l, r)
  {
    var prefix: Key := [];
    var max := if |l| > |r| then |l| else |r|;
    MiddleEnds(l, r, max);
    for i := 0 to max
      invariant Middle(l, r) == prefix + Middle(From(l, i), From(r, i))
    {
      var lc := if i < |l| then l[i] else '`';
      var rc := if i < |r| then r[i] else '{';
      MiddleStep(l, r, i, prefix);
      if Gap(lc, rc) { return prefix + [Mid(lc, rc)]; }
      prefix := prefix + [lc];
    }
    return prefix + "n";
  }

  // ---- OrderKey::between ----

  function BetweenKeys(left: Option<Key>, right: Option<Key>): Option<Key> {
    match (left, right)
    case (None, None) => Some("n")
    case (Some(l), None) => Some(l + "n")
    case (None, Some(r)) => BelowKey(r)
    case (Some(l), Some(r)) => Some(Middle(l, r))
  }

  method Between(left: Option<Key>, right: Option<Key>) returns (k: Option<Key>)
    ensures k == BetweenKeys(left, right)
    ensures left.None? && right.None? ==> k == Some("n")
    ensures left.Some? && right.None? ==> k == Some(left.value + "n")
  {
    match (left, right)
    case (None, None) => return Some("n");
    case (Some(l), None) => return Some(l + "n");
    case (None, Some(r)) => k := Before(r);
    case (Some(l), Some(r)) => var m := Midpoint(l, r); return Some(m);
  }

  predicate Ordered(left: Option<Key>, right: Option<Key>) {
    left.Some? && right.Some? ==> Less(left.value, right.value)
  }

  predicate WellFormedSide(k: Option<Key>) { k.Some? ==> WellFormed(k.value) }

  function Size(k: Option<Key>): nat { if k.Some? then |k.value| else 0 }

  lemma ProperPrefix(l: Key, r: Key)
    requires l <= r && l != r
    ensures |l| < |r|
  {
    assert r[..|l|] == l;
  }

  /** Between well-formed neighbours there is a well-formed key, except below a key of bytes up to 'a'. */
  lemma BetweenFits(left: Option<Key>, right: Option<Key>)
    requires WellFormedSide(left) && WellFormedSide(right) && Ordered(left, right)
    ensures BetweenKeys(left, right).None? <==>
      left.None? && right.Some? && forall i | 0 <= i < |right.value| :: right.value[i] <= 'a'
    ensures BetweenKeys(left, right).Some? ==>
      var k := BetweenKeys(left, right).value;
      && WellFormed(k)
      && (left.Some? ==> Less(left.value, k)) && (right.Some? ==> Less(k, right.value))
      && |k| <= (if Size(left) > Size(right) then Size(left) else Size(right)) + 1
  {
    if left.Some? { LessExtended(left.value, "n"); }
    if right.Some? { BelowKeyBelow(right.value); }
    if left.Some? && right.Some? {
      var l, r := left.value, right.value;
      MiddleAbove(l, r);
      MiddleBelow(l, r);
      MiddleWellFormed(l, r);
      MiddleLength(l, r);
      if l <= r {
        LessTotal(l, l);
        ProperPrefix(l, r);
        assert forall i | 0 <= i < |r| - |l| :: r[|l|..][i] == r[|l| + i];
        HeadroomAtEnd(r[|l|..]);
      }
    }
  }

  lemma {:induction false} HeadroomAtEnd(s: Key)
    requires WellFormed(s)
    ensures Headroom(s)
  {
    if s[0] == '`' { HeadroomAtEnd(s[1..]); }
  }

  /** Two letters are not enough for the documented alphabet: between "a" and "aa" lies "a`n". */
  lemma BetweenLeavesTheAlphabet()
    ensures BetweenKeys(Some("a"), Some("aa")) == Some("a`n")
    ensures !Letters("a`n")
  {
    assert Rest("aa") == "a" && Rest("a") == [];
    assert Middle([], "a") == "`" + Middle([], []);
    assert Middle("a", "aa") == "a" + Middle([], "a");
    assert "a" + ("`" + "n") == "a`n";
    assert "a`n"[1] == '`';
  }

  /** Without a letter at the end there may be no key in between: the result for "a" and "a`" is above both. */
  lemma BetweenNeedsWellFormedKeys()
    ensures Less("a", "a`") && BetweenKeys(Some("a"), Some("a`")) == Some("a`n")
    ensures Less("a`", "a`n")
  {
    assert Rest("a`") == "`" && Rest("`") == [] && Rest("a") == [];
    assert Middle([], "`") == "`" + Middle([], []);
    assert Middle("a", "a`") == "a" + Middle([], "`");
    assert "a" + ("`" + "n") == "a`n";
    assert "a`"[1..] == "`" && "a`n"[1..] == "`n" && "`n"[1..] == "n";
  }

  // ---- Sibling lists ----

  /** Siblings in strictly ascending order of well-formed keys. */
  predicate Siblings(ks: seq<Key>) {
    (forall i | 0 <= i < |ks| :: WellFormed(ks[i])) && (forall i, j | 0 <= i < j < |ks| :: Less(ks[i], ks[j]))
  }

  /** Inserts a sibling before place `at`, with a key between its neighbours. */
  function Insert(ks: seq<Key>, at: nat): Option<seq<Key>>
    requires at <= |ks|
  {
    match BetweenKeys(if at == 0 then None else Some(ks[at - 1]), if at == |ks| then None else Some(ks[at]))
    case None => None
    case Some(k) => Some(ks[..at] + [k] + ks[at..])
  }

  predicate Exhausted(ks: seq<Key>) {
    ks != [] && forall i | 0 <= i < |ks[0]| :: ks[0][i] <= 'a'
  }

  predicate Splits(ks: seq<Key>, at: nat, k: Key)
    requires at <= |ks|
  {
    (forall i | 0 <= i < at :: Less(ks[i], k)) && (forall j | at <= j < |ks| :: Less(k, ks[j]))
  }

  lemma NeighboursSuffice(ks: seq<Key>, at: nat, k: Key)
    requires Siblings(ks) && at <= |ks|
    requires at > 0 ==> Less(ks[at - 1], k)
    requires at < |ks| ==> Less(k, ks[at])
    ensures Splits(ks, at, k)
  {
    forall i | 0 <= i < at ensures Less(ks[i], k) {
      if i < at - 1 { LessTransitive(ks[i], ks[at - 1], k); }
    }
    forall j | at <= j < |ks| ensures Less(k, ks[j]) {
      if at < j { LessTransitive(k, ks[at], ks[j]); }
    }
  }

  lemma SplitKeepsSiblings(ks: seq<Key>, at: nat, k: Key)
    requires Siblings(ks) && at <= |ks| && WellFormed(k) && Splits(ks, at, k)
    ensures Siblings(ks[..at] + [k] + ks[at..])
  {
    var next := ks[..at] + [k] + ks[at..];
    assert forall i | 0 <= i < |next| :: next[i] == if i < at then ks[i] else if i == at then k else ks[i - 1];
  }

  /** Nobody else is renumbered, and only the very front can run out. */
  lemma InsertKeepsSiblings(ks: seq<Key>, at: nat)
    requires Siblings(ks) && at <= |ks|
    ensures Insert(ks, at).None? <==> at == 0 && Exhausted(ks)
    ensures Insert(ks, at).Some? ==> Siblings(Insert(ks, at).value)
  {
    var left, right := if at == 0 then None else Some(ks[at - 1]), if at == |ks| then None else Some(ks[at]);
    BetweenFits(left, right);
    if BetweenKeys(left, right).Some? {
      NeighboursSuffice(ks, at, BetweenKeys(left, right).value);
      SplitKeepsSiblings(ks, at, BetweenKeys(left, right).value);
    }
  }

  /** One insertion of a run: a place past the end is the end, and one that panics changes nothing. */
  function InsertOr(ks: seq<Key>, place: nat): seq<Key> {
    match Insert(ks, if place < |ks| then place else |ks|) case None => ks case Some(next) => next
  }

  function InsertAll(ks: seq<Key>, places: seq<nat>): seq<Key>
    decreases |places|
  {
    if places == [] then ks else InsertAll(InsertOr(ks, places[0]), places[1..])
  }

  /** Any run of insertions, at any places, keeps the siblings in strict order. */
  lemma {:induction false} InsertAllKeepsSiblings(ks: seq<Key>, places: seq<nat>)
    requires Siblings(ks)
    ensures Siblings(InsertAll(ks, places))
    decreases |places|
  {
    if places != [] {
      InsertKeepsSiblings(ks, if places[0] < |ks| then places[0] else |ks|);
      InsertAllKeepsSiblings(InsertOr(ks, places[0]), places[1..]);
    }
  }

  function Zeros(n: nat): seq<nat> {
    seq(n, _ => 0)
  }

  lemma {:induction false} ExhaustedStays(ks: seq<Key>, n: nat)
    requires Insert(ks, 0).None?
    ensures InsertAll(ks, Zeros(n)) == ks
  {
    if n > 0 {
      assert Zeros(n)[1..] == Zeros(n - 1);
      ExhaustedStays(ks, n - 1);
    }
  }

  lemma FrontStep(ks: seq<Key>, n: nat, next: seq<Key>)
    requires n > 0 && next != [] && next[1..] == ks
    requires if ks == [] then next[0] == "n" else BelowKey(ks[0]) == Some(next[0])
    ensures InsertAll(ks, Zeros(n)) == InsertAll(next, Zeros(n - 1))
  {
    assert Zeros(n)[1..] == Zeros(n - 1);
    assert ks[..0] + [next[0]] + ks[0..] == next;
  }

  lemma FrontKeys()
    ensures BelowKey("n") == Some("g") && BelowKey("g") == Some("d") && BelowKey("d") == Some("b")
    ensures BelowKey("b") == Some("a") && BelowKey("a") == None
  {
  }

  /** However often a sibling is inserted in front, there are never more than five: the others panic. */
  lemma FrontRunsOut(n: nat)
    requires n >= 5
    ensures InsertAll([], Zeros(n)) == ["a", "b", "d", "g", "n"]
  {
    var five: seq<Key> := ["a", "b", "d", "g", "n"];
    FrontKeys();
    FrontStep(five[5..], n, five[4..]);
    FrontStep(five[4..], n - 1, five[3..]);
    FrontStep(five[3..], n - 2, five[2..]);
    FrontStep(five[2..], n - 3, five[1..]);
    FrontStep(five[1..], n - 4, five);
    ExhaustedStays(five, n - 5);
  }
}
