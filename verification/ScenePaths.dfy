/** Scene paths and their text form: printer, parser and the loops of `kyoso_agent::handle`. */
module ScenePaths {
  import opened Wrappers

  type Index = n: nat | n < 65536

  datatype Part = Named(name: string, index: Index) | Ordered(key: string)

  type ScenePath = seq<Part>

  datatype PathError = MissingLeadingSlash | TrailingBackslash | EmptySegment | MalformedOrdered | BadIndex

  // ---- Printing ----

  const NAME_SPECIALS: set<char> := {'/', '#', '[', ']', '\\'}

  const KEY_SPECIALS: set<char> := {']', '\\'}

  function Escaped(s: string, special: set<char>): string {
    if s == "" then "" else (if s[0] in special then ['\\', s[0]] else [s[0]]) + Escaped(s[1..], special)
  }

  function Digit(d: nat): char
    requires d < 10
  {
    ('0' as int + d) as char
  }

  function Decimal(n: nat): string {
    if n < 10 then [Digit(n)] else Decimal(n / 10) + [Digit(n % 10)]
  }

  function Suffix(index: Index): string {
    if index != 0 then "#" + Decimal(index) else ""
  }

  function PrintPart(part: Part): string {
    match part
    case Named(name, index) => Escaped(name, NAME_SPECIALS) + Suffix(index)
    case Ordered(key) => "[" + Escaped(key, KEY_SPECIALS) + "]"
  }

  function Slashed(path: ScenePath): string {
    if path == [] then "" else "/" + PrintPart(path[0]) + Slashed(path[1..])
  }

  function Print(path: ScenePath): string {
    if path == [] then "/" else Slashed(path)
  }

  // ---- Scanning ----

  function Prepend(segment: string, rest: Result<seq<string>, PathError>): Result<seq<string>, PathError> {
    match rest case Err(e) => Err(e) case Ok(segments) => Ok([segment] + segments)
  }

  /** The segments between unescaped delimiters, escapes kept; `cur` is the open segment. */
  function Split(s: string, delim: char, cur: string): Result<seq<string>, PathError>
    decreases |s|
  {
    if s == "" then if cur == "" then Err(EmptySegment) else Ok([cur])
    else if s[0] == '\\' then if |s| == 1 then Err(TrailingBackslash) else Split(s[2..], delim, cur + s[..2])
    else if s[0] == delim then if cur == "" then Err(EmptySegment) else Prepend(cur, Split(s[1..], delim, ""))
    else Split(s[1..], delim, cur + s[..1])
  }

  /** The text before the first unescaped '#', and the text after it if there is one. */
  function SplitHash(s: string, before: string): Result<(string, Option<string>), PathError>
    decreases |s|
  {
    if s == "" then Ok((before, None))
    else if s[0] == '\\' then if |s| == 1 then Err(TrailingBackslash) else SplitHash(s[2..], before + s[..2])
    else if s[0] == '#' then Ok((before, Some(s[1..])))
    else SplitHash(s[1..], before + s[..1])
  }

  function Unescaped(s: string, out: string): Result<string, PathError>
    decreases |s|
  {
    if s == "" then Ok(out)
    else if s[0] == '\\' then if |s| == 1 then Err(TrailingBackslash) else Unescaped(s[2..], out + [s[1]])
    else Unescaped(s[1..], out + [s[0]])
  }

  /** Value of a digit string, if it fits in 16 bits. */
  function Value(s: string): Option<Index> {
    if s == "" then Some(0) else
      var last := s[|s| - 1];
      match Value(s[..|s| - 1])
      case None => None
      case Some(v) =>
        if !('0' <= last <= '9') || v * 10 + (last as int - '0' as int) >= 65536 then None
        else Some(v * 10 + (last as int - '0' as int))
  }

  /** `str::parse::<u16>`: a leading '+' and leading zeros are accepted. */
  function ParseIndex(s: string): Option<Index> {
    if s == "" then None else Value(if |s| > 1 && s[0] == '+' then s[1..] else s)
  }

  function ParsePart(seg: string): Result<Part, PathError> {
    if seg == "" then Err(EmptySegment)
    else if seg[0] == '[' then
      if seg[|seg| - 1] != ']' || |seg| < 2 then Err(MalformedOrdered)
      else match Unescaped(seg[1..|seg| - 1], "")
        case Err(e) => Err(e)
        case Ok(key) => Ok(Ordered(key))
    else match SplitHash(seg, "")
      case Err(e) => Err(e)
      case Ok((before, after)) =>
        match Unescaped(before, "")
        case Err(e) => Err(e)
        case Ok(name) => NamedAt(name, after)
  }

  function NamedAt(name: string, after: Option<string>): Result<Part, PathError> {
    match after
    case None => Ok(Named(name, 0))
    case Some(digits) => match ParseIndex(digits) case None => Err(BadIndex) case Some(index) => Ok(Named(name, index))
  }

  function ParseParts(segs: seq<string>): Result<ScenePath, PathError> {
    if segs == [] then Ok([]) else
      match ParsePart(segs[0])
      case Err(e) => Err(e)
      case Ok(part) => match ParseParts(segs[1..]) case Err(e) => Err(e) case Ok(rest) => Ok([part] + rest)
  }

  function Parse(input: string): Result<ScenePath, PathError> {
    if input == "" || input == "/" then Ok([])
    else if input[0] != '/' then Err(MissingLeadingSlash)
    else match Split(input[1..], '/', "") case Err(e) => Err(e) case Ok(segs) => ParseParts(segs)
  }

  // ---- The loops ----

  /** `split_unescaped`. */
  method SplitUnescaped(s: string, delim: char) returns (r: Result<seq<string>, PathError>)
    ensures r == Split(s, delim, "")
  {
    var out: seq<string> := [];
    var cur := "";
    var i: nat := 0;
    PrependNone(Split(s, delim, ""));
    assert s[0..] == s;
    while i < |s|
      invariant i <= |s|
      invariant Split(s, delim, "") == PrependAll(out, Split(s[i..], delim, cur))
    {
      ghost var rest := s[i..];
      var c := s[i];
      if c == '\\' {
        if i + 1 == |s| { return Err(TrailingBackslash); }
        assert rest[..2] == [s[i], s[i + 1]] && rest[2..] == s[i + 2..];
        cur := cur + ['\\', s[i + 1]];
        i := i + 2;
      } else if c == delim {
        if cur == "" { return Err(EmptySegment); }
        assert rest[1..] == s[i + 1..];
        PrependLast(out, cur, Split(s[i + 1..], delim, ""));
        out := out + [cur];
        cur := "";
        i := i + 1;
      } else {
        assert rest[..1] == [c] && rest[1..] == s[i + 1..];
        cur := cur + [c];
        i := i + 1;
      }
    }
    if cur == "" { return Err(EmptySegment); }
    return Ok(out + [cur]);
  }

  function PrependAll(segments: seq<string>, rest: Result<seq<string>, PathError>): Result<seq<string>, PathError> {
    match rest case Err(e) => Err(e) case Ok(more) => Ok(segments + more)
  }

  lemma PrependNone(rest: Result<seq<string>, PathError>)
    ensures PrependAll([], rest) == rest
  {
    if rest.Ok? { assert [] + rest.value == rest.value; }
  }

  lemma PrependLast(out: seq<string>, cur: string, rest: Result<seq<string>, PathError>)
    ensures PrependAll(out, Prepend(cur, rest)) == PrependAll(out + [cur], rest)
  {
    if rest.Ok? { assert out + ([cur] + rest.value) == out + [cur] + rest.value; }
  }

  /** `split_at_unescaped_hash`. */
  method SplitAtUnescapedHash(s: string) returns (r: Result<(string, Option<string>), PathError>)
    ensures r == SplitHash(s, "")
  {
    var before := "";
    var i: nat := 0;
    while i < |s|
      invariant i <= |s|
      invariant SplitHash(s, "") == SplitHash(s[i..], before)
    {
      ghost var rest := s[i..];
      var c := s[i];
      if c == '\\' {
        if i + 1 == |s| { return Err(TrailingBackslash); }
        assert rest[..2] == [s[i], s[i + 1]] && rest[2..] == s[i + 2..];
        before := before + ['\\', s[i + 1]];
        i := i + 2;
      } else if c == '#' {
        assert rest[1..] == s[i + 1..];
        return Ok((before, Some(s[i + 1..])));
      } else {
        assert rest[..1] == [c] && rest[1..] == s[i + 1..];
        before := before + [c];
        i := i + 1;
      }
    }
    return Ok((before, None));
  }

  /** `unescape`. */
  method Unescape(s: string) returns (r: Result<string, PathError>)
    ensures r == Unescaped(s, "")
  {
    var out := "";
    var i: nat := 0;
    while i < |s|
      invariant i <= |s|
      invariant Unescaped(s, "") == Unescaped(s[i..], out)
    {
      ghost var rest := s[i..];
      if s[i] == '\\' {
        if i + 1 == |s| { return Err(TrailingBackslash); }
        assert rest[1] == s[i + 1] && rest[2..] == s[i + 2..];
        out := out + [s[i + 1]];
        i := i + 2;
      } else {
        assert rest[1..] == s[i + 1..];
        out := out + [s[i]];
        i := i + 1;
      }
    }
    return Ok(out);
  }

  // ---- Escaped text passes through the scanners ----

  /** The escaped first character and what follows it. */
  lemma EscapedHead(s: string, special: set<char>, t: string)
    requires s != ""
    ensures Escaped(s, special) + t == (if s[0] in special then ['\\', s[0]] else [s[0]])
      + (Escaped(s[1..], special) + t)
  {
  }

  lemma {:induction false} SplitPassesEscaped(s: string, special: set<char>, t: string, delim: char, cur: string)
    requires '\\' in special && delim != '\\' && (delim in special || delim !in s)
    ensures Split(Escaped(s, special) + t, delim, cur) == Split(t, delim, cur + Escaped(s, special))
    decreases |s|
  {
    if s == "" {
      assert "" + t == t && cur + "" == cur;
    } else {
      var head, tail := if s[0] in special then ['\\', s[0]] else [s[0]], Escaped(s[1..], special) + t;
      EscapedHead(s, special, t);
      assert (head + tail)[|head|..] == tail && (head + tail)[..|head|] == head;
      SplitPassesEscaped(s[1..], special, t, delim, cur + head);
      assert cur + head + Escaped(s[1..], special) == cur + Escaped(s, special);
    }
  }

  lemma {:induction false} SplitPassesPlain(w: string, t: string, delim: char, cur: string)
    requires '\\' !in w && delim !in w
    ensures Split(w + t, delim, cur) == Split(t, delim, cur + w)
    decreases |w|
  {
    if w == "" {
      assert "" + t == t && cur + "" == cur;
    } else {
      assert (w + t)[1..] == w[1..] + t && (w + t)[..1] == w[..1];
      SplitPassesPlain(w[1..], t, delim, cur + w[..1]);
      assert cur + w[..1] + w[1..] == cur + w;
    }
  }

  lemma {:induction false} HashPassesEscaped(s: string, special: set<char>, t: string, before: string)
    requires '\\' in special && '#' in special
    ensures SplitHash(Escaped(s, special) + t, before) == SplitHash(t, before + Escaped(s, special))
    decreases |s|
  {
    if s == "" {
      assert "" + t == t && before + "" == before;
    } else {
      var head, tail := if s[0] in special then ['\\', s[0]] else [s[0]], Escaped(s[1..], special) + t;
      EscapedHead(s, special, t);
      assert (head + tail)[|head|..] == tail && (head + tail)[..|head|] == head;
      HashPassesEscaped(s[1..], special, t, before + head);
      assert before + head + Escaped(s[1..], special) == before + Escaped(s, special);
    }
  }

  lemma {:induction false} UnescapeInvertsEscape(s: string, special: set<char>, out: string)
    requires '\\' in special
    ensures Unescaped(Escaped(s, special), out) == Ok(out + s)
    decreases |s|
  {
    if s == "" {
      assert out + "" == out;
    } else {
      var head, tail := if s[0] in special then ['\\', s[0]] else [s[0]], Escaped(s[1..], special);
      assert Escaped(s, special) == head + tail && (head + tail)[|head|..] == tail;
      UnescapeInvertsEscape(s[1..], special, out + [s[0]]);
      assert out + [s[0]] + s[1..] == out + s;
    }
  }

  // ---- Indices ----

  lemma {:induction false} DecimalDigits(n: nat)
    ensures Decimal(n) != "" && forall i | 0 <= i < |Decimal(n)| :: '0' <= Decimal(n)[i] <= '9'
  {
    if n >= 10 { DecimalDigits(n / 10); }
  }

  lemma {:induction false} ValueOfDecimal(n: Index)
    ensures Value(Decimal(n)) == Some(n)
  {
    var d := Digit(n % 10);
    assert d as int - '0' as int == n % 10;
    if n < 10 {
      assert Decimal(n)[..0] == "";
    } else {
      ValueOfDecimal(n / 10);
      assert Decimal(n)[..|Decimal(n)| - 1] == Decimal(n / 10);
    }
  }

  lemma ParseIndexInvertsDecimal(n: Index)
    ensures ParseIndex(Decimal(n)) == Some(n)
  {
    DecimalDigits(n);
    ValueOfDecimal(n);
  }

  predicate Digits(s: string) {
    forall i | 0 <= i < |s| :: '0' <= s[i] <= '9'
  }

  function Number(s: string): nat
    requires Digits(s)
  {
    if s == "" then 0 else
      assert Digits(s[..|s| - 1]);
      Number(s[..|s| - 1]) * 10 + (s[|s| - 1] as int - '0' as int)
  }

  lemma {:induction false} ValueIsNumber(s: string)
    ensures Value(s).Some? <==> Digits(s) && Number(s) < 65536
    ensures Value(s).Some? ==> Value(s) == Some(Number(s))
  {
    if s != "" {
      var front := s[..|s| - 1];
      ValueIsNumber(front);
      assert s == front + [s[|s| - 1]];
      assert Digits(s) <==> Digits(front) && '0' <= s[|s| - 1] <= '9';
    }
  }

  /** An index is read from decimal digits that make a number of 16 bits, after one plus sign at most. */
  lemma IndexIsNumber(s: string)
    ensures
      var digits := if |s| > 1 && s[0] == '+' then s[1..] else s;
      && (ParseIndex(s).Some? <==> digits != "" && Digits(digits) && Number(digits) < 65536)
      && (ParseIndex(s).Some? ==> ParseIndex(s) == Some(Number(digits)))
  {
    ValueIsNumber(if |s| > 1 && s[0] == '+' then s[1..] else s);
  }

  // ---- The documented text form ----

  predicate NameSpecial(c: char) {
    c == '/' || c == '#' || c == '[' || c == ']' || c == '\\'
  }

  predicate KeySpecial(c: char) {
    c == ']' || c == '\\'
  }

  lemma {:induction false} EscapedLast(s: string, special: set<char>, c: char)
    ensures Escaped(s + [c], special) == Escaped(s, special) + if c in special then ['\\', c] else [c]
    decreases |s|
  {
    if s == "" {
      assert "" + [c] == [c] && [c][1..] == "";
    } else {
      assert (s + [c])[1..] == s[1..] + [c];
      EscapedLast(s[1..], special, c);
    }
  }

  lemma {:induction false} PlainUnchanged(s: string, special: set<char>)
    ensures |Escaped(s, special)| >= |s|
    ensures Escaped(s, special) == s <==> forall i | 0 <= i < |s| :: s[i] !in special
  {
    if s != "" {
      PlainUnchanged(s[1..], special);
      assert s == [s[0]] + s[1..];
      assert forall i | 0 < i < |s| :: s[i] == s[1..][i - 1];
      if s[0] !in special { assert Escaped(s, special)[1..] == Escaped(s[1..], special); }
    }
  }

  /**
   * A name prints as itself exactly when it holds none of the five special characters; each of those
   * gets a backslash, and an index other than 0 follows a '#'.
   */
  lemma NamePrints(name: string, c: char, index: Index)
    ensures PrintPart(Named(name, 0)) == name <==> forall i | 0 <= i < |name| :: !NameSpecial(name[i])
    ensures
      PrintPart(Named(name + [c], 0)) == PrintPart(Named(name, 0)) + if NameSpecial(c) then ['\\', c] else [c]
    ensures index != 0 ==> PrintPart(Named(name, index)) == PrintPart(Named(name, 0)) + "#" + Decimal(index)
  {
    PlainUnchanged(name, NAME_SPECIALS);
    EscapedLast(name, NAME_SPECIALS, c);
    assert Escaped(name, NAME_SPECIALS) + "" == Escaped(name, NAME_SPECIALS);
    assert Escaped(name + [c], NAME_SPECIALS) + "" == Escaped(name + [c], NAME_SPECIALS);
  }

  lemma SameBrackets(a: string, b: string)
    ensures "[" + a + "]" == "[" + b + "]" <==> a == b
  {
    assert ("[" + a + "]")[1..|a| + 1] == a && ("[" + b + "]")[1..|b| + 1] == b;
    assert |"[" + a + "]"| == |a| + 2 && |"[" + b + "]"| == |b| + 2;
  }

  /** A key prints as itself in brackets exactly when it holds no closing bracket and no backslash. */
  lemma KeyPrints(key: string)
    ensures PrintPart(Ordered(key)) == "[" + key + "]" <==> forall i | 0 <= i < |key| :: !KeySpecial(key[i])
  {
    PlainUnchanged(key, KEY_SPECIALS);
    SameBrackets(Escaped(key, KEY_SPECIALS), key);
  }

  /** Each of those two gets a backslash. */
  lemma KeyEscapes(key: string, c: char)
    ensures PrintPart(Ordered("")) == "[]"
    ensures
      var text := PrintPart(Ordered(key));
      PrintPart(Ordered(key + [c])) == text[..|text| - 1] + (if KeySpecial(c) then ['\\', c] else [c]) + "]"
  {
    EscapedLast(key, KEY_SPECIALS, c);
    var inner, last := Escaped(key, KEY_SPECIALS), if KeySpecial(c) then ['\\', c] else [c];
    assert ("[" + inner + "]")[..|inner| + 1] == "[" + inner;
    assert "[" + (inner + last) + "]" == "[" + inner + last + "]";
  }

  lemma {:induction false} SlashedLast(path: ScenePath, part: Part)
    ensures Slashed(path + [part]) == Slashed(path) + "/" + PrintPart(part)
  {
    if path == [] {
      assert [] + [part] == [part] && Slashed([part][1..]) == "";
    } else {
      assert (path + [part])[1..] == path[1..] + [part];
      SlashedLast(path[1..], part);
    }
  }

  /** The root is a slash, and every part of another path follows a slash. */
  lemma PathPrints(path: ScenePath, part: Part)
    ensures Print([]) == "/" && Print([part]) == "/" + PrintPart(part)
    ensures path != [] ==> Print(path + [part]) == Print(path) + "/" + PrintPart(part)
  {
    SlashedLast(path, part);
    SlashedLast([], part);
    assert [] + [part] == [part];
  }

  // ---- Refused text ----

  /** The text ends right after a backslash that escapes nothing. */
  predicate Dangles(s: string)
    decreases |s|
  {
    s != "" && if s[0] == '\\' then |s| == 1 || Dangles(s[2..]) else Dangles(s[1..])
  }

  lemma {:induction false} UnescapeFailsIff(s: string, out: string)
    ensures Unescaped(s, out) == Err(TrailingBackslash) <==> Dangles(s)
    ensures Unescaped(s, out).Err? ==> Dangles(s)
    decreases |s|
  {
    if s != "" {
      if s[0] != '\\' {
        UnescapeFailsIff(s[1..], out + [s[0]]);
      } else if |s| > 1 {
        UnescapeFailsIff(s[2..], out + [s[1]]);
      }
    }
  }

  lemma {:induction false} HashFails(s: string, before: string)
    ensures SplitHash(s, before).Err? ==> Dangles(s) && SplitHash(s, before) == Err(TrailingBackslash)
    decreases |s|
  {
    if s != "" {
      if s[0] == '\\' {
        if |s| > 1 { HashFails(s[2..], before + s[..2]); }
      } else if s[0] != '#' {
        HashFails(s[1..], before + s[..1]);
      }
    }
  }

  lemma {:induction false} SplitFails(s: string, delim: char, cur: string)
    requires delim != '\\'
    ensures Split(s, delim, cur).Ok? ==> !Dangles(s)
    ensures Split(s, delim, cur) == Err(TrailingBackslash) ==> Dangles(s)
    ensures Split(s, delim, cur).Err? ==> Split(s, delim, cur).error in [TrailingBackslash, EmptySegment]
    decreases |s|
  {
    if s != "" {
      if s[0] == '\\' {
        if |s| > 1 { SplitFails(s[2..], delim, cur + s[..2]); }
      } else if s[0] == delim {
        if cur != "" { SplitFails(s[1..], delim, ""); }
      } else {
        SplitFails(s[1..], delim, cur + s[..1]);
      }
    }
  }

  /** What makes a segment no part, beyond a dangling backslash and a bad index. */
  lemma PartFails(seg: string)
    ensures ParsePart(seg) == Err(EmptySegment) <==> seg == ""
    ensures ParsePart(seg) == Err(MalformedOrdered) <==>
      seg != "" && seg[0] == '[' && (|seg| < 2 || seg[|seg| - 1] != ']')
    ensures ParsePart(seg) != Err(MissingLeadingSlash)
  {
    if seg != "" {
      if seg[0] == '[' {
        if |seg| >= 2 { UnescapeFailsIff(seg[1..|seg| - 1], ""); }
      } else {
        HashFails(seg, "");
        if SplitHash(seg, "").Ok? { UnescapeFailsIff(SplitHash(seg, "").value.0, ""); }
      }
    }
  }

  lemma {:induction false} PartsFail(segs: seq<string>)
    ensures ParseParts(segs) != Err(MissingLeadingSlash)
  {
    if segs != [] {
      PartFails(segs[0]);
      PartsFail(segs[1..]);
    }
  }

  /** A path other than the root has to begin with a slash. */
  lemma SlashMissingIff(input: string)
    ensures Parse(input) == Err(MissingLeadingSlash) <==> input != "" && input[0] != '/'
  {
    if input != "" && input[0] == '/' {
      SplitFails(input[1..], '/', "");
      if Split(input[1..], '/', "").Ok? { PartsFail(Split(input[1..], '/', "").value); }
    }
  }

  /** One text for each of the documented errors. */
  lemma DocumentedErrors()
    ensures Parse("foo") == Err(MissingLeadingSlash)
    ensures Parse("//") == Err(EmptySegment) && Parse("/a/") == Err(EmptySegment)
    ensures Parse("/\\") == Err(TrailingBackslash)
    ensures Parse("/[k") == Err(MalformedOrdered)
    ensures Parse("/#x") == Err(BadIndex)
  {
    assert "//"[1..] == "/" && "/a/"[1..] == "a/" && "a/"[1..] == "/" && "/"[1..] == "";
    assert "" + "a/"[..1] == "a";
    assert Split("a/", '/', "") == Split("/", '/', "a") == Prepend("a", Split("", '/', ""));
    assert "/\\"[1..] == "\\";
    assert "/[k"[1..] == "[k" && "[k"[1..] == "k" && "k"[1..] == "" && "" + "[k"[..1] == "[" && "[" + "k"[..1] == "[k";
    assert Split("[k", '/', "") == Split("k", '/', "[") == Split("", '/', "[k") == Ok(["[k"]);
    assert "/#x"[1..] == "#x" && "#x"[1..] == "x" && "x"[1..] == "" && "" + "#x"[..1] == "#" && "#" + "x"[..1] == "#x";
    assert Split("#x", '/', "") == Split("x", '/', "#") == Split("", '/', "#x") == Ok(["#x"]);
    assert SplitHash("#x", "") == Ok(("", Some("x"))) && Unescaped("", "") == Ok("");
    assert "x"[..0] == "" && Value("x") == None;
  }

  // ---- Parts ----

  predicate PartPrints(part: Part) {
    part != Named("", 0)
  }

  lemma PartRoundTrip(part: Part)
    ensures PartPrints(part) ==> ParsePart(PrintPart(part)) == Ok(part)
    ensures PrintPart(part) == "" <==> !PartPrints(part)
  {
    match part
    case Ordered(key) =>
      var inner, text := Escaped(key, KEY_SPECIALS), PrintPart(part);
      UnescapeInvertsEscape(key, KEY_SPECIALS, "");
      assert text[0] == '[' && text[|text| - 1] == ']' && text[1..|text| - 1] == inner;
      assert "" + key == key;
    case Named(name, index) =>
      NamedRoundTrip(name, index);
  }

  lemma NamedRoundTrip(name: string, index: Index)
    ensures Named(name, index) != Named("", 0) ==> ParsePart(PrintPart(Named(name, index))) == Ok(Named(name, index))
    ensures PrintPart(Named(name, index)) == "" <==> name == "" && index == 0
  {
    var body := Escaped(name, NAME_SPECIALS);
    var suffix := Suffix(index);
    if name != "" || index != 0 {
      NotBracketed(name, suffix);
      HashPassesEscaped(name, NAME_SPECIALS, suffix, "");
      assert "" + body == body && "" + name == name;
      UnescapeInvertsEscape(name, NAME_SPECIALS, "");
      if index != 0 {
        assert suffix[1..] == Decimal(index);
        ParseIndexInvertsDecimal(index);
      }
    }
  }

  lemma NotBracketed(name: string, suffix: string)
    requires suffix == "" || suffix[0] == '#'
    requires name != "" || suffix != ""
    ensures var text := Escaped(name, NAME_SPECIALS) + suffix; text != "" && text[0] != '['
  {
  }

  // ---- Whole paths ----

  predicate Slashless(part: Part) {
    part.Ordered? ==> '/' !in part.key
  }

  /** Paths that survive printing. */
  predicate WellFormed(path: ScenePath) {
    forall i | 0 <= i < |path| :: PartPrints(path[i]) && Slashless(path[i])
  }

  function Texts(path: ScenePath): seq<string> {
    if path == [] then [] else [PrintPart(path[0])] + Texts(path[1..])
  }

  lemma SplitPassesOrdered(key: string, t: string, cur: string)
    requires '/' !in key
    ensures Split(PrintPart(Ordered(key)) + t, '/', cur) == Split(t, '/', cur + PrintPart(Ordered(key)))
  {
    var inner := Escaped(key, KEY_SPECIALS);
    assert PrintPart(Ordered(key)) + t == "[" + (inner + ("]" + t));
    SplitPassesPlain("[", inner + ("]" + t), '/', cur);
    SplitPassesEscaped(key, KEY_SPECIALS, "]" + t, '/', cur + "[");
    SplitPassesPlain("]", t, '/', cur + "[" + inner);
    assert cur + "[" + inner + "]" == cur + PrintPart(Ordered(key));
  }

  lemma SplitPassesNamed(name: string, suffix: string, t: string, cur: string)
    requires '\\' !in suffix && '/' !in suffix
    ensures Split(Escaped(name, NAME_SPECIALS) + suffix + t, '/', cur)
      == Split(t, '/', cur + (Escaped(name, NAME_SPECIALS) + suffix))
  {
    var body := Escaped(name, NAME_SPECIALS);
    assert body + suffix + t == body + (suffix + t);
    SplitPassesEscaped(name, NAME_SPECIALS, suffix + t, '/', cur);
    SplitPassesPlain(suffix, t, '/', cur + body);
    assert cur + body + suffix == cur + (body + suffix);
  }

  lemma SuffixPlain(index: Index)
    ensures '\\' !in Suffix(index) && '/' !in Suffix(index)
  {
    DecimalDigits(index);
  }

  lemma SplitPassesPart(part: Part, t: string, cur: string)
    requires Slashless(part)
    ensures Split(PrintPart(part) + t, '/', cur) == Split(t, '/', cur + PrintPart(part))
  {
    match part
    case Ordered(key) => SplitPassesOrdered(key, t, cur);
    case Named(name, index) =>
      SuffixPlain(index);
      SplitPassesNamed(name, Suffix(index), t, cur);
  }

  predicate AllPrint(path: ScenePath) {
    path == [] || (PartPrints(path[0]) && AllPrint(path[1..]))
  }

  predicate AllSlashless(path: ScenePath) {
    path == [] || (Slashless(path[0]) && AllSlashless(path[1..]))
  }

  lemma {:induction false} WellFormedAll(path: ScenePath)
    ensures WellFormed(path) <==> AllPrint(path) && AllSlashless(path)
    ensures !AllSlashless(path) <==> exists i :: 0 <= i < |path| && !Slashless(path[i])
    decreases |path|
  {
    if path != [] {
      var rest := path[1..];
      WellFormedAll(rest);
      assert forall i | 0 <= i < |rest| :: rest[i] == path[i + 1];
      assert forall i | 0 < i < |path| :: path[i] == rest[i - 1];
    }
  }

  lemma SegmentSplits(part: Part, t: string)
    requires Slashless(part) && (t == "" || t[0] == '/')
    ensures Split(PrintPart(part) + t, '/', "") ==
      if !PartPrints(part) then Err(EmptySegment)
      else if t == "" then Ok([PrintPart(part)])
      else Prepend(PrintPart(part), Split(t[1..], '/', ""))
  {
    SplitPassesPart(part, t, "");
    assert "" + PrintPart(part) == PrintPart(part);
    PartRoundTrip(part);
  }

  function Outcome(path: ScenePath): Result<seq<string>, PathError>
    requires path != []
  {
    if !PartPrints(path[0]) then Err(EmptySegment)
    else if |path| == 1 then Ok([PrintPart(path[0])])
    else Prepend(PrintPart(path[0]), Outcome(path[1..]))
  }

  lemma {:induction false} OutcomeIs(path: ScenePath)
    requires path != []
    ensures Outcome(path) == if AllPrint(path) then Ok(Texts(path)) else Err(EmptySegment)
    decreases |path|
  {
    var text, rest := PrintPart(path[0]), path[1..];
    if rest == [] { assert [text] + Texts(rest) == [text]; } else { OutcomeIs(rest); }
  }

  lemma SlashedStep(path: ScenePath)
    requires path != []
    ensures Slashed(path)[0] == '/' && Slashed(path)[1..] == PrintPart(path[0]) + Slashed(path[1..])
    ensures |path| == 1 ==> Slashed(path[1..]) == ""
  {
    AfterSlash(PrintPart(path[0]), Slashed(path[1..]));
  }

  lemma AfterSlash(a: string, b: string)
    ensures ("/" + a + b)[0] == '/' && ("/" + a + b)[1..] == a + b
  {
  }

  lemma {:induction false} SplitPrinted(path: ScenePath)
    requires path != [] && AllSlashless(path)
    ensures Split(Slashed(path)[1..], '/', "") == Outcome(path)
    decreases |path|
  {
    SlashedStep(path);
    if |path| > 1 {
      SlashedStep(path[1..]);
      SplitPrinted(path[1..]);
    }
    SegmentSplits(path[0], Slashed(path[1..]));
  }

  lemma {:induction false} ParseTexts(path: ScenePath)
    requires AllPrint(path)
    ensures ParseParts(Texts(path)) == Ok(path)
    decreases |path|
  {
    if path != [] {
      PartRoundTrip(path[0]);
      ParseTexts(path[1..]);
      assert Texts(path)[0] == PrintPart(path[0]) && Texts(path)[1..] == Texts(path[1..]);
      assert path == [path[0]] + path[1..];
    }
  }

  lemma {:induction false} ParsePartsLength(segs: seq<string>)
    ensures ParseParts(segs).Ok? ==> |ParseParts(segs).value| == |segs|
  {
    if segs != [] { ParsePartsLength(segs[1..]); }
  }

  // ---- Slashes in order keys add segments ----

  function Delimiters(s: string, delim: char): nat
    decreases |s|
  {
    if s == "" then 0
    else if s[0] == '\\' then if |s| == 1 then 0 else Delimiters(s[2..], delim)
    else (if s[0] == delim then 1 else 0) + Delimiters(s[1..], delim)
  }

  lemma {:induction false} SplitCounts(s: string, delim: char, cur: string)
    ensures var r := Split(s, delim, cur); r.Ok? ==> |r.value| == 1 + Delimiters(s, delim)
    decreases |s|
  {
    if s == "" {
    } else if s[0] == '\\' {
      if |s| > 1 { SplitCounts(s[2..], delim, cur + s[..2]); }
    } else if s[0] == delim {
      SplitCounts(s[1..], delim, "");
    } else {
      SplitCounts(s[1..], delim, cur + s[..1]);
    }
  }

  lemma DelimitersStep(c: char, special: set<char>, tail: string, delim: char)
    requires '\\' in special && delim != '\\'
    ensures Delimiters((if c in special then ['\\', c] else [c]) + tail, delim) ==
      Delimiters(tail, delim) + if c == delim && delim !in special then 1 else 0
  {
    assert ([c] + tail)[1..] == tail && (['\\', c] + tail)[2..] == tail;
  }

  lemma {:induction false} EscapedDelimiters(s: string, special: set<char>, t: string, delim: char)
    requires '\\' in special && delim != '\\'
    ensures Delimiters(Escaped(s, special) + t, delim) >= Delimiters(t, delim)
    ensures delim !in special && delim in s ==> Delimiters(Escaped(s, special) + t, delim) > Delimiters(t, delim)
    decreases |s|
  {
    if s == "" {
      assert "" + t == t;
    } else {
      EscapedHead(s, special, t);
      DelimitersStep(s[0], special, Escaped(s[1..], special) + t, delim);
      EscapedDelimiters(s[1..], special, t, delim);
    }
  }

  lemma {:induction false} PlainDelimiters(w: string, t: string, delim: char)
    requires '\\' !in w && delim !in w
    ensures Delimiters(w + t, delim) == Delimiters(t, delim)
    decreases |w|
  {
    if w == "" {
      assert "" + t == t;
    } else {
      assert (w + t)[1..] == w[1..] + t;
      PlainDelimiters(w[1..], t, delim);
    }
  }

  lemma OrderedDelimiters(key: string, t: string)
    ensures Delimiters(PrintPart(Ordered(key)) + t, '/') >= Delimiters(t, '/')
    ensures '/' in key ==> Delimiters(PrintPart(Ordered(key)) + t, '/') > Delimiters(t, '/')
  {
    var inner := Escaped(key, KEY_SPECIALS);
    assert PrintPart(Ordered(key)) + t == "[" + (inner + ("]" + t));
    PlainDelimiters("[", inner + ("]" + t), '/');
    EscapedDelimiters(key, KEY_SPECIALS, "]" + t, '/');
    PlainDelimiters("]", t, '/');
  }

  lemma NamedDelimiters(name: string, suffix: string, t: string)
    requires '\\' !in suffix && '/' !in suffix
    ensures Delimiters(Escaped(name, NAME_SPECIALS) + suffix + t, '/') >= Delimiters(t, '/')
  {
    assert Escaped(name, NAME_SPECIALS) + suffix + t == Escaped(name, NAME_SPECIALS) + (suffix + t);
    EscapedDelimiters(name, NAME_SPECIALS, suffix + t, '/');
    PlainDelimiters(suffix, t, '/');
  }

  lemma PartDelimiters(part: Part, t: string)
    ensures Delimiters(PrintPart(part) + t, '/') >= Delimiters(t, '/')
    ensures !Slashless(part) ==> Delimiters(PrintPart(part) + t, '/') > Delimiters(t, '/')
  {
    match part
    case Ordered(key) => OrderedDelimiters(key, t);
    case Named(name, index) =>
      SuffixPlain(index);
      NamedDelimiters(name, Suffix(index), t);
  }

  lemma {:induction false} PathDelimiters(path: ScenePath)
    ensures Delimiters(Slashed(path), '/') >= |path|
    ensures !AllSlashless(path) ==> Delimiters(Slashed(path), '/') > |path|
    decreases |path|
  {
    if path != [] {
      PathDelimiters(path[1..]);
      PartDelimiters(path[0], Slashed(path[1..]));
      SlashedStep(path);
    }
  }

  // ---- Main results ----

  /** Parsing the printed form gives the path back exactly when it is well-formed. */
  lemma RoundTrip(path: ScenePath)
    ensures Parse(Print(path)) == Ok(path) <==> WellFormed(path)
  {
    if path != [] {
      assert Slashed(path)[0] == '/';
      WellFormedAll(path);
      if AllSlashless(path) {
        SplitPrinted(path);
        OutcomeIs(path);
        PartRoundTrip(path[0]);
        if AllPrint(path) { ParseTexts(path); }
      } else {
        SlashSplits(path);
      }
    }
  }

  lemma SlashSplits(path: ScenePath)
    requires !AllSlashless(path)
    ensures Parse(Print(path)) != Ok(path)
  {
    PathDelimiters(path);
    var tail := Slashed(path)[1..];
    SplitCounts(tail, '/', "");
    var r := Split(tail, '/', "");
    if r.Ok? { ParsePartsLength(r.value); }
  }

  /** Different well-formed paths print differently. */
  lemma PrintInjective(a: ScenePath, b: ScenePath)
    requires WellFormed(a) && WellFormed(b) && Print(a) == Print(b)
    ensures a == b
  {
    RoundTrip(a);
    RoundTrip(b);
  }

  /** The parser makes parts that do not print back: a lone "#0", and a key with an escaped slash. */
  lemma ParserMakesMore()
    ensures ParsePart("#0") == Ok(Named("", 0)) && PrintPart(Named("", 0)) == ""
    ensures ParsePart("[\\/]") == Ok(Ordered("/")) && !Slashless(Ordered("/"))
  {
    assert "#0"[1..] == "0" && "0"[..0] == "";
    assert SplitHash("#0", "") == Ok(("", Some("0")));
    assert Value("0") == Some(0);
    assert "[\\/]"[1..3] == "\\/" && "\\/"[2..] == "" && "" + ['/'] == "/";
    assert Unescaped("\\/", "") == Unescaped("", "/");
  }
}
