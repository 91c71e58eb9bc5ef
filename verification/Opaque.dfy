/** The server's schema-agnostic state of one entity: `OpaqueRecord` of `kyoso_crdt::opaque`. */
module Opaque {
  import opened Wrappers
  import opened Ids
  import opened Delta
  import opened TypedSchemas

  type Record<S> = map<Path, OpaqueValue<S>>

  predicate StartsWith(p: Path, prefix: Path) {
    |p| >= |prefix| && forall i | 0 <= i < |prefix| :: p[i] == prefix[i]
  }

  lemma StartsWithIsPrefix(p: Path, prefix: Path)
    ensures StartsWith(p, prefix) <==> prefix <= p
  {
    if prefix <= p { assert p[..|prefix|] == prefix; }
    if StartsWith(p, prefix) { assert p[..|prefix|] == prefix; }
  }

  /** The path whose subtree a map removal drops: a key that is not empty extends the path. */
  function DropPrefix(path: Path, key: PathSegment): Path {
    if key.name == "" then path else path + [key]
  }

  function Drop<S>(fields: Record<S>, prefix: Path): Record<S> {
    map p | p in fields && !StartsWith(p, prefix) :: fields[p]
  }

  function FieldOr<S>(o: Leaves<S>, fields: Record<S>, path: Path, kind: Kind): OpaqueValue<S> {
    if path in fields then fields[path] else OpaqueValue(kind, o.empty(kind))
  }

  /** `apply_wire`: the delta decides the kind of a new field, and a field of another kind is refused. */
  function OpaqueApply<S>(o: Leaves<S>, fields: Record<S>, path: Path, wire: WireDelta, ctx: Ctx): (Result<(),
                          DeltaError>, Record<S>)
    decreases wire
  {
    match wire
    case MapPut(key, inner) => OpaqueApply(o, fields, path + [key], inner, ctx)
    case MapRemove(key, _) => (Ok(()), Drop(fields, DropPrefix(path, key)))
    case _ =>
      var kind := KindOf(wire).value;
      var v := FieldOr(o, fields, path, kind);
      if v.kind != kind then (Err(TypeMismatch), fields)
      else (Ok(()), fields[path := OpaqueValue(kind, o.apply(v.state, wire, ctx))])
  }

  predicate ForLeaf(wire: WireDelta) {
    !wire.MapPut? && !wire.MapRemove?
  }

  /** Deltas meant for the same kind of leaf. */
  predicate SameFamily(a: WireDelta, b: WireDelta) {
    || (a.LwwReplace? && b.LwwReplace?)
    || ((a.OrSetAdd? || a.OrSetRemove?) && (b.OrSetAdd? || b.OrSetRemove?))
    || (a.PnCounterDelta? && b.PnCounterDelta?)
    || ((a.SequenceInsert? || a.SequenceDelete?) && (b.SequenceInsert? || b.SequenceDelete?))
    || (a.TreeMove? && b.TreeMove?)
  }

  /** The kind of field each wire form makes where there is none. */
  lemma WireMakes<S>(o: Leaves<S>, fields: Record<S>, path: Path, wire: WireDelta, ctx: Ctx)
    requires path !in fields && ForLeaf(wire)
    ensures
      var kind :=
        if wire.LwwReplace? then Lww else if wire.OrSetAdd? || wire.OrSetRemove? then OrSet
        else if wire.PnCounterDelta? then PnCounter
        else if wire.SequenceInsert? || wire.SequenceDelete? then Sequence else MoveTree;
      OpaqueApply(o, fields, path, wire, ctx) ==
        (Ok(()), fields[path := OpaqueValue(kind, o.apply(o.empty(kind), wire, ctx))])
  {
  }

  /**
   * After a delta has succeeded at a path, another succeeds there exactly when it is of the same family:
   * it then changes the state of that field alone, and else is refused and changes nothing.
   */
  lemma FamilyDecides<S>(o: Leaves<S>, fields: Record<S>, path: Path, first: WireDelta, second: WireDelta, ctx: Ctx,
                         later: Ctx)
    requires ForLeaf(first) && ForLeaf(second) && OpaqueApply(o, fields, path, first, ctx).0.Ok?
    ensures
      var now := OpaqueApply(o, fields, path, first, ctx).1;
      && path in now
      && OpaqueApply(o, now, path, second, later) ==
           if SameFamily(first, second)
           then (Ok(()), now[path := OpaqueValue(now[path].kind, o.apply(now[path].state, second, later))])
           else (Err(TypeMismatch), now)
  {
  }

  /** The path at which a delta does its work: puts lead further down. */
  function WorksAt(path: Path, wire: WireDelta): (Path, WireDelta)
    decreases wire
  {
    if wire.MapPut? then WorksAt(path + [wire.key], wire.inner) else (path, wire)
  }

  lemma {:induction false} PutsLeadDown<S>(o: Leaves<S>, fields: Record<S>, path: Path, wire: WireDelta, ctx: Ctx)
    ensures var (at, inner) := WorksAt(path, wire); path <= at && !inner.MapPut?
    ensures var (at, inner) := WorksAt(path, wire);
      OpaqueApply(o, fields, path, wire, ctx) == OpaqueApply(o, fields, at, inner, ctx)
    decreases wire
  {
    if wire.MapPut? { PutsLeadDown(o, fields, path + [wire.key], wire.inner, ctx); }
  }

  /** What a delta does to a record, kind by kind; a removal drops the subtree of its key, or of the path for no key. */
  ghost predicate Applied<S>(o: Leaves<S>, fields: Record<S>, path: Path, wire: WireDelta, ctx: Ctx,
                             r: Result<(), DeltaError>, next: Record<S>)
  {
    match wire
    case MapPut(_, _) => true
    case MapRemove(key, _) =>
      var gone := if key.name == "" then path else path + [key];
      && r == Ok(()) && (forall p :: p in next <==> p in fields && !(gone <= p))
      && forall p | p in next :: next[p] == fields[p]
    case _ =>
      if path in fields && !Takes(fields[path].kind, wire) then r == Err(TypeMismatch) && next == fields
      else
        && r == Ok(()) && path in next && next - {path} == fields - {path} && Takes(next[path].kind, wire)
        && next[path].state ==
             o.apply(if path in fields then fields[path].state else o.empty(next[path].kind), wire, ctx)
  }

  lemma {:induction false} AppliedAt<S>(o: Leaves<S>, fields: Record<S>, path: Path, wire: WireDelta, ctx: Ctx)
    ensures
      var (at, inner) := WorksAt(path, wire);
      var (r, next) := OpaqueApply(o, fields, path, wire, ctx);
      Applied(o, fields, at, inner, ctx, r, next)
  {
    PutsLeadDown(o, fields, path, wire, ctx);
    var (at, inner) := WorksAt(path, wire);
    if inner.MapRemove? {
      forall p ensures StartsWith(p, DropPrefix(at, inner.key)) <==> DropPrefix(at, inner.key) <= p {
        StartsWithIsPrefix(p, DropPrefix(at, inner.key));
      }
    } else {
      KindTakes(KindOf(inner).value, inner);
      if at in fields { KindTakes(fields[at].kind, inner); }
    }
  }

  /** Joins two values of one kind; on different kinds the left one stays as it is. */
  function JoinValue<S>(join: (S, S) -> S, a: OpaqueValue<S>, b: OpaqueValue<S>): OpaqueValue<S> {
    if a.kind == b.kind then OpaqueValue(a.kind, join(a.state, b.state)) else a
  }

  function JoinFields<S>(join: (S, S) -> S, a: Record<S>, b: Record<S>): Record<S> {
    map p | p in a.Keys + b.Keys :: if p !in a then b[p] else if p !in b then a[p] else JoinValue(join, a[p], b[p])
  }

  /** Fields of one record alone are kept; states of one kind are joined, and of different kinds the left one stays. */
  ghost predicate Joined<S>(join: (S, S) -> S, a: Record<S>, b: Record<S>, r: Record<S>) {
    && r.Keys == a.Keys + b.Keys
    && (forall p | p in a && p !in b :: r[p] == a[p])
    && (forall p | p in b && p !in a :: r[p] == b[p])
    && (forall p | p in a && p in b && a[p].kind != b[p].kind :: r[p] == a[p])
    && (forall p | p in a && p in b && a[p].kind == b[p].kind ::
          r[p].kind == a[p].kind && r[p].state == join(a[p].state, b[p].state))
  }

  lemma JoinsFields<S>(join: (S, S) -> S, a: Record<S>, b: Record<S>)
    ensures Joined(join, a, b, JoinFields(join, a, b))
  {
  }

  /**
   * Over a commutative leaf join, records join alike in both orders exactly when they agree on the
   * kinds of shared fields.
   */
  lemma JoinCommutesIff<S>(join: (S, S) -> S, a: Record<S>, b: Record<S>)
    requires forall x, y :: join(x, y) == join(y, x)
    ensures JoinFields(join, a, b) == JoinFields(join, b, a) <==> forall p | p in a && p in b :: a[p].kind == b[p].kind
  {
    var ab, ba := JoinFields(join, a, b), JoinFields(join, b, a);
    if p :| p in a && p in b && a[p].kind != b[p].kind { assert ab[p] == a[p] && ba[p] == b[p]; }
    if forall p | p in a && p in b :: a[p].kind == b[p].kind {
      forall p | p in ab ensures ab[p] == ba[p] {}
    }
  }

  class OpaqueRecord<!S> {
    const leaves: Leaves<S>
    var fields: Record<S>

    constructor (o: Leaves<S>)
      ensures leaves == o && fields == map[]
    {
      leaves, fields := o, map[];
    }

    method ApplyWire(path: Path, wire: WireDelta, ctx: Ctx) returns (r: Result<(), DeltaError>)
      modifies this
      ensures (r, fields) == OpaqueApply(leaves, old(fields), path, wire, ctx)
      ensures var (at, inner) := WorksAt(path, wire); Applied(leaves, old(fields), at, inner, ctx, r, fields)
      decreases wire
    {
      AppliedAt(leaves, fields, path, wire, ctx);
      match wire
      case MapPut(key, inner) => r := ApplyWire(path + [key], inner, ctx);
      case MapRemove(key, _) => fields := Drop(fields, DropPrefix(path, key)); return Ok(());
      case LwwReplace(_) => r := ApplyAs(Lww, path, wire, ctx);
      case OrSetAdd(_) => r := ApplyAs(OrSet, path, wire, ctx);
      case OrSetRemove(_) => r := ApplyAs(OrSet, path, wire, ctx);
      case PnCounterDelta(_) => r := ApplyAs(PnCounter, path, wire, ctx);
      case SequenceInsert(_, _) => r := ApplyAs(Sequence, path, wire, ctx);
      case SequenceDelete(_) => r := ApplyAs(Sequence, path, wire, ctx);
      case TreeMove(_, _, _) => r := ApplyAs(MoveTree, path, wire, ctx);
    }

    /** Applies a delta to the field of its kind at `path`, made empty if it is not there. */
    method ApplyAs(kind: Kind, path: Path, wire: WireDelta, ctx: Ctx) returns (r: Result<(), DeltaError>)
      requires KindOf(wire) == Some(kind)
      modifies this
      ensures (r, fields) == OpaqueApply(leaves, old(fields), path, wire, ctx)
    {
      if path !in fields { fields := fields[path := OpaqueValue(kind, leaves.empty(kind))]; }
      if fields[path].kind != kind { return Err(TypeMismatch); }
      fields := fields[path := OpaqueValue(kind, leaves.apply(fields[path].state, wire, ctx))];
      assert fields == old(fields)[path := fields[path]];
      return Ok(());
    }

    /** Takes in the fields of another record, in no particular order. */
    method Join(join: (S, S) -> S, other: Record<S>)
      modifies this
      ensures fields == JoinFields(join, old(fields), other)
      ensures Joined(join, old(fields), other, fields)
    {
      JoinsFields(join, fields, other);
      TakeIn(join, other);
    }

    method TakeIn(join: (S, S) -> S, other: Record<S>)
      modifies this
      ensures fields == JoinFields(join, old(fields), other)
    {
      var remaining := other.Keys;
      ghost var was := fields;
      while remaining != {}
        invariant remaining <= other.Keys
        invariant fields == JoinFields(join, was, map p | p in other && p !in remaining :: other[p])
        decreases |remaining|
      {
        var p :| p in remaining;
        assert p in fields <==> p in was;
        fields := fields[p := if p in fields then JoinValue(join, fields[p], other[p]) else other[p]];
        remaining := remaining - {p};
      }
      assert other == map p | p in other && p !in remaining :: other[p];
    }

    method InstallState(path: Path, v: OpaqueValue<S>)
      modifies this
      ensures fields == old(fields)[path := v]
    {
      fields := fields[path := v];
    }
  }

  // ---- The part of a record below one segment ----

  ghost predicate IsSub<S>(fields: Record<S>, seg: PathSegment, r: Record<S>) {
    && (forall p: Path :: p in r <==> [seg] + p in fields)
    && (forall p: Path | p in r :: r[p] == fields[[seg] + p])
  }

  lemma SubExists<S>(fields: Record<S>, seg: PathSegment)
    ensures exists r: Record<S> :: IsSub(fields, seg, r)
  {
    var tails := set p | p in fields && p != [] && p[0] == seg :: p[1..];
    forall p: Path ensures p in tails <==> [seg] + p in fields {
      if p in tails {
        var q :| q in fields && q != [] && q[0] == seg && q[1..] == p;
        assert q == [seg] + p;
      }
      if [seg] + p in fields { assert ([seg] + p)[1..] == p; }
    }
    assert IsSub(fields, seg, map p | p in tails :: fields[[seg] + p]);
  }

  /** The fields whose paths start with `seg`, without that segment. */
  ghost function Sub<S>(fields: Record<S>, seg: PathSegment): (r: Record<S>)
    ensures IsSub(fields, seg, r)
  {
    SubExists(fields, seg);
    var r: Record<S> :| IsSub(fields, seg, r);
    r
  }

  /** A field written below one segment is written in that part alone. */
  lemma SubWritten<S>(fields: Record<S>, seg: PathSegment, p: Path, v: OpaqueValue<S>)
    ensures Sub(fields[[seg] + p := v], seg) == Sub(fields, seg)[p := v]
    ensures forall other: PathSegment | other != seg :: Sub(fields[[seg] + p := v], other) == Sub(fields, other)
  {
    var a := fields[[seg] + p := v];
    forall q: Path ensures [seg] + q in a <==> q == p || [seg] + q in fields
      ensures [seg] + q == [seg] + p <==> q == p {
      assert ([seg] + q)[1..] == q && ([seg] + p)[1..] == p;
    }
    forall other: PathSegment | other != seg ensures Sub(a, other) == Sub(fields, other) {
      forall q: Path ensures [other] + q != [seg] + p { assert ([other] + q)[0] == other && ([seg] + p)[0] == seg; }
    }
  }

  lemma StartsBelow(seg: PathSegment, q: Path, prefix: Path)
    ensures StartsWith([seg] + q, [seg] + prefix) <==> StartsWith(q, prefix)
  {
    var x, y := [seg] + q, [seg] + prefix;
    if StartsWith(q, prefix) {
      forall i | 0 <= i < |y| ensures x[i] == y[i] { if i > 0 { assert q[i - 1] == prefix[i - 1]; } }
    }
    if StartsWith(x, y) {
      forall i | 0 <= i < |prefix| ensures q[i] == prefix[i] { assert x[i + 1] == y[i + 1]; }
    }
  }

  lemma SubDropped<S>(fields: Record<S>, seg: PathSegment, prefix: Path)
    ensures Sub(Drop(fields, [seg] + prefix), seg) == Drop(Sub(fields, seg), prefix)
    ensures forall other: PathSegment | other != seg :: Sub(Drop(fields, [seg] + prefix), other) == Sub(fields, other)
  {
    var a := Drop(fields, [seg] + prefix);
    forall q: Path ensures StartsWith([seg] + q, [seg] + prefix) <==> StartsWith(q, prefix) {
      StartsBelow(seg, q, prefix);
    }
    assert Sub(a, seg) == Drop(Sub(fields, seg), prefix);
    forall other: PathSegment | other != seg ensures Sub(a, other) == Sub(fields, other) {
      forall q: Path ensures !StartsWith([other] + q, [seg] + prefix) {
        assert ([other] + q)[0] != ([seg] + prefix)[0];
      }
    }
  }

  /** A delta below one segment acts on that part alone, as it would on a record of its own. */
  lemma {:induction false} SubApplied<S>(o: Leaves<S>, fields: Record<S>, seg: PathSegment, path: Path,
                                         wire: WireDelta, ctx: Ctx)
    ensures
      var (r, next) := OpaqueApply(o, fields, [seg] + path, wire, ctx);
      && (r, Sub(next, seg)) == OpaqueApply(o, Sub(fields, seg), path, wire, ctx)
      && forall other: PathSegment | other != seg :: Sub(next, other) == Sub(fields, other)
    ensures [] in fields <==> [] in OpaqueApply(o, fields, [seg] + path, wire, ctx).1
    decreases wire
  {
    match wire
    case MapPut(key, inner) =>
      SubApplied(o, fields, seg, path + [key], inner, ctx);
      assert [seg] + path + [key] == [seg] + (path + [key]);
    case MapRemove(key, _) =>
      var prefix := DropPrefix(path, key);
      assert DropPrefix([seg] + path, key) == [seg] + prefix;
      SubDropped(fields, seg, prefix);
    case _ =>
      var kind := KindOf(wire).value;
      var v := FieldOr(o, fields, [seg] + path, kind);
      SubWritten(fields, seg, path, OpaqueValue(kind, o.apply(v.state, wire, ctx)));
  }
}
