/** Typed documents: nested schemas as `derive(Crdt)` generates them, with `CausalMap`. */
module TypedSchemas {
  // The primitive CRDTs are the leaves. A leaf is any state with a deterministic apply.

  import opened Wrappers
  import opened Ids
  import opened Delta

  datatype Kind = Lww | OrSet | PnCounter | Sequence | MoveTree

  /** The leaf types: an empty state per kind, and the effect of a delta under its op. */
  datatype Leaves<!S> = Leaves(empty: Kind -> S, apply: (S, WireDelta, Ctx) -> S)

  datatype Schema = Leaf(kind: Kind) | Struct(fields: map<string, Schema>) | MapOf(value: Schema)

  datatype Doc<S> = LeafDoc(state: S) | StructDoc(fields: map<string, Doc>) | MapDoc(values: map<string, Doc>)

  /** A typed delta: one field of a struct, one key of a map, or a change of a leaf. */
  datatype TypedDelta =
    | LeafDelta(wire: WireDelta)
    | FieldDelta(field: string, inner: TypedDelta)
    | PutDelta(key: string, inner: TypedDelta)
    | RemoveDelta(key: string, observed: seq<SubDot>)

  datatype DeltaError = Invalid | UnknownPath(segment: string) | TypeMismatch

  /** The CRDT a wire delta is meant for; the map forms are meant for none of the leaves. */
  function KindOf(d: WireDelta): Option<Kind> {
    match d
    case LwwReplace(_) => Some(Lww)
    case OrSetAdd(_) => Some(OrSet)
    case OrSetRemove(_) => Some(OrSet)
    case PnCounterDelta(_) => Some(PnCounter)
    case SequenceInsert(_, _) => Some(Sequence)
    case SequenceDelete(_) => Some(Sequence)
    case TreeMove(_, _, _) => Some(MoveTree)
    case MapPut(_, _) => None
    case MapRemove(_, _) => None
  }

  /** The deltas a leaf of each kind understands. */
  predicate Takes(kind: Kind, d: WireDelta) {
    match kind
    case Lww => d.LwwReplace?
    case OrSet => d.OrSetAdd? || d.OrSetRemove?
    case PnCounter => d.PnCounterDelta?
    case Sequence => d.SequenceInsert? || d.SequenceDelete?
    case MoveTree => d.TreeMove?
  }

  lemma KindTakes(kind: Kind, d: WireDelta)
    ensures KindOf(d) == Some(kind) <==> Takes(kind, d)
  {
  }

  function Bottom<S>(o: Leaves<S>, schema: Schema): Doc<S> {
    match schema
    case Leaf(kind) => LeafDoc(o.empty(kind))
    case Struct(fields) => StructDoc(map n | n in fields :: Bottom(o, fields[n]))
    case MapOf(_) => MapDoc(map[])
  }

  /** Documents of a schema have its shape. */
  predicate Shaped<S>(schema: Schema, doc: Doc<S>) {
    match schema
    case Leaf(_) => doc.LeafDoc?
    case Struct(fields) => doc.StructDoc? && doc.fields.Keys == fields.Keys && forall n | n in fields ::
      Shaped(fields[n], doc.fields[n])
    case MapOf(value) => doc.MapDoc? && forall k | k in doc.values :: Shaped(value, doc.values[k])
  }

  /** What the types of a schema's deltas guarantee. */
  predicate WellKinded(schema: Schema, d: TypedDelta)
    decreases d
  {
    match schema
    case Leaf(kind) => d.LeafDelta? && Takes(kind, d.wire)
    case Struct(fields) => d.FieldDelta? && d.field in fields && WellKinded(fields[d.field], d.inner)
    case MapOf(value) => d.RemoveDelta? || (d.PutDelta? && WellKinded(value, d.inner))
  }

  function EntryOr<S>(o: Leaves<S>, value: Schema, values: map<string, Doc<S>>, key: string): Doc<S> {
    if key in values then values[key] else Bottom(o, value)
  }

  // ---- Crdt::apply ----

  function ApplyTyped<S>(o: Leaves<S>, schema: Schema, doc: Doc<S>, d: TypedDelta, ctx: Ctx): Doc<S>
    requires Shaped(schema, doc) && WellKinded(schema, d)
    decreases d
  {
    match schema
    case Leaf(_) => LeafDoc(o.apply(doc.state, d.wire, ctx))
    case Struct(fields) => StructDoc(doc.fields[d.field :=
      ApplyTyped(o, fields[d.field], doc.fields[d.field], d.inner, ctx)])
    case MapOf(value) =>
      if d.RemoveDelta? then MapDoc(doc.values - {d.key})
      else
        BottomShaped(o, value);
        MapDoc(doc.values[d.key := ApplyTyped(o, value, EntryOr(o, value, doc.values, d.key), d.inner, ctx)])
  }

  lemma {:induction false} BottomShaped<S>(o: Leaves<S>, schema: Schema)
    ensures Shaped(schema, Bottom(o, schema))
  {
    if schema.Struct? {
      forall n | n in schema.fields ensures Shaped(schema.fields[n], Bottom(o, schema.fields[n])) {
        BottomShaped(o, schema.fields[n]);
      }
    }
  }

  lemma {:induction false} ApplyShaped<S>(o: Leaves<S>, schema: Schema, doc: Doc<S>, d: TypedDelta, ctx: Ctx)
    requires Shaped(schema, doc) && WellKinded(schema, d)
    ensures Shaped(schema, ApplyTyped(o, schema, doc, d, ctx))
    decreases d
  {
    match schema
    case Leaf(_) =>
    case Struct(fields) => ApplyShaped(o, fields[d.field], doc.fields[d.field], d.inner, ctx);
    case MapOf(value) =>
      if d.PutDelta? {
        BottomShaped(o, value);
        ApplyShaped(o, value, EntryOr(o, value, doc.values, d.key), d.inner, ctx);
      }
  }

  // ---- IntoWireOp::into_wire_op ----

  /** Outermost segment first; a removed map key stays in the path and the delta's own key is empty. */
  function IntoWireOp(d: TypedDelta): (Path, WireDelta) {
    match d
    case LeafDelta(wire) => ([], wire)
    case FieldDelta(field, inner) => var (path, wire) := IntoWireOp(inner); ([Field(field)] + path, wire)
    case PutDelta(key, inner) => var (path, wire) := IntoWireOp(inner); ([Key(key)] + path, wire)
    case RemoveDelta(key, observed) => ([Key(key)], MapRemove(Key(""), observed))
  }

  // ---- SchemaApply::apply_wire ----

  /** A struct takes a field segment that names one of its fields. */
  function SplitFieldHead(path: Path): Result<(string, Path), DeltaError> {
    if path == [] || path[0].Key? then Err(Invalid) else Ok((path[0].name, path[1..]))
  }

  function ApplyWire<S>(o: Leaves<S>, schema: Schema, doc: Doc<S>, path: Path, wire: WireDelta, ctx: Ctx): (Result<(),
                        DeltaError>, Doc<S>)
    requires Shaped(schema, doc)
    decreases schema
  {
    match schema
    case Leaf(kind) =>
      if path != [] then (Err(Invalid), doc)
      else if KindOf(wire) != Some(kind) then (Err(TypeMismatch), doc)
      else (Ok(()), LeafDoc(o.apply(doc.state, wire, ctx)))
    case Struct(fields) =>
      (match SplitFieldHead(path)
       case Err(e) => (Err(e), doc)
       case Ok((head, tail)) =>
         if head !in fields then (Err(UnknownPath(head)), doc)
         else
           var (r, inner) := ApplyWire(o, fields[head], doc.fields[head], tail, wire, ctx);
           (r, StructDoc(doc.fields[head := inner])))
    case MapOf(value) =>
      if path == [] then (Err(Invalid), doc)
      else if |path| == 1 && wire.MapRemove? then (Ok(()), MapDoc(doc.values - {path[0].name}))
      else
        BottomShaped(o, value);
        var (r, inner) := ApplyWire(o, value, EntryOr(o, value, doc.values, path[0].name), path[1..], wire, ctx);
        (r, MapDoc(doc.values[path[0].name := inner]))
  }

  /** The wire form of a delta reaches the CRDT the delta was made for, at every depth. */
  lemma {:induction false} WireFormApplies<S>(o: Leaves<S>, schema: Schema, doc: Doc<S>, d: TypedDelta, ctx: Ctx)
    requires Shaped(schema, doc) && WellKinded(schema, d)
    ensures
      var (path, wire) := IntoWireOp(d);
      ApplyWire(o, schema, doc, path, wire, ctx) == (Ok(()), ApplyTyped(o, schema, doc, d, ctx))
    decreases d
  {
    match schema
    case Leaf(_) =>
    case Struct(fields) =>
      WireFormApplies(o, fields[d.field], doc.fields[d.field], d.inner, ctx);
    case MapOf(value) =>
      if d.PutDelta? {
        BottomShaped(o, value);
        PutIsNoRemove(value, d.inner);
        WireFormApplies(o, value, EntryOr(o, value, doc.values, d.key), d.inner, ctx);
      }
  }

  /** A wire delta that is accepted does what some typed delta does. */
  lemma {:induction false} AcceptedIsTyped<S>(o: Leaves<S>, schema: Schema, doc: Doc<S>, path: Path, wire: WireDelta,
                                              ctx: Ctx) returns (d: TypedDelta)
    requires Shaped(schema, doc) && ApplyWire(o, schema, doc, path, wire, ctx).0.Ok?
    ensures WellKinded(schema, d) && ApplyWire(o, schema, doc, path, wire, ctx).1 == ApplyTyped(o, schema, doc, d, ctx)
    decreases schema
  {
    match schema
    case Leaf(kind) =>
      KindTakes(kind, wire);
      d := LeafDelta(wire);
    case Struct(fields) =>
      var n := path[0].name;
      var inner := AcceptedIsTyped(o, fields[n], doc.fields[n], path[1..], wire, ctx);
      d := FieldDelta(n, inner);
    case MapOf(value) =>
      if |path| == 1 && wire.MapRemove? {
        d := RemoveDelta(path[0].name, wire.observed);
      } else {
        BottomShaped(o, value);
        var n := path[0].name;
        var inner := AcceptedIsTyped(o, value, EntryOr(o, value, doc.values, n), path[1..], wire, ctx);
        d := PutDelta(n, inner);
      }
  }

  /** The path ends at a leaf of the given kind; a map takes any segment as its key. */
  predicate EndsAt(schema: Schema, path: Path, kind: Kind)
    decreases schema
  {
    match schema
    case Leaf(k) => path == [] && kind == k
    case Struct(fields) =>
      path != [] && path[0].Field? && path[0].name in fields && EndsAt(fields[path[0].name], path[1..], kind)
    case MapOf(value) => path != [] && EndsAt(value, path[1..], kind)
  }

  /** The path comes to a struct with a field segment that names none of its fields. */
  predicate Misses(schema: Schema, path: Path, name: string)
    decreases schema
  {
    match schema
    case Leaf(_) => false
    case Struct(fields) =>
      path != [] && path[0].Field? &&
      if path[0].name in fields then Misses(fields[path[0].name], path[1..], name) else path[0].name == name
    case MapOf(value) => path != [] && Misses(value, path[1..], name)
  }

  /**
   * Which error a delta for a leaf meets: a leaf of another kind, an unknown field, or a path that
   * leads to no leaf.
   */
  lemma {:induction false} RefusedFor<S>(o: Leaves<S>, schema: Schema, doc: Doc<S>, path: Path, wire: WireDelta,
                                         ctx: Ctx)
    requires Shaped(schema, doc) && !wire.MapRemove?
    ensures
      var r := ApplyWire(o, schema, doc, path, wire, ctx).0;
      && (r == Ok(()) <==> exists kind :: EndsAt(schema, path, kind) && Takes(kind, wire))
      && (r == Err(TypeMismatch) <==> exists kind :: EndsAt(schema, path, kind) && !Takes(kind, wire))
      && (forall name :: r == Err(UnknownPath(name)) <==> Misses(schema, path, name))
    decreases schema
  {
    match schema
    case Leaf(kind) => KindTakes(kind, wire);
    case Struct(fields) =>
      if path != [] && path[0].Field? && path[0].name in fields {
        assert forall kind :: EndsAt(schema, path, kind) <==> EndsAt(fields[path[0].name], path[1..], kind);
        RefusedFor(o, fields[path[0].name], doc.fields[path[0].name], path[1..], wire, ctx);
      }
    case MapOf(value) =>
      if path != [] {
        BottomShaped(o, value);
        assert forall kind :: EndsAt(schema, path, kind) <==> EndsAt(value, path[1..], kind);
        RefusedFor(o, value, EntryOr(o, value, doc.values, path[0].name), path[1..], wire, ctx);
      }
  }

  /** The wire form of a put at a key never reads as the removal of that key. */
  lemma PutIsNoRemove(value: Schema, inner: TypedDelta)
    requires WellKinded(value, inner)
    ensures var (path, wire) := IntoWireOp(inner); path != [] || !wire.MapRemove?
  {
  }

  // ---- SchemaApply::install_state ----

  /** Merged state of one primitive as the server holds it. */
  datatype OpaqueValue<S> = OpaqueValue(kind: Kind, state: S)

  function InstallState<S>(o: Leaves<S>, schema: Schema, doc: Doc<S>, path: Path, v: OpaqueValue<S>): (Result<(),
                           DeltaError>, Doc<S>)
    requires Shaped(schema, doc)
    decreases schema
  {
    match schema
    case Leaf(kind) =>
      if path != [] then (Err(Invalid), doc)
      else if v.kind != kind then (Err(TypeMismatch), doc)
      else (Ok(()), LeafDoc(v.state))
    case Struct(fields) =>
      (match SplitFieldHead(path)
       case Err(e) => (Err(e), doc)
       case Ok((head, tail)) =>
         if head !in fields then (Err(UnknownPath(head)), doc)
         else
           var (r, inner) := InstallState(o, fields[head], doc.fields[head], tail, v);
           (r, StructDoc(doc.fields[head := inner])))
    case MapOf(value) =>
      if path == [] then (Err(Invalid), doc)
      else
        BottomShaped(o, value);
        var (r, inner) := InstallState(o, value, EntryOr(o, value, doc.values, path[0].name), path[1..], v);
        (r, MapDoc(doc.values[path[0].name := inner]))
  }

  ghost predicate EndsAtOther(schema: Schema, path: Path, kind: Kind) {
    exists other :: EndsAt(schema, path, other) && other != kind
  }

  lemma OtherBelow(schema: Schema, path: Path, inner: Schema, kind: Kind)
    requires path != [] && forall k :: EndsAt(schema, path, k) <==> EndsAt(inner, path[1..], k)
    ensures EndsAtOther(schema, path, kind) <==> EndsAtOther(inner, path[1..], kind)
  {
    if other :| EndsAt(schema, path, other) && other != kind { assert EndsAt(inner, path[1..], other); }
    if other :| EndsAt(inner, path[1..], other) && other != kind { assert EndsAt(schema, path, other); }
  }

  /** A state is installed at a leaf of its kind, and refused with the same errors. */
  lemma {:induction false} InstallRefusedFor<S>(o: Leaves<S>, schema: Schema, doc: Doc<S>, path: Path,
                                                v: OpaqueValue<S>)
    requires Shaped(schema, doc)
    ensures
      var r := InstallState(o, schema, doc, path, v).0;
      && (r == Ok(()) <==> EndsAt(schema, path, v.kind))
      && (r == Err(TypeMismatch) <==> EndsAtOther(schema, path, v.kind))
      && (forall name :: r == Err(UnknownPath(name)) <==> Misses(schema, path, name))
    decreases schema
  {
    match schema
    case Leaf(kind) => if path == [] { assert EndsAt(schema, path, kind); }
    case Struct(fields) =>
      if path != [] && path[0].Field? && path[0].name in fields {
        var n := path[0].name;
        OtherBelow(schema, path, fields[n], v.kind);
        InstallRefusedFor(o, fields[n], doc.fields[n], path[1..], v);
      }
    case MapOf(value) =>
      if path != [] {
        BottomShaped(o, value);
        OtherBelow(schema, path, value, v.kind);
        InstallRefusedFor(o, value, EntryOr(o, value, doc.values, path[0].name), path[1..], v);
      }
  }

  lemma {:induction false} InstallShaped<S>(o: Leaves<S>, schema: Schema, doc: Doc<S>, path: Path, v: OpaqueValue<S>)
    requires Shaped(schema, doc)
    ensures Shaped(schema, InstallState(o, schema, doc, path, v).1)
    decreases schema
  {
    match schema
    case Leaf(_) =>
    case Struct(fields) =>
      if path != [] && path[0].Field? && path[0].name in fields {
        InstallShaped(o, fields[path[0].name], doc.fields[path[0].name], path[1..], v);
      }
    case MapOf(value) =>
      if path != [] {
        BottomShaped(o, value);
        InstallShaped(o, value, EntryOr(o, value, doc.values, path[0].name), path[1..], v);
      }
  }
}
