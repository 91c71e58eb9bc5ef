module Hydration {
  // Snapshot hydration: what the server's opaque record of an entity says about a client's typed
  // document, and when installing the record gives the document that typed replay gives.

  import opened Wrappers
  import opened Ids
  import opened Delta
  import opened TypedSchemas
  import opened Opaque

  // ---- Document and record in step ----

  /** The record holds the leaves of the document; map entries without any leaf leave no trace in it. */
  ghost predicate InStep<S>(o: Leaves<S>, schema: Schema, doc: Doc<S>, fields: Record<S>)
    decreases schema
  {
    match schema
    case Leaf(kind) =>
      && doc.LeafDoc? && fields.Keys <= {[]}
      && (if [] in fields then fields[[]] == OpaqueValue(kind, doc.state) else doc.state == o.empty(kind))
    case Struct(schemas) =>
      && doc.StructDoc? && doc.fields.Keys == schemas.Keys
      && FieldHeads(schemas.Keys, fields)
      && (forall n | n in schemas :: InStep(o, schemas[n], doc.fields[n], Sub(fields, Field(n))))
    case MapOf(value) =>
      && doc.MapDoc?
      && KeyHeads(doc.values.Keys, fields)
      && (forall k | k in doc.values :: InStep(o, value, doc.values[k], Sub(fields, Key(k))))
  }

  predicate FieldHeads<S>(names: set<string>, fields: Record<S>) {
    forall p: Path | p in fields :: p != [] && p[0].Field? && p[0].name in names
  }

  predicate KeyHeads<S>(keys: set<string>, fields: Record<S>) {
    forall p: Path | p in fields :: p != [] && p[0].Key? && p[0].name in keys
  }

  /** Every map entry of the document has a leaf in the record. */
  ghost predicate Traced<S>(schema: Schema, doc: Doc<S>, fields: Record<S>)
    requires Shaped(schema, doc)
    decreases schema
  {
    match schema
    case Leaf(_) => true
    case Struct(schemas) => forall n | n in schemas :: Traced(schemas[n], doc.fields[n], Sub(fields, Field(n)))
    case MapOf(value) => forall k | k in doc.values ::
      Sub(fields, Key(k)) != map[] && Traced(value, doc.values[k], Sub(fields, Key(k)))
  }

  lemma {:induction false} InStepShaped<S>(o: Leaves<S>, schema: Schema, doc: Doc<S>, fields: Record<S>)
    requires InStep(o, schema, doc, fields)
    ensures Shaped(schema, doc)
    decreases schema
  {
    match schema
    case Leaf(_) =>
    case Struct(schemas) =>
      forall n | n in schemas ensures Shaped(schemas[n], doc.fields[n]) {
        InStepShaped(o, schemas[n], doc.fields[n], Sub(fields, Field(n)));
      }
    case MapOf(value) =>
      forall k | k in doc.values ensures Shaped(value, doc.values[k]) {
        InStepShaped(o, value, doc.values[k], Sub(fields, Key(k)));
      }
  }

  lemma SubEmpty<S>(seg: PathSegment)
    ensures Sub<S>(map[], seg) == map[]
  {
  }

  lemma {:induction false} BottomInStep<S>(o: Leaves<S>, schema: Schema)
    ensures InStep(o, schema, Bottom(o, schema), map[])
    ensures Shaped(schema, Bottom(o, schema)) && Traced(schema, Bottom(o, schema), map[])
    decreases schema
  {
    BottomShaped(o, schema);
    if schema.Struct? {
      var doc := Bottom(o, schema);
      forall n | n in schema.fields
        ensures InStep(o, schema.fields[n], doc.fields[n], Sub(map[], Field(n)))
          && Traced(schema.fields[n], doc.fields[n], Sub<S>(map[], Field(n))) {
        BottomInStep(o, schema.fields[n]);
        SubEmpty<S>(Field(n));
      }
    }
  }

  /** One confirmed delta: the client applies its typed form, the server its wire form, and both stay in step. */
  lemma {:induction false} DeltaKeepsStep<S>(o: Leaves<S>, schema: Schema, doc: Doc<S>, fields: Record<S>,
                                             d: TypedDelta, ctx: Ctx)
    requires InStep(o, schema, doc, fields) && Shaped(schema, doc) && WellKinded(schema, d)
    ensures
      var (path, wire) := IntoWireOp(d);
      var (r, next) := OpaqueApply(o, fields, path, wire, ctx);
      r == Ok(()) && InStep(o, schema, ApplyTyped(o, schema, doc, d, ctx), next)
    decreases d
  {
    match schema
    case Leaf(_) =>
    case Struct(schemas) =>
      var (path, wire) := IntoWireOp(d.inner);
      DeltaKeepsStep(o, schemas[d.field], doc.fields[d.field], Sub(fields, Field(d.field)), d.inner, ctx);
      SubApplied(o, fields, Field(d.field), path, wire, ctx);
      StructStep(o, schemas, doc, fields, d.field, ApplyTyped(o, schemas[d.field], doc.fields[d.field], d.inner, ctx),
                 OpaqueApply(o, fields, [Field(d.field)] + path, wire, ctx).1);
    case MapOf(value) =>
      if d.RemoveDelta? {
        RemoveStep(o, value, doc, fields, d.key);
      } else {
        var (path, wire) := IntoWireOp(d.inner);
        EntryInStep(o, value, doc, fields, d.key);
        DeltaKeepsStep(o, value, EntryOr(o, value, doc.values, d.key), Sub(fields, Key(d.key)), d.inner, ctx);
        SubApplied(o, fields, Key(d.key), path, wire, ctx);
        MapStep(o, value, doc, fields, d.key, ApplyTyped(o, value, EntryOr(o, value, doc.values, d.key), d.inner, ctx),
                OpaqueApply(o, fields, [Key(d.key)] + path, wire, ctx).1);
      }
  }

  /** Outside the part that changed, the paths are those of before. */
  lemma HeadKept<S>(fields: Record<S>, next: Record<S>, seg: PathSegment, p: Path)
    requires [] in fields <==> [] in next
    requires forall other: PathSegment | other != seg :: Sub(next, other) == Sub(fields, other)
    requires p in next
    ensures p in fields || (p != [] && p[0] == seg)
  {
    if p != [] && p[0] != seg {
      assert p == [p[0]] + p[1..];
      assert p[1..] in Sub(next, p[0]);
      assert p[1..] in Sub(fields, p[0]);
    }
  }

  lemma HeadsKept<S>(names: set<string>, fields: Record<S>, next: Record<S>, seg: PathSegment)
    requires [] in fields <==> [] in next
    requires forall other: PathSegment | other != seg :: Sub(next, other) == Sub(fields, other)
    ensures FieldHeads(names, fields) && seg.Field? && seg.name in names ==> FieldHeads(names, next)
    ensures KeyHeads(names, fields) && seg.Key? ==> KeyHeads(names + {seg.name}, next)
  {
    forall p: Path | p in next ensures p in fields || (p != [] && p[0] == seg) { HeadKept(fields, next, seg, p); }
  }

  /** Changing one field of a struct. */
  lemma StructStep<S>(o: Leaves<S>, schemas: map<string, Schema>, doc: Doc<S>, fields: Record<S>, n: string,
                      inner: Doc<S>, next: Record<S>)
    requires InStep(o, Struct(schemas), doc, fields) && n in schemas
    requires InStep(o, schemas[n], inner, Sub(next, Field(n)))
    requires [] in fields <==> [] in next
    requires forall other: PathSegment | other != Field(n) :: Sub(next, other) == Sub(fields, other)
    ensures InStep(o, Struct(schemas), StructDoc(doc.fields[n := inner]), next)
  {
    HeadsKept(schemas.Keys, fields, next, Field(n));
    forall m | m in schemas ensures InStep(o, schemas[m], doc.fields[n := inner][m], Sub(next, Field(m))) {
      if m != n { assert InStep(o, schemas[m], doc.fields[m], Sub(fields, Field(m))); }
    }
  }

  lemma EntryInStep<S>(o: Leaves<S>, value: Schema, doc: Doc<S>, fields: Record<S>, key: string)
    requires InStep(o, MapOf(value), doc, fields)
    ensures InStep(o, value, EntryOr(o, value, doc.values, key), Sub(fields, Key(key)))
    ensures Shaped(value, EntryOr(o, value, doc.values, key))
    ensures key !in doc.values ==> Sub(fields, Key(key)) == map[]
  {
    if key !in doc.values {
      assert forall p: Path :: ([Key(key)] + p)[0] == Key(key);
      assert Sub(fields, Key(key)) == map[];
      BottomInStep(o, value);
    }
    InStepShaped(o, value, EntryOr(o, value, doc.values, key), Sub(fields, Key(key)));
  }

  /** Changing one entry of a map. */
  lemma MapStep<S>(o: Leaves<S>, value: Schema, doc: Doc<S>, fields: Record<S>, key: string, inner: Doc<S>,
                   next: Record<S>)
    requires InStep(o, MapOf(value), doc, fields)
    requires InStep(o, value, inner, Sub(next, Key(key)))
    requires [] in fields <==> [] in next
    requires forall other: PathSegment | other != Key(key) :: Sub(next, other) == Sub(fields, other)
    ensures InStep(o, MapOf(value), MapDoc(doc.values[key := inner]), next)
  {
    HeadsKept(doc.values.Keys, fields, next, Key(key));
    assert doc.values[key := inner].Keys == doc.values.Keys + {key};
    forall k | k in doc.values[key := inner] ensures InStep(o, value, doc.values[key := inner][k], Sub(next, Key(k))) {
      if k != key { assert InStep(o, value, doc.values[k], Sub(fields, Key(k))); }
    }
  }

  lemma RemovedSub<S>(fields: Record<S>, key: string)
    ensures Sub(Drop(fields, [Key(key)]), Key(key)) == map[]
    ensures forall other: PathSegment | other != Key(key) :: Sub(Drop(fields, [Key(key)]), other) == Sub(fields, other)
    ensures [] in fields <==> [] in Drop(fields, [Key(key)])
  {
    assert [Key(key)] + [] == [Key(key)];
    SubDropped(fields, Key(key), []);
    assert Drop(Sub(fields, Key(key)), []) == map[];
  }

  lemma RemoveStep<S>(o: Leaves<S>, value: Schema, doc: Doc<S>, fields: Record<S>, key: string)
    requires InStep(o, MapOf(value), doc, fields)
    ensures InStep(o, MapOf(value), MapDoc(doc.values - {key}), Drop(fields, [Key(key)]))
  {
    var next := Drop(fields, [Key(key)]);
    RemovedSub(fields, key);
    forall p: Path | p in next ensures p != [] && p[0].Key? && p[0].name in doc.values - {key} {
      if p[0].name == key { assert StartsWith(p, [Key(key)]); }
    }
  }

  // ---- The record determines the traced document ----

  lemma {:induction false} InStepUnique<S>(o: Leaves<S>, schema: Schema, a: Doc<S>, b: Doc<S>, fields: Record<S>)
    requires InStep(o, schema, a, fields) && Shaped(schema, a) && Traced(schema, a, fields)
    requires InStep(o, schema, b, fields) && Shaped(schema, b) && Traced(schema, b, fields)
    ensures a == b
    decreases schema
  {
    match schema
    case Leaf(_) =>
    case Struct(schemas) =>
      forall n | n in schemas ensures a.fields[n] == b.fields[n] {
        InStepUnique(o, schemas[n], a.fields[n], b.fields[n], Sub(fields, Field(n)));
      }
      assert a.fields == b.fields;
    case MapOf(value) =>
      SameKeys(o, value, a, b, fields);
      SameKeys(o, value, b, a, fields);
      forall k | k in a.values ensures a.values[k] == b.values[k] {
        InStepUnique(o, value, a.values[k], b.values[k], Sub(fields, Key(k)));
      }
      assert a.values == b.values;
  }

  lemma SameKeys<S>(o: Leaves<S>, value: Schema, a: Doc<S>, b: Doc<S>, fields: Record<S>)
    requires InStep(o, MapOf(value), a, fields) && Shaped(MapOf(value), a) && Traced(MapOf(value), a, fields)
    requires InStep(o, MapOf(value), b, fields)
    ensures a.values.Keys <= b.values.Keys
  {
    forall k | k in a.values ensures k in b.values {
      var p :| p in Sub(fields, Key(k));
      assert ([Key(k)] + p)[0].name == k;
    }
  }

  // ---- Installing ----

  /** A field that a document in step with its record may hold. */
  predicate Routes(schema: Schema, path: Path, kind: Kind)
    decreases schema
  {
    match schema
    case Leaf(k) => path == [] && kind == k
    case Struct(schemas) => path != [] && path[0].Field? && path[0].name in schemas
      && Routes(schemas[path[0].name], path[1..], kind)
    case MapOf(value) => path != [] && path[0].Key? && Routes(value, path[1..], kind)
  }

  lemma {:induction false} InStepRoutes<S>(o: Leaves<S>, schema: Schema, doc: Doc<S>, fields: Record<S>, p: Path)
    requires InStep(o, schema, doc, fields) && p in fields
    ensures Routes(schema, p, fields[p].kind)
    decreases schema
  {
    match schema
    case Leaf(_) =>
    case Struct(schemas) =>
      assert p == [p[0]] + p[1..] && p[0] == Field(p[0].name);
      InStepRoutes(o, schemas[p[0].name], doc.fields[p[0].name], Sub(fields, p[0]), p[1..]);
    case MapOf(value) =>
      assert p == [p[0]] + p[1..] && p[0] == Key(p[0].name);
      InStepRoutes(o, value, doc.values[p[0].name], Sub(fields, p[0]), p[1..]);
  }

  /** Installing a field the document does not hold yet keeps it in step, and leaves no untraced entry. */
  lemma {:induction false} InstallKeepsStep<S>(o: Leaves<S>, schema: Schema, doc: Doc<S>, fields: Record<S>, p: Path,
                                               v: OpaqueValue<S>)
    requires InStep(o, schema, doc, fields) && Shaped(schema, doc) && Traced(schema, doc, fields)
    requires Routes(schema, p, v.kind)
    ensures
      var (r, next) := InstallState(o, schema, doc, p, v);
      && r == Ok(()) && InStep(o, schema, next, fields[p := v])
      && Shaped(schema, next) && Traced(schema, next, fields[p := v])
    decreases schema
  {
    InstallShaped(o, schema, doc, p, v);
    match schema
    case Leaf(_) =>
    case Struct(schemas) =>
      var n := p[0].name;
      assert p == [Field(n)] + p[1..];
      SubWritten(fields, Field(n), p[1..], v);
      InstallKeepsStep(o, schemas[n], doc.fields[n], Sub(fields, Field(n)), p[1..], v);
      var inner := InstallState(o, schemas[n], doc.fields[n], p[1..], v).1;
      StructStep(o, schemas, doc, fields, n, inner, fields[p := v]);
      StructTraced(schemas, doc, fields, n, inner, fields[p := v]);
    case MapOf(value) =>
      var k := p[0].name;
      assert p == [Key(k)] + p[1..];
      SubWritten(fields, Key(k), p[1..], v);
      EntryInStep(o, value, doc, fields, k);
      BottomInStep(o, value);
      InstallKeepsStep(o, value, EntryOr(o, value, doc.values, k), Sub(fields, Key(k)), p[1..], v);
      var inner := InstallState(o, value, EntryOr(o, value, doc.values, k), p[1..], v).1;
      MapStep(o, value, doc, fields, k, inner, fields[p := v]);
      assert p[1..] in Sub(fields[p := v], Key(k));
      MapTraced(value, doc, fields, k, inner, fields[p := v]);
  }

  lemma StructTraced<S>(schemas: map<string, Schema>, doc: Doc<S>, fields: Record<S>, n: string, inner: Doc<S>,
                        next: Record<S>)
    requires Shaped(Struct(schemas), doc) && Traced(Struct(schemas), doc, fields) && n in schemas
    requires Shaped(schemas[n], inner) && Traced(schemas[n], inner, Sub(next, Field(n)))
    requires forall other: PathSegment | other != Field(n) :: Sub(next, other) == Sub(fields, other)
    ensures Shaped(Struct(schemas), StructDoc(doc.fields[n := inner]))
      && Traced(Struct(schemas), StructDoc(doc.fields[n := inner]), next)
  {
  }

  lemma MapTraced<S>(value: Schema, doc: Doc<S>, fields: Record<S>, k: string, inner: Doc<S>, next: Record<S>)
    requires Shaped(MapOf(value), doc) && Traced(MapOf(value), doc, fields)
    requires Shaped(value, inner) && Traced(value, inner, Sub(next, Key(k))) && Sub(next, Key(k)) != map[]
    requires forall other: PathSegment | other != Key(k) :: Sub(next, other) == Sub(fields, other)
    ensures Shaped(MapOf(value), MapDoc(doc.values[k := inner]))
      && Traced(MapOf(value), MapDoc(doc.values[k := inner]), next)
  {
  }

  /** Installs the fields at the given paths, in that order, into a fresh document. */
  ghost function InstallAll<S>(o: Leaves<S>, schema: Schema, fields: Record<S>, order: seq<Path>): (doc: Doc<S>)
    requires forall p: Path | p in order :: p in fields
    ensures Shaped(schema, doc)
    decreases |order|
  {
    if order == [] then BottomShaped(o, schema); Bottom(o, schema) else
      var l := |order| - 1;
      assert order[l] in order && forall p: Path | p in order[..l] :: p in order;
      var before := InstallAll(o, schema, fields, order[..l]);
      InstallShaped(o, schema, before, order[l], fields[order[l]]);
      InstallState(o, schema, before, order[l], fields[order[l]]).1
  }

  ghost function Restricted<S>(fields: Record<S>, order: seq<Path>): Record<S> {
    map p: Path | p in fields && p in order :: fields[p]
  }

  lemma {:induction false} InstallAllInStep<S>(o: Leaves<S>, schema: Schema, fields: Record<S>, order: seq<Path>)
    requires forall p: Path | p in order :: p in fields
    requires forall p: Path | p in fields :: Routes(schema, p, fields[p].kind)
    ensures
      var doc := InstallAll(o, schema, fields, order);
      InStep(o, schema, doc, Restricted(fields, order)) && Traced(schema, doc, Restricted(fields, order))
    decreases |order|
  {
    if order == [] {
      assert Restricted(fields, order) == map[];
      BottomInStep(o, schema);
    } else {
      var l := |order| - 1;
      assert order[l] in order && forall p: Path | p in order[..l] :: p in order;
      InstallAllInStep(o, schema, fields, order[..l]);
      InstallKeepsStep(o, schema, InstallAll(o, schema, fields, order[..l]), Restricted(fields, order[..l]), order[l],
        fields[order[l]]);
      RestrictedSnoc(fields, order);
    }
  }

  lemma RestrictedSnoc<S>(fields: Record<S>, order: seq<Path>)
    requires order != [] && order[|order| - 1] in fields
    ensures
      var l := |order| - 1;
      Restricted(fields, order) == Restricted(fields, order[..l])[order[l] := fields[order[l]]]
  {
    var l := |order| - 1;
    assert order == order[..l] + [order[l]];
  }

  /** An order in which every field of the record is installed. */
  ghost predicate Covers<S>(fields: Record<S>, order: seq<Path>) {
    forall p :: p in order <==> p in fields
  }

  /** Any order gives a traced document in step with the record. */
  lemma InstallAnyOrder<S>(o: Leaves<S>, schema: Schema, doc: Doc<S>, fields: Record<S>, order: seq<Path>)
    requires InStep(o, schema, doc, fields) && Covers(fields, order)
    ensures
      var installed := InstallAll(o, schema, fields, order);
      InStep(o, schema, installed, fields) && Traced(schema, installed, fields)
  {
    InStepAllRoute(o, schema, doc, fields);
    InstallAllInStep(o, schema, fields, order);
    AllRestricted(fields, order);
  }

  lemma InStepAllRoute<S>(o: Leaves<S>, schema: Schema, doc: Doc<S>, fields: Record<S>)
    requires InStep(o, schema, doc, fields)
    ensures forall p: Path | p in fields :: Routes(schema, p, fields[p].kind)
  {
    forall p: Path | p in fields ensures Routes(schema, p, fields[p].kind) { InStepRoutes(o, schema, doc, fields, p); }
  }

  lemma AllRestricted<S>(fields: Record<S>, order: seq<Path>)
    requires Covers(fields, order)
    ensures Restricted(fields, order) == fields
  {
  }

  // ---- Replay against hydration ----

  datatype Change = Change(delta: TypedDelta, ctx: Ctx)

  predicate AllWellKinded(schema: Schema, run: seq<Change>) {
    forall i | 0 <= i < |run| :: WellKinded(schema, run[i].delta)
  }

  ghost function TypedReplay<S>(o: Leaves<S>, schema: Schema, run: seq<Change>): (doc: Doc<S>)
    requires AllWellKinded(schema, run)
    ensures Shaped(schema, doc)
  {
    if run == [] then BottomShaped(o, schema); Bottom(o, schema) else
      var l := |run| - 1;
      ApplyShaped(o, schema, TypedReplay(o, schema, run[..l]), run[l].delta, run[l].ctx);
      ApplyTyped(o, schema, TypedReplay(o, schema, run[..l]), run[l].delta, run[l].ctx)
  }

  ghost function OpaqueReplay<S>(o: Leaves<S>, run: seq<Change>): Record<S> {
    if run == [] then map[] else
      var l := |run| - 1;
      var (path, wire) := IntoWireOp(run[l].delta);
      OpaqueApply(o, OpaqueReplay(o, run[..l]), path, wire, run[l].ctx).1
  }

  lemma {:induction false} ReplaysInStep<S>(o: Leaves<S>, schema: Schema, run: seq<Change>)
    requires AllWellKinded(schema, run)
    ensures InStep(o, schema, TypedReplay(o, schema, run), OpaqueReplay(o, run))
  {
    if run == [] {
      BottomInStep(o, schema);
    } else {
      var l := |run| - 1;
      ReplaysInStep(o, schema, run[..l]);
      DeltaKeepsStep(o, schema, TypedReplay(o, schema, run[..l]), OpaqueReplay(o, run[..l]), run[l].delta, run[l].ctx);
    }
  }

  /**
   * For every schema, run and order: hydration gives the replayed document exactly when that has no
   * untraced map entry.
   */
  lemma HydrationExact<S>(o: Leaves<S>, schema: Schema, run: seq<Change>, order: seq<Path>)
    requires AllWellKinded(schema, run) && Covers(OpaqueReplay(o, run), order)
    ensures
      InstallAll(o, schema, OpaqueReplay(o, run), order) == TypedReplay(o, schema, run) <==>
      Traced(schema, TypedReplay(o, schema, run), OpaqueReplay(o, run))
  {
    var doc, fields := TypedReplay(o, schema, run), OpaqueReplay(o, run);
    ReplaysInStep(o, schema, run);
    InstallAnyOrder(o, schema, doc, fields, order);
    if Traced(schema, doc, fields) { InStepUnique(o, schema, doc, InstallAll(o, schema, fields, order), fields); }
  }

  // ---- Which schemas hydrate exactly ----

  predicate MapFree(schema: Schema) {
    match schema
    case Leaf(_) => true
    case Struct(fields) => forall n | n in fields :: MapFree(fields[n])
    case MapOf(_) => false
  }

  /** No map inside the values of a map. */
  predicate Flat(schema: Schema) {
    match schema
    case Leaf(_) => true
    case Struct(fields) => forall n | n in fields :: Flat(fields[n])
    case MapOf(value) => MapFree(value)
  }

  /** A delta to a map-free document leaves a field in the record. */
  lemma {:induction false} MapFreeLeavesTrace<S>(o: Leaves<S>, schema: Schema, doc: Doc<S>, fields: Record<S>,
      d: TypedDelta, ctx: Ctx)
    requires MapFree(schema) && WellKinded(schema, d) && InStep(o, schema, doc, fields)
    ensures var (path, wire) := IntoWireOp(d); path in OpaqueApply(o, fields, path, wire, ctx).1
    decreases d
  {
    if schema.Struct? {
      var n := d.field;
      var (path, wire) := IntoWireOp(d.inner);
      MapFreeLeavesTrace(o, schema.fields[n], doc.fields[n], Sub(fields, Field(n)), d.inner, ctx);
      SubApplied(o, fields, Field(n), path, wire, ctx);
    }
  }

  lemma {:induction false} MapFreeTraced<S>(schema: Schema, doc: Doc<S>, fields: Record<S>)
    requires MapFree(schema) && Shaped(schema, doc)
    ensures Traced(schema, doc, fields)
    decreases schema
  {
    if schema.Struct? {
      forall n | n in schema.fields ensures Traced(schema.fields[n], doc.fields[n], Sub(fields, Field(n))) {
        MapFreeTraced(schema.fields[n], doc.fields[n], Sub(fields, Field(n)));
      }
    }
  }

  /** A document that is in step with its record and traced in it. */
  ghost predicate Tracked<S>(o: Leaves<S>, schema: Schema, doc: Doc<S>, fields: Record<S>) {
    InStep(o, schema, doc, fields) && Shaped(schema, doc) && Traced(schema, doc, fields)
  }

  lemma FieldTracked<S>(o: Leaves<S>, schemas: map<string, Schema>, doc: Doc<S>, fields: Record<S>, n: string)
    requires Tracked(o, Struct(schemas), doc, fields) && n in schemas
    ensures doc.StructDoc? && n in doc.fields && Tracked(o, schemas[n], doc.fields[n], Sub(fields, Field(n)))
  {
  }

  /** The record after a delta. */
  ghost function RecordAfter<S>(o: Leaves<S>, fields: Record<S>, d: TypedDelta, ctx: Ctx): Record<S> {
    OpaqueApply(o, fields, IntoWireOp(d).0, IntoWireOp(d).1, ctx).1
  }

  ghost predicate TracedAfter<S>(o: Leaves<S>, schema: Schema, doc: Doc<S>, fields: Record<S>, d: TypedDelta, ctx: Ctx)
    requires Shaped(schema, doc) && WellKinded(schema, d)
  {
    var next := ApplyTyped(o, schema, doc, d, ctx);
    Shaped(schema, next) && Traced(schema, next, RecordAfter(o, fields, d, ctx))
  }

  lemma FieldTraced<S>(o: Leaves<S>, schemas: map<string, Schema>, doc: Doc<S>, fields: Record<S>, n: string,
                       inner: TypedDelta, ctx: Ctx)
    requires n in schemas && WellKinded(schemas[n], inner) && Shaped(Struct(schemas), doc)
      && Traced(Struct(schemas), doc, fields)
    requires TracedAfter(o, schemas[n], doc.fields[n], Sub(fields, Field(n)), inner, ctx)
    ensures TracedAfter(o, Struct(schemas), doc, fields, FieldDelta(n, inner), ctx)
  {
    var (path, wire) := IntoWireOp(inner);
    SubApplied(o, fields, Field(n), path, wire, ctx);
    StructTraced(schemas, doc, fields, n, ApplyTyped(o, schemas[n], doc.fields[n], inner, ctx),
                 OpaqueApply(o, fields, [Field(n)] + path, wire, ctx).1);
  }

  lemma RemovedTraced<S>(value: Schema, doc: Doc<S>, fields: Record<S>, key: string)
    requires Shaped(MapOf(value), doc) && Traced(MapOf(value), doc, fields)
    ensures Shaped(MapOf(value), MapDoc(doc.values - {key}))
      && Traced(MapOf(value), MapDoc(doc.values - {key}), Drop(fields, [Key(key)]))
  {
    RemovedSub(fields, key);
    var next := Drop(fields, [Key(key)]);
    forall k | k in doc.values - {key}
      ensures Sub(next, Key(k)) != map[] && Shaped(value, doc.values[k])
        && Traced(value, doc.values[k], Sub(next, Key(k)))
    {
      assert Key(k) != Key(key);
      assert Sub(fields, Key(k)) != map[] && Traced(value, doc.values[k], Sub(fields, Key(k)));
    }
  }

  /** A put to a map of map-free values leaves a field below its key. */
  lemma PutLeavesTrace<S>(o: Leaves<S>, value: Schema, doc: Doc<S>, fields: Record<S>, key: string, inner: TypedDelta,
                          ctx: Ctx)
    requires MapFree(value) && WellKinded(value, inner) && InStep(o, MapOf(value), doc, fields)
    ensures
      var next := RecordAfter(o, fields, PutDelta(key, inner), ctx);
      && Sub(next, Key(key)) != map[]
      && forall other: PathSegment | other != Key(key) :: Sub(next, other) == Sub(fields, other)
  {
    var (path, wire) := IntoWireOp(inner);
    EntryInStep(o, value, doc, fields, key);
    MapFreeLeavesTrace(o, value, EntryOr(o, value, doc.values, key), Sub(fields, Key(key)), inner, ctx);
    PutBelow(o, fields, key, inner, ctx);
  }

  /** What a put does to the part of the record below its key. */
  lemma PutBelow<S>(o: Leaves<S>, fields: Record<S>, key: string, inner: TypedDelta, ctx: Ctx)
    ensures
      var (path, wire) := IntoWireOp(inner);
      var next := RecordAfter(o, fields, PutDelta(key, inner), ctx);
      && Sub(next, Key(key)) == OpaqueApply(o, Sub(fields, Key(key)), path, wire, ctx).1
      && forall other: PathSegment | other != Key(key) :: Sub(next, other) == Sub(fields, other)
  {
    var (path, wire) := IntoWireOp(inner);
    SubApplied(o, fields, Key(key), path, wire, ctx);
  }

  lemma PutTraced<S>(o: Leaves<S>, value: Schema, doc: Doc<S>, fields: Record<S>, key: string, inner: TypedDelta,
                     ctx: Ctx)
    requires MapFree(value) && WellKinded(value, inner) && Tracked(o, MapOf(value), doc, fields)
    ensures TracedAfter(o, MapOf(value), doc, fields, PutDelta(key, inner), ctx)
  {
    var next := RecordAfter(o, fields, PutDelta(key, inner), ctx);
    EntryShaped(o, value, doc, key);
    var changed := ApplyTyped(o, value, EntryOr(o, value, doc.values, key), inner, ctx);
    EntryTraced(o, value, doc, key, inner, ctx, Sub(next, Key(key)));
    PutLeavesTrace(o, value, doc, fields, key, inner, ctx);
    PutGives(o, value, doc, fields, key, inner, ctx, changed, next);
  }

  lemma EntryTraced<S>(o: Leaves<S>, value: Schema, doc: Doc<S>, key: string, inner: TypedDelta, ctx: Ctx,
                       part: Record<S>)
    requires MapFree(value) && WellKinded(value, inner) && doc.MapDoc?
      && Shaped(value, EntryOr(o, value, doc.values, key))
    ensures
      var changed := ApplyTyped(o, value, EntryOr(o, value, doc.values, key), inner, ctx);
      Shaped(value, changed) && Traced(value, changed, part)
  {
    ApplyShaped(o, value, EntryOr(o, value, doc.values, key), inner, ctx);
    MapFreeTraced(value, ApplyTyped(o, value, EntryOr(o, value, doc.values, key), inner, ctx), part);
  }

  lemma PutGives<S>(o: Leaves<S>, value: Schema, doc: Doc<S>, fields: Record<S>, key: string, inner: TypedDelta,
                    ctx: Ctx, changed: Doc<S>, next: Record<S>)
    requires WellKinded(value, inner) && Shaped(MapOf(value), doc) && Traced(MapOf(value), doc, fields)
    requires Shaped(value, EntryOr(o, value, doc.values, key))
    requires changed == ApplyTyped(o, value, EntryOr(o, value, doc.values, key), inner, ctx)
    requires next == RecordAfter(o, fields, PutDelta(key, inner), ctx)
    requires Shaped(value, changed) && Traced(value, changed, Sub(next, Key(key))) && Sub(next, Key(key)) != map[]
    requires forall other: PathSegment | other != Key(key) :: Sub(next, other) == Sub(fields, other)
    ensures TracedAfter(o, MapOf(value), doc, fields, PutDelta(key, inner), ctx)
  {
    MapTraced(value, doc, fields, key, changed, next);
    assert ApplyTyped(o, MapOf(value), doc, PutDelta(key, inner), ctx) == MapDoc(doc.values[key := changed]);
  }

  lemma EntryShaped<S>(o: Leaves<S>, value: Schema, doc: Doc<S>, key: string)
    requires Shaped(MapOf(value), doc)
    ensures Shaped(value, EntryOr(o, value, doc.values, key))
  {
    BottomShaped(o, value);
  }

  lemma RemoveTraced<S>(o: Leaves<S>, value: Schema, doc: Doc<S>, fields: Record<S>, d: TypedDelta, ctx: Ctx)
    requires Shaped(MapOf(value), doc) && Traced(MapOf(value), doc, fields) && d.RemoveDelta?
    ensures TracedAfter(o, MapOf(value), doc, fields, d, ctx)
  {
    RemovedRecord(o, fields, d, ctx);
    RemovedTraced(value, doc, fields, d.key);
  }

  lemma RemovedRecord<S>(o: Leaves<S>, fields: Record<S>, d: TypedDelta, ctx: Ctx)
    requires d.RemoveDelta?
    ensures RecordAfter(o, fields, d, ctx) == Drop(fields, [Key(d.key)])
  {
  }

  lemma {:induction false} FlatKeepsTraced<S>(o: Leaves<S>, schema: Schema, doc: Doc<S>, fields: Record<S>,
                                              d: TypedDelta, ctx: Ctx)
    requires Flat(schema) && WellKinded(schema, d) && Tracked(o, schema, doc, fields)
    ensures TracedAfter(o, schema, doc, fields, d, ctx)
    decreases d
  {
    match schema
    case Leaf(_) =>
    case Struct(schemas) =>
      FieldTracked(o, schemas, doc, fields, d.field);
      FlatKeepsTraced(o, schemas[d.field], doc.fields[d.field], Sub(fields, Field(d.field)), d.inner, ctx);
      FieldTraced(o, schemas, doc, fields, d.field, d.inner, ctx);
    case MapOf(value) =>
      if d.RemoveDelta? { RemoveTraced(o, value, doc, fields, d, ctx); } else {
        PutTraced(o, value, doc, fields, d.key, d.inner, ctx);
      }
  }

  lemma {:induction false} FlatReplayTraced<S>(o: Leaves<S>, schema: Schema, run: seq<Change>)
    requires Flat(schema) && AllWellKinded(schema, run)
    ensures Traced(schema, TypedReplay(o, schema, run), OpaqueReplay(o, run))
  {
    if run == [] {
      BottomInStep(o, schema);
    } else {
      var l := |run| - 1;
      FlatReplayTraced(o, schema, run[..l]);
      ReplaysInStep(o, schema, run[..l]);
      FlatKeepsTraced(o, schema, TypedReplay(o, schema, run[..l]), OpaqueReplay(o, run[..l]), run[l].delta, run[l].ctx);
    }
  }

  /** A schema without maps inside map values: hydration gives the replayed document, whatever the run and the order. */
  lemma FlatHydrates<S>(o: Leaves<S>, schema: Schema, run: seq<Change>, order: seq<Path>)
    requires Flat(schema) && AllWellKinded(schema, run) && Covers(OpaqueReplay(o, run), order)
    ensures InstallAll(o, schema, OpaqueReplay(o, run), order) == TypedReplay(o, schema, run)
  {
    FlatReplayTraced(o, schema, run);
    HydrationExact(o, schema, run, order);
  }

  /** A removal inside a document that is not there yet. */
  lemma {:induction false} RemovalWithin(schema: Schema) returns (d: TypedDelta)
    requires !MapFree(schema)
    ensures WellKinded(schema, d) && IntoWireOp(d).1.MapRemove?
    decreases schema
  {
    if schema.MapOf? {
      d := RemoveDelta("", []);
    } else {
      var n :| n in schema.fields && !MapFree(schema.fields[n]);
      var inner := RemovalWithin(schema.fields[n]);
      d := FieldDelta(n, inner);
    }
  }

  lemma {:induction false} HollowDelta<S>(o: Leaves<S>, schema: Schema, ctx: Ctx) returns (d: TypedDelta)
    requires !Flat(schema)
    ensures WellKinded(schema, d) && IntoWireOp(d).1.MapRemove?
    ensures Shaped(schema, Bottom(o, schema)) && ApplyTyped(o, schema, Bottom(o, schema), d, ctx) != Bottom(o, schema)
    decreases schema
  {
    BottomShaped(o, schema);
    if schema.MapOf? {
      var inner := RemovalWithin(schema.value);
      d := PutDelta("", inner);
      assert "" in ApplyTyped(o, schema, Bottom(o, schema), d, ctx).values;
    } else {
      var n :| n in schema.fields && !Flat(schema.fields[n]);
      var inner := HollowDelta(o, schema.fields[n], ctx);
      d := FieldDelta(n, inner);
      assert ApplyTyped(o, schema, Bottom(o, schema), d, ctx).fields[n] != Bottom(o, schema).fields[n];
    }
  }

  /**
   * With a map inside map values one delta is enough to lose an entry: it leaves the record empty but
   * not the document.
   */
  lemma NestedMapsLoseEntries<S>(o: Leaves<S>, schema: Schema, ctx: Ctx) returns (d: TypedDelta)
    requires !Flat(schema)
    ensures AllWellKinded(schema, [Change(d, ctx)]) && Covers(OpaqueReplay(o, [Change(d, ctx)]), [])
    ensures InstallAll(o, schema, OpaqueReplay(o, [Change(d, ctx)]), []) != TypedReplay(o, schema, [Change(d, ctx)])
  {
    d := HollowDelta(o, schema, ctx);
    var run := [Change(d, ctx)];
    assert run[..0] == [];
    assert OpaqueReplay(o, run) == map[];
  }
}
