module TargetHydration {
  // One target with all its schemas: `hydrate_typed_schemas` of `kyoso_graph_sync` routes the fields of
  // the server's record to the documents of the registered schemas, field by field.

  import opened Wrappers
  import opened Delta
  import opened TypedSchemas
  import opened Opaque
  import opened Hydration

  function DocOr<S>(o: Leaves<S>, schemas: map<string, Schema>, docs: map<string, Doc<S>>, name: string): Doc<S>
    requires name in schemas
  {
    if name in docs then docs[name] else Bottom(o, schemas[name])
  }

  predicate DocsShaped<S>(schemas: map<string, Schema>, docs: map<string, Doc<S>>) {
    docs.Keys <= schemas.Keys && forall n | n in docs :: Shaped(schemas[n], docs[n])
  }

  // ---- What the loop computes, schema by schema ----

  /** The paths below a schema name, without it, in the order in which they are installed. */
  function Below(order: seq<Path>, name: string): seq<Path> {
    if order == [] then [] else
      var p := order[|order| - 1];
      Below(order[..|order| - 1], name) + if p != [] && p[0] == Field(name) then [p[1..]] else []
  }

  lemma {:induction false} BelowMembers(order: seq<Path>, name: string)
    ensures forall q: Path :: q in Below(order, name) <==> [Field(name)] + q in order
    decreases |order|
  {
    if order != [] {
      var l := |order| - 1;
      BelowMembers(order[..l], name);
      var p := order[l];
      forall q: Path ensures q in Below(order, name) <==> [Field(name)] + q in order {
        if p != [] && p[0] == Field(name) { assert p == [Field(name)] + p[1..]; }
        if [Field(name)] + q == p { assert p[1..] == q; }
        assert [Field(name)] + q in order <==> [Field(name)] + q in order[..l] || [Field(name)] + q == p;
      }
    }
  }

  /**
   * The document of one schema: its own fields installed in order into an empty document, whatever else
   * the record holds.
   */
  ghost function PartDoc<S>(o: Leaves<S>, schema: Schema, name: string, fields: Record<S>, order: seq<Path>): Doc<S>
    requires forall p: Path | p in order :: p in fields
  {
    BelowMembers(order, name);
    InstallAll(o, schema, Sub(fields, Field(name)), Below(order, name))
  }

  /** Each schema has its document, and none is made for a schema without fields. */
  ghost predicate Installed<S>(o: Leaves<S>, schemas: map<string, Schema>, docs: map<string, Doc<S>>,
                               fields: Record<S>, order: seq<Path>) {
    && (forall p: Path | p in order :: p in fields)
    && docs.Keys <= schemas.Keys
    && (forall n | n in schemas :: n in docs <==> Below(order, n) != [])
    && (forall n | n in schemas :: DocOr(o, schemas, docs, n) == PartDoc(o, schemas[n], n, fields, order))
  }

  predicate Belongs(p: Path, name: string) {
    p != [] && p[0] == Field(name)
  }

  lemma BelowGrows(order: seq<Path>, p: Path, name: string)
    ensures Below(order + [p], name) == if Belongs(p, name) then Below(order, name) + [p[1..]] else Below(order, name)
  {
    assert (order + [p])[..|order|] == order;
  }

  lemma PartGrows<S>(o: Leaves<S>, schema: Schema, name: string, fields: Record<S>, order: seq<Path>, p: Path)
    requires p in fields && forall q: Path | q in order :: q in fields
    ensures
      var doc := PartDoc(o, schema, name, fields, order);
      && Shaped(schema, doc)
      && PartDoc(o, schema, name, fields, order + [p]) ==
           if Belongs(p, name) then InstallState(o, schema, doc, p[1..], fields[p]).1 else doc
  {
    BelowGrows(order, p, name);
    BelowMembers(order, name);
    BelowMembers(order + [p], name);
    var here := Below(order, name);
    if Belongs(p, name) {
      assert (here + [p[1..]])[..|here|] == here;
      assert [Field(name)] + p[1..] == p;
    }
  }

  /** The documents after routing one field to the document of its schema; a field of an unknown schema is skipped. */
  function Routed<S>(o: Leaves<S>, schemas: map<string, Schema>, docs: map<string, Doc<S>>, p: Path,
                     v: OpaqueValue<S>): map<string, Doc<S>>
    requires forall n | n in schemas :: Shaped(schemas[n], DocOr(o, schemas, docs, n))
  {
    if p == [] || p[0].Key? || p[0].name !in schemas then docs else
      var n := p[0].name;
      docs[n := InstallState(o, schemas[n], DocOr(o, schemas, docs, n), p[1..], v).1]
  }

  lemma InstalledShaped<S>(o: Leaves<S>, schemas: map<string, Schema>, docs: map<string, Doc<S>>, fields: Record<S>,
                           order: seq<Path>)
    requires Installed(o, schemas, docs, fields, order)
    ensures forall n | n in schemas :: Shaped(schemas[n], DocOr(o, schemas, docs, n))
    ensures DocsShaped(schemas, docs)
  {
    forall n | n in schemas ensures Shaped(schemas[n], DocOr(o, schemas, docs, n)) {
      assert DocOr(o, schemas, docs, n) == PartDoc(o, schemas[n], n, fields, order);
      BelowMembers(order, n);
    }
  }

  lemma RoutedInstalled<S>(o: Leaves<S>, schemas: map<string, Schema>, docs: map<string, Doc<S>>, fields: Record<S>,
                           order: seq<Path>, p: Path)
    requires Installed(o, schemas, docs, fields, order) && p in fields
    requires forall n | n in schemas :: Shaped(schemas[n], DocOr(o, schemas, docs, n))
    ensures Installed(o, schemas, Routed(o, schemas, docs, p, fields[p]), fields, order + [p])
  {
    var next := Routed(o, schemas, docs, p, fields[p]);
    forall n | n in schemas
      ensures n in next <==> Below(order + [p], n) != []
      ensures DocOr(o, schemas, next, n) == PartDoc(o, schemas[n], n, fields, order + [p])
    {
      BelowGrows(order, p, n);
      PartGrows(o, schemas[n], n, fields, order, p);
      assert DocOr(o, schemas, docs, n) == PartDoc(o, schemas[n], n, fields, order);
      assert n in docs <==> Below(order, n) != [];
    }
  }

  /**
   * `hydrate_typed_schemas` for one target, in no particular order of the fields: whatever the record
   * holds, each registered schema gets the document its own fields make in the order they come.
   */
  method HydrateTarget<S>(o: Leaves<S>, schemas: map<string, Schema>, fields: Record<S>)
    returns (docs: map<string, Doc<S>>, ghost order: seq<Path>)
    ensures Covers(fields, order) && Installed(o, schemas, docs, fields, order) && DocsShaped(schemas, docs)
    ensures forall n | n in schemas && PartRoutes(schemas[n], n, fields) ::
      Tracked(o, schemas[n], DocOr(o, schemas, docs, n), Sub(fields, Field(n)))
  {
    docs, order := map[], [];
    var remaining := fields.Keys;
    while remaining != {}
      invariant remaining <= fields.Keys && Installed(o, schemas, docs, fields, order)
      invariant forall p: Path :: p in order <==> p in fields && p !in remaining
      decreases |remaining|
    {
      var p: Path :| p in remaining;
      InstalledShaped(o, schemas, docs, fields, order);
      RoutedInstalled(o, schemas, docs, fields, order, p);
      docs := Routed(o, schemas, docs, p, fields[p]);
      order := order + [p];
      remaining := remaining - {p};
    }
    InstalledShaped(o, schemas, docs, fields, order);
    forall n | n in schemas && PartRoutes(schemas[n], n, fields)
      ensures Tracked(o, schemas[n], DocOr(o, schemas, docs, n), Sub(fields, Field(n)))
    {
      RoutedTracked(o, schemas[n], n, fields, order);
    }
  }

  // ---- Where the fields of a schema route ----

  /** Every field of the schema finds its place in a document of it. */
  ghost predicate PartRoutes<S>(schema: Schema, name: string, fields: Record<S>) {
    forall p: Path | p in Sub(fields, Field(name)) :: Routes(schema, p, Sub(fields, Field(name))[p].kind)
  }

  /** The document then is in step with its part of the record and holds no entry without a field. */
  lemma RoutedTracked<S>(o: Leaves<S>, schema: Schema, name: string, fields: Record<S>, order: seq<Path>)
    requires Covers(fields, order) && PartRoutes(schema, name, fields)
    ensures Tracked(o, schema, PartDoc(o, schema, name, fields, order), Sub(fields, Field(name)))
  {
    BelowMembers(order, name);
    InstallAllInStep(o, schema, Sub(fields, Field(name)), Below(order, name));
    AllRestricted(Sub(fields, Field(name)), Below(order, name));
    InStepShaped(o, schema, PartDoc(o, schema, name, fields, order), Sub(fields, Field(name)));
  }

  // ---- A whole target: all schemas together ----

  /** A change to one schema of a target, which the wire carries with the schema name in front. */
  datatype Edit = Edit(schema: string, change: Change)

  function Wired(run: seq<Edit>): seq<Change> {
    seq(|run|, i requires 0 <= i < |run| => Change(FieldDelta(run[i].schema, run[i].change.delta), run[i].change.ctx))
  }

  function Only(run: seq<Edit>, name: string): seq<Change> {
    if run == [] then [] else
      Only(run[..|run| - 1], name) + if run[|run| - 1].schema == name then [run[|run| - 1].change] else []
  }

  lemma LastEdit<S>(o: Leaves<S>, run: seq<Edit>)
    requires run != []
    ensures
      var l := |run| - 1;
      var (path, wire) := IntoWireOp(run[l].change.delta);
      OpaqueReplay(o, Wired(run)) ==
        OpaqueApply(o, OpaqueReplay(o, Wired(run[..l])), [Field(run[l].schema)] + path, wire, run[l].change.ctx).1
  {
    assert Wired(run)[..|run| - 1] == Wired(run[..|run| - 1]);
  }

  lemma LastOfSchema<S>(o: Leaves<S>, run: seq<Edit>, name: string)
    requires run != []
    ensures
      var l := |run| - 1;
      var (path, wire) := IntoWireOp(run[l].change.delta);
      var before := OpaqueReplay(o, Only(run[..l], name));
      OpaqueReplay(o, Only(run, name)) ==
        if run[l].schema == name then OpaqueApply(o, before, path, wire, run[l].change.ctx).1 else before
  {
    var only := Only(run, name);
    if run[|run| - 1].schema == name {
      assert only[..|only| - 1] == Only(run[..|run| - 1], name);
    } else {
      assert only == Only(run[..|run| - 1], name);
    }
  }

  /** The part of the server's record below one schema name is the replay of that schema's changes alone. */
  lemma {:induction false} SchemaPartsApart<S>(o: Leaves<S>, run: seq<Edit>, name: string)
    ensures Sub(OpaqueReplay(o, Wired(run)), Field(name)) == OpaqueReplay(o, Only(run, name))
    decreases |run|
  {
    if run == [] {
      SubEmpty<S>(Field(name));
    } else {
      var l := |run| - 1;
      var last := run[l];
      SchemaPartsApart(o, run[..l], name);
      LastEdit(o, run);
      LastOfSchema(o, run, name);
      var (path, wire) := IntoWireOp(last.change.delta);
      SubApplied(o, OpaqueReplay(o, Wired(run[..l])), Field(last.schema), path, wire, last.change.ctx);
    }
  }

  /** The fields of a record made by well-kinded changes all route. */
  lemma ReplayRoutes<S>(o: Leaves<S>, schema: Schema, run: seq<Edit>, name: string)
    requires AllWellKinded(schema, Only(run, name))
    ensures PartRoutes(schema, name, OpaqueReplay(o, Wired(run)))
  {
    SchemaPartsApart(o, run, name);
    ReplaysInStep(o, schema, Only(run, name));
    InStepAllRoute(o, schema, TypedReplay(o, schema, Only(run, name)), OpaqueReplay(o, Only(run, name)));
  }

  /**
   * Hydrating a client from the server's record of a target gives the document of typed replay exactly
   * when that document is traced, and always for a flat schema.
   */
  lemma HydratedTarget<S>(o: Leaves<S>, schema: Schema, name: string, run: seq<Edit>, order: seq<Path>)
    requires AllWellKinded(schema, Only(run, name)) && Covers(OpaqueReplay(o, Wired(run)), order)
    ensures
      var doc, replayed := PartDoc(o, schema, name, OpaqueReplay(o, Wired(run)), order),
        TypedReplay(o, schema, Only(run, name));
      && (doc == replayed <==> Traced(schema, replayed, OpaqueReplay(o, Only(run, name))))
      && (Flat(schema) ==> doc == replayed)
  {
    var part := OpaqueReplay(o, Only(run, name));
    var doc, replayed := PartDoc(o, schema, name, OpaqueReplay(o, Wired(run)), order),
      TypedReplay(o, schema, Only(run, name));
    ReplayRoutes(o, schema, run, name);
    RoutedTracked(o, schema, name, OpaqueReplay(o, Wired(run)), order);
    SchemaPartsApart(o, run, name);
    ReplaysInStep(o, schema, Only(run, name));
    if Traced(schema, replayed, part) { InStepUnique(o, schema, doc, replayed, part); }
    if Flat(schema) { FlatReplayTraced(o, schema, Only(run, name)); }
  }
}
