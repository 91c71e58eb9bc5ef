module SnapshotHydration {
  // From the server's op log to a client's typed documents: the opaque backend, its snapshot, and hydration.

  import opened Wrappers
  import opened Ids
  import opened Delta
  import opened Topology
  import opened OpLog
  import opened Replica
  import opened TypedSchemas
  import opened Opaque
  import opened Hydration
  import opened TargetHydration

  /** The server's schema parameter: one opaque record per entity. */
  function ServerSchema<S>(o: Leaves<S>): SchemaType<Record<S>> {
    SchemaType(map[],
      (fields: Record<S>, path: Path, wire: WireDelta, ctx: Ctx) => OpaqueApply(o, fields, path, wire, ctx).1)
  }

  datatype WireChange = WireChange(path: Path, wire: WireDelta, ctx: Ctx)

  /** The property ops of a log that set `target`, each under the position it was applied at. */
  function PropertyChanges(log: seq<Op>, target: CrdtId): seq<WireChange> {
    if log == [] then [] else
      var op := log[|log| - 1];
      PropertyChanges(log[..|log| - 1], target) +
      if (op.kind.SetNodeProperty? || op.kind.SetRefEdgeProperty?) && op.kind.target == target
        then [WireChange(op.kind.path, op.kind.delta, Ctx(op.id, |log|))] else []
  }

  function WireForm(run: seq<Change>): seq<WireChange> {
    seq(|run|,
      i requires 0 <= i < |run| => WireChange(IntoWireOp(run[i].delta).0, IntoWireOp(run[i].delta).1, run[i].ctx))
  }

  ghost function Recorded<S>(o: Leaves<S>, changes: seq<WireChange>): Record<S> {
    if changes == [] then map[] else
      var c := changes[|changes| - 1];
      OpaqueApply(o, Recorded(o, changes[..|changes| - 1]), c.path, c.wire, c.ctx).1
  }

  /** The server's record of an entity is the replay of the property ops on it, structural ops or not. */
  lemma {:induction false} ServerRecords<S>(o: Leaves<S>, log: seq<Op>, target: CrdtId)
    ensures SchemaOr(Replay(ServerSchema(o), log).schemas, target, map[]) == Recorded(o, PropertyChanges(log, target))
  {
    if log != [] {
      var l := |log| - 1;
      var op := log[l];
      ServerRecords(o, log[..l], target);
      ReplayKeeps(ServerSchema(o), log[..l]);
      if (op.kind.SetNodeProperty? || op.kind.SetRefEdgeProperty?) && op.kind.target == target {
        var changes := PropertyChanges(log, target);
        assert changes[..|changes| - 1] == PropertyChanges(log[..l], target);
      } else {
        assert PropertyChanges(log, target) == PropertyChanges(log[..l], target);
      }
    }
  }

  lemma {:induction false} RecordedIsReplay<S>(o: Leaves<S>, run: seq<Change>)
    ensures Recorded(o, WireForm(run)) == OpaqueReplay(o, run)
    decreases |run|
  {
    if run != [] {
      var l := |run| - 1;
      RecordedIsReplay(o, run[..l]);
      assert WireForm(run)[..l] == WireForm(run[..l]);
    }
  }

  /**
   * The documents of a target are those of applying its typed changes one by one, schema by schema,
   * where nothing was lost.
   */
  ghost predicate LikeReplay<S>(o: Leaves<S>, schemas: map<string, Schema>, docs: map<string, Doc<S>>, run: seq<Edit>,
                                name: string)
    requires name in schemas && AllWellKinded(schemas[name], Only(run, name))
  {
    var replayed := TypedReplay(o, schemas[name], Only(run, name));
    && (DocOr(o, schemas, docs, name) == replayed <==>
      Traced(schemas[name], replayed, OpaqueReplay(o, Only(run, name))))
    && (Flat(schemas[name]) ==> DocOr(o, schemas, docs, name) == replayed)
  }

  /**
   * A client that hydrates an entity from the server's snapshot of any log, in any order of the
   * fields. For each registered schema it holds the document that applying the typed changes one by
   * one would have given: always if the schema is flat, and else exactly when that document is traced.
   */
  method HydrateFromSnapshot<S>(o: Leaves<S>, snapshot: Snapshot<Record<S>>, target: CrdtId, schemas: map<string,
                                Schema>,
                                ghost log: seq<Op>, ghost run: seq<Edit>)
    returns (docs: map<string, Doc<S>>)
    requires snapshot == TakeSnapshot(Replay(ServerSchema(o), log))
    requires PropertyChanges(log, target) == WireForm(Wired(run))
    ensures DocsShaped(schemas, docs)
    ensures forall name | name in schemas && AllWellKinded(schemas[name], Only(run, name)) ::
      LikeReplay(o, schemas, docs, run, name)
  {
    var fields := SchemaOr(snapshot.schemas, target, map[]);
    ghost var order;
    docs, order := HydrateTarget(o, schemas, fields);
    ServerRecords(o, log, target);
    RecordedIsReplay(o, Wired(run));
    forall name | name in schemas && AllWellKinded(schemas[name], Only(run, name))
      ensures LikeReplay(o, schemas, docs, run, name)
    {
      HydratedTarget(o, schemas[name], name, run, order);
    }
  }
}
