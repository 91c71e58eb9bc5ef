/**
 * The mutable backend (`kyoso_crdt::backend` and `kyoso_graph_crdt::graph_backend`).
 *
 * Every method is the in-place form of a transition of module Protocol.
 */
module BackendStore {
  import opened Wrappers
  import opened Ids
  import opened Delta
  import opened IdSource
  import opened Topology
  import opened OpLog
  import opened Replica
  import opened Protocol
  import opened TopologyStore
  import Compaction
  import View

  class Backend<S> {
    const schemaType: SchemaType<S>
    const ids: IdGen
    const topology: GraphTopology
    var schemas: map<CrdtId, S>
    var pending: seq<Op>
    var appliedSeq: nat

    /** Built around a possibly shared id handle. */
    constructor (schemaType: SchemaType<S>, ids: IdGen)
      ensures Valid() && this.ids == ids && this.schemaType == schemaType && fresh(topology)
      ensures Model() == Client(Fresh(), ids.gen, [], map[])
    {
      this.schemaType, this.ids := schemaType, ids;
      topology := new GraphTopology();
      schemas, pending, appliedSeq := map[], [], 0;
      new;
      EmptyWellFormed();
    }

    ghost predicate Valid()
      reads this, topology
    {
      WellFormed(topology.Model())
    }

    function Model(): Client<S>
      reads this, ids, topology
    {
      Client(State(topology.Model(), schemas, appliedSeq), ids.gen, pending, topology.pendingMoves)
    }

    // ---- Confirmed ops ----

    method ApplyOp(op: Op) returns (r: Result<(), ApplyError>)
      requires Valid()
      modifies this`schemas, this`appliedSeq, topology
      ensures Valid()
      ensures Model() == Receive(schemaType, old(Model()), op)
      ensures r == Replica.ApplyRemote(schemaType, old(Model().state), op).0
      ensures op.seqNo == None <==> r == Err(Unconfirmed)
      ensures op.seqNo.Some? && op.seqNo.value > old(appliedSeq) + 1 ==>
        r == Err(OutOfOrder(old(appliedSeq) + 1, op.seqNo.value))
      ensures r.Ok? <==> op.seqNo.Some? && op.seqNo.value <= old(appliedSeq) + 1
      ensures if op.seqNo == Some(old(appliedSeq) + 1) then appliedSeq == old(appliedSeq) + 1
        else Model() == old(Model())
    {
      if op.seqNo.None? { return Err(Unconfirmed); }
      var n := op.seqNo.value;
      if n <= appliedSeq { return Ok(()); }
      if n != appliedSeq + 1 { return Err(OutOfOrder(appliedSeq + 1, n)); }
      var ctx := Ctx(op.id, n);
      if IsProperty(op.kind) {
        var schema := if op.kind.target in schemas then schemas[op.kind.target] else schemaType.bottom;
        schemas := schemas[op.kind.target := schemaType.applyWire(schema, op.kind.path, op.kind.delta, ctx)];
      } else {
        topology.ApplyStructuralOp(op.id, op.kind);
        if CreatesEntity(op.kind) && op.id !in schemas {
          schemas := schemas[op.id := schemaType.bottom];
        }
      }
      appliedSeq := n;
      return Ok(());
    }

    method TakeSnapshot() returns (s: Snapshot<S>)
      ensures s == Replica.TakeSnapshot(Model().state)
      ensures s.atSeq == appliedSeq && s.schemas == schemas
      ensures Compaction.Restore(s.topology) == Visible(topology.Model())
    {
      Compaction.RestoreSnapshot(topology.Model());
      return Snapshot(appliedSeq, Compaction.Snapshot(topology.Model()), schemas);
    }

    method RestoreFrom(s: Snapshot<S>)
      modifies this`schemas, this`appliedSeq, topology, ids
      ensures Model() == Rehydrate(old(Model()), s)
      ensures WellFormed(Compaction.Restore(s.topology)) ==> Valid()
      ensures appliedSeq == s.atSeq && schemas == s.schemas && topology.Model() == Compaction.Restore(s.topology)
      ensures forall id | id in s.schemas && id.peer == ids.gen.peer :: id.local < ids.gen.next
    {
      appliedSeq := s.atSeq;
      topology.RestoreState(s.topology);
      schemas := s.schemas;
      var most := MaxLocal(schemas.Keys, ids.gen.peer);
      if most.Some? { ids.BumpUpTo(most.value + 1); }
    }

    // ---- Local edits ----

    method QueueOp(kind: OpKind) returns (id: CrdtId)
      modifies this`pending, ids
      ensures id == CrdtId(old(ids.gen).peer, old(ids.gen).next) && (id, ids.gen) == Mint(old(ids.gen))
      ensures pending == old(pending) + [Op(id, None, kind)]
    {
      id := ids.NextId();
      pending := pending + [Op(id, None, kind)];
    }

    method DrainPending() returns (ops: seq<Op>)
      modifies this`pending
      ensures ops == old(pending) && pending == []
    {
      ops := pending;
      pending := [];
    }

    method AddNode() returns (id: CrdtId)
      modifies this`pending, this`schemas, ids
      ensures Model() == Local(schemaType, old(Model()), CreateNode)
      ensures id == Mint(old(ids.gen)).0 && pending == old(pending) + [Op(id, None, OpKind.AddNode)]
      ensures schemas == if id in old(schemas) then old(schemas) else old(schemas)[id := schemaType.bottom]
    {
      id := ids.NextId();
      if id !in schemas { schemas := schemas[id := schemaType.bottom]; }
      pending := pending + [Op(id, None, OpKind.AddNode)];
    }

    method RemoveNode(target: CrdtId) returns (ok: bool)
      modifies this`pending, ids
      ensures Model() == Local(schemaType, old(Model()), DeleteNode(target))
      ensures ok == Accepts(old(Model().state), DeleteNode(target))
      ensures ok <==> LiveNode(topology.Model(), target) || target in schemas
      ensures pending == old(pending) +
        if ok then [Op(Mint(old(ids.gen)).0, None, OpKind.RemoveNode(target))] else []
    {
      if !LiveNode(topology.Model(), target) && target !in schemas { return false; }
      var _ := QueueOp(OpKind.RemoveNode(target));
      return true;
    }

    method MoveNode(target: CrdtId, newParent: Option<CrdtId>, position: string) returns (ok: bool)
      requires Valid()
      modifies this`pending, topology`pendingMoves, ids
      ensures Valid()
      ensures Model() == Local(schemaType, old(Model()), Edit.MoveNode(target, newParent, position))
      ensures ok == Accepts(old(Model().state), Edit.MoveNode(target, newParent, position))
      ensures !ok <==> newParent.Some? && exists k: nat :: Up(topology.Model(), newParent.value, k) == Some(target)
      ensures pending == old(pending) +
        if ok then [Op(Mint(old(ids.gen)).0, None, Move(target, newParent, position))] else []
      ensures topology.pendingMoves ==
        if ok then old(topology.pendingMoves)[Mint(old(ids.gen)).0 := target] else old(topology.pendingMoves)
    {
      if newParent.Some? {
        var cycle := View.WouldCreateCycle(topology.Model(), target, newParent.value);
        if cycle { return false; }
      }
      var id := QueueOp(Move(target, newParent, position));
      topology.TrackPendingMove(id, target);
      return true;
    }

    method AddRefEdge(from: CrdtId, to: CrdtId, category: EdgeCategory) returns (id: CrdtId)
      modifies this`pending, ids
      ensures Model() == Local(schemaType, old(Model()), CreateEdge(from, to, category))
      ensures id == Mint(old(ids.gen)).0
      ensures pending == old(pending) + [Op(id, None, OpKind.AddRefEdge(category, from, to))]
    {
      id := QueueOp(OpKind.AddRefEdge(category, from, to));
    }

    method RemoveEdge(target: CrdtId) returns (ok: bool)
      modifies this`pending, ids
      ensures Model() == Local(schemaType, old(Model()), DeleteEdge(target))
      ensures ok == Accepts(old(Model().state), DeleteEdge(target))
      ensures ok <==> EdgeEndpoints(topology.Model(), target).Some?
      ensures pending == old(pending) +
        if ok then [Op(Mint(old(ids.gen)).0, None, RemoveRefEdge(target))] else []
    {
      if !LiveEdge(topology.Model(), target) { return false; }
      var _ := QueueOp(RemoveRefEdge(target));
      return true;
    }

    /** The mutation runs on a throwaway copy of the schema; `path` and `delta` are the wire form of what it gives. */
    method MutateNode(target: CrdtId, path: Path, delta: WireDelta) returns (ok: bool)
      modifies this`pending, ids
      ensures Model() == Local(schemaType, old(Model()), Edit.MutateNode(target, path, delta))
      ensures ok == Accepts(old(Model().state), Edit.MutateNode(target, path, delta))
      ensures ok <==> target in schemas
      ensures pending == old(pending) +
        if ok then [Op(Mint(old(ids.gen)).0, None, OpKind.SetNodeProperty(target, path, delta))] else []
    {
      if target !in schemas { return false; }
      var id := ids.NextId();
      pending := pending + [Op(id, None, OpKind.SetNodeProperty(target, path, delta))];
      return true;
    }

    method SetNodeProperty(target: CrdtId, key: string, value: Bytes)
      modifies this`pending, ids
      ensures Model() == Local(schemaType, old(Model()), SetNode(target, [Field(key)], LwwReplace(value)))
      ensures pending == old(pending) +
        [Op(Mint(old(ids.gen)).0, None, OpKind.SetNodeProperty(target, [Field(key)], LwwReplace(value)))]
    {
      var id := ids.NextId();
      pending := pending + [Op(id, None, OpKind.SetNodeProperty(target, [Field(key)], LwwReplace(value)))];
    }

    method SetEdgeProperty(target: CrdtId, key: string, value: Bytes)
      modifies this`pending, ids
      ensures Model() == Local(schemaType, old(Model()), SetEdge(target, [Field(key)], LwwReplace(value)))
      ensures pending == old(pending) +
        [Op(Mint(old(ids.gen)).0, None, OpKind.SetRefEdgeProperty(target, [Field(key)], LwwReplace(value)))]
    {
      var id := ids.NextId();
      pending := pending + [Op(id, None, OpKind.SetRefEdgeProperty(target, [Field(key)], LwwReplace(value)))];
    }
  }
}
