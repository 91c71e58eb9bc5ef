/** The confirmed state of a backend as a value (`kyoso_crdt::backend`). */
module Replica {
  // It consists of the topology, one property schema per entity, and the log position it stands for.

  import opened Wrappers
  import opened Ids
  import opened Delta
  import opened Topology
  import opened Compaction
  import opened OpLog

  /** The schema type a backend is built over: its default, and its deterministic wire apply. */
  datatype SchemaType<!S> = SchemaType(bottom: S, applyWire: (S, Path, WireDelta, Ctx) -> S)

  datatype State<S> = State(topo: Topo, schemas: map<CrdtId, S>, applied: nat)

  datatype Snapshot<S> = Snapshot(atSeq: nat, topology: TopoSnapshot, schemas: map<CrdtId, S>)

  datatype ApplyError = Unconfirmed | OutOfOrder(expected: nat, got: nat)

  predicate IsProperty(kind: OpKind) {
    kind.SetNodeProperty? || kind.SetRefEdgeProperty?
  }

  predicate CreatesEntity(kind: OpKind) {
    kind.AddNode? || kind.AddRefEdge?
  }

  function SchemaOr<S>(schemas: map<CrdtId, S>, id: CrdtId, bottom: S): S {
    if id in schemas then schemas[id] else bottom
  }

  function ConfirmSchemas<S>(o: SchemaType<S>, schemas: map<CrdtId, S>, ctx: Ctx, kind: OpKind): map<CrdtId, S> {
    if IsProperty(kind) then
      schemas[kind.target := o.applyWire(SchemaOr(schemas, kind.target, o.bottom), kind.path, kind.delta, ctx)]
    else if CreatesEntity(kind) && ctx.opId !in schemas then
      schemas[ctx.opId := o.bottom]
    else
      schemas
  }

  /** The effect of the next confirmed op. */
  ghost function Confirm<S>(o: SchemaType<S>, s: State<S>, op: Op): State<S> {
    State(
      if IsProperty(op.kind) then s.topo else Apply(s.topo, op.id, op.kind),
      ConfirmSchemas(o, s.schemas, Ctx(op.id, s.applied + 1), op.kind),
      s.applied + 1)
  }

  /** The whole of `apply_remote`: unstamped and early ops are refused, known ones ignored. */
  ghost function ApplyRemote<S>(o: SchemaType<S>, s: State<S>, op: Op): (Result<(), ApplyError>, State<S>) {
    match op.seqNo
    case None => (Err(Unconfirmed), s)
    case Some(n) =>
      if n <= s.applied then (Ok(()), s)
      else if n != s.applied + 1 then (Err(OutOfOrder(s.applied + 1, n)), s)
      else (Ok(()), Confirm(o, s, op))
  }

  ghost function Deliver<S>(o: SchemaType<S>, s: State<S>, ops: seq<Op>): State<S>
    decreases |ops|
  {
    if ops == [] then s else Deliver(o, ApplyRemote(o, s, ops[0]).1, ops[1..])
  }

  function Fresh<S>(): State<S> {
    State(EMPTY, map[], 0)
  }

  /** The state a log determines. */
  ghost function Replay<S>(o: SchemaType<S>, log: seq<Op>): State<S> {
    if log == [] then Fresh() else Confirm(o, Replay(o, log[..|log| - 1]), log[|log| - 1])
  }

  function TakeSnapshot<S>(s: State<S>): Snapshot<S> {
    Snapshot(s.applied, Compaction.Snapshot(s.topo), s.schemas)
  }

  function FromSnapshot<S>(snap: Snapshot<S>): State<S> {
    State(Restore(snap.topology), snap.schemas, snap.atSeq)
  }

  // ---- Invariants of replay ----

  /** Ids under which a log creates nodes. */
  function NodeIds(log: seq<Op>): set<CrdtId> {
    set i | 0 <= i < |log| && log[i].kind.AddNode? :: log[i].id
  }

  lemma NodeIdsSnoc(log: seq<Op>, op: Op)
    ensures NodeIds(log + [op]) == NodeIds(log) + if op.kind.AddNode? then {op.id} else {}
  {
    var l := log + [op];
    forall x ensures x in NodeIds(l) <==> x in NodeIds(log) || (op.kind.AddNode? && x == op.id) {
      if x in NodeIds(l) {
        var i :| 0 <= i < |l| && l[i].kind.AddNode? && l[i].id == x;
        if i < |log| { assert log[i] == l[i]; }
      }
      if x in NodeIds(log) {
        var i :| 0 <= i < |log| && log[i].kind.AddNode? && log[i].id == x;
        assert l[i] == log[i];
      }
      if op.kind.AddNode? && x == op.id { assert l[|log|] == op; }
    }
  }

  lemma ConfirmKeeps<S>(o: SchemaType<S>, s: State<S>, op: Op)
    requires WellFormed(s.topo)
    ensures WellFormed(Confirm(o, s, op).topo)
    ensures Confirm(o, s, op).topo.nodes.Keys <= s.topo.nodes.Keys + if op.kind.AddNode? then {op.id} else {}
  {
    ApplyKeepsWellFormed(s.topo, op.id, op.kind);
  }

  lemma {:induction false} ReplayKeeps<S>(o: SchemaType<S>, log: seq<Op>)
    ensures Replay(o, log).applied == |log|
    ensures WellFormed(Replay(o, log).topo)
    ensures Replay(o, log).topo.nodes.Keys <= NodeIds(log)
  {
    if log == [] {
      EmptyWellFormed();
    } else {
      var m := |log| - 1;
      ReplayKeeps(o, log[..m]);
      ConfirmKeeps(o, Replay(o, log[..m]), log[m]);
      NodeIdsSnoc(log[..m], log[m]);
      assert log == log[..m] + [log[m]];
    }
  }

  lemma EmptyWellFormed()
    ensures WellFormed(EMPTY)
  {
    forall id, k: nat | k > 0 ensures Up(EMPTY, id, k) != Some(id) {
      assert Up(EMPTY, id, 0) == Some(id);
      assert Up(EMPTY, id, 1) == None;
      UpEnded(EMPTY, id, 1, k);
    }
  }

  lemma ReplayStep<S>(o: SchemaType<S>, log: seq<Op>, k: nat)
    requires k < |log|
    ensures Replay(o, log[..k + 1]) == Confirm(o, Replay(o, log[..k]), log[k])
  {
    assert log[..k + 1][..k] == log[..k];
  }

  // ---- Compaction: replaying a suffix on top of a restored snapshot ----

  /** The restored snapshot of `log[..k]`, brought forward over `log[k..n]`. */
  ghost function Resumed<S>(o: SchemaType<S>, log: seq<Op>, k: nat, n: nat): State<S>
    requires k <= n <= |log|
    decreases n
  {
    if n == k then FromSnapshot(TakeSnapshot(Replay(o, log[..k])))
    else Confirm(o, Resumed(o, log, k, n - 1), log[n - 1])
  }

  /** At the time of the snapshot `id` named a removed node. */
  ghost predicate RemovedBy<S>(o: SchemaType<S>, log: seq<Op>, k: nat, id: CrdtId)
    requires k <= |log|
  {
    var t := Replay(o, log[..k]).topo;
    id in t.nodes && t.nodes[id].tombstoned
  }

  /** The op at `j` creates a node under an id that was already removed at the snapshot. */
  ghost predicate Revives<S>(o: SchemaType<S>, log: seq<Op>, k: nat, j: nat)
    requires k <= |log| && j < |log|
  {
    log[j].kind.AddNode? && RemovedBy(o, log, k, log[j].id)
  }

  /** How a resumed replica differs from a full replay: it lacks the tombstones of the snapshot. */
  ghost predicate Shadows<S>(o: SchemaType<S>, log: seq<Op>, k: nat, n: nat)
    requires k <= n <= |log|
  {
    var full, resumed := Replay(o, log[..n]), Resumed(o, log, k, n);
    && full.applied == resumed.applied == n && full.schemas == resumed.schemas
    && WellFormed(full.topo) && WellFormed(resumed.topo) && Alike(full.topo, resumed.topo)
    && forall id :: Remembers(full.topo, resumed.topo, id) <==> RemovedBy(o, log, k, id)
  }

  lemma ShadowsAtSnapshot<S>(o: SchemaType<S>, log: seq<Op>, k: nat)
    requires k <= |log|
    ensures Shadows(o, log, k, k)
  {
    var full := Replay(o, log[..k]);
    ReplayKeeps(o, log[..k]);
    RestoreSnapshot(full.topo);
    VisibleKeeps(full.topo);
  }

  lemma ShadowsStep<S>(o: SchemaType<S>, log: seq<Op>, k: nat, n: nat)
    requires k <= n < |log| && Shadows(o, log, k, n)
    ensures !Revives(o, log, k, n) ==> Shadows(o, log, k, n + 1)
    ensures Revives(o, log, k, n) ==> !Alike(Replay(o, log[..n + 1]).topo, Resumed(o, log, k, n + 1).topo)
  {
    var full, resumed, op := Replay(o, log[..n]), Resumed(o, log, k, n), log[n];
    ReplayStep(o, log, n);
    ConfirmKeeps(o, full, op);
    ConfirmKeeps(o, resumed, op);
    StepAgrees(full.topo, resumed.topo, op.id, op.kind);
    var full', resumed' := Confirm(o, full, op), Confirm(o, resumed, op);
    if !Revives(o, log, k, n) {
      forall id ensures Remembers(full'.topo, resumed'.topo, id) <==> RemovedBy(o, log, k, id) {
        assert Remembers(full.topo, resumed.topo, id) <==> RemovedBy(o, log, k, id);
        assert Remembers(full.topo, resumed.topo, op.id) <==> RemovedBy(o, log, k, op.id);
      }
    }
  }

  lemma {:induction false} ShadowsWhile<S>(o: SchemaType<S>, log: seq<Op>, k: nat, n: nat)
    requires k <= n <= |log|
    requires forall j | k <= j < n :: !Revives(o, log, k, j)
    ensures Shadows(o, log, k, n)
    decreases n
  {
    if n == k {
      ShadowsAtSnapshot(o, log, k);
    } else {
      ShadowsWhile(o, log, k, n - 1);
      ShadowsStep(o, log, k, n - 1);
    }
  }

  /**
   * Compaction is invisible from `k` on exactly when no later op creates a node under the id
   * of a node that was already removed at `k`. Until then snapshots agree at every length,
   * although the resumed replica has no tombstone from before `k`.
   */
  lemma CompactionInvisible<S>(o: SchemaType<S>, log: seq<Op>, k: nat)
    requires k <= |log|
    ensures (forall n: nat | k <= n <= |log| ::
      TakeSnapshot(Resumed(o, log, k, n)) == TakeSnapshot(Replay(o, log[..n])))
      <==> (forall j: nat | k <= j < |log| :: !Revives(o, log, k, j))
  {
    if forall j: nat | k <= j < |log| :: !Revives(o, log, k, j) {
      forall n: nat | k <= n <= |log| ensures TakeSnapshot(Resumed(o, log, k, n)) == TakeSnapshot(Replay(o, log[..n])) {
        ShadowsWhile(o, log, k, n);
        AlikeIffVisible(Replay(o, log[..n]).topo, Resumed(o, log, k, n).topo);
        SnapshotIffVisible(Replay(o, log[..n]).topo, Resumed(o, log, k, n).topo);
      }
    } else {
      var j: nat :| k <= j < |log| && Revives(o, log, k, j);
      var first := FirstRevival(o, log, k, j);
      ShadowsWhile(o, log, k, first);
      ShadowsStep(o, log, k, first);
      AlikeIffVisible(Replay(o, log[..first + 1]).topo, Resumed(o, log, k, first + 1).topo);
      SnapshotIffVisible(Replay(o, log[..first + 1]).topo, Resumed(o, log, k, first + 1).topo);
      assert TakeSnapshot(Resumed(o, log, k, first + 1)) != TakeSnapshot(Replay(o, log[..first + 1]));
    }
  }

  lemma {:induction false} FirstRevival<S>(o: SchemaType<S>, log: seq<Op>, k: nat, j: nat) returns (first: nat)
    requires k <= j < |log| && Revives(o, log, k, j)
    ensures k <= first <= j && Revives(o, log, k, first)
    ensures forall i: nat | k <= i < first :: !Revives(o, log, k, i)
    decreases j
  {
    if i: nat :| k <= i < j && Revives(o, log, k, i) {
      first := FirstRevival(o, log, k, i);
    } else {
      first := j;
    }
  }

  /** No two ops of the log create a node under the same id. */
  predicate DistinctNodes(log: seq<Op>) {
    forall i, j | 0 <= i < j < |log| && log[i].kind.AddNode? && log[j].kind.AddNode? :: log[i].id != log[j].id
  }

  /** With distinct node ids compaction is invisible at every point. */
  lemma CompactionInvisibleForDistinctIds<S>(o: SchemaType<S>, log: seq<Op>, k: nat, n: nat)
    requires k <= n <= |log| && DistinctNodes(log)
    ensures TakeSnapshot(Resumed(o, log, k, n)) == TakeSnapshot(Replay(o, log[..n]))
  {
    forall j: nat | k <= j < |log| ensures !Revives(o, log, k, j) {
      ReplayKeeps(o, log[..k]);
    }
    CompactionInvisible(o, log, k);
  }

  /** The condition is needed: re-creating a removed node's id splits the two replicas. */
  lemma ReusedIdSplits<S>(o: SchemaType<S>)
    ensures
      var id := CrdtId(1, 0);
      var log := [Op(id, Some(1), AddNode), Op(CrdtId(1, 1), Some(2), RemoveNode(id)), Op(id, Some(3), AddNode)];
      TakeSnapshot(Resumed(o, log, 2, 3)) != TakeSnapshot(Replay(o, log))
  {
    var id := CrdtId(1, 0);
    var log := [Op(id, Some(1), AddNode), Op(CrdtId(1, 1), Some(2), RemoveNode(id)), Op(id, Some(3), AddNode)];
    assert log[..3] == log;
    ReplayStep(o, log, 0);
    ReplayStep(o, log, 1);
    assert Revives(o, log, 2, 2);
    ShadowsAtSnapshot(o, log, 2);
    ShadowsStep(o, log, 2, 2);
    AlikeIffVisible(Replay(o, log).topo, Resumed(o, log, 2, 3).topo);
    SnapshotIffVisible(Replay(o, log).topo, Resumed(o, log, 2, 3).topo);
  }
}
