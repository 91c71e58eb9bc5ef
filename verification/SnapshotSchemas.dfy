/** Which entities a snapshot holds schemas for, and when all of them are live (`kyoso_crdt::backend`). */
module SnapshotSchemas {
  import opened Wrappers
  import opened Ids
  import opened Topology
  import opened OpLog
  import opened Replica
  import opened Protocol

  // ---- The keys of the schema map ----

  predicate Creates(kind: OpKind) {
    kind.AddNode? || kind.AddRefEdge?
  }

  predicate SetsProperty(kind: OpKind) {
    kind.SetNodeProperty? || kind.SetRefEdgeProperty?
  }

  /** Ids under which a log creates nodes or edges. */
  function CreatedIds(log: seq<Op>): set<CrdtId> {
    set i | 0 <= i < |log| && Creates(log[i].kind) :: log[i].id
  }

  function PropertyTargets(log: seq<Op>): set<CrdtId> {
    set i | 0 <= i < |log| && SetsProperty(log[i].kind) :: log[i].kind.target
  }

  function EdgeIds(log: seq<Op>): set<CrdtId> {
    set i | 0 <= i < |log| && log[i].kind.AddRefEdge? :: log[i].id
  }

  lemma KeysSnoc(log: seq<Op>, op: Op)
    ensures CreatedIds(log + [op]) == CreatedIds(log) + if Creates(op.kind) then {op.id} else {}
    ensures PropertyTargets(log + [op]) == PropertyTargets(log) + if SetsProperty(op.kind) then {op.kind.target} else {}
  {
    var l := log + [op];
    assert l[|log|] == op && forall i | 0 <= i < |log| :: l[i] == log[i];
    forall x ensures x in CreatedIds(l) <==> x in CreatedIds(log) || (Creates(op.kind) && x == op.id) {
      if x in CreatedIds(log) {
        var i :| 0 <= i < |log| && Creates(log[i].kind) && log[i].id == x;
        assert l[i] == log[i];
      }
    }
    forall x ensures x in PropertyTargets(l) <==>
      x in PropertyTargets(log) || (SetsProperty(op.kind) && x == op.kind.target)
    {
      if x in PropertyTargets(log) {
        var i :| 0 <= i < |log| && SetsProperty(log[i].kind) && log[i].kind.target == x;
        assert l[i] == log[i];
      }
    }
  }

  lemma ConfirmedKeys<S>(o: SchemaType<S>, s: State<S>, op: Op)
    ensures Confirm(o, s, op).schemas.Keys == s.schemas.Keys
      + (if Creates(op.kind) then {op.id} else {}) + (if SetsProperty(op.kind) then {op.kind.target} else {})
  {
  }

  /** A snapshot holds a schema for every entity ever created and every property target, live or not. */
  lemma {:induction false} SnapshotKeys<S>(o: SchemaType<S>, log: seq<Op>)
    ensures TakeSnapshot(Replay(o, log)).schemas.Keys == CreatedIds(log) + PropertyTargets(log)
  {
    if log != [] {
      var m := |log| - 1;
      SnapshotKeys(o, log[..m]);
      KeysSnoc(log[..m], log[m]);
      ConfirmedKeys(o, Replay(o, log[..m]), log[m]);
      assert log == log[..m] + [log[m]];
    }
  }

  /** The documentation of `snapshot` promises schemas of live entities only: a removed node keeps its schema. */
  lemma RemovedNodeKeepsSchema<S>(o: SchemaType<S>, id: CrdtId, other: CrdtId)
    ensures
      var s := Replay(o, [Op(id, Some(1), AddNode), Op(other, Some(2), RemoveNode(id))]);
      id in TakeSnapshot(s).schemas && !LiveNode(s.topo, id) && !LiveEdge(s.topo, id)
  {
    var log := [Op(id, Some(1), AddNode), Op(other, Some(2), RemoveNode(id))];
    assert log[..1] == [log[0]] && log[..1][..0] == [];
    assert Replay(o, log[..1]) == Confirm(o, Fresh(), log[0]);
    assert Replay(o, log) == Confirm(o, Replay(o, log[..1]), log[1]);
  }

  // ---- Which entities are live, read off the log ----

  /** Created as a node, and never removed once it was there. */
  ghost predicate NodeStands(log: seq<Op>, id: CrdtId) {
    id in NodeIds(log) && forall j | 0 <= j < |log| && log[j].kind == RemoveNode(id) :: id !in NodeIds(log[..j])
  }

  /** An op after which an edge created by `made` is no longer what it was. */
  predicate Disturbs(op: Op, made: Op)
    requires made.kind.AddRefEdge?
  {
    || (op.kind.AddRefEdge? && op.id == made.id)
    || op.kind == RemoveRefEdge(made.id)
    || op.kind == RemoveNode(made.kind.from)
    || op.kind == RemoveNode(made.kind.to)
  }

  /** Op `i` created the edge between nodes that stood then, and nothing has disturbed it since. */
  ghost predicate EdgeSince(log: seq<Op>, id: CrdtId, i: nat) {
    && i < |log| && log[i].kind.AddRefEdge? && log[i].id == id
    && NodeStands(log[..i], log[i].kind.from) && NodeStands(log[..i], log[i].kind.to)
    && forall j | i < j < |log| :: !Disturbs(log[j], log[i])
  }

  ghost predicate EdgeStands(log: seq<Op>, id: CrdtId) {
    exists i :: EdgeSince(log, id, i)
  }

  lemma {:induction false} NodesAreCreated<S>(o: SchemaType<S>, log: seq<Op>)
    ensures Replay(o, log).topo.nodes.Keys == NodeIds(log)
  {
    if log != [] {
      var m := |log| - 1;
      NodesAreCreated(o, log[..m]);
      NodeIdsSnoc(log[..m], log[m]);
      assert log == log[..m] + [log[m]];
    }
  }

  lemma NodeIdsGrow(log: seq<Op>, j: nat, k: nat)
    requires j <= k <= |log|
    ensures NodeIds(log[..j]) <= NodeIds(log[..k])
  {
    forall x | x in NodeIds(log[..j]) ensures x in NodeIds(log[..k]) {
      var i :| 0 <= i < j && log[..j][i].kind.AddNode? && log[..j][i].id == x;
      assert log[..k][i] == log[..j][i];
    }
  }

  lemma NodeStandsSnoc(log: seq<Op>, op: Op, id: CrdtId)
    ensures NodeStands(log + [op], id) <==>
      if op.kind.AddNode? && op.id == id then NodeStands(log, id) || id !in NodeIds(log)
      else NodeStands(log, id) && op.kind != RemoveNode(id)
  {
    var l := log + [op];
    NodeIdsSnoc(log, op);
    assert forall j | 0 <= j <= |log| :: l[..j] == log[..j];
    assert log[..|log|] == log && l[|log|] == op;
    forall j | 0 <= j < |log| ensures NodeIds(log[..j]) <= NodeIds(log) { NodeIdsGrow(log, j, |log|); }
    if NodeStands(l, id) && id in NodeIds(log) {
      forall j | 0 <= j < |log| && log[j].kind == RemoveNode(id) ensures id !in NodeIds(log[..j]) {
        assert l[j] == log[j];
      }
    }
  }

  /** The live nodes of a replayed log. */
  lemma {:induction false} LiveNodesStand<S>(o: SchemaType<S>, log: seq<Op>, id: CrdtId)
    ensures LiveNode(Replay(o, log).topo, id) <==> NodeStands(log, id)
  {
    if log != [] {
      var m := |log| - 1;
      LiveNodesStand(o, log[..m], id);
      NodesAreCreated(o, log[..m]);
      NodeStandsSnoc(log[..m], log[m], id);
      assert log == log[..m] + [log[m]];
    }
  }

  lemma EdgeSinceSnoc(log: seq<Op>, op: Op, id: CrdtId, i: nat)
    requires i < |log|
    ensures EdgeSince(log + [op], id, i) <==> EdgeSince(log, id, i) && !Disturbs(op, log[i])
  {
    var l := log + [op];
    assert l[..i] == log[..i] && l[i] == log[i] && l[|log|] == op;
    assert forall j | i < j < |log| :: l[j] == log[j];
  }

  lemma EdgeSinceLast(log: seq<Op>, op: Op, id: CrdtId)
    ensures EdgeSince(log + [op], id, |log|) <==>
      op.kind.AddRefEdge? && op.id == id && NodeStands(log, op.kind.from) && NodeStands(log, op.kind.to)
  {
    assert (log + [op])[..|log|] == log;
  }

  /** A live edge has the ends and the category its creating op gave it. */
  ghost predicate EdgeAsMade(t: Topo, log: seq<Op>, id: CrdtId) {
    forall i | 0 <= i < |log| && EdgeSince(log, id, i) ::
      && EdgeEndpoints(t, id) == Some((log[i].kind.from, log[i].kind.to))
      && EdgeCategoryOf(t, id) == Some(log[i].kind.category)
  }

  /** The live edges of a replayed log. */
  lemma {:induction false} LiveEdgesStand<S>(o: SchemaType<S>, log: seq<Op>, id: CrdtId)
    ensures LiveEdge(Replay(o, log).topo, id) <==> EdgeStands(log, id)
    ensures EdgeAsMade(Replay(o, log).topo, log, id)
  {
    if log != [] {
      var m := |log| - 1;
      LiveEdgesStand(o, log[..m], id);
      assert log == log[..m] + [log[m]];
      EdgeStep(o, log[..m], log[m], id);
    }
  }

  lemma EdgeStep<S>(o: SchemaType<S>, log: seq<Op>, op: Op, id: CrdtId)
    requires LiveEdge(Replay(o, log).topo, id) <==> EdgeStands(log, id)
    requires EdgeAsMade(Replay(o, log).topo, log, id)
    ensures LiveEdge(Confirm(o, Replay(o, log), op).topo, id) <==> EdgeStands(log + [op], id)
    ensures EdgeAsMade(Confirm(o, Replay(o, log), op).topo, log + [op], id)
  {
    var l, t, u := log + [op], Replay(o, log).topo, Confirm(o, Replay(o, log), op).topo;
    EdgeSinceLast(log, op, id);
    if op.kind.AddRefEdge? {
      LiveNodesStand(o, log, op.kind.from);
      LiveNodesStand(o, log, op.kind.to);
    }
    forall i: nat | i < |log| ensures EdgeSince(l, id, i) <==> EdgeSince(log, id, i) && !Disturbs(op, log[i]) {
      EdgeSinceSnoc(log, op, id, i);
    }
    if !(op.kind.AddRefEdge? && op.id == id) {
      if i: nat :| i < |log| && EdgeSince(log, id, i) {
        EndsKnown(o, log, id, i);
        EdgeOutcome(o, log, op, id, i);
      }
    }
  }

  /** The ends of a standing edge have entries in the node map. */
  lemma EndsKnown<S>(o: SchemaType<S>, log: seq<Op>, id: CrdtId, i: nat)
    requires EdgeSince(log, id, i)
    ensures log[i].kind.from in Replay(o, log).topo.nodes && log[i].kind.to in Replay(o, log).topo.nodes
  {
    NodesAreCreated(o, log);
    NodeIdsGrow(log, i, |log|);
    assert log[..|log|] == log;
  }

  lemma EdgeOutcome<S>(o: SchemaType<S>, log: seq<Op>, op: Op, id: CrdtId, i: nat)
    requires EdgeSince(log, id, i) && EdgeAsMade(Replay(o, log).topo, log, id)
    requires log[i].kind.from in Replay(o, log).topo.nodes && log[i].kind.to in Replay(o, log).topo.nodes
    requires !(op.kind.AddRefEdge? && op.id == id)
    ensures
      var t, u := Replay(o, log).topo, Confirm(o, Replay(o, log), op).topo;
      && (LiveEdge(u, id) <==> !Disturbs(op, log[i]))
      && (LiveEdge(u, id) ==> u.edges[id] == t.edges[id])
  {
  }

  // ---- Live entities only ----

  /** What the documentation of `snapshot` says of the schemas it holds. */
  predicate HoldsLiveOnly<S>(s: State<S>) {
    forall id | id in TakeSnapshot(s).schemas :: LiveNode(s.topo, id) || LiveEdge(s.topo, id)
  }

  /** For every log: all schemas belong to live entities exactly when everything created or targeted still stands. */
  lemma LiveOnlyIffStanding<S>(o: SchemaType<S>, log: seq<Op>)
    ensures HoldsLiveOnly(Replay(o, log)) <==>
      forall id | id in CreatedIds(log) + PropertyTargets(log) :: NodeStands(log, id) || EdgeStands(log, id)
  {
    SnapshotKeys(o, log);
    forall id ensures LiveNode(Replay(o, log).topo, id) || LiveEdge(Replay(o, log).topo, id) <==>
      NodeStands(log, id) || EdgeStands(log, id)
    {
      LiveNodesStand(o, log, id);
      LiveEdgesStand(o, log, id);
    }
  }

  /** No two ops create an entity under the same id. */
  predicate DistinctEntities(log: seq<Op>) {
    forall i, j | 0 <= i < j < |log| && Creates(log[i].kind) && Creates(log[j].kind) ::
      log[i].id != log[j].id
  }

  /** Nothing that exists is removed, no edge is dead on arrival, and properties go to entities of the log. */
  predicate Undisturbed(log: seq<Op>) {
    forall i | 0 <= i < |log| :: OpUndisturbing(log, i)
  }

  predicate OpUndisturbing(log: seq<Op>, i: nat)
    requires i < |log|
  {
    match log[i].kind
    case RemoveNode(target) => target !in NodeIds(log[..i])
    case RemoveRefEdge(target) => target !in EdgeIds(log[..i])
    case AddRefEdge(_, from, to) => from in NodeIds(log[..i]) && to in NodeIds(log[..i])
    case SetNodeProperty(target, _, _) => target in CreatedIds(log)
    case SetRefEdgeProperty(target, _, _) => target in CreatedIds(log)
    case _ => true
  }

  lemma CreatedAt(log: seq<Op>, id: CrdtId) returns (i: nat)
    requires id in CreatedIds(log)
    ensures i < |log| && Creates(log[i].kind) && log[i].id == id
  {
    i :| 0 <= i < |log| && Creates(log[i].kind) && log[i].id == id;
  }

  lemma PrefixCreated(log: seq<Op>, j: nat, i: nat)
    requires i < j <= |log| && Creates(log[i].kind)
    ensures log[i].id in if log[i].kind.AddNode? then NodeIds(log[..j]) else EdgeIds(log[..j])
  {
    assert log[..j][i] == log[i];
  }

  lemma UndisturbedNodeStands(log: seq<Op>, n: nat, id: CrdtId)
    requires Undisturbed(log) && n <= |log| && id in NodeIds(log[..n])
    ensures NodeStands(log[..n], id)
  {
    forall j | 0 <= j < n && log[..n][j].kind == RemoveNode(id) ensures id !in NodeIds(log[..n][..j]) {
      assert log[..n][j] == log[j] && log[..n][..j] == log[..j] && OpUndisturbing(log, j);
    }
  }

  lemma UndisturbedEdgeStands(log: seq<Op>, i: nat)
    requires Undisturbed(log) && DistinctEntities(log) && i < |log| && log[i].kind.AddRefEdge?
    ensures EdgeSince(log, log[i].id, i)
  {
    assert OpUndisturbing(log, i);
    UndisturbedNodeStands(log, i, log[i].kind.from);
    UndisturbedNodeStands(log, i, log[i].kind.to);
    forall j | i < j < |log| ensures !Disturbs(log[j], log[i]) {
      assert OpUndisturbing(log, j);
      NodeIdsGrow(log, i, j);
      PrefixCreated(log, j, i);
    }
  }

  lemma UndisturbedStands(log: seq<Op>, id: CrdtId)
    requires Undisturbed(log) && DistinctEntities(log) && id in CreatedIds(log) + PropertyTargets(log)
    ensures NodeStands(log, id) || EdgeStands(log, id)
  {
    if id in PropertyTargets(log) {
      var j :| 0 <= j < |log| && SetsProperty(log[j].kind) && log[j].kind.target == id;
      assert OpUndisturbing(log, j);
    }
    var i := CreatedAt(log, id);
    assert log[..|log|] == log;
    if log[i].kind.AddNode? {
      PrefixCreated(log, |log|, i);
      UndisturbedNodeStands(log, |log|, id);
    } else {
      UndisturbedEdgeStands(log, i);
    }
  }

  /** With distinct ids an entity stands as what it was created as. */
  lemma StandsAsCreated(log: seq<Op>, id: CrdtId, i: nat)
    requires DistinctEntities(log) && i < |log| && Creates(log[i].kind) && log[i].id == id
    ensures NodeStands(log, id) ==> log[i].kind.AddNode?
    ensures EdgeStands(log, id) ==> EdgeSince(log, id, i)
  {
    if NodeStands(log, id) {
      var k :| 0 <= k < |log| && log[k].kind.AddNode? && log[k].id == id;
      assert k == i;
    }
    if k :| EdgeSince(log, id, k) { assert k == i; }
  }

  /** If everything stands, op `j` disturbed nothing. */
  lemma StandingUndisturbed(log: seq<Op>, j: nat)
    requires DistinctEntities(log) && j < |log|
    requires forall id | id in CreatedIds(log) + PropertyTargets(log) :: NodeStands(log, id) || EdgeStands(log, id)
    ensures OpUndisturbing(log, j)
  {
    var op := log[j];
    match op.kind
    case RemoveNode(target) =>
      if target in NodeIds(log[..j]) {
        var i :| 0 <= i < j && log[..j][i].kind.AddNode? && log[..j][i].id == target;
        assert log[i] == log[..j][i] && target in CreatedIds(log);
        StandsAsCreated(log, target, i);
        assert false;
      }
    case RemoveRefEdge(target) =>
      if target in EdgeIds(log[..j]) {
        var i :| 0 <= i < j && log[..j][i].kind.AddRefEdge? && log[..j][i].id == target;
        assert log[i] == log[..j][i];
        assert target in CreatedIds(log);
        StandsAsCreated(log, target, i);
        assert Disturbs(op, log[i]);
        assert false;
      }
    case AddRefEdge(_, from, to) =>
      assert op.id in CreatedIds(log);
      StandsAsCreated(log, op.id, j);
    case SetNodeProperty(target, _, _) => TargetCreated(log, j, target);
    case SetRefEdgeProperty(target, _, _) => TargetCreated(log, j, target);
    case _ =>
  }

  lemma TargetCreated(log: seq<Op>, j: nat, target: CrdtId)
    requires j < |log| && SetsProperty(log[j].kind) && log[j].kind.target == target
    requires forall id | id in CreatedIds(log) + PropertyTargets(log) :: NodeStands(log, id) || EdgeStands(log, id)
    ensures target in CreatedIds(log)
  {
    assert target in PropertyTargets(log);
    if NodeStands(log, target) {
      var i :| 0 <= i < |log| && log[i].kind.AddNode? && log[i].id == target;
    } else {
      var i :| EdgeSince(log, target, i);
    }
  }

  /**
   * With distinct entity ids a snapshot holds schemas of live entities only exactly when no op of
   * the log removes an entity that exists, adds an edge to a missing node, or sets a property of
   * an id the log never creates.
   */
  lemma LiveOnlyIffUndisturbed<S>(o: SchemaType<S>, log: seq<Op>)
    requires DistinctEntities(log)
    ensures HoldsLiveOnly(Replay(o, log)) <==> Undisturbed(log)
  {
    LiveOnlyIffStanding(o, log);
    if Undisturbed(log) {
      forall id | id in CreatedIds(log) + PropertyTargets(log) ensures NodeStands(log, id) || EdgeStands(log, id) {
        UndisturbedStands(log, id);
      }
    }
    if HoldsLiveOnly(Replay(o, log)) {
      forall j | 0 <= j < |log| ensures OpUndisturbing(log, j) { StandingUndisturbed(log, j); }
    }
  }

  /** So it is for the log of every run, where ids are never issued twice. */
  lemma RunLiveOnlyIff<S>(o: SchemaType<S>, peers: seq<nat>, steps: seq<Step>)
    requires forall i, j | 0 <= i < j < |peers| :: peers[i] != peers[j]
    ensures var log := Exec(o, Start(peers), steps).log; HoldsLiveOnly(Replay(o, log)) <==> Undisturbed(log)
  {
    RunKeeps(o, peers, steps);
    var net := Exec(o, Start(peers), steps);
    WireSplits(net.log, net.inFlight);
    LiveOnlyIffUndisturbed(o, net.log);
  }

  // ---- remove_node ----

  /** `remove_node` answers true for every id with a schema, removed ones included; its documentation says false. */
  lemma RemoveAccepted<S>(o: SchemaType<S>, log: seq<Op>, id: CrdtId)
    ensures Accepts(Replay(o, log), DeleteNode(id)) <==> id in CreatedIds(log) + PropertyTargets(log)
    ensures (Accepts(Replay(o, log), DeleteNode(id)) <==> LiveNode(Replay(o, log).topo, id)) <==>
      (id in CreatedIds(log) + PropertyTargets(log) ==> NodeStands(log, id))
  {
    SnapshotKeys(o, log);
    LiveNodesStand(o, log, id);
    if NodeStands(log, id) {
      var i :| 0 <= i < |log| && log[i].kind.AddNode? && log[i].id == id;
    }
  }
}
