module Protocol {
  // Clients, a server log and a network that may lose, repeat and reorder, as one transition system.
  // Ops are issued locally, drained, stamped by the server in any order, and delivered to each
  // client in any order, any number of times or never; clients catch up, publish and restore snapshots.

  import opened Wrappers
  import opened Ids
  import opened Delta
  import opened IdSource
  import opened Topology
  import opened Compaction
  import opened OpLog
  import opened Replica

  // ---- One client ----

  datatype Client<S> = Client(state: State<S>, ids: IdGenerator, pending: seq<Op>, moves: map<CrdtId, CrdtId>)

  /** A call of a mutator of the graph backend. */
  datatype Edit =
    | CreateNode
    | DeleteNode(target: CrdtId)
    | MoveNode(target: CrdtId, newParent: Option<CrdtId>, position: string)
    | CreateEdge(from: CrdtId, to: CrdtId, category: EdgeCategory)
    | DeleteEdge(target: CrdtId)
    | MutateNode(target: CrdtId, path: Path, delta: WireDelta)
    | SetNode(target: CrdtId, path: Path, delta: WireDelta)
    | SetEdge(target: CrdtId, path: Path, delta: WireDelta)

  function KindOf(e: Edit): OpKind {
    match e
    case CreateNode => AddNode
    case DeleteNode(target) => RemoveNode(target)
    case MoveNode(target, newParent, position) => Move(target, newParent, position)
    case CreateEdge(from, to, category) => AddRefEdge(category, from, to)
    case DeleteEdge(target) => RemoveRefEdge(target)
    case MutateNode(target, path, delta) => SetNodeProperty(target, path, delta)
    case SetNode(target, path, delta) => SetNodeProperty(target, path, delta)
    case SetEdge(target, path, delta) => SetRefEdgeProperty(target, path, delta)
  }

  /** The guards under which a mutator queues its op. */
  ghost predicate Accepts<S>(s: State<S>, e: Edit) {
    match e
    case DeleteNode(target) => LiveNode(s.topo, target) || target in s.schemas
    case MoveNode(target, newParent, _) => newParent.Some? ==> !WouldCycle(s.topo, target, newParent.value)
    case DeleteEdge(target) => LiveEdge(s.topo, target)
    case MutateNode(target, _, _) => target in s.schemas
    case _ => true
  }

  /** A mutator mints an id and queues an op. Only the default schema of a new node is written ahead. */
  ghost function Local<S>(o: SchemaType<S>, c: Client<S>, e: Edit): Client<S> {
    if !Accepts(c.state, e) then c else
      var (id, ids) := Mint(c.ids);
      Client(
        if e.CreateNode? then c.state.(schemas := c.state.schemas[id := SchemaOr(c.state.schemas, id, o.bottom)])
          else c.state,
        ids,
        c.pending + [Op(id, None, KindOf(e))],
        if e.MoveNode? then c.moves[id := e.target] else c.moves)
  }

  ghost function Receive<S>(o: SchemaType<S>, c: Client<S>, op: Op): Client<S> {
    var state := ApplyRemote(o, c.state, op).1;
    c.(state := state, moves := if state != c.state && op.kind.Move? then c.moves - {op.id} else c.moves)
  }

  function Rehydrate<S>(c: Client<S>, snap: Snapshot<S>): Client<S> {
    Client(FromSnapshot(snap), Resume(c.ids, snap.schemas.Keys), c.pending, map[])
  }

  // ---- The system ----

  datatype Net<S> = Net(clients: seq<Client<S>>, inFlight: seq<Op>, log: seq<Op>, snapshots: seq<Snapshot<S>>)

  datatype Step =
    | Issue(who: nat, edit: Edit)
    | Drain(who: nat)
    | Append(which: nat)
    | DeliverOne(who: nat, position: nat)
    | CatchUp(who: nat)
    | Publish(who: nat)
    | Rejoin(who: nat, which: nat)

  predicate Enabled<S>(net: Net<S>, step: Step) {
    match step
    case Append(which) => which < |net.inFlight|
    case DeliverOne(who, position) => who < |net.clients| && position < |net.log|
    case Rejoin(who, which) => who < |net.clients| && which < |net.snapshots|
    case _ => step.who < |net.clients|
  }

  ghost function ReceiveAll<S>(o: SchemaType<S>, c: Client<S>, ops: seq<Op>): Client<S>
    decreases |ops|
  {
    if ops == [] then c else ReceiveAll(o, Receive(o, c, ops[0]), ops[1..])
  }

  ghost function Do<S>(o: SchemaType<S>, net: Net<S>, step: Step): Net<S> {
    if !Enabled(net, step) then net else
    match step
    case Issue(i, e) => net.(clients := net.clients[i := Local(o, net.clients[i], e)])
    case Drain(i) =>
      net.(clients := net.clients[i := net.clients[i].(pending := [])], inFlight :=
        net.inFlight + net.clients[i].pending)
    case Append(j) =>
      net.(inFlight := net.inFlight[..j] + net.inFlight[j + 1..],
           log := net.log + [net.inFlight[j].(seqNo := Some(|net.log| + 1))])
    case DeliverOne(i, n) => net.(clients := net.clients[i := Receive(o, net.clients[i], net.log[n])])
    case CatchUp(i) =>
      var c := net.clients[i];
      net.(clients := net.clients[i := ReceiveAll(o, c, Slice(net.log, c.state.applied, |net.log|))])
    case Publish(i) => net.(snapshots := net.snapshots + [TakeSnapshot(net.clients[i].state)])
    case Rejoin(i, j) => net.(clients := net.clients[i := Rehydrate(net.clients[i], net.snapshots[j])])
  }

  ghost function Exec<S>(o: SchemaType<S>, net: Net<S>, steps: seq<Step>): Net<S> {
    if steps == [] then net else Do(o, Exec(o, net, steps[..|steps| - 1]), steps[|steps| - 1])
  }

  function Start<S>(peers: seq<nat>): Net<S> {
    Net(seq(|peers|, i requires 0 <= i < |peers| => Client(Fresh(), IdGenerator(peers[i], 0), [], map[])), [], [], [])
  }

  // ---- Following the log ----

  /** Equal schemas wherever the log has one; anything else is a default written ahead. */
  ghost predicate SchemasFollow<S>(o: SchemaType<S>, mine: map<CrdtId, S>, logged: map<CrdtId, S>) {
    && (forall id | id in logged :: id in mine && mine[id] == logged[id])
    && (forall id | id in mine && id !in logged :: mine[id] == o.bottom)
  }

  /** `s` shows what replaying the first `s.applied` ops of the log shows. */
  ghost predicate Follows<S>(o: SchemaType<S>, s: State<S>, log: seq<Op>) {
    && s.applied <= |log|
    && WellFormed(s.topo)
    && s.topo.nodes.Keys <= NodeIds(log[..s.applied])
    && Alike(s.topo, Replay(o, log[..s.applied]).topo)
    && SchemasFollow(o, s.schemas, Replay(o, log[..s.applied]).schemas)
  }

  predicate DistinctOps(ops: seq<Op>) {
    forall i, j | 0 <= i < j < |ops| :: ops[i].id != ops[j].id
  }

  lemma NewNodeUnknown<S>(o: SchemaType<S>, log: seq<Op>, k: nat)
    requires k < |log| && DistinctOps(log)
    ensures log[k].id !in NodeIds(log[..k])
  {
  }

  lemma FollowsConfirm<S>(o: SchemaType<S>, s: State<S>, log: seq<Op>)
    requires Follows(o, s, log) && s.applied < |log| && DistinctOps(log)
    ensures Follows(o, Confirm(o, s, log[s.applied]), log)
  {
    var k := s.applied;
    var op, logged := log[k], Replay(o, log[..k]);
    ReplayKeeps(o, log[..k]);
    ReplayStep(o, log, k);
    NewNodeUnknown(o, log, k);
    StepAgrees(s.topo, logged.topo, op.id, op.kind);
    ConfirmKeeps(o, s, op);
    NodeIdsSnoc(log[..k], op);
    assert log[..k + 1] == log[..k] + [op];
  }

  lemma FollowsReceive<S>(o: SchemaType<S>, c: Client<S>, log: seq<Op>, n: nat)
    requires Follows(o, c.state, log) && n < |log| && DistinctOps(log) && Stamped(log)
    ensures Follows(o, Receive(o, c, log[n]).state, log)
    ensures Receive(o, c, log[n]).state.applied == if n == c.state.applied then n + 1 else c.state.applied
  {
    if n == c.state.applied { FollowsConfirm(o, c.state, log); }
  }

  /** A catch-up diff brings a client to the head of the log. */
  lemma {:induction false} FollowsReceiveAll<S>(o: SchemaType<S>, c: Client<S>, log: seq<Op>)
    requires Follows(o, c.state, log) && DistinctOps(log) && Stamped(log)
    ensures
      var c' := ReceiveAll(o, c, log[c.state.applied..]);
      Follows(o, c'.state, log) && c'.state.applied == |log| && c'.pending == c.pending && c'.ids == c.ids
    decreases |log| - c.state.applied
  {
    var k := c.state.applied;
    if k < |log| {
      var next := Receive(o, c, log[k]);
      FollowsReceive(o, c, log, k);
      assert log[k..][1..] == log[k + 1..];
      FollowsReceiveAll(o, next, log);
    }
  }

  /** A longer log says the same about the prefix a client has applied. */
  lemma FollowsLonger<S>(o: SchemaType<S>, s: State<S>, log: seq<Op>, op: Op)
    requires Follows(o, s, log)
    ensures Follows(o, s, log + [op])
  {
    assert (log + [op])[..s.applied] == log[..s.applied];
  }

  lemma FollowsSnapshot<S>(o: SchemaType<S>, s: State<S>, log: seq<Op>)
    requires Follows(o, s, log)
    ensures Follows(o, FromSnapshot(TakeSnapshot(s)), log)
  {
    var r, logged := FromSnapshot(TakeSnapshot(s)), Replay(o, log[..s.applied]);
    RestoreSnapshot(s.topo);
    VisibleKeeps(s.topo);
    assert r.topo == Visible(s.topo);
    AlikeIffVisible(s.topo, logged.topo);
    AlikeIffVisible(s.topo, r.topo);
    AlikeIffVisible(r.topo, logged.topo);
  }

  // ---- What every step keeps ----

  predicate Wired<S>(net: Net<S>, op: Op) {
    op in net.log || op in net.inFlight
  }

  /** Ids are never issued twice: the counter of a peer is past all its ids in the system. */
  ghost predicate IdsApart<S>(net: Net<S>, peers: seq<nat>) {
    && |net.clients| == |peers|
    && (forall i | 0 <= i < |peers| :: net.clients[i].ids.peer == peers[i])
    && (forall i, j | 0 <= i < j < |peers| :: peers[i] != peers[j])
    && DistinctOps(net.log + net.inFlight)
    && (forall i | 0 <= i < |peers| :: PendingApart(net, i))
    && (forall op, i | Wired(net, op) && 0 <= i < |peers| && op.id.peer == peers[i] ::
      op.id.local < net.clients[i].ids.next)
  }

  ghost predicate PendingApart<S>(net: Net<S>, i: nat)
    requires i < |net.clients|
  {
    var c := net.clients[i];
    && DistinctOps(c.pending)
    && (forall op | op in c.pending :: op.id.peer == c.ids.peer && op.id.local < c.ids.next)
    && (forall op, w | op in c.pending && Wired(net, w) :: op.id != w.id)
  }

  ghost predicate AllFollow<S>(o: SchemaType<S>, net: Net<S>) {
    && (forall i | 0 <= i < |net.clients| :: Follows(o, net.clients[i].state, net.log))
    && (forall i | 0 <= i < |net.snapshots| :: Follows(o, FromSnapshot(net.snapshots[i]), net.log))
  }

  ghost predicate Invariant<S>(o: SchemaType<S>, net: Net<S>, peers: seq<nat>) {
    Stamped(net.log) && IdsApart(net, peers) && AllFollow(o, net)
  }

  lemma WireSplits(a: seq<Op>, b: seq<Op>)
    ensures DistinctOps(a + b) <==> DistinctOps(a) && DistinctOps(b) && forall x, y | x in a && y in b :: x.id != y.id
  {
    var c := a + b;
    if DistinctOps(c) {
      forall i, j | 0 <= i < j < |a| ensures a[i].id != a[j].id { assert c[i] == a[i] && c[j] == a[j]; }
      forall i, j | 0 <= i < j < |b| ensures b[i].id != b[j].id { assert c[|a| + i] == b[i] && c[|a| + j] == b[j]; }
      forall x, y | x in a && y in b ensures x.id != y.id {
        var i :| 0 <= i < |a| && a[i] == x;
        var j :| 0 <= j < |b| && b[j] == y;
        assert c[i] == x && c[|a| + j] == y;
      }
    }
  }

  lemma IssueIds<S>(o: SchemaType<S>, net: Net<S>, peers: seq<nat>, i: nat, e: Edit)
    requires IdsApart(net, peers) && i < |net.clients|
    ensures IdsApart(Do(o, net, Issue(i, e)), peers)
  {
    var net' := Do(o, net, Issue(i, e));
    assert forall op :: Wired(net', op) <==> Wired(net, op);
    assert PendingApart(net, i);
    forall j | 0 <= j < |peers| ensures PendingApart(net', j) { assert PendingApart(net, j); }
  }

  lemma IssueKeeps<S>(o: SchemaType<S>, net: Net<S>, peers: seq<nat>, i: nat, e: Edit)
    requires Invariant(o, net, peers) && i < |net.clients|
    ensures Invariant(o, Do(o, net, Issue(i, e)), peers)
  {
    IssueIds(o, net, peers, i, e);
    assert Follows(o, net.clients[i].state, net.log);
    LocalFollows(o, net.clients[i], net.log, e);
  }

  /** A local edit shows nothing but a default schema written ahead. */
  lemma LocalFollows<S>(o: SchemaType<S>, c: Client<S>, log: seq<Op>, e: Edit)
    requires Follows(o, c.state, log)
    ensures Follows(o, Local(o, c, e).state, log)
  {
  }

  lemma DrainKeeps<S>(o: SchemaType<S>, net: Net<S>, peers: seq<nat>, i: nat)
    requires Invariant(o, net, peers) && i < |net.clients|
    ensures Invariant(o, Do(o, net, Drain(i)), peers)
  {
    var net' := Do(o, net, Drain(i));
    var sent := net.clients[i].pending;
    assert PendingApart(net, i);
    assert forall op :: Wired(net', op) <==> Wired(net, op) || op in sent;
    assert net'.log + net'.inFlight == (net.log + net.inFlight) + sent;
    WireSplits(net.log + net.inFlight, sent);
    forall j | 0 <= j < |peers| ensures PendingApart(net', j) {
      assert PendingApart(net, j);
      if j != i { assert peers[j] != peers[i]; }
    }
  }

  /** Where op `i` stood before the op at `j` moved from the network to the end of a log of length `n`. */
  function Origin(n: nat, j: nat, i: nat): nat {
    if i < n then i else if i == n then n + j else if i <= n + j then i - 1 else i
  }

  lemma MovedApart(log: seq<Op>, inFlight: seq<Op>, j: nat, stamped: Op)
    requires j < |inFlight| && stamped.id == inFlight[j].id && DistinctOps(log + inFlight)
    ensures DistinctOps(log + [stamped] + (inFlight[..j] + inFlight[j + 1..]))
  {
    var was, now := log + inFlight, log + [stamped] + (inFlight[..j] + inFlight[j + 1..]);
    forall i | 0 <= i < |now| ensures Origin(|log|, j, i) < |was| && now[i].id == was[Origin(|log|, j, i)].id {}
    forall i, k | 0 <= i < k < |now| ensures now[i].id != now[k].id {
      var x, y := Origin(|log|, j, i), Origin(|log|, j, k);
      assert x != y;
      assert was[if x < y then x else y].id != was[if x < y then y else x].id;
    }
  }

  /** Stamping moves one op from the network to the end of the log. */
  lemma AppendIds<S>(o: SchemaType<S>, net: Net<S>, j: nat)
    requires j < |net.inFlight| && DistinctOps(net.log + net.inFlight)
    ensures
      var net' := Do(o, net, Append(j));
      && DistinctOps(net'.log + net'.inFlight)
      && (forall w | Wired(net', w) :: exists v :: Wired(net, v) && v.id == w.id)
  {
    var net' := Do(o, net, Append(j));
    var op := net.inFlight[j];
    var stamped := op.(seqNo := Some(|net.log| + 1));
    MovedApart(net.log, net.inFlight, j, stamped);
    forall w | Wired(net', w) ensures exists v :: Wired(net, v) && v.id == w.id {
      if w == stamped { assert Wired(net, op) && op.id == w.id; } else { assert Wired(net, w); }
    }
  }

  lemma AppendKeeps<S>(o: SchemaType<S>, net: Net<S>, peers: seq<nat>, j: nat)
    requires Invariant(o, net, peers) && j < |net.inFlight|
    ensures Invariant(o, Do(o, net, Append(j)), peers)
  {
    var net' := Do(o, net, Append(j));
    AppendIds(o, net, j);
    forall i | 0 <= i < |peers| ensures PendingApart(net', i) {
      assert PendingApart(net, i);
      forall op, w | op in net.clients[i].pending && Wired(net', w) ensures op.id != w.id {
        var v :| Wired(net, v) && v.id == w.id;
      }
    }
    forall w, i | Wired(net', w) && 0 <= i < |peers| && w.id.peer == peers[i]
      ensures w.id.local < net'.clients[i].ids.next
    {
      var v :| Wired(net, v) && v.id == w.id;
    }
    var stamped := net'.log[|net.log|];
    forall i | 0 <= i < |net'.clients| ensures Follows(o, net'.clients[i].state, net'.log) {
      FollowsLonger(o, net.clients[i].state, net.log, stamped);
    }
    forall i | 0 <= i < |net'.snapshots| ensures Follows(o, FromSnapshot(net'.snapshots[i]), net'.log) {
      FollowsLonger(o, FromSnapshot(net.snapshots[i]), net.log, stamped);
    }
  }

  /** Changing one client's confirmed state, and at most raising its counter, disturbs no ids. */
  lemma ClientChangeKeeps<S>(o: SchemaType<S>, net: Net<S>, peers: seq<nat>, i: nat, c: Client<S>)
    requires Invariant(o, net, peers) && i < |net.clients|
    requires c.pending == net.clients[i].pending
    requires c.ids.peer == net.clients[i].ids.peer && c.ids.next >= net.clients[i].ids.next
    requires Follows(o, c.state, net.log)
    ensures Invariant(o, net.(clients := net.clients[i := c]), peers)
  {
    var net' := net.(clients := net.clients[i := c]);
    assert forall op :: Wired(net', op) <==> Wired(net, op);
    forall j | 0 <= j < |peers| ensures PendingApart(net', j) { assert PendingApart(net, j); }
  }

  lemma StepKeeps<S>(o: SchemaType<S>, net: Net<S>, peers: seq<nat>, step: Step)
    requires Invariant(o, net, peers)
    ensures Invariant(o, Do(o, net, step), peers)
  {
    if Enabled(net, step) {
      WireSplits(net.log, net.inFlight);
      match step
      case Issue(i, e) => IssueKeeps(o, net, peers, i, e);
      case Drain(i) => DrainKeeps(o, net, peers, i);
      case Append(j) => AppendKeeps(o, net, peers, j);
      case DeliverOne(i, n) =>
        FollowsReceive(o, net.clients[i], net.log, n);
        ClientChangeKeeps(o, net, peers, i, Receive(o, net.clients[i], net.log[n]));
      case CatchUp(i) => CatchUpKeeps(o, net, peers, i);
      case Publish(i) =>
        FollowsSnapshot(o, net.clients[i].state, net.log);
        PublishIds(o, net, peers, i);
      case Rejoin(i, j) => RejoinKeeps(o, net, peers, i, j);
    }
  }

  lemma CatchUpKeeps<S>(o: SchemaType<S>, net: Net<S>, peers: seq<nat>, i: nat)
    requires Invariant(o, net, peers) && Enabled(net, CatchUp(i))
    ensures Invariant(o, Do(o, net, CatchUp(i)), peers)
  {
    var c := net.clients[i];
    WireSplits(net.log, net.inFlight);
    CatchUpSlice(net.log, c.state.applied);
    FollowsReceiveAll(o, c, net.log);
    ClientChangeKeeps(o, net, peers, i, ReceiveAll(o, c, net.log[c.state.applied..]));
  }

  lemma RejoinKeeps<S>(o: SchemaType<S>, net: Net<S>, peers: seq<nat>, i: nat, j: nat)
    requires Invariant(o, net, peers) && Enabled(net, Rejoin(i, j))
    ensures Invariant(o, Do(o, net, Rejoin(i, j)), peers)
  {
    WireSplits(net.log, net.inFlight);
    ResumedIdsAreFresh(net.clients[i].ids, net.snapshots[j].schemas.Keys, []);
    ClientChangeKeeps(o, net, peers, i, Rehydrate(net.clients[i], net.snapshots[j]));
  }

  lemma CatchUpSlice(log: seq<Op>, since: nat)
    requires since <= |log|
    ensures Slice(log, since, |log|) == log[since..]
  {
  }

  lemma PublishIds<S>(o: SchemaType<S>, net: Net<S>, peers: seq<nat>, i: nat)
    requires IdsApart(net, peers) && i < |net.clients|
    ensures IdsApart(Do(o, net, Publish(i)), peers)
  {
    var net' := Do(o, net, Publish(i));
    assert forall op :: Wired(net', op) <==> Wired(net, op);
    forall j | 0 <= j < |peers| ensures PendingApart(net', j) { assert PendingApart(net, j); }
  }

  lemma StartHolds<S>(o: SchemaType<S>, peers: seq<nat>)
    requires forall i, j | 0 <= i < j < |peers| :: peers[i] != peers[j]
    ensures Invariant(o, Start(peers), peers)
  {
    EmptyWellFormed();
    var net: Net<S> := Start(peers);
    assert net.log[..0] == [];
    forall i | 0 <= i < |net.clients| ensures Follows(o, net.clients[i].state, net.log) {
      assert net.clients[i].state == Fresh();
    }
  }

  lemma {:induction false} RunKeeps<S>(o: SchemaType<S>, peers: seq<nat>, steps: seq<Step>)
    requires forall i, j | 0 <= i < j < |peers| :: peers[i] != peers[j]
    ensures Invariant(o, Exec(o, Start(peers), steps), peers)
  {
    if steps == [] {
      StartHolds(o, peers);
    } else {
      RunKeeps(o, peers, steps[..|steps| - 1]);
      StepKeeps(o, Exec(o, Start(peers), steps[..|steps| - 1]), peers, steps[|steps| - 1]);
    }
  }

  // ---- Convergence ----

  /** What the node accessor shows of an entity's schema: nothing unless the node is live. */
  function ReadSchema<S>(s: State<S>, id: CrdtId): Option<S> {
    if LiveNode(s.topo, id) && id in s.schemas then Some(s.schemas[id]) else None
  }

  /** Every node of a replayed state has its schema. */
  lemma {:induction false} ReplayedNodesHaveSchemas<S>(o: SchemaType<S>, log: seq<Op>)
    ensures Replay(o, log).topo.nodes.Keys <= Replay(o, log).schemas.Keys
  {
    if log == [] {
    } else {
      ReplayedNodesHaveSchemas(o, log[..|log| - 1]);
    }
  }

  /** A follower publishes the topology of the replay and reads every node like the replay. */
  lemma FollowerShows<S>(o: SchemaType<S>, s: State<S>, log: seq<Op>)
    requires Follows(o, s, log)
    ensures
      var logged := Replay(o, log[..s.applied]);
      && Compaction.Snapshot(s.topo) == Compaction.Snapshot(logged.topo)
      && (forall id :: ReadSchema(s, id) == ReadSchema(logged, id))
  {
    var logged := Replay(o, log[..s.applied]);
    AlikeIffVisible(s.topo, logged.topo);
    SnapshotIffVisible(s.topo, logged.topo);
    ReplayedNodesHaveSchemas(o, log[..s.applied]);
    forall id ensures ReadSchema(s, id) == ReadSchema(logged, id) { assert SameNode(s.topo, logged.topo, id); }
  }

  /**
   * In every run every client shows what replaying its prefix of the log shows, so two
   * clients that have applied equally much show the same.
   */
  lemma Convergence<S>(o: SchemaType<S>, peers: seq<nat>, steps: seq<Step>, i: nat, j: nat)
    requires forall a, b | 0 <= a < b < |peers| :: peers[a] != peers[b]
    requires i < |peers| && j < |peers|
    ensures
      var net := Exec(o, Start(peers), steps);
      && |net.clients| == |peers|
      && var a, b := net.clients[i].state, net.clients[j].state;
      && a.applied <= |net.log|
      && Compaction.Snapshot(a.topo) == Compaction.Snapshot(Replay(o, net.log[..a.applied]).topo)
      && (forall id :: ReadSchema(a, id) == ReadSchema(Replay(o, net.log[..a.applied]), id))
      && SchemasFollow(o, a.schemas, Replay(o, net.log[..a.applied]).schemas)
      && (a.applied == b.applied ==>
            Compaction.Snapshot(a.topo) == Compaction.Snapshot(b.topo) && forall id ::
              ReadSchema(a, id) == ReadSchema(b, id))
  {
    RunKeeps(o, peers, steps);
    var net := Exec(o, Start(peers), steps);
    assert Follows(o, net.clients[i].state, net.log) && Follows(o, net.clients[j].state, net.log);
    FollowerShows(o, net.clients[i].state, net.log);
    FollowerShows(o, net.clients[j].state, net.log);
  }

  /** After catching up a client follows the whole log. */
  lemma CatchUpFollows<S>(o: SchemaType<S>, net: Net<S>, peers: seq<nat>, i: nat)
    requires Invariant(o, net, peers) && i < |net.clients|
    ensures var s := Do(o, net, CatchUp(i)).clients[i].state; s.applied == |net.log| && Follows(o, s, net.log)
  {
    var c := net.clients[i];
    WireSplits(net.log, net.inFlight);
    assert Follows(o, c.state, net.log);
    CatchUpSlice(net.log, c.state.applied);
    FollowsReceiveAll(o, c, net.log);
  }

  /** A client that shows what replaying a log shows, properties included. */
  ghost predicate Shows<S>(o: SchemaType<S>, s: State<S>, log: seq<Op>) {
    var logged := Replay(o, log);
    && s.applied == |log|
    && Compaction.Snapshot(s.topo) == Compaction.Snapshot(logged.topo)
    && (forall id :: ReadSchema(s, id) == ReadSchema(logged, id))
    && SchemasFollow(o, s.schemas, logged.schemas)
  }

  lemma FollowerShowsAll<S>(o: SchemaType<S>, s: State<S>, log: seq<Op>)
    requires Follows(o, s, log) && s.applied == |log|
    ensures Shows(o, s, log)
  {
    FollowerShows(o, s, log);
    assert log[..|log|] == log;
  }

  /** After any run, a catch-up brings the client to the state of the whole log. */
  lemma CatchUpReachesHead<S>(o: SchemaType<S>, peers: seq<nat>, steps: seq<Step>, i: nat)
    requires forall a, b | 0 <= a < b < |peers| :: peers[a] != peers[b]
    requires i < |peers|
    ensures
      var net := Exec(o, Start(peers), steps + [CatchUp(i)]);
      |net.clients| == |peers| && Shows(o, net.clients[i].state, net.log)
  {
    RunKeeps(o, peers, steps);
    assert (steps + [CatchUp(i)])[..|steps|] == steps;
    var net := Exec(o, Start(peers), steps);
    CatchUpFollows(o, net, peers, i);
    FollowerShowsAll(o, Do(o, net, CatchUp(i)).clients[i].state, net.log);
  }
}
