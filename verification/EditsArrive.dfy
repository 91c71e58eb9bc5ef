/** What a local edit has done to every client once it is through: issued, drained, stamped, and caught up on. */
module EditsArrive {
  import opened Wrappers
  import opened Ids
  import opened Delta
  import opened IdSource
  import opened Topology
  import opened Compaction
  import opened OpLog
  import opened Replica
  import opened Protocol

  /** Client `i` issues the edit and its queue goes out. */
  ghost function Out<S>(o: SchemaType<S>, net: Net<S>, i: nat, e: Edit): Net<S> {
    Do(o, Do(o, net, Issue(i, e)), Drain(i))
  }

  /** The server stamps the op that went out last. */
  ghost function Stamp<S>(o: SchemaType<S>, out: Net<S>): Net<S> {
    if out.inFlight == [] then out else Do(o, out, Append(|out.inFlight| - 1))
  }

  /** All that, and client `j` catches up. */
  ghost function Sent<S>(o: SchemaType<S>, net: Net<S>, i: nat, e: Edit, j: nat): Net<S> {
    Do(o, Stamp(o, Out(o, net, i, e)), CatchUp(j))
  }

  lemma OutLast<S>(o: SchemaType<S>, net: Net<S>, i: nat, e: Edit)
    requires i < |net.clients| && Accepts(net.clients[i].state, e)
    ensures
      var out, op := Out(o, net, i, e), Op(Mint(net.clients[i].ids).0, None, KindOf(e));
      && out.log == net.log && |out.clients| == |net.clients|
      && out.inFlight == net.inFlight + net.clients[i].pending + [op]
  {
    var op := Op(Mint(net.clients[i].ids).0, None, KindOf(e));
    assert net.inFlight + (net.clients[i].pending + [op]) == net.inFlight + net.clients[i].pending + [op];
  }

  lemma StampLast<S>(o: SchemaType<S>, out: Net<S>, rest: seq<Op>, op: Op)
    requires out.inFlight == rest + [op]
    ensures
      var stamped := Stamp(o, out);
      && stamped.log == out.log + [op.(seqNo := Some(|out.log| + 1))]
      && |stamped.clients| == |out.clients|
  {
  }

  lemma OutInvariant<S>(o: SchemaType<S>, net: Net<S>, peers: seq<nat>, i: nat, e: Edit)
    requires Invariant(o, net, peers)
    ensures Invariant(o, Stamp(o, Out(o, net, i, e)), peers)
  {
    StepKeeps(o, net, peers, Issue(i, e));
    StepKeeps(o, Do(o, net, Issue(i, e)), peers, Drain(i));
    var out := Out(o, net, i, e);
    if out.inFlight != [] { StepKeeps(o, out, peers, Append(|out.inFlight| - 1)); }
  }

  lemma CatchUpOnly<S>(o: SchemaType<S>, net: Net<S>, j: nat)
    ensures Do(o, net, CatchUp(j)).log == net.log && |Do(o, net, CatchUp(j)).clients| == |net.clients|
  {
  }

  lemma Through<S>(o: SchemaType<S>, net: Net<S>, peers: seq<nat>, i: nat, e: Edit, j: nat, kind: OpKind)
    requires Invariant(o, net, peers) && i < |peers| && j < |peers|
    requires Accepts(net.clients[i].state, e) && KindOf(e) == kind
    ensures
      var id := Mint(net.clients[i].ids).0;
      var after := Sent(o, net, i, e, j);
      && after.log == net.log + [Op(id, Some(|net.log| + 1), kind)]
      && |after.clients| == |peers| && after.clients[j].state.applied == |after.log|
      && Follows(o, after.clients[j].state, after.log)
  {
    var out := Out(o, net, i, e);
    OutLast(o, net, i, e);
    StampLast(o, out, net.inFlight + net.clients[i].pending, Op(Mint(net.clients[i].ids).0, None, kind));
    OutInvariant(o, net, peers, i, e);
    CatchUpFollows(o, Stamp(o, out), peers, j);
    CatchUpOnly(o, Stamp(o, out), j);
  }

  /** What a client at the head of a log shows of the op that was stamped last. */
  lemma ShowsLast<S>(o: SchemaType<S>, s: State<S>, log: seq<Op>, op: Op)
    requires Follows(o, s, log + [op]) && s.applied == |log| + 1
    ensures Alike(s.topo, Confirm(o, Replay(o, log), op).topo)
  {
    var l := log + [op];
    assert l[..|l|] == l && l[..|log|] == log;
  }

  /**
   * An edge between nodes that live at the head of the log arrives with its ends and its category; any
   * other is dead.
   */
  lemma EdgeArrives<S>(o: SchemaType<S>, net: Net<S>, peers: seq<nat>, i: nat, j: nat, from: CrdtId, to: CrdtId,
                       category: EdgeCategory)
    requires Invariant(o, net, peers) && i < |peers| && j < |peers|
    ensures
      var id, head := Mint(net.clients[i].ids).0, Replay(o, net.log).topo;
      var after := Sent(o, net, i, CreateEdge(from, to, category), j);
      && |after.clients| == |peers|
      && var t := after.clients[j].state.topo;
         && (LiveNode(head, from) && LiveNode(head, to) ==>
               EdgeEndpoints(t, id) == Some((from, to)) && EdgeCategoryOf(t, id) == Some(category))
         && (LiveEdge(t, id) <==> LiveNode(head, from) && LiveNode(head, to))
  {
    var kind := AddRefEdge(category, from, to);
    Through(o, net, peers, i, CreateEdge(from, to, category), j, kind);
    var id := Mint(net.clients[i].ids).0;
    var s := Sent(o, net, i, CreateEdge(from, to, category), j).clients[j].state;
    var op := Op(id, Some(|net.log| + 1), kind);
    ShowsLast(o, s, net.log, op);
    assert SameEdge(s.topo, Confirm(o, Replay(o, net.log), op).topo, id);
  }

  /** The node is the proposed parent or lies above it. */
  ghost predicate Loops(t: Topo, target: CrdtId, parent: Option<CrdtId>) {
    parent.Some? && exists k: nat :: Up(t, parent.value, k) == Some(target)
  }

  /**
   * A move that the mover's own tree lets pass arrives where the node is live and the move closes no
   * loop at the head of the log; where it would, the node stays as it was.
   */
  lemma MoveArrives<S>(o: SchemaType<S>, net: Net<S>, peers: seq<nat>, i: nat, j: nat, target: CrdtId,
                       parent: Option<CrdtId>, position: string)
    requires Invariant(o, net, peers) && i < |peers| && j < |peers| && LiveNode(Replay(o, net.log).topo, target)
    requires !Loops(net.clients[i].state.topo, target, parent)
    ensures
      var head := Replay(o, net.log).topo;
      var after := Sent(o, net, i, Edit.MoveNode(target, parent, position), j);
      |after.clients| == |peers| && Arrived(head, after.clients[j].state.topo, target, parent, position)
  {
    var e, kind := Edit.MoveNode(target, parent, position), Move(target, parent, position);
    var op := Op(Mint(net.clients[i].ids).0, Some(|net.log| + 1), kind);
    NoLoopAccepted(net.clients[i].state, target, parent, position);
    Through(o, net, peers, i, e, j, kind);
    ShowsLast(o, Sent(o, net, i, e, j).clients[j].state, net.log, op);
    Moved(Replay(o, net.log).topo, Sent(o, net, i, e, j).clients[j].state.topo, op.id, target, parent, position);
  }

  /** The node has the new parent and key, or those it had where the move closes a loop. */
  ghost predicate Arrived(head: Topo, t: Topo, target: CrdtId, parent: Option<CrdtId>, position: string) {
    if Loops(head, target, parent)
    then TreeParent(t, target) == TreeParent(head, target) && NodeOrderKey(t, target) == NodeOrderKey(head, target)
    else TreeParent(t, target) == parent && NodeOrderKey(t, target) == Some(position)
  }

  lemma NoLoopAccepted<S>(s: State<S>, target: CrdtId, parent: Option<CrdtId>, position: string)
    requires !Loops(s.topo, target, parent)
    ensures Accepts(s, Edit.MoveNode(target, parent, position))
  {
  }

  lemma Moved(head: Topo, t: Topo, id: CrdtId, target: CrdtId, parent: Option<CrdtId>, position: string)
    requires LiveNode(head, target) && Alike(t, Apply(head, id, Move(target, parent, position)))
    ensures Arrived(head, t, target, parent, position)
  {
    assert Loops(head, target, parent) <==> parent.Some? && WouldCycle(head, target, parent.value);
    assert SameNode(t, Apply(head, id, Move(target, parent, position)), target);
  }

  /** A property change arrives as the effect of its delta on the record at the head of the log. */
  lemma PropertyArrives<S>(o: SchemaType<S>, net: Net<S>, peers: seq<nat>, i: nat, j: nat, target: CrdtId, path: Path,
                           delta: WireDelta)
    requires Invariant(o, net, peers) && i < |peers| && j < |peers|
    ensures
      var id, head := Mint(net.clients[i].ids).0, Replay(o, net.log);
      var after := Sent(o, net, i, SetNode(target, path, delta), j);
      && |after.clients| == |peers| && target in after.clients[j].state.schemas
      && after.clients[j].state.schemas[target] ==
           o.applyWire(SchemaOr(head.schemas, target, o.bottom), path, delta, Ctx(id, |net.log| + 1))
  {
    var kind := SetNodeProperty(target, path, delta);
    Through(o, net, peers, i, SetNode(target, path, delta), j, kind);
    var s := Sent(o, net, i, SetNode(target, path, delta), j).clients[j].state;
    var l := net.log + [Op(Mint(net.clients[i].ids).0, Some(|net.log| + 1), kind)];
    assert l[..|l|] == l && l[..|net.log|] == net.log;
    ReplayKeeps(o, net.log);
  }
}
