/** Where a node stands in the tree and which key it has, read off the log. */
module NodePlaces {
  import opened Wrappers
  import opened Ids
  import opened Topology
  import opened OpLog
  import opened Replica
  import SnapshotSchemas

  /** Op `j` moves the node: it exists by then, and the new parent does not lie at or below it. */
  ghost predicate Moves<S>(o: SchemaType<S>, log: seq<Op>, j: nat, id: CrdtId) {
    && j < |log| && log[j].kind.Move? && log[j].kind.target == id
    && (exists i :: 0 <= i < j && log[i].kind.AddNode? && log[i].id == id)
    && (log[j].kind.newParent.Some? ==>
          forall k: nat :: Up(Replay(o, log[..j]).topo, log[j].kind.newParent.value, k) != Some(id))
  }

  ghost predicate LastMoves<S>(o: SchemaType<S>, log: seq<Op>, j: nat, id: CrdtId) {
    Moves(o, log, j, id) && forall k: nat | j < k < |log| :: !Moves(o, log, k, id)
  }

  /** Parent and key are those of the last op that moves the node, and none before the first. */
  ghost predicate PlacedBy<S>(o: SchemaType<S>, log: seq<Op>, id: CrdtId, parent: Option<CrdtId>, key: Option<string>) {
    && (forall j: nat | LastMoves(o, log, j, id) ::
      parent == log[j].kind.newParent && key == Some(log[j].kind.position))
    && ((forall j: nat :: !Moves(o, log, j, id)) ==> parent == None && key == None)
  }

  lemma MovesSnoc<S>(o: SchemaType<S>, log: seq<Op>, op: Op, j: nat, id: CrdtId)
    requires j < |log|
    ensures Moves(o, log + [op], j, id) <==> Moves(o, log, j, id)
  {
    assert (log + [op])[..j] == log[..j];
    assert forall i | 0 <= i <= j :: (log + [op])[i] == log[i];
  }

  lemma MovesNow<S>(o: SchemaType<S>, log: seq<Op>, op: Op, id: CrdtId)
    ensures Moves(o, log + [op], |log|, id) <==>
      && op.kind.Move? && op.kind.target == id && id in Replay(o, log).topo.nodes
      && (op.kind.newParent.Some? ==> !WouldCycle(Replay(o, log).topo, id, op.kind.newParent.value))
  {
    var l := log + [op];
    assert l[..|log|] == log && l[|log|] == op;
    SnapshotSchemas.NodesAreCreated(o, log);
    assert id in NodeIds(log) <==> exists i :: 0 <= i < |log| && l[i].kind.AddNode? && l[i].id == id by {
      assert forall i | 0 <= i < |log| :: l[i] == log[i];
      if id in NodeIds(log) {
        var i :| 0 <= i < |log| && log[i].kind.AddNode? && log[i].id == id;
        assert l[i].kind.AddNode? && l[i].id == id;
      }
    }
  }

  /** Nothing moves a node before it exists. */
  lemma UnknownUnmoved<S>(o: SchemaType<S>, log: seq<Op>, j: nat, id: CrdtId)
    requires id !in Replay(o, log).topo.nodes
    ensures !Moves(o, log, j, id)
  {
    SnapshotSchemas.NodesAreCreated(o, log);
    assert forall i | 0 <= i < |log| && log[i].kind.AddNode? :: log[i].id in NodeIds(log);
  }

  lemma PlacedSnoc<S>(o: SchemaType<S>, log: seq<Op>, op: Op, id: CrdtId, parent: Option<CrdtId>, key: Option<string>)
    ensures PlacedBy(o, log + [op], id, parent, key) <==>
      if Moves(o, log + [op], |log|, id) then parent == op.kind.newParent && key == Some(op.kind.position)
      else PlacedBy(o, log, id, parent, key)
  {
    var l := log + [op];
    forall j: nat | j < |log| ensures Moves(o, l, j, id) <==> Moves(o, log, j, id) { MovesSnoc(o, log, op, j, id); }
    assert l[|log|] == op && forall j | 0 <= j < |log| :: l[j] == log[j];
    if Moves(o, l, |log|, id) {
      assert LastMoves(o, l, |log|, id);
    } else {
      forall j: nat ensures LastMoves(o, l, j, id) <==> LastMoves(o, log, j, id) {}
    }
  }

  lemma {:induction false} RecordPlaced<S>(o: SchemaType<S>, log: seq<Op>, id: CrdtId)
    requires id in Replay(o, log).topo.nodes
    ensures
      var n := Replay(o, log).topo.nodes[id];
      PlacedBy(o, log, id, n.treeParent, n.orderKey)
  {
    var m := |log| - 1;
    var before, op := log[..m], log[m];
    assert log == before + [op];
    MovesNow(o, before, op, id);
    var n := Replay(o, log).topo.nodes[id];
    PlacedSnoc(o, before, op, id, n.treeParent, n.orderKey);
    if id in Replay(o, before).topo.nodes {
      RecordPlaced(o, before, id);
    } else {
      forall j: nat ensures !Moves(o, before, j, id) { UnknownUnmoved(o, before, j, id); }
    }
  }

  /** After any log a live node has the parent and the key that the last op moving it gave it. */
  lemma NodePlaced<S>(o: SchemaType<S>, log: seq<Op>, id: CrdtId)
    requires LiveNode(Replay(o, log).topo, id)
    ensures
      var t := Replay(o, log).topo;
      PlacedBy(o, log, id, TreeParent(t, id), NodeOrderKey(t, id))
  {
    RecordPlaced(o, log, id);
  }

  /** Of the moves of a node one is the last. */
  lemma {:induction false} LastMoveExists<S>(o: SchemaType<S>, log: seq<Op>, j: nat, id: CrdtId) returns (last: nat)
    requires Moves(o, log, j, id)
    ensures j <= last && LastMoves(o, log, last, id)
    decreases |log| - j
  {
    if k: nat :| j < k < |log| && Moves(o, log, k, id) {
      last := LastMoveExists(o, log, k, id);
    } else {
      last := j;
    }
  }
}
