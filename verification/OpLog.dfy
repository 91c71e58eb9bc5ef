/** Ops and the server's log (`kyoso_crdt::op`, `kyoso_crdt::log`). */
module OpLog {
  import opened Wrappers
  import opened Ids
  import opened Topology

  /** `seqNo` is `None` until the server has placed the op in the log. */
  datatype Op = Op(id: CrdtId, seqNo: Option<nat>, kind: OpKind)

  /** Ops after `fromSeq` up to and including `toSeq`. */
  datatype Diff = Diff(fromSeq: nat, toSeq: nat, ops: seq<Op>)

  /** Position `i` of a log holds the op stamped `i + 1`. */
  predicate Stamped(log: seq<Op>) {
    forall i | 0 <= i < |log| :: log[i].seqNo == Some(i + 1)
  }

  function Min(a: nat, b: nat): nat {
    if a < b then a else b
  }

  function Slice(log: seq<Op>, fromSeq: nat, toSeq: nat): seq<Op> {
    var end := Min(toSeq, |log|);
    if fromSeq >= toSeq || fromSeq >= end then [] else log[fromSeq..end]
  }

  /** A slice holds exactly the ops stamped in `(fromSeq, toSeq]`, in order. */
  lemma SliceIsRange(log: seq<Op>, fromSeq: nat, toSeq: nat)
    requires Stamped(log)
    ensures forall op :: op in Slice(log, fromSeq, toSeq) <==> op in log && fromSeq < op.seqNo.value <= toSeq
    ensures forall i | 0 <= i < |Slice(log, fromSeq, toSeq)| ::
      Slice(log, fromSeq, toSeq)[i].seqNo == Some(fromSeq + i + 1)
  {
    var s := Slice(log, fromSeq, toSeq);
    forall op ensures op in s <==> op in log && fromSeq < op.seqNo.value <= toSeq {
      if op in log && fromSeq < op.seqNo.value <= toSeq {
        var i :| 0 <= i < |log| && log[i] == op;
        assert s[i - fromSeq] == op;
      }
      if op in s {
        var i :| 0 <= i < |s| && s[i] == op;
        assert log[fromSeq + i] == op;
      }
    }
  }

  class InMemoryOpLog {
    var ops: seq<Op>

    constructor ()
      ensures ops == []
    {
      ops := [];
    }

    function Head(): nat
      reads this
    {
      |ops|
    }

    method SliceOps(fromSeq: nat, toSeq: nat) returns (r: seq<Op>)
      ensures r == Slice(ops, fromSeq, toSeq)
    {
      if fromSeq >= toSeq { return []; }
      var end := Min(toSeq, |ops|);
      if fromSeq >= end { return []; }
      return ops[fromSeq..end];
    }

    method DiffSince(since: nat) returns (d: Diff)
      ensures d == Diff(since, |ops|, if since <= |ops| then ops[since..] else [])
    {
      var r := SliceOps(since, Head());
      return Diff(since, Head(), r);
    }

    method Append(op: Op) returns (stamped: Op)
      requires Stamped(ops)
      modifies this
      ensures stamped == op.(seqNo := Some(old(|ops|) + 1))
      ensures ops == old(ops) + [stamped] && Stamped(ops)
    {
      stamped := op.(seqNo := Some(Head() + 1));
      ops := ops + [stamped];
    }
  }
}
