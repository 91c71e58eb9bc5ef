/** Property addressing and the wire form of a property mutation: `kyoso_crdt::delta`. */
module Delta {
  import opened Wrappers
  import opened Ids

  datatype PathSegment = Field(name: string) | Key(name: string)

  type Path = seq<PathSegment>

  type Bytes = seq<bv8>

  datatype SubDot = SubDot(op: CrdtId, sub: nat)

  datatype WireDelta =
    | LwwReplace(value: Bytes)
    | OrSetAdd(value: Bytes)
    | OrSetRemove(observed: seq<SubDot>)
    | PnCounterDelta(amount: int)
    | SequenceInsert(predecessor: Option<SubDot>, value: Bytes)
    | SequenceDelete(targets: seq<SubDot>)
    | MapPut(key: PathSegment, inner: WireDelta)
    | MapRemove(key: PathSegment, observed: seq<SubDot>)
    | TreeMove(child: CrdtId, newParent: Option<CrdtId>, position: string)

  /** Identity and log position of the op being applied: the read side of `CausalContext`. */
  datatype Ctx = Ctx(opId: CrdtId, seqNo: nat)
}
