/** The per-peer id source (`kyoso_crdt::id`), shared by every model on the peer. */
module IdSource {
  import opened Wrappers
  import opened Ids

  /** The counter behind a handle. */
  datatype IdGenerator = IdGenerator(peer: nat, next: nat)

  function Mint(g: IdGenerator): (CrdtId, IdGenerator) {
    (CrdtId(g.peer, g.next), g.(next := g.next + 1))
  }

  function Bump(g: IdGenerator, to: nat): IdGenerator {
    if g.next < to then g.(next := to) else g
  }

  /** A call on some clone of the handle. */
  datatype Call = Next | BumpTo(to: nat)

  function After(g: IdGenerator, calls: seq<Call>): IdGenerator
    decreases |calls|
  {
    if calls == [] then g else
      match calls[0]
      case Next => After(Mint(g).1, calls[1..])
      case BumpTo(to) => After(Bump(g, to), calls[1..])
  }

  function Minted(g: IdGenerator, calls: seq<Call>): seq<CrdtId>
    decreases |calls|
  {
    if calls == [] then [] else
      match calls[0]
      case Next => [Mint(g).0] + Minted(Mint(g).1, calls[1..])
      case BumpTo(to) => Minted(Bump(g, to), calls[1..])
  }

  /** Whatever the interleaving, ids come out in ascending order under one peer, so no two are equal. */
  lemma {:induction false} MintedAscend(g: IdGenerator, calls: seq<Call>)
    ensures StrictlySorted(Minted(g, calls))
    ensures forall id | id in Minted(g, calls) :: id.peer == g.peer && g.next <= id.local < After(g, calls).next
    ensures After(g, calls).peer == g.peer && After(g, calls).next >= g.next
    decreases |calls|
  {
    if calls == [] {
    } else {
      var g' := if calls[0].Next? then Mint(g).1 else Bump(g, calls[0].to);
      MintedAscend(g', calls[1..]);
      var rest := Minted(g', calls[1..]);
      if calls[0].Next? {
        assert Minted(g, calls) == [Mint(g).0] + rest;
        forall j | 0 <= j < |rest| ensures Before(Mint(g).0, rest[j]) { assert rest[j] in rest; }
      }
    }
  }

  /** The greatest local counter among the ids of `peer`. */
  function MaxLocal(ids: set<CrdtId>, peer: nat): (r: Option<nat>)
    ensures r.None? <==> forall id | id in ids :: id.peer != peer
    ensures r.Some? ==> CrdtId(peer, r.value) in ids && forall id | id in ids && id.peer == peer :: id.local <= r.value
  {
    var own := SortedIds(set id | id in ids && id.peer == peer);
    if own == [] then
      assert forall id | id in ids :: id.peer == peer ==> id in own;
      None
    else
      assert own[|own| - 1] in own;
      assert forall id | id in ids :: id.peer == peer ==> id in own;
      Some(own[|own| - 1].local)
  }

  /** How a restore moves the counter past the peer's own ids in the restored schema map. */
  function Resume(g: IdGenerator, ids: set<CrdtId>): IdGenerator {
    match MaxLocal(ids, g.peer)
    case None => g
    case Some(local) => Bump(g, local + 1)
  }

  /** After a restore no minted id is the id of a restored entity, tombstoned ones included. */
  lemma ResumedIdsAreFresh(g: IdGenerator, ids: set<CrdtId>, calls: seq<Call>)
    ensures forall id | id in Minted(Resume(g, ids), calls) :: id !in ids
    ensures Resume(g, ids).peer == g.peer && Resume(g, ids).next >= g.next
    ensures forall id | id in ids && id.peer == g.peer :: id.local < Resume(g, ids).next
    ensures Resume(g, ids).next == g.next || CrdtId(g.peer, Resume(g, ids).next - 1) in ids
  {
    MintedAscend(Resume(g, ids), calls);
  }

  /** A cloneable handle: clones are references to the same object. */
  class IdGen {
    var gen: IdGenerator

    constructor (peer: nat)
      ensures gen == IdGenerator(peer, 0)
    {
      gen := IdGenerator(peer, 0);
    }

    method NextId() returns (id: CrdtId)
      modifies this
      ensures (id, gen) == Mint(old(gen))
      ensures id == CrdtId(old(gen).peer, old(gen).next) && gen == IdGenerator(old(gen).peer, old(gen).next + 1)
    {
      id := CrdtId(gen.peer, gen.next);
      gen := gen.(next := gen.next + 1);
    }

    method SetPeer(peer: nat)
      modifies this
      ensures gen == IdGenerator(peer, 0)
    {
      gen := IdGenerator(peer, 0);
    }

    method BumpUpTo(to: nat)
      modifies this
      ensures gen == Bump(old(gen), to)
      ensures gen.peer == old(gen).peer && gen.next >= to && gen.next >= old(gen).next
        && gen.next in {to, old(gen).next}
    {
      if gen.next < to { gen := IdGenerator(gen.peer, to); }
    }
  }
}
