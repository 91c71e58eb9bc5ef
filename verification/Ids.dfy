/** Stable identifiers: `kyoso_crdt::id`. */
module Ids {
  /** A peer id together with that peer's local counter. */
  datatype CrdtId = CrdtId(peer: nat, local: nat)

  /** The derived order of `CrdtId`: by peer, then by local counter. */
  predicate Before(a: CrdtId, b: CrdtId) {
    a.peer < b.peer || (a.peer == b.peer && a.local < b.local)
  }

  predicate AtOrBefore(a: CrdtId, b: CrdtId) {
    a == b || Before(a, b)
  }

  /** A non-empty set of ids has a least one. */
  lemma {:induction false} LeastExists(ids: set<CrdtId>)
    requires ids != {}
    ensures exists m :: m in ids && forall y :: y in ids ==> AtOrBefore(m, y)
    decreases |ids|
  {
    var x :| x in ids;
    var rest := ids - {x};
    if rest == {} {
      assert ids == rest + {x};
      assert AtOrBefore(x, x);
    } else {
      LeastExists(rest);
      var m :| m in rest && forall y :: y in rest ==> AtOrBefore(m, y);
      var least := if Before(x, m) then x else m;
      forall y | y in ids ensures AtOrBefore(least, y) {
        if y != x { assert y in rest; }
      }
    }
  }

  predicate StrictlySorted(ids: seq<CrdtId>) {
    forall i, j :: 0 <= i < j < |ids| ==> Before(ids[i], ids[j])
  }

  /** The members of a set in ascending order. The traversal order of a hash map does not show in it. */
  function SortedIds(ids: set<CrdtId>): (r: seq<CrdtId>)
    ensures StrictlySorted(r)
    ensures forall x :: x in r <==> x in ids
    decreases |ids|
  {
    if ids == {} then [] else
      LeastExists(ids);
      var m :| m in ids && forall y :: y in ids ==> AtOrBefore(m, y);
      var rest := SortedIds(ids - {m});
      assert forall j :: 0 <= j < |rest| ==> rest[j] in ids - {m};
      [m] + rest
  }
}
