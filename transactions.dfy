/** The transaction record the store holds: a unique id, a status, a sender,
    a receiver and an amount. Records are values; the only field the store
    ever changes is the status, by replacing the stored record with an
    updated copy. */
module Transactions {

  /** The statuses the store is queried with. */
  datatype Status = Successful | Failed | Unauthorized

  /** One transaction. The amount is only ever compared, so it is a real
      number. */
  datatype Tx = Tx(id: int, status: Status, from: string, to: string, amount: real)

  /** No two records of `ts` share an id. */
  ghost predicate DistinctIds(ts: seq<Tx>) {
    forall i, j :: 0 <= i < j < |ts| ==> ts[i].id != ts[j].id
  }

  /** The ids of the records of `ts`. */
  function Ids(ts: seq<Tx>): set<int> {
    set t | t in ts :: t.id
  }

  /** A sequence of records with distinct ids has as many records as ids. */
  lemma {:induction false} DistinctIdsCount(ts: seq<Tx>)
    requires DistinctIds(ts)
    ensures |Ids(ts)| == |ts|
  {
    if ts != [] {
      DistinctIdsSplit(ts);
      DistinctIdsCount(ts[1..]);
      IdsSplit(ts);
    }
  }

  /** The ids of a sequence, split at its first record. */
  lemma IdsSplit(ts: seq<Tx>)
    requires ts != []
    ensures Ids(ts) == {ts[0].id} + Ids(ts[1..])
  {
    assert ts == [ts[0]] + ts[1..];
  }

  /** The ids of a sequence, split at its last record. */
  lemma IdsLast(ts: seq<Tx>)
    requires ts != []
    ensures Ids(ts) == Ids(ts[..|ts| - 1]) + {ts[|ts| - 1].id}
  {
    assert ts == ts[..|ts| - 1] + [ts[|ts| - 1]];
  }

  /** Records with distinct ids stay distinct without their last record,
      whose id none of the others has. */
  lemma DistinctIdsLast(s: seq<Tx>)
    requires s != [] && DistinctIds(s)
    ensures DistinctIds(s[..|s| - 1]) && s[|s| - 1].id !in Ids(s[..|s| - 1])
  {
    var init := s[..|s| - 1];
    forall i, j | 0 <= i < j < |init| ensures init[i].id != init[j].id {
      assert init[i] == s[i] && init[j] == s[j];
    }
    forall t | t in init ensures t.id != s[|s| - 1].id {
      var i :| 0 <= i < |init| && init[i] == t;
      assert s[i] == t;
    }
  }

  /** Distinct ids, split at the first record. */
  lemma DistinctIdsSplit(s: seq<Tx>)
    requires s != []
    ensures DistinctIds(s) <==> s[0].id !in Ids(s[1..]) && DistinctIds(s[1..])
  {
    var tail := s[1..];
    if DistinctIds(s) {
      forall i, j | 0 <= i < j < |tail| ensures tail[i].id != tail[j].id {
        assert tail[i] == s[i + 1] && tail[j] == s[j + 1];
      }
      forall t | t in tail ensures t.id != s[0].id {
        var k :| 0 <= k < |tail| && tail[k] == t;
        assert t == s[k + 1];
      }
    }
    if s[0].id !in Ids(tail) && DistinctIds(tail) {
      forall i, j | 0 <= i < j < |s| ensures s[i].id != s[j].id {
        assert s[j] == tail[j - 1];
        if i > 0 {
          assert s[i] == tail[i - 1];
        }
      }
    }
  }

  /** Deleting position `k` of a sequence shifts every later element down
      by one. */
  lemma DeleteAt<T>(s: seq<T>, k: nat, rest: seq<T>)
    requires k < |s| && rest == s[..k] + s[k + 1..]
    ensures |rest| == |s| - 1
    ensures forall i :: 0 <= i < |rest| ==> rest[i] == s[if i < k then i else i + 1]
  {
    forall i | 0 <= i < |rest| ensures rest[i] == s[if i < k then i else i + 1] {
      if i < k {
        assert rest[i] == s[..k][i];
      } else {
        assert rest[i] == s[k + 1..][i - k];
      }
    }
  }
}
