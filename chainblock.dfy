/** The store itself: records kept in a map from id to record, with the
    order in which their ids were first added, as an insertion-ordered hash
    map keeps them. Each operation is proved against the ledger function that
    says what it means over the records in insertion order. */
module Store {
  import opened Transactions
  import opened Ordering
  import opened Ledger

  /** The ids in `order` are distinct and are exactly the keys of `byId`,
      and every record is stored under its own id. */
  ghost predicate WellFormed(byId: map<int, Tx>, order: seq<int>) {
    && (forall i, j :: 0 <= i < j < |order| ==> order[i] != order[j])
    && (forall i :: 0 <= i < |order| ==> order[i] in byId)
    && (forall id :: id in byId ==> id in order)
    && (forall id :: id in byId ==> byId[id].id == id)
  }

  /** The records of `byId` in the order of `order`. */
  function Values(byId: map<int, Tx>, order: seq<int>): (rs: seq<Tx>)
    requires WellFormed(byId, order)
    ensures |rs| == |order|
    ensures forall i :: 0 <= i < |order| ==> rs[i] == byId[order[i]]
  {
    seq(|order|, i requires 0 <= i < |order| => byId[order[i]])
  }

  /** The records have distinct ids, and their ids are the keys. */
  lemma ValuesHaveDistinctIds(byId: map<int, Tx>, order: seq<int>)
    requires WellFormed(byId, order)
    ensures DistinctIds(Values(byId, order)) && Ids(Values(byId, order)) == byId.Keys
  {
    var rs := Values(byId, order);
    assert forall i :: 0 <= i < |rs| ==> rs[i].id == order[i];
    assert Ids(rs) <= byId.Keys by {
      forall id | id in Ids(rs) ensures id in byId {
        var t :| t in rs && t.id == id;
        var i :| 0 <= i < |rs| && rs[i] == t;
      }
    }
    assert byId.Keys <= Ids(rs) by {
      forall id | id in byId ensures id in Ids(rs) {
        var i :| 0 <= i < |order| && order[i] == id;
        assert rs[i] in rs;
      }
    }
  }

  /** Storing a record under a new id at the end of the order. */
  lemma ValuesAfterInsert(byId: map<int, Tx>, order: seq<int>, t: Tx)
    requires WellFormed(byId, order) && t.id !in byId
    ensures WellFormed(byId[t.id := t], order + [t.id])
    ensures Values(byId[t.id := t], order + [t.id]) == Values(byId, order) + [t]
  {
    var m, o := byId[t.id := t], order + [t.id];
    assert forall i :: 0 <= i < |order| ==> o[i] == order[i] && order[i] != t.id;
    assert WellFormed(m, o);
    var before := Values(byId, order);
    assert forall i :: 0 <= i < |order| ==> Values(m, o)[i] == before[i];
  }

  /** Replacing the record stored under an id. */
  lemma ValuesAfterUpdate(byId: map<int, Tx>, order: seq<int>, id: int, s: Status)
    requires WellFormed(byId, order) && id in byId
    ensures WellFormed(byId[id := byId[id].(status := s)], order)
    ensures Values(byId[id := byId[id].(status := s)], order)
         == StatusChanged(Values(byId, order), id, s)
  {
    var m := byId[id := byId[id].(status := s)];
    assert WellFormed(m, order);
    var before := Values(byId, order);
    ValuesHaveDistinctIds(byId, order);
    var expected := StatusChanged(before, id, s);
    var after := Values(m, order);
    forall i | 0 <= i < |order| ensures after[i] == expected[i] {
      assert before[i] == byId[order[i]] && before[i].id == order[i];
    }
  }

  /** Deleting the id at position `k` of the order, and its record, keeps
      the store well formed. */
  lemma WellFormedAfterDelete(byId: map<int, Tx>, order: seq<int>, k: nat)
    requires WellFormed(byId, order) && k < |order|
    ensures WellFormed(byId - {order[k]}, order[..k] + order[k + 1..])
  {
    var id := order[k];
    var rest := order[..k] + order[k + 1..];
    DeleteAt(order, k, rest);
    forall x | x in byId && x != id ensures x in rest {
      var j :| 0 <= j < |order| && order[j] == x;
      assert rest[if j < k then j else j - 1] == x;
    }
    forall i, j | 0 <= i < j < |rest| ensures rest[i] != rest[j] {
      var i', j' := if i < k then i else i + 1, if j < k then j else j + 1;
      assert rest[i] == order[i'] && rest[j] == order[j'] && i' < j';
    }
  }

  /** Deleting the record stored under the id at position `k` of the
      order. */
  lemma ValuesAfterDelete(byId: map<int, Tx>, order: seq<int>, k: nat)
    requires WellFormed(byId, order) && k < |order|
    ensures WellFormed(byId - {order[k]}, order[..k] + order[k + 1..])
    ensures Values(byId - {order[k]}, order[..k] + order[k + 1..])
         == Values(byId, order)[..k] + Values(byId, order)[k + 1..]
  {
    var rest := order[..k] + order[k + 1..];
    WellFormedAfterDelete(byId, order, k);
    DeleteAt(order, k, rest);
    var before := Values(byId, order);
    var expected := before[..k] + before[k + 1..];
    DeleteAt(before, k, expected);
    var after := Values(byId - {order[k]}, rest);
    assert forall i :: 0 <= i < |after| ==> after[i] == expected[i];
  }

  class Chainblock {
    var byId: map<int, Tx>
    var order: seq<int>

    ghost predicate Valid()
      reads this
    {
      WellFormed(byId, order)
    }

    /** The stored records in insertion order. */
    function Records(): (rs: seq<Tx>)
      reads this
      requires Valid()
      ensures DistinctIds(rs) && Ids(rs) == byId.Keys
    {
      ValuesHaveDistinctIds(byId, order);
      Values(byId, order)
    }

    /** An empty store. */
    constructor ()
      ensures Valid() && Records() == []
    {
      byId := map[];
      order := [];
    }

    /** add: stores `t` unless a record with its id is already stored. */
    method Add(t: Tx)
      requires Valid()
      modifies this
      ensures Valid()
      ensures Records() == Added(old(Records()), t)
    {
      if t.id !in byId {
        ValuesAfterInsert(byId, order, t);
        byId := byId[t.id := t];
        order := order + [t.id];
      }
    }

    /** getCount: the number of stored records, one per distinct id. */
    method GetCount() returns (n: nat)
      requires Valid()
      ensures n == |Records()| == |Ids(Records())|
    {
      DistinctIdsCount(Records());
      n := |byId|;
    }

    /** contains: whether a record with id `id` is stored. */
    method Contains(id: int) returns (b: bool)
      requires Valid()
      ensures b <==> id in Ids(Records())
    {
      b := id in byId;
    }

    /** getById: the record stored under `id`, or `NotFound`. */
    method GetById(id: int) returns (r: Result<Tx>)
      requires Valid()
      ensures r == Lookup(Records(), id)
    {
      if id in byId {
        var i :| 0 <= i < |order| && order[i] == id;
        LookupFindsStoredRecord(Records(), Values(byId, order)[i]);
        r := Ok(byId[id]);
      } else {
        r := NotFound;
      }
    }

    /** changeTransactionStatus: sets the status of the record stored under
        `id`; `NotFound`, with nothing changed, when there is none. */
    method ChangeTransactionStatus(id: int, s: Status) returns (r: Result<()>)
      requires Valid()
      modifies this
      ensures Valid()
      ensures r.Ok? <==> id in Ids(old(Records()))
      ensures Records() == StatusChanged(old(Records()), id, s)
    {
      if id !in byId {
        return NotFound;
      }
      ValuesAfterUpdate(byId, order, id, s);
      byId := byId[id := byId[id].(status := s)];
      r := Ok(());
    }

    /** removeTransactionById: deletes the record stored under `id`;
        `NotFound`, with nothing changed, when there is none. */
    method RemoveTransactionById(id: int) returns (r: Result<()>)
      requires Valid()
      modifies this
      ensures Valid()
      ensures r.Ok? <==> id in Ids(old(Records()))
      ensures Records() == Removed(old(Records()), id)
    {
      if id !in byId {
        return NotFound;
      }
      var k := IndexOf(Records(), id);
      ValuesAfterDelete(byId, order, k);
      byId := byId - {id};
      order := order[..k] + order[k + 1..];
      r := Ok(());
    }

    /** getByTransactionStatus. */
    method GetByTransactionStatus(s: Status) returns (r: Result<seq<Tx>>)
      requires Valid()
      ensures r == ByStatus(Records(), s)
    {
      r := ByStatus(Records(), s);
    }

    /** getAllSendersWithTransactionStatus. */
    method GetAllSendersWithTransactionStatus(s: Status) returns (r: Result<seq<string>>)
      requires Valid()
      ensures r == PartiesByStatus(Records(), Sender, s)
    {
      r := PartiesByStatus(Records(), Sender, s);
    }

    /** getAllReceiversWithTransactionStatus. */
    method GetAllReceiversWithTransactionStatus(s: Status) returns (r: Result<seq<string>>)
      requires Valid()
      ensures r == PartiesByStatus(Records(), Receiver, s)
    {
      r := PartiesByStatus(Records(), Receiver, s);
    }

    /** getAllOrderedByAmountDescendingThenById. */
    method GetAllOrderedByAmountDescendingThenById() returns (r: seq<Tx>)
      requires Valid()
      ensures r == AllOrderedByAmountThenId(Records())
    {
      r := AllOrderedByAmountThenId(Records());
    }

    /** getBySenderOrderedByAmountDescending. */
    method GetBySenderOrderedByAmountDescending(from: string) returns (r: Result<seq<Tx>>)
      requires Valid()
      ensures r == BySender(Records(), from)
    {
      r := BySender(Records(), from);
    }

    /** getByReceiverOrderedByAmountThenById. */
    method GetByReceiverOrderedByAmountThenById(to: string) returns (r: Result<seq<Tx>>)
      requires Valid()
      ensures r == ByReceiver(Records(), to)
    {
      r := ByReceiver(Records(), to);
    }

    /** getByTransactionStatusAndMaximumAmount. */
    method GetByTransactionStatusAndMaximumAmount(s: Status, max: real) returns (r: seq<Tx>)
      requires Valid()
      ensures r == ByStatusAndMaxAmount(Records(), s, max)
    {
      r := ByStatusAndMaxAmount(Records(), s, max);
    }
  }
}
