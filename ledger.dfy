/** What the store means, stated over the sequence of its records in
    insertion order: the effect of each mutator, the lookups, and the
    filtered, ordered queries. An absent id, status group, sender or receiver
    is reported as `NotFound`, where the store throws an
    IllegalArgumentException. */
module Ledger {
  import opened Transactions
  import opened Ordering

  datatype Result<T> = Ok(value: T) | NotFound

  // ---------------------------------------------------------------------
  // Lookups and mutators
  // ---------------------------------------------------------------------

  /** The position of the first record with id `id`. */
  function IndexOf(records: seq<Tx>, id: int): (k: nat)
    requires id in Ids(records)
    ensures k < |records| && records[k].id == id
    ensures forall i :: 0 <= i < k ==> records[i].id != id
  {
    if records[0].id == id then
      0
    else
      assert records == [records[0]] + records[1..];
      assert id in Ids(records[1..]);
      1 + IndexOf(records[1..], id)
  }

  /** The record with id `id`, or `NotFound`. */
  function Lookup(records: seq<Tx>, id: int): (r: Result<Tx>)
    ensures r.Ok? <==> id in Ids(records)
    ensures r.Ok? ==> r.value in records && r.value.id == id
  {
    if id in Ids(records) then Ok(records[IndexOf(records, id)]) else NotFound
  }

  /** The records after adding `t`: appended when its id is new, otherwise
      ignored (the stored record is not replaced). */
  function Added(records: seq<Tx>, t: Tx): (r: seq<Tx>)
    ensures Ids(r) == Ids(records) + {t.id}
    ensures |r| == if t.id in Ids(records) then |records| else |records| + 1
    ensures records <= r
    ensures t.id !in Ids(records) ==> t in r
    ensures DistinctIds(records) ==> DistinctIds(r)
  {
    if t.id in Ids(records) then
      records
    else
      assert Ids(records + [t]) == Ids(records) + {t.id} by {
        forall x | x in records + [t] ensures x in records || x == t { }
      }
      records + [t]
  }

  /** The records after setting the status of the record with id `id` to
      `s`; unchanged when no record has that id. */
  function StatusChanged(records: seq<Tx>, id: int, s: Status): (r: seq<Tx>)
    ensures |r| == |records|
    ensures id !in Ids(records) ==> r == records
    ensures DistinctIds(records) ==>
              forall i :: 0 <= i < |r| ==>
                r[i] == if records[i].id == id then records[i].(status := s) else records[i]
  {
    if id in Ids(records) then
      var k := IndexOf(records, id);
      records[k := records[k].(status := s)]
    else
      records
  }

  /** The records after deleting the record with id `id`; unchanged when no
      record has that id. */
  function Removed(records: seq<Tx>, id: int): (r: seq<Tx>)
    ensures |r| == if id in Ids(records) then |records| - 1 else |records|
    ensures forall t :: t in r ==> t in records
    ensures forall t :: t in records && t.id != id ==> t in r
    ensures DistinctIds(records) ==> id !in Ids(r) && DistinctIds(r)
    ensures id in Ids(records) ==>
              exists k :: 0 <= k < |records| && records[k].id == id && r == records[..k] + records[k + 1..]
  {
    if id in Ids(records) then
      var k := IndexOf(records, id);
      DeleteRecordAt(records, k);
      records[..k] + records[k + 1..]
    else
      records
  }

  /** Deleting the record at position `k` keeps every other record and no
      new one; with distinct ids, its id is gone and the rest stay
      distinct. */
  lemma DeleteRecordAt(records: seq<Tx>, k: nat)
    requires k < |records|
    ensures var r := records[..k] + records[k + 1..];
            && |r| == |records| - 1
            && (forall t :: t in r ==> t in records)
            && (forall t :: t in records && t.id != records[k].id ==> t in r)
            && (DistinctIds(records) ==> records[k].id !in Ids(r) && DistinctIds(r))
  {
    var r := records[..k] + records[k + 1..];
    DeleteAt(records, k, r);
    forall t | t in records && t.id != records[k].id ensures t in r {
      var j :| 0 <= j < |records| && records[j] == t;
      assert r[if j < k then j else j - 1] == t;
    }
    if DistinctIds(records) {
      forall i, j | 0 <= i < j < |r| ensures r[i].id != r[j].id {
        var i', j' := if i < k then i else i + 1, if j < k then j else j + 1;
        assert r[i] == records[i'] && r[j] == records[j'];
      }
      forall t | t in r ensures t.id != records[k].id {
        var i :| 0 <= i < |r| && r[i] == t;
        assert t == records[if i < k then i else i + 1];
      }
    }
  }

  /** The records after adding each of `ts` in turn. */
  function AddedAll(records: seq<Tx>, ts: seq<Tx>): seq<Tx>
  {
    if ts == [] then records else Added(AddedAll(records, ts[..|ts| - 1]), ts[|ts| - 1])
  }

  // ---------------------------------------------------------------------
  // Queries
  // ---------------------------------------------------------------------

  /** The filters the queries apply. */
  datatype Criterion =
    | HasStatus(status: Status)
    | SentBy(from: string)
    | ReceivedBy(to: string)
    | HasStatusAtMost(status: Status, max: real)

  predicate Matches(c: Criterion, t: Tx) {
    match c
    case HasStatus(s) => t.status == s
    case SentBy(from) => t.from == from
    case ReceivedBy(to) => t.to == to
    case HasStatusAtMost(s, max) => t.status == s && t.amount <= max
  }

  /** `result` holds exactly the records that match `c`, each as often as it
      is stored. */
  ghost predicate Exactly(result: seq<Tx>, records: seq<Tx>, c: Criterion) {
    forall t :: multiset(result)[t] == if Matches(c, t) then multiset(records)[t] else 0
  }

  /** The records that match `c`, in insertion order. */
  function Select(records: seq<Tx>, c: Criterion): (r: seq<Tx>)
    ensures Exactly(r, records, c)
  {
    if records == [] then
      []
    else
      assert records == [records[0]] + records[1..];
      (if Matches(c, records[0]) then [records[0]] else []) + Select(records[1..], c)
  }

  /** A group query: the records that match `c`, sorted by `o`; `NotFound`
      when no record matches. */
  function Group(records: seq<Tx>, c: Criterion, o: Order): (r: Result<seq<Tx>>)
    ensures r.NotFound? <==> forall t :: t in records ==> !Matches(c, t)
    ensures r.Ok? ==> Exactly(r.value, records, c) && Ordered(o, r.value)
  {
    var matching := Select(records, c);
    if matching == [] then
      assert forall t :: t in records ==> !Matches(c, t) by {
        forall t | t in records ensures !Matches(c, t) {
          assert multiset(matching)[t] == 0;
        }
      }
      NotFound
    else
      assert matching[0] in multiset(matching);
      Ok(Sort(o, matching))
  }

  /** getByTransactionStatus: the records with status `s`, by amount
      descending; `NotFound` when none has it. */
  function ByStatus(records: seq<Tx>, s: Status): (r: Result<seq<Tx>>)
    ensures r.NotFound? <==> forall t :: t in records ==> t.status != s
    ensures r.Ok? ==> Exactly(r.value, records, HasStatus(s)) && Ordered(ByAmount, r.value)
  {
    Group(records, HasStatus(s), ByAmount)
  }

  /** Which field of a record a party query reports. */
  datatype Party = Sender | Receiver

  function PartyOf(p: Party, t: Tx): string {
    match p
    case Sender => t.from
    case Receiver => t.to
  }

  /** The sender or receiver of each record, in order. */
  function Parties(p: Party, ts: seq<Tx>): (r: seq<string>)
    ensures |r| == |ts|
    ensures forall i :: 0 <= i < |ts| ==> r[i] == PartyOf(p, ts[i])
  {
    seq(|ts|, i requires 0 <= i < |ts| => PartyOf(p, ts[i]))
  }

  /** getAllSendersWithTransactionStatus and
      getAllReceiversWithTransactionStatus: one sender (receiver) per record
      with status `s`, duplicates kept, in the amount-descending order of
      those records; `NotFound` when none has status `s`. */
  function PartiesByStatus(records: seq<Tx>, p: Party, s: Status): (r: Result<seq<string>>)
    ensures r.NotFound? <==> forall t :: t in records ==> t.status != s
    ensures r.Ok? ==>
              exists ts :: Exactly(ts, records, HasStatus(s)) && Ordered(ByAmount, ts)
                        && r.value == Parties(p, ts)
  {
    match ByStatus(records, s)
    case NotFound => NotFound
    case Ok(ts) => Ok(Parties(p, ts))
  }

  /** getAllOrderedByAmountDescendingThenById: every record, by amount
      descending and then by id ascending. */
  function AllOrderedByAmountThenId(records: seq<Tx>): (r: seq<Tx>)
    ensures multiset(r) == multiset(records)
    ensures Ordered(ByAmountThenId, r)
  {
    Sort(ByAmountThenId, records)
  }

  /** getBySenderOrderedByAmountDescending: the records sent by `from`, by
      amount descending; `NotFound` when `from` sent none. */
  function BySender(records: seq<Tx>, from: string): (r: Result<seq<Tx>>)
    ensures r.NotFound? <==> forall t :: t in records ==> t.from != from
    ensures r.Ok? ==> Exactly(r.value, records, SentBy(from)) && Ordered(ByAmount, r.value)
  {
    Group(records, SentBy(from), ByAmount)
  }

  /** getByReceiverOrderedByAmountThenById: the records received by `to`, by
      amount descending and then by id ascending; `NotFound` when `to`
      received none. */
  function ByReceiver(records: seq<Tx>, to: string): (r: Result<seq<Tx>>)
    ensures r.NotFound? <==> forall t :: t in records ==> t.to != to
    ensures r.Ok? ==> Exactly(r.value, records, ReceivedBy(to)) && Ordered(ByAmountThenId, r.value)
  {
    Group(records, ReceivedBy(to), ByAmountThenId)
  }

  /** getByTransactionStatusAndMaximumAmount: the records with status `s` and
      an amount of at most `max`, by amount descending. Unlike the group
      queries it never fails: where they would report `NotFound`, it gives an
      empty result. */
  function ByStatusAndMaxAmount(records: seq<Tx>, s: Status, max: real): (r: seq<Tx>)
    ensures Exactly(r, records, HasStatusAtMost(s, max))
    ensures Ordered(ByAmount, r)
    ensures r == [] <==> forall t :: t in records ==> !(t.status == s && t.amount <= max)
  {
    match Group(records, HasStatusAtMost(s, max), ByAmount)
    case NotFound => []
    case Ok(ts) => ts
  }

  // ---------------------------------------------------------------------
  // Properties relating the operations
  // ---------------------------------------------------------------------

  /** Adding the first `i + 1` records of `ts` is adding the first `i` and
      then `ts[i]`. */
  lemma AddedAllStep(records: seq<Tx>, ts: seq<Tx>, i: nat)
    requires i < |ts|
    ensures AddedAll(records, ts[..i + 1]) == Added(AddedAll(records, ts[..i]), ts[i])
  {
    assert ts[..i + 1][..i] == ts[..i];
  }

  /** Adding records one by one keeps ids distinct, and the stored ids are
      those stored before together with those added. */
  lemma {:induction false} AddedAllIds(records: seq<Tx>, ts: seq<Tx>)
    requires DistinctIds(records)
    ensures DistinctIds(AddedAll(records, ts))
    ensures Ids(AddedAll(records, ts)) == Ids(records) + Ids(ts)
  {
    if ts == [] {
      assert Ids(ts) == {};
    } else {
      AddedAllIds(records, ts[..|ts| - 1]);
      IdsLast(ts);
    }
  }

  /** Adding records whose ids are new and distinct stores all of them, in
      the order they were added. */
  lemma {:induction false} AddedAllOfDistinct(records: seq<Tx>, ts: seq<Tx>)
    requires DistinctIds(records + ts)
    ensures AddedAll(records, ts) == records + ts
  {
    if ts != [] {
      var n := |ts| - 1;
      var whole := records + ts;
      var init := records + ts[..n];
      assert init == whole[..|whole| - 1] && ts[n] == whole[|whole| - 1];
      DistinctIdsLast(whole);
      AddedAllOfDistinct(records, ts[..n]);
      assert init + [ts[n]] == whole;
    }
  }

  /** From an empty store, the count after a series of adds is the number
      of distinct ids added: a duplicate id does not raise it. */
  lemma CountAfterAddsIsDistinctIds(ts: seq<Tx>)
    ensures |AddedAll([], ts)| == |Ids(ts)|
  {
    AddedAllIds([], ts);
    assert Ids([]) == {};
    DistinctIdsCount(AddedAll([], ts));
  }

  /** Removing a record just added restores the store, so the count is back
      where it was and the id is absent again. */
  lemma AddThenRemove(records: seq<Tx>, t: Tx)
    requires DistinctIds(records)
    requires t.id !in Ids(records)
    ensures Removed(Added(records, t), t.id) == records
  {
    var added := records + [t];
    assert IndexOf(added, t.id) == |records| by {
      assert forall i :: 0 <= i < |records| ==> added[i].id != t.id by {
        forall i | 0 <= i < |records| ensures added[i].id != t.id {
          assert added[i] == records[i];
        }
      }
    }
    assert added[..|records|] == records;
  }

  /** getById of a stored id returns exactly the stored record. */
  lemma LookupFindsStoredRecord(records: seq<Tx>, t: Tx)
    requires DistinctIds(records)
    requires t in records
    ensures Lookup(records, t.id) == Ok(t)
  {
    var j :| 0 <= j < |records| && records[j] == t;
    var k := IndexOf(records, t.id);
    assert !(j < k);
  }

  /** After a status change, getById of that id sees the new status and
      nothing else about the record changes. */
  lemma LookupAfterStatusChange(records: seq<Tx>, id: int, s: Status)
    requires DistinctIds(records)
    requires id in Ids(records)
    ensures Lookup(StatusChanged(records, id, s), id) == Ok(Lookup(records, id).value.(status := s))
  {
    var k := IndexOf(records, id);
    var changed := StatusChanged(records, id, s);
    assert DistinctIds(changed) by {
      forall i, j | 0 <= i < j < |changed| ensures changed[i].id != changed[j].id {
        assert changed[i].id == records[i].id && changed[j].id == records[j].id;
      }
    }
    LookupFindsStoredRecord(changed, changed[k]);
    LookupFindsStoredRecord(records, records[k]);
  }

  /** After a status change the record, with its new status, is found by
      the query for that status. */
  lemma StatusChangeJoinsGroup(records: seq<Tx>, id: int, s: Status)
    requires DistinctIds(records)
    requires id in Ids(records)
    ensures ByStatus(StatusChanged(records, id, s), s).Ok?
    ensures Lookup(records, id).value.(status := s) in ByStatus(StatusChanged(records, id, s), s).value
  {
    var k := IndexOf(records, id);
    var changed := StatusChanged(records, id, s);
    var t := records[k].(status := s);
    LookupFindsStoredRecord(records, records[k]);
    assert changed[k] == t;
    assert t in multiset(changed);
    assert multiset(ByStatus(changed, s).value)[t] == multiset(changed)[t];
  }

  /** After a status change no query for another status finds the id. */
  lemma StatusChangeLeavesGroup(records: seq<Tx>, id: int, s: Status, other: Status)
    requires DistinctIds(records)
    requires other != s
    ensures match ByStatus(StatusChanged(records, id, s), other)
            case NotFound => true
            case Ok(ts) => id !in Ids(ts)
  {
    var changed := StatusChanged(records, id, s);
    match ByStatus(changed, other)
    case NotFound =>
    case Ok(ts) =>
      forall u | u in ts ensures u.id != id {
        assert multiset(ts)[u] == multiset(changed)[u] > 0 && u.status == other;
        var i :| 0 <= i < |changed| && changed[i] == u;
        assert changed[i] == if records[i].id == id then records[i].(status := s) else records[i];
      }
  }

  /** A group query sorted by amount alone lists records of equal amount in
      insertion order. */
  lemma TiesKeepInsertionOrder(records: seq<Tx>, c: Criterion, v: real)
    requires Group(records, c, ByAmount).Ok?
    ensures WithAmount(Group(records, c, ByAmount).value, v) == WithAmount(Select(records, c), v)
  {
    SortByAmountIsStable(Select(records, c), v);
  }

  /** Sequences that hold exactly the records matching `c` hold the same
      records. */
  lemma ExactlyIsPermutation(a: seq<Tx>, b: seq<Tx>, records: seq<Tx>, c: Criterion)
    requires Exactly(a, records, c) && Exactly(b, records, c)
    ensures multiset(a) == multiset(b)
  {
    forall t ensures multiset(a)[t] == multiset(b)[t] { }
  }

  /** A group query sorted by amount alone has exactly one possible
      result: the matching records sorted by amount descending, equal
      amounts in insertion order. */
  lemma ByAmountGroupIsDetermined(records: seq<Tx>, c: Criterion, expected: seq<Tx>)
    requires Group(records, c, ByAmount).Ok?
    requires Exactly(expected, records, c) && Ordered(ByAmount, expected)
    requires forall v :: WithAmount(expected, v) == WithAmount(Select(records, c), v)
    ensures Group(records, c, ByAmount).value == expected
  {
    var r := Group(records, c, ByAmount).value;
    ExactlyIsPermutation(r, expected, records, c);
    forall v ensures WithAmount(r, v) == WithAmount(expected, v) {
      TiesKeepInsertionOrder(records, c, v);
    }
    StableOrderByAmountIsUnique(r, expected);
  }

  /** The records selected from records with distinct ids have distinct
      ids. */
  lemma {:induction false} SelectKeepsDistinctIds(records: seq<Tx>, c: Criterion)
    requires DistinctIds(records)
    ensures DistinctIds(Select(records, c))
  {
    if records != [] {
      var tail := records[1..];
      DistinctIdsSplit(records);
      SelectKeepsDistinctIds(tail, c);
      var rest := Select(tail, c);
      if Matches(c, records[0]) {
        assert records[0].id !in Ids(rest) by {
          forall t | t in rest ensures t.id != records[0].id {
            assert multiset(rest)[t] > 0;
          }
        }
        DistinctIdsSplit([records[0]] + rest);
        assert ([records[0]] + rest)[1..] == rest;
      }
    }
  }

  /** getByReceiverOrderedByAmountThenById has exactly one possible result:
      the receiver's records sorted by amount descending, then id
      ascending. */
  lemma ByReceiverIsDetermined(records: seq<Tx>, to: string, expected: seq<Tx>)
    requires DistinctIds(records)
    requires ByReceiver(records, to).Ok?
    requires Exactly(expected, records, ReceivedBy(to)) && Ordered(ByAmountThenId, expected)
    ensures ByReceiver(records, to).value == expected
  {
    var r := ByReceiver(records, to).value;
    SelectKeepsDistinctIds(records, ReceivedBy(to));
    SortKeepsDistinctIds(ByAmountThenId, Select(records, ReceivedBy(to)));
    ExactlyIsPermutation(r, expected, records, ReceivedBy(to));
    OrderedByAmountThenIdIsUnique(r, expected);
  }

  /** getAllOrderedByAmountDescendingThenById has exactly one possible
      result. */
  lemma AllOrderedIsDetermined(records: seq<Tx>, expected: seq<Tx>)
    requires DistinctIds(records)
    requires multiset(expected) == multiset(records)
    requires Ordered(ByAmountThenId, expected)
    ensures AllOrderedByAmountThenId(records) == expected
  {
    SortKeepsDistinctIds(ByAmountThenId, records);
    OrderedByAmountThenIdIsUnique(AllOrderedByAmountThenId(records), expected);
  }

  /** In getAllOrderedByAmountDescendingThenById each record has a larger
      amount than every later one, or an equal amount and a smaller id. */
  lemma AllOrderedIsStrict(records: seq<Tx>)
    requires DistinctIds(records)
    ensures var r := AllOrderedByAmountThenId(records);
            forall i, j :: 0 <= i < j < |r| ==>
              r[i].amount > r[j].amount || (r[i].amount == r[j].amount && r[i].id < r[j].id)
  {
    SortKeepsDistinctIds(ByAmountThenId, records);
  }

  /** The parties of a sequence with a given first record. */
  lemma PartiesCons(p: Party, a: Tx, t: seq<Tx>)
    ensures Parties(p, [a] + t) == [PartyOf(p, a)] + Parties(p, t)
  {
    assert forall i :: 0 < i <= |t| ==> ([a] + t)[i] == t[i - 1];
  }

  /** Inserting a record adds its party to the parties. */
  lemma {:induction false} PartiesOfInsert(p: Party, o: Order, x: Tx, s: seq<Tx>)
    ensures multiset(Parties(p, Insert(o, x, s))) == multiset{PartyOf(p, x)} + multiset(Parties(p, s))
  {
    if s == [] || Precedes(o, x, s[0]) {
      PartiesCons(p, x, s);
    } else {
      var tail := s[1..];
      assert s == [s[0]] + tail;
      PartiesOfInsert(p, o, x, tail);
      PartiesCons(p, s[0], Insert(o, x, tail));
      PartiesCons(p, s[0], tail);
    }
  }

  /** Sorting records rearranges their senders (receivers) alike. */
  lemma {:induction false} PartiesOfSort(p: Party, o: Order, s: seq<Tx>)
    ensures multiset(Parties(p, Sort(o, s))) == multiset(Parties(p, s))
  {
    if s != [] {
      var tail := s[1..];
      assert s == [s[0]] + tail;
      PartiesOfSort(p, o, tail);
      PartiesOfInsert(p, o, s[0], Sort(o, tail));
      PartiesCons(p, s[0], tail);
    }
  }

  /** getAllSendersWithTransactionStatus and
      getAllReceiversWithTransactionStatus report the party of every record
      with that status, duplicates included. */
  lemma PartiesByStatusKeepsDuplicates(records: seq<Tx>, p: Party, s: Status)
    requires exists t :: t in records && t.status == s
    ensures multiset(PartiesByStatus(records, p, s).value)
         == multiset(Parties(p, Select(records, HasStatus(s))))
    ensures |PartiesByStatus(records, p, s).value| == |Select(records, HasStatus(s))|
  {
    var selected := Select(records, HasStatus(s));
    assert ByStatus(records, s) == Ok(Sort(ByAmount, selected));
    PartiesOfSort(p, ByAmount, selected);
  }
}
