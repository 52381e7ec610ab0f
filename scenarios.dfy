/** The store driven the way its unit tests drive it. `AddEach` and
    `Filled` are the tests' fill helper; each method after them replays one
    test on a fresh store, and its postcondition is what that test
    asserts. `Fixture` is the record the tests call `transaction`; the
    generated list of further records is a parameter satisfying `Generated`,
    what the tests' generator guarantees. */
module Scenarios {
  import opened Transactions
  import opened Ledger
  import opened Store

  const Fixture := Tx(1, Successful, "from", "to", 14.78)

  /** What createRandomTransactions guarantees of the records it generates:
      the record at position `i` has id `i + 2`, an amount in
      [0, 99.123), a sender starting with "From_" and a receiver starting
      with "To_". */
  ghost predicate Generated(ts: seq<Tx>) {
    forall i :: 0 <= i < |ts| ==>
      && ts[i].id == i + 2
      && 0.0 <= ts[i].amount < 99.123
      && "From_" <= ts[i].from
      && "To_" <= ts[i].to
  }

  /** Generated records, followed by the fixture, have distinct ids no
      larger than `|ts| + 1`; none is sent by "Invalid_Sender" and none
      received by "Invalid_Receiver". */
  lemma GeneratedFacts(ts: seq<Tx>)
    requires Generated(ts)
    ensures DistinctIds(ts + [Fixture])
    ensures forall t :: t in ts + [Fixture] ==> 1 <= t.id <= |ts| + 1
    ensures forall t :: t in ts ==> t.from != "Invalid_Sender"
    ensures forall t :: t in ts ==> t.to != "Invalid_Receiver"
  {
    var all := ts + [Fixture];
    assert forall i :: 0 <= i < |all| ==> all[i].id == if i < |ts| then i + 2 else 1;
    forall t | t in ts ensures t.from != "Invalid_Sender" {
      var i :| 0 <= i < |ts| && ts[i] == t;
      assert "From_" <= t.from;
      assert "Invalid_Sender"[0] != "From_"[0];
    }
    forall t | t in ts ensures t.to != "Invalid_Receiver" {
      var i :| 0 <= i < |ts| && ts[i] == t;
      assert "To_" <= t.to;
      assert "Invalid_Receiver"[0] != "To_"[0];
    }
  }

  /** Adds each record of `ts` in turn. */
  method AddEach(c: Chainblock, ts: seq<Tx>)
    requires c.Valid()
    modifies c
    ensures c.Valid()
    ensures c.Records() == AddedAll(old(c.Records()), ts)
  {
    ghost var start := c.Records();
    for i := 0 to |ts|
      invariant c.Valid()
      invariant c.Records() == AddedAll(start, ts[..i])
    {
      AddedAllStep(start, ts, i);
      c.Add(ts[i]);
    }
    assert ts[..|ts|] == ts;
  }

  /** fillChainblockWithTransactions: a fresh store holding `ts` and then
      the fixture. */
  method Filled(ts: seq<Tx>) returns (c: Chainblock)
    requires DistinctIds(ts + [Fixture])
    ensures fresh(c) && c.Valid()
    ensures c.Records() == ts + [Fixture]
  {
    c := new Chainblock();
    AddEach(c, ts + [Fixture]);
    AddedAllOfDistinct([], ts + [Fixture]);
    assert [] + (ts + [Fixture]) == ts + [Fixture];
  }

  /** Adding one record gives a count of one. */
  method AddIncreasesCount() returns (count: nat)
    ensures count == 1
  {
    var c := new Chainblock();
    c.Add(Fixture);
    count := c.GetCount();
  }

  /** Adding the same record twice still gives a count of one. */
  method AddTwiceCountsOnce() returns (count: nat)
    ensures count == 1
  {
    var c := new Chainblock();
    c.Add(Fixture);
    c.Add(Fixture);
    count := c.GetCount();
  }

  /** contains is false before the record is added and true after. */
  method ContainsAfterAdd() returns (before: bool, after: bool)
    ensures !before && after
  {
    var c := new Chainblock();
    before := c.Contains(Fixture.id);
    c.Add(Fixture);
    after := c.Contains(Fixture.id);
  }

  /** A status change is seen when the record is looked up again. */
  method StatusChangeIsVisible() returns (seen: Result<Tx>)
    ensures seen == Ok(Fixture.(status := Failed))
  {
    var c := new Chainblock();
    c.Add(Fixture);
    var _ := c.ChangeTransactionStatus(Fixture.id, Failed);
    seen := c.GetById(Fixture.id);
  }

  /** Changing the status of an absent id fails. */
  method StatusChangeOfAbsentIdFails() returns (r: Result<()>)
    ensures r == NotFound
  {
    var c := new Chainblock();
    r := c.ChangeTransactionStatus(Fixture.id, Failed);
  }

  /** After removing the fixture from a filled store it is no longer
      contained. */
  method RemoveMakesAbsent(ts: seq<Tx>) returns (present: bool)
    requires Generated(ts)
    ensures !present
  {
    GeneratedFacts(ts);
    var c := Filled(ts);
    var _ := c.RemoveTransactionById(Fixture.id);
    present := c.Contains(Fixture.id);
  }

  /** Removing an id that was never added fails. */
  method RemoveOfAbsentIdFails() returns (r: Result<()>)
    ensures r == NotFound
  {
    var c := new Chainblock();
    c.Add(Fixture);
    r := c.RemoveTransactionById(Fixture.id + 1);
  }

  /** getById of a stored record's id returns that record. */
  method GetByIdFindsRecord(ts: seq<Tx>, k: nat) returns (r: Result<Tx>)
    requires Generated(ts)
    requires k < |ts|
    ensures r == Ok(ts[k])
  {
    GeneratedFacts(ts);
    var c := Filled(ts);
    assert ts[k] == (ts + [Fixture])[k];
    LookupFindsStoredRecord(ts + [Fixture], ts[k]);
    r := c.GetById(ts[k].id);
  }

  /** getById of the last generated id plus 10, which no record has,
      fails. */
  method GetByIdOfAbsentIdFails(ts: seq<Tx>) returns (r: Result<Tx>)
    requires Generated(ts) && ts != []
    ensures r == NotFound
  {
    GeneratedFacts(ts);
    var absent := ts[|ts| - 1].id + 10;
    assert absent !in Ids(ts + [Fixture]);
    var c := Filled(ts);
    r := c.GetById(ts[|ts| - 1].id + 10);
  }

  /** The status query fails for a status no stored record has. `ts` is
      the generated list after the test's filter: distinct ids and no
      FAILED record. */
  method ByStatusWithoutMatchFails(ts: seq<Tx>) returns (r: Result<seq<Tx>>)
    requires DistinctIds(ts)
    requires forall t :: t in ts ==> t.status != Failed
    ensures r == NotFound
  {
    assert [] + ts == ts;
    AddedAllOfDistinct([], ts);
    assert ByStatus(AddedAll([], ts), Failed) == NotFound;
    var c := new Chainblock();
    AddEach(c, ts);
    r := c.GetByTransactionStatus(Failed);
  }

  /** The senders query fails for a status no stored record has. `ts` is
      the generated list after the test's filter: distinct ids and no
      SUCCESSFUL record. */
  method SendersWithoutMatchFail(ts: seq<Tx>) returns (r: Result<seq<string>>)
    requires DistinctIds(ts)
    requires forall t :: t in ts ==> t.status != Successful
    ensures r == NotFound
  {
    assert [] + ts == ts;
    AddedAllOfDistinct([], ts);
    assert PartiesByStatus(AddedAll([], ts), Sender, Successful) == NotFound;
    var c := new Chainblock();
    AddEach(c, ts);
    r := c.GetAllSendersWithTransactionStatus(Successful);
  }

  /** The receivers query fails for a status no stored record has, on the
      same filtered list. */
  method ReceiversWithoutMatchFail(ts: seq<Tx>) returns (r: Result<seq<string>>)
    requires DistinctIds(ts)
    requires forall t :: t in ts ==> t.status != Successful
    ensures r == NotFound
  {
    assert [] + ts == ts;
    AddedAllOfDistinct([], ts);
    assert PartiesByStatus(AddedAll([], ts), Receiver, Successful) == NotFound;
    var c := new Chainblock();
    AddEach(c, ts);
    r := c.GetAllReceiversWithTransactionStatus(Successful);
  }

  /** The sender query fails for a sender of no stored record. */
  method BySenderWithoutMatchFails(ts: seq<Tx>) returns (r: Result<seq<Tx>>)
    requires Generated(ts)
    ensures r == NotFound
  {
    GeneratedFacts(ts);
    assert BySender(ts + [Fixture], "Invalid_Sender") == NotFound;
    var c := Filled(ts);
    r := c.GetBySenderOrderedByAmountDescending("Invalid_Sender");
  }

  /** The receiver query fails for a receiver of no stored record. */
  method ByReceiverWithoutMatchFails(ts: seq<Tx>) returns (r: Result<seq<Tx>>)
    requires Generated(ts)
    ensures r == NotFound
  {
    GeneratedFacts(ts);
    assert ByReceiver(ts + [Fixture], "Invalid_Receiver") == NotFound;
    var c := Filled(ts);
    r := c.GetByReceiverOrderedByAmountThenById("Invalid_Receiver");
  }

  /** The status-and-maximum-amount query gives an empty result, not a
      failure, when no amount is that small. */
  method ByStatusAndMaxAmountWithoutMatchIsEmpty(ts: seq<Tx>) returns (r: seq<Tx>)
    requires Generated(ts)
    ensures r == []
  {
    GeneratedFacts(ts);
    assert ByStatusAndMaxAmount(ts + [Fixture], Unauthorized, -1000000.0) == [];
    var c := Filled(ts);
    r := c.GetByTransactionStatusAndMaximumAmount(Unauthorized, -1000000.0);
  }
}
