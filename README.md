# Chainblock, modelled in Dafny

Chainblock is an in-memory store of transactions. Each transaction has an
integer id, a status (SUCCESSFUL, FAILED, UNAUTHORIZED), a sender, a
receiver and an amount. The store keeps at most one transaction per id.
You can add transactions, change the status of a stored one, remove one,
count them and look one up by id. It also answers filtered, ordered
queries:

- the transactions with a given status;
- the senders, or the receivers, of those transactions;
- every transaction, ordered by amount and then by id;
- the transactions of one sender;
- the transactions of one receiver;
- the transactions with a status and an amount no larger than a given maximum.

The repository's specification of the store is its JUnit suite,
`src/test/java/ChainblockImplTest.java`, and this model follows that suite.

The model has five modules:

- `Transactions`: the record `Tx` and its `Status`, with the facts about
  distinct ids that the store relies on.
- `Ordering`: the two result orders, which are amount descending, and amount
  descending then id ascending. Both are produced by a stable insertion sort
  `Sort`. Lemmas prove that `Sort` returns a permutation of its input, in
  order, that it keeps ties in input order, and that under the id tie-break
  its result is the only ordered permutation.
- `Ledger`: what each operation means, as pure functions over the stored
  records in insertion order. `Added`, `StatusChanged` and `Removed` give the
  effect of the mutators; `Lookup` gives `getById`; the query functions give
  the queries. Lemmas relate the operations to one another. Where the store
  throws `IllegalArgumentException`, the model returns `NotFound`.
- `Store`: the class `Chainblock`. It keeps a map from id to record plus
  the ids in insertion order, as an insertion-ordered hash map does. Each
  method is proved against the matching `Ledger` function applied to
  `Records()`, the stored records in insertion order.
- `Scenarios`: 15 of the suite's 30 tests replayed on a fresh store: those
  on add, count, contains, status change, removal and getById, and the six
  tests on a query's failure or empty case. Each method's postcondition is
  what its test asserts. The randomly generated transactions become a
  parameter satisfying `Generated`, which states what the generator at lines
  24-41 guarantees. The other 15 tests check the contents and order of query
  results on that random data (lines 119-186, 201-282, 297-396, 404-458,
  466-533 and 552-607). They are covered by the general `Ledger` lemmas,
  which hold for every store: each query returns exactly the matching
  records in its order, and that result is the only one possible.

## Model

| member | source | states |
|---|---|---|
| Transactions.DistinctIdsCount | src/test/java/ChainblockImplTest.java:50-55 | records with distinct ids are as many as their ids, so the count of the store equals the number of distinct ids stored |
| Ordering.Sort | src/test/java/ChainblockImplTest.java:144-166 | a result order holds the same records as its input (multiset equality, same length), and every record may precede every later one in that order |
| Ordering.InsertKeepsOrder | src/test/java/ChainblockImplTest.java:144-166 | inserting a record into an ordered sequence keeps it ordered |
| Ordering.SortByAmountIsStable | src/test/java/ChainblockImplTest.java:150-153 | ordering by amount alone keeps records of equal amount in their input order, as `List.sort` with an amount comparator does |
| Ordering.OrderedByAmountThenIdIsUnique | src/test/java/ChainblockImplTest.java:383-386 | with the id tie-break, two ordered sequences holding the same records with distinct ids are equal, so the order is total |
| Ordering.StableOrderByAmountIsUnique | src/test/java/ChainblockImplTest.java:205-208 | ordered by amount alone, two sequences holding the same records, with equal amounts in the same relative order, are equal |
| Ledger.Lookup | src/test/java/ChainblockImplTest.java:89-101 | getById succeeds exactly when some stored record has the id, and then returns a stored record with that id; otherwise it fails |
| Ledger.Added | src/test/java/ChainblockImplTest.java:43-62 | add puts the id among the stored ids; the count grows by one only for a new id; stored records are kept in place; a new record is stored; ids stay distinct |
| Ledger.StatusChanged | src/test/java/ChainblockImplTest.java:64-74 | changeTransactionStatus keeps the count; for an absent id nothing changes; otherwise exactly the record with that id gets the new status and every other record is unchanged |
| Ledger.Removed | src/test/java/ChainblockImplTest.java:76-87 | removeTransactionById drops one record when the id is present and none otherwise; every remaining record was stored; every record with another id remains; the id is no longer present; when present, the result is the records before and after the deleted one, in insertion order |
| Ledger.Select | src/test/java/ChainblockImplTest.java:119-142 | a filter keeps every matching record as often as it is stored and no other record |
| Ledger.ByStatus | src/test/java/ChainblockImplTest.java:103-166 | getByTransactionStatus fails exactly when no record has the status; otherwise it returns exactly the records with that status, by amount descending |
| Ledger.PartiesByStatus | src/test/java/ChainblockImplTest.java:168-358 | the sender and receiver queries fail exactly when no record has the status; otherwise they return the party of each record with that status, in the amount-descending order of those records |
| Ledger.AllOrderedByAmountThenId | src/test/java/ChainblockImplTest.java:360-396 | getAllOrderedByAmountDescendingThenById returns every stored record, by amount descending and then id ascending |
| Ledger.BySender | src/test/java/ChainblockImplTest.java:398-458 | getBySenderOrderedByAmountDescending fails exactly when the sender sent nothing; otherwise it returns exactly that sender's records, by amount descending |
| Ledger.ByReceiver | src/test/java/ChainblockImplTest.java:460-533 | getByReceiverOrderedByAmountThenById fails exactly when the receiver received nothing; otherwise it returns exactly that receiver's records, by amount descending and then id ascending |
| Ledger.ByStatusAndMaxAmount | src/test/java/ChainblockImplTest.java:535-607 | getByTransactionStatusAndMaximumAmount returns exactly the records with the status and an amount of at most the maximum, by amount descending; it is empty, not a failure, exactly when there is none |
| Ledger.AddedAllIds | src/test/java/ChainblockImplTest.java:609-615 | adding a series of records keeps ids distinct, and the stored ids are the earlier ones plus those added |
| Ledger.AddedAllOfDistinct | src/test/java/ChainblockImplTest.java:609-615 | adding records whose ids are distinct and new stores all of them, in the order added |
| Ledger.CountAfterAddsIsDistinctIds | src/test/java/ChainblockImplTest.java:50-55 | from an empty store, the count after a series of adds is the number of distinct ids added |
| Ledger.AddThenRemove | src/test/java/ChainblockImplTest.java:76-81 | removing a record just added with a new id restores the store exactly |
| Ledger.LookupFindsStoredRecord | src/test/java/ChainblockImplTest.java:89-95 | getById of a stored record's id returns that very record |
| Ledger.LookupAfterStatusChange | src/test/java/ChainblockImplTest.java:64-69 | after a status change, getById of that id returns the earlier record with only the status replaced |
| Ledger.StatusChangeJoinsGroup | src/test/java/ChainblockImplTest.java:64-69 | after a status change, the query for the new status succeeds and lists the record with its new status |
| Ledger.StatusChangeLeavesGroup | src/test/java/ChainblockImplTest.java:64-69 | after a status change to one status, no query for another status lists that id |
| Ledger.TiesKeepInsertionOrder | src/test/java/ChainblockImplTest.java:144-166 | a query ordered by amount alone lists records of equal amount in insertion order |
| Ledger.ByAmountGroupIsDetermined | src/test/java/ChainblockImplTest.java:144-166 | a query ordered by amount alone has only one result: any sequence that holds exactly the matching records, is ordered by amount and keeps ties in insertion order equals it |
| Ledger.ByReceiverIsDetermined | src/test/java/ChainblockImplTest.java:493-533 | with distinct ids, any sequence that holds exactly the receiver's records, ordered by amount then id, equals the receiver query's result |
| Ledger.AllOrderedIsDetermined | src/test/java/ChainblockImplTest.java:380-395 | with distinct ids, any ordering of all records by amount then id equals the query's result |
| Ledger.AllOrderedIsStrict | src/test/java/ChainblockImplTest.java:383-386 | in that result each record has a larger amount than every later one, or an equal amount and a strictly smaller id |
| Ledger.PartiesOfSort | src/test/java/ChainblockImplTest.java:223-262 | sorting records rearranges their senders (receivers) alike: the multiset of parties is unchanged |
| Ledger.PartiesByStatusKeepsDuplicates | src/test/java/ChainblockImplTest.java:223-262 | the sender and receiver queries report one party per record with the status, duplicates included |
| Store.Chainblock.constructor | src/test/java/ChainblockImplTest.java:14-16 | a new store is well formed and holds no record |
| Store.Chainblock.Add | src/test/java/ChainblockImplTest.java:43-62 | add changes the stored records exactly as `Ledger.Added` says and keeps the store well formed |
| Store.Chainblock.GetCount | src/test/java/ChainblockImplTest.java:43-55 | getCount is the number of stored records, which is also the number of distinct stored ids |
| Store.Chainblock.Contains | src/test/java/ChainblockImplTest.java:57-62 | contains is true exactly when a stored record has the id |
| Store.Chainblock.GetById | src/test/java/ChainblockImplTest.java:89-101 | getById returns `Ledger.Lookup` of the stored records |
| Store.Chainblock.ChangeTransactionStatus | src/test/java/ChainblockImplTest.java:64-74 | it fails exactly when the id is absent, and the stored records become `Ledger.StatusChanged` of the old ones |
| Store.Chainblock.RemoveTransactionById | src/test/java/ChainblockImplTest.java:76-87 | it fails exactly when the id is absent, and the stored records become `Ledger.Removed` of the old ones |
| Store.Chainblock.GetByTransactionStatus | src/test/java/ChainblockImplTest.java:103-166 | it returns `Ledger.ByStatus` of the stored records |
| Store.Chainblock.GetAllSendersWithTransactionStatus | src/test/java/ChainblockImplTest.java:168-262 | it returns `Ledger.PartiesByStatus` for senders |
| Store.Chainblock.GetAllReceiversWithTransactionStatus | src/test/java/ChainblockImplTest.java:264-358 | it returns `Ledger.PartiesByStatus` for receivers |
| Store.Chainblock.GetAllOrderedByAmountDescendingThenById | src/test/java/ChainblockImplTest.java:360-396 | it returns `Ledger.AllOrderedByAmountThenId` of the stored records |
| Store.Chainblock.GetBySenderOrderedByAmountDescending | src/test/java/ChainblockImplTest.java:398-458 | it returns `Ledger.BySender` of the stored records |
| Store.Chainblock.GetByReceiverOrderedByAmountThenById | src/test/java/ChainblockImplTest.java:460-533 | it returns `Ledger.ByReceiver` of the stored records |
| Store.Chainblock.GetByTransactionStatusAndMaximumAmount | src/test/java/ChainblockImplTest.java:535-607 | it returns `Ledger.ByStatusAndMaxAmount` of the stored records |
| Scenarios.GeneratedFacts | src/test/java/ChainblockImplTest.java:24-41 | generated records (id `i + 2` at position `i`, sender starting "From_", receiver starting "To_") followed by the fixture have distinct ids between 1 and the list length plus one; none is sent by "Invalid_Sender" and none received by "Invalid_Receiver" |
| Scenarios.AddEach | src/test/java/ChainblockImplTest.java:609-615 | adding each record of a series in turn leaves the store holding `Ledger.AddedAll` of the records it held before |
| Scenarios.Filled | src/test/java/ChainblockImplTest.java:609-615 | filling a fresh store with generated records with distinct ids and then the fixture stores exactly those records, in that order |
| Scenarios.AddIncreasesCount | src/test/java/ChainblockImplTest.java:43-48 | after one add the count is one |
| Scenarios.AddTwiceCountsOnce | src/test/java/ChainblockImplTest.java:50-55 | adding the same record twice leaves the count at one |
| Scenarios.ContainsAfterAdd | src/test/java/ChainblockImplTest.java:57-62 | contains is false before the add and true after it |
| Scenarios.StatusChangeIsVisible | src/test/java/ChainblockImplTest.java:64-69 | after changing the fixture's status to FAILED, the stored fixture has status FAILED |
| Scenarios.StatusChangeOfAbsentIdFails | src/test/java/ChainblockImplTest.java:71-74 | changing the status of an id that is not stored fails |
| Scenarios.RemoveMakesAbsent | src/test/java/ChainblockImplTest.java:76-81 | after removing the fixture from a filled store, contains of its id is false |
| Scenarios.RemoveOfAbsentIdFails | src/test/java/ChainblockImplTest.java:83-87 | removing an id that was never added fails |
| Scenarios.GetByIdFindsRecord | src/test/java/ChainblockImplTest.java:89-95 | getById of a generated record's id returns that record |
| Scenarios.GetByIdOfAbsentIdFails | src/test/java/ChainblockImplTest.java:97-101 | on a filled store, getById of the last generated id plus 10 fails; that this id is absent is derived from the generator's ids |
| Scenarios.ByStatusWithoutMatchFails | src/test/java/ChainblockImplTest.java:103-117 | after adding records with distinct ids, none of them FAILED (the test's own filter), the query for FAILED fails |
| Scenarios.SendersWithoutMatchFail | src/test/java/ChainblockImplTest.java:188-199 | after adding records with distinct ids, none of them SUCCESSFUL (the test's own filter), the senders query for SUCCESSFUL fails |
| Scenarios.ReceiversWithoutMatchFail | src/test/java/ChainblockImplTest.java:284-295 | after adding records with distinct ids, none of them SUCCESSFUL (the test's own filter), the receivers query for SUCCESSFUL fails |
| Scenarios.BySenderWithoutMatchFails | src/test/java/ChainblockImplTest.java:398-402 | on a filled store the sender query for "Invalid_Sender" fails; that no record has this sender is derived from the generator's "From_" prefix |
| Scenarios.ByReceiverWithoutMatchFails | src/test/java/ChainblockImplTest.java:460-464 | on a filled store the receiver query for "Invalid_Receiver" fails; that no record has this receiver is derived from the generator's "To_" prefix |
| Scenarios.ByStatusAndMaxAmountWithoutMatchIsEmpty | src/test/java/ChainblockImplTest.java:535-550 | on a filled store, whose generated amounts are not negative, the status-and-maximum query with a maximum of -1000000 returns an empty result rather than failing |

## Left out

- The implementation classes (`ChainblockImpl`, `TransactionImpl`, `Transaction`, `TransactionStatus`) are not part of this model. The store is modelled as the test suite constrains it, and its layout is an insertion-ordered map from id to record.
- The test fixture's random data (`Random(48)`, `nextDouble`, `Character.getName`, lines 24-41) is not modelled. The scenario methods take the generated records as a parameter. Their constraints:
  - `Generated`: the record at position `i` has id `i + 2`, an amount in [0, 99.123), a sender starting with "From_" and a receiver starting with "To_" (lines 29-36). The number of records (20), the statuses (line 33) and the rest of each sender and receiver are left free.
  - `Scenarios.GetByIdOfAbsentIdFails` also requires that the list is not empty.
  - `Scenarios.ByStatusWithoutMatchFails` takes the list after the test's filter at lines 105-107. It requires distinct ids and no FAILED record.
  - `Scenarios.SendersWithoutMatchFail` and `Scenarios.ReceiversWithoutMatchFail` take the list after the filters at lines 190-192 and 286-288. They require distinct ids and no SUCCESSFUL record.
  - `Scenarios.Filled`, the fill helper, requires distinct ids of the records and the fixture. `Scenarios.GeneratedFacts` derives this from `Generated`.
- The amount is a Java `double`. Here it is a real number. NaN, signed zero, and `Double.compare`'s treatment of them are not modelled, and neither is the rounding in `nextDouble() * 99.123` (line 36). The store only compares amounts. Every finite double is exactly some real, so comparing amounts as reals gives the same answer as comparing the doubles.
- Java `int` ids are modelled as unbounded integers. The tests' `getId() + 1` and `+ 10` cannot overflow with the generated ids.
- `Status` has only SUCCESSFUL, FAILED and UNAUTHORIZED, the members the tests name. The generator gives each record `statuses[i % statuses.length]` over `TransactionStatus.values()` (lines 26 and 33), so it can produce further members that `Status` cannot represent. No contract or scenario depends on which statuses exist: every query is stated for an arbitrary status.
- Records are values, not shared objects. At line 68 the test reads the status through its own reference to the record it added. The model states this as "getById after a status change returns the record with the new status" (`Ledger.LookupAfterStatusChange`, `Scenarios.StatusChangeIsVisible`).
- Results are sequences, not live `Iterable` views or streams. Iteration order is the sequence order.
- Ledger.ByStatus, Ledger.PartiesByStatus, Ledger.BySender, Ledger.ByStatusAndMaxAmount: the order among records of equal amount is not stated in these contracts, because the tests do not fix it.
  - Every expected list in the suite is built by a stable sort of the records in insertion order, and the model's sort is stable (`Ordering.SortByAmountIsStable`, `Ledger.TiesKeepInsertionOrder`, `Ledger.ByAmountGroupIsDetermined`).
  - The one exception is lines 150-153, which place the fixture first before sorting, while the store holds it last. The two orders differ only if a generated amount equals the fixture's 14.78 exactly.
- The status query returns its records by amount descending, because the test at lines 144-166 fixes that order.
