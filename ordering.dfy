/** The two result orders the store's queries use: amount descending, and
    amount descending with ties broken by ascending id. Results are produced
    by a stable insertion sort; its lemmas say the result is a permutation of
    the input, is ordered, keeps equal amounts in input order, and, under the
    id tie-break, is the only ordered permutation there is. */
module Ordering {
  import opened Transactions

  datatype Order = ByAmount | ByAmountThenId

  /** `a` may stand before `b` in a result sorted by `o`. */
  predicate Precedes(o: Order, a: Tx, b: Tx) {
    a.amount > b.amount || (a.amount == b.amount && (o == ByAmount || a.id <= b.id))
  }

  /** Every earlier element of `s` may stand before every later one. */
  ghost predicate Ordered(o: Order, s: seq<Tx>) {
    forall i, j :: 0 <= i < j < |s| ==> Precedes(o, s[i], s[j])
  }

  /** Places `x` in front of the first element it may precede. */
  function Insert(o: Order, x: Tx, s: seq<Tx>): (r: seq<Tx>)
    ensures multiset(r) == multiset(s) + multiset{x}
  {
    if s == [] || Precedes(o, x, s[0]) then
      [x] + s
    else
      assert s == [s[0]] + s[1..];
      [s[0]] + Insert(o, x, s[1..])
  }

  /** An element that may precede every element of an ordered sequence may
      head it. */
  lemma OrderedCons(o: Order, a: Tx, s: seq<Tx>)
    requires Ordered(o, s)
    requires forall y :: y in s ==> Precedes(o, a, y)
    ensures Ordered(o, [a] + s)
  {
    var r := [a] + s;
    forall i, j | 0 <= i < j < |r| ensures Precedes(o, r[i], r[j]) {
      assert r[j] == s[j - 1];
      if i > 0 {
        assert r[i] == s[i - 1];
      }
    }
  }

  /** Inserting into an ordered sequence keeps it ordered. */
  lemma {:induction false} InsertKeepsOrder(o: Order, x: Tx, s: seq<Tx>)
    requires Ordered(o, s)
    ensures Ordered(o, Insert(o, x, s))
  {
    if s == [] || Precedes(o, x, s[0]) {
      forall y | y in s ensures Precedes(o, x, y) {
        var j :| 0 <= j < |s| && s[j] == y;
        assert j == 0 || Precedes(o, s[0], s[j]);
      }
      OrderedCons(o, x, s);
    } else {
      var tail := s[1..];
      OrderedTail(o, s);
      InsertKeepsOrder(o, x, tail);
      var rest := Insert(o, x, tail);
      forall y | y in rest ensures Precedes(o, s[0], y) {
        assert y in multiset(rest);
        if y != x {
          assert y in multiset(tail);
          var m :| 0 <= m < |tail| && tail[m] == y;
          assert s[m + 1] == y;
        }
      }
      OrderedCons(o, s[0], rest);
    }
  }

  /** A stable insertion sort. */
  function Sort(o: Order, s: seq<Tx>): (r: seq<Tx>)
    ensures multiset(r) == multiset(s)
    ensures |r| == |s|
    ensures Ordered(o, r)
  {
    if s == [] then
      []
    else
      assert s == [s[0]] + s[1..];
      InsertKeepsOrder(o, s[0], Sort(o, s[1..]));
      Insert(o, s[0], Sort(o, s[1..]))
  }

  /** The elements of `s` whose amount is `v`, in their order in `s`. */
  function WithAmount(s: seq<Tx>, v: real): seq<Tx> {
    if s == [] then []
    else (if s[0].amount == v then [s[0]] else []) + WithAmount(s[1..], v)
  }

  /** WithAmount of a sequence with a given first element. */
  lemma WithAmountCons(a: Tx, s: seq<Tx>, v: real)
    ensures WithAmount([a] + s, v) == (if a.amount == v then [a] else []) + WithAmount(s, v)
  {
    assert ([a] + s)[1..] == s;
  }

  /** `x` lands in front of every element of `s` of the same amount. */
  lemma {:induction false} InsertByAmountKeepsTies(x: Tx, s: seq<Tx>, v: real)
    ensures WithAmount(Insert(ByAmount, x, s), v)
         == (if x.amount == v then [x] else []) + WithAmount(s, v)
  {
    if s == [] || Precedes(ByAmount, x, s[0]) {
      WithAmountCons(x, s, v);
    } else {
      var tail := s[1..];
      var rest := Insert(ByAmount, x, tail);
      assert Insert(ByAmount, x, s) == [s[0]] + rest;
      assert s == [s[0]] + tail;
      InsertByAmountKeepsTies(x, tail, v);
      WithAmountCons(s[0], rest, v);
      WithAmountCons(s[0], tail, v);
      if x.amount == v {
        // s[0] is larger than x, so it is not tied with x
        assert s[0].amount != v;
        assert WithAmount(s, v) == WithAmount(tail, v);
        assert WithAmount([s[0]] + rest, v) == WithAmount(rest, v);
      } else {
        assert WithAmount(rest, v) == WithAmount(tail, v);
      }
    }
  }

  /** Sorting by amount alone is stable: records of equal amount keep their
      relative order. */
  lemma {:induction false} SortByAmountIsStable(s: seq<Tx>, v: real)
    ensures WithAmount(Sort(ByAmount, s), v) == WithAmount(s, v)
  {
    if s != [] {
      SortByAmountIsStable(s[1..], v);
      InsertByAmountKeepsTies(s[0], Sort(ByAmount, s[1..]), v);
    }
  }

  /** A suffix of an ordered sequence is ordered. */
  lemma OrderedTail(o: Order, s: seq<Tx>)
    requires s != [] && Ordered(o, s)
    ensures Ordered(o, s[1..])
  {
    forall i, j | 0 <= i < j < |s| - 1 ensures Precedes(o, s[1..][i], s[1..][j]) {
      assert s[1..][i] == s[i + 1] && s[1..][j] == s[j + 1];
    }
  }

  /** Two permutations of each other with the same first element are
      permutations of each other after it. */
  lemma MultisetTails(a: seq<Tx>, b: seq<Tx>)
    requires a != [] && b != [] && a[0] == b[0]
    requires multiset(a) == multiset(b)
    ensures multiset(a[1..]) == multiset(b[1..])
  {
    assert a == [a[0]] + a[1..] && b == [b[0]] + b[1..];
    forall t ensures multiset(a[1..])[t] == multiset(b[1..])[t] {
      assert multiset(a)[t] == multiset{a[0]}[t] + multiset(a[1..])[t];
      assert multiset(b)[t] == multiset{b[0]}[t] + multiset(b[1..])[t];
    }
  }

  /** Two permutations of each other, both ordered by amount, start with
      the same amount. */
  lemma OrderedByAmountHeads(a: seq<Tx>, b: seq<Tx>)
    requires a != [] && multiset(a) == multiset(b)
    requires Ordered(ByAmount, a) && Ordered(ByAmount, b)
    ensures b != [] && a[0].amount == b[0].amount
  {
    assert a[0] in multiset(b);
    var k :| 0 <= k < |b| && b[k] == a[0];
    assert b[0] in multiset(a);
    var m :| 0 <= m < |a| && a[m] == b[0];
    assert Precedes(ByAmount, a[0], a[m]);
    assert Precedes(ByAmount, b[0], b[k]);
  }

  /** Two ordered permutations of records with distinct ids start with the
      same record. */
  lemma OrderedByAmountThenIdHeads(a: seq<Tx>, b: seq<Tx>)
    requires a != [] && multiset(a) == multiset(b)
    requires DistinctIds(a)
    requires Ordered(ByAmountThenId, a) && Ordered(ByAmountThenId, b)
    ensures b != [] && a[0] == b[0]
  {
    assert a[0] in multiset(b);
    var k :| 0 <= k < |b| && b[k] == a[0];
    assert b[0] in multiset(a);
    var m :| 0 <= m < |a| && a[m] == b[0];
    assert Precedes(ByAmountThenId, a[0], a[m]);
    assert Precedes(ByAmountThenId, b[0], b[k]);
    assert a[m].id == a[0].id;
  }

  /** Under the id tie-break, two ordered sequences holding the same records
      with distinct ids are equal: the order is total, so the result is
      determined by the records alone. */
  lemma {:induction false} OrderedByAmountThenIdIsUnique(a: seq<Tx>, b: seq<Tx>)
    requires multiset(a) == multiset(b)
    requires DistinctIds(a)
    requires Ordered(ByAmountThenId, a) && Ordered(ByAmountThenId, b)
    ensures a == b
  {
    if a == [] {
      assert |b| == |multiset(b)| == 0;
    } else {
      OrderedByAmountThenIdHeads(a, b);
      MultisetTails(a, b);
      DistinctIdsSplit(a);
      OrderedTail(ByAmountThenId, a);
      OrderedTail(ByAmountThenId, b);
      OrderedByAmountThenIdIsUnique(a[1..], b[1..]);
    }
  }

  /** Inserting a record whose id is new into records with distinct ids
      keeps the ids distinct. */
  lemma {:induction false} InsertKeepsDistinctIds(o: Order, x: Tx, s: seq<Tx>)
    requires DistinctIds(s) && x.id !in Ids(s)
    ensures DistinctIds(Insert(o, x, s))
  {
    if s == [] || Precedes(o, x, s[0]) {
      DistinctIdsSplit([x] + s);
      assert ([x] + s)[1..] == s;
    } else {
      var tail := s[1..];
      DistinctIdsSplit(s);
      assert x.id !in Ids(tail) by {
        forall t | t in tail ensures t.id != x.id {
          assert t in s;
        }
      }
      InsertKeepsDistinctIds(o, x, tail);
      var rest := Insert(o, x, tail);
      assert s[0].id !in Ids(rest) by {
        forall t | t in rest ensures t.id != s[0].id {
          assert t in multiset(rest);
          assert t == x || t in multiset(tail);
          assert s[0] in s;
        }
      }
      DistinctIdsSplit([s[0]] + rest);
      assert ([s[0]] + rest)[1..] == rest;
    }
  }

  /** Sorting records with distinct ids keeps them distinct. */
  lemma {:induction false} SortKeepsDistinctIds(o: Order, s: seq<Tx>)
    requires DistinctIds(s)
    ensures DistinctIds(Sort(o, s))
  {
    if s != [] {
      var tail := s[1..];
      DistinctIdsSplit(s);
      SortKeepsDistinctIds(o, tail);
      var sorted := Sort(o, tail);
      assert s[0].id !in Ids(sorted) by {
        forall t | t in sorted ensures t.id != s[0].id {
          assert t in multiset(tail);
        }
      }
      InsertKeepsDistinctIds(o, s[0], sorted);
    }
  }

  /** Ordered by amount alone, two sequences holding the same records with
      equal amounts in the same relative order are equal: a stable sort by
      amount has only one possible result. */
  lemma {:induction false} StableOrderByAmountIsUnique(a: seq<Tx>, b: seq<Tx>)
    requires multiset(a) == multiset(b)
    requires Ordered(ByAmount, a) && Ordered(ByAmount, b)
    requires forall v :: WithAmount(a, v) == WithAmount(b, v)
    ensures a == b
  {
    if a == [] {
      assert |b| == |multiset(b)| == 0;
    } else {
      OrderedByAmountHeads(a, b);
      var v := a[0].amount;
      assert a == [a[0]] + a[1..] && b == [b[0]] + b[1..];
      assert WithAmount(a, v) == [a[0]] + WithAmount(a[1..], v);
      assert WithAmount(b, v) == [b[0]] + WithAmount(b[1..], v);
      assert a[0] == WithAmount(a, v)[0] == WithAmount(b, v)[0] == b[0];
      MultisetTails(a, b);
      forall w ensures WithAmount(a[1..], w) == WithAmount(b[1..], w) {
        assert WithAmount(a, w) == WithAmount(b, w);
        if w == v {
          assert WithAmount(a[1..], w) == WithAmount(a, w)[1..];
          assert WithAmount(b[1..], w) == WithAmount(b, w)[1..];
        } else {
          assert WithAmount(a, w) == WithAmount(a[1..], w);
          assert WithAmount(b, w) == WithAmount(b[1..], w);
        }
      }
      OrderedTail(ByAmount, a);
      OrderedTail(ByAmount, b);
      StableOrderByAmountIsUnique(a[1..], b[1..]);
    }
  }
}
