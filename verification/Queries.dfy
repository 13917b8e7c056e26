/**
  The repository queries over the `prices` table. SQL fixes a result only up to the order of
  rows that compare equal, so a query is a relation (`IsListing`) between the table and its
  answers; the functions below compute one answer.
 */
module Queries {
  import opened Collections
  import opened PriceTable
  import opened Integers

  datatype SortOrder = Asc | Desc

  /** WHERE ticker = … AND timestamp >= … AND timestamp <= …, each bound optional. */
  datatype Where = Where(ticker: Ticker, from: Option<int>, to: Option<int>)

  predicate Matches(r: Row, q: Where) {
    && r.ticker == q.ticker
    && (q.from.Some? ==> r.timestamp >= q.from.value)
    && (q.to.Some? ==> r.timestamp <= q.to.value)
  }

  function Matcher(q: Where): Row -> bool {
    (r: Row) => Matches(r, q)
  }

  function Matching(rows: seq<Row>, q: Where): seq<Row> {
    Filter(rows, Matcher(q))
  }

  predicate Before(a: Row, b: Row, order: SortOrder) {
    match order
    case Asc => a.timestamp <= b.timestamp
    case Desc => a.timestamp >= b.timestamp
  }

  predicate Ordered(s: seq<Row>, order: SortOrder) {
    forall i, j :: 0 <= i < j < |s| ==> Before(s[i], s[j], order)
  }

  /** `out` is a correct answer to SELECT … WHERE q ORDER BY timestamp. */
  ghost predicate IsListing(rows: seq<Row>, q: Where, order: SortOrder, out: seq<Row>) {
    multiset(out) == multiset(Matching(rows, q)) && Ordered(out, order)
  }

  lemma OrderedSnoc(init: seq<Row>, last: Row, order: SortOrder)
    requires Ordered(init, order) && forall x :: x in init ==> Before(x, last, order)
    ensures Ordered(init + [last], order)
  {}

  lemma InsertedBefore(init: seq<Row>, front: seq<Row>, r: Row, last: Row, order: SortOrder)
    requires multiset(front) == multiset(init) + multiset{r}
    requires Before(r, last, order) && forall x :: x in init ==> Before(x, last, order)
    ensures forall x :: x in front ==> Before(x, last, order)
  {
    assert forall x :: x in front ==> x in multiset(front);
  }

  function Insert(s: seq<Row>, r: Row, order: SortOrder): (out: seq<Row>)
    requires Ordered(s, order)
    ensures Ordered(out, order) && multiset(out) == multiset(s) + multiset{r}
  {
    if s == [] then [r] else
      var init, last := s[..|s| - 1], s[|s| - 1];
      assert multiset(s) == multiset(init) + multiset{last} by { assert s == init + [last]; }
      if Before(last, r, order) then
        s + [r]
      else
        var front := Insert(init, r, order);
        assert Ordered(front + [last], order) by {
          InsertedBefore(init, front, r, last, order);
          OrderedSnoc(front, last, order);
        }
        front + [last]
  }

  function Sort(s: seq<Row>, order: SortOrder): (out: seq<Row>)
    ensures Ordered(out, order) && multiset(out) == multiset(s)
  {
    if s == [] then [] else
      assert s == s[..|s| - 1] + [s[|s| - 1]];
      Insert(Sort(s[..|s| - 1], order), s[|s| - 1], order)
  }

  function Listing(rows: seq<Row>, q: Where, order: SortOrder): seq<Row> {
    Sort(Matching(rows, q), order)
  }

  function Min(a: nat, b: nat): nat { if a < b then a else b }

  /** OFFSET … LIMIT … */
  function Page<T>(s: seq<T>, offset: nat, limit: nat): seq<T> {
    s[Min(offset, |s|)..Min(offset + limit, |s|)]
  }

  /** `get_by_ticker_and_date_range`; without bounds it is `get_all_by_ticker`. */
  function GetByTickerAndDateRange(rows: seq<Row>, q: Where, limit: nat, offset: nat, order: SortOrder): seq<Row> {
    Page(Listing(rows, q, order), offset, limit)
  }

  function All(t: Ticker): Where { Where(t, None, None) }

  function GetLatestByTicker(rows: seq<Row>, t: Ticker): Option<Row> {
    var page := GetByTickerAndDateRange(rows, All(t), 1, 0, Desc);
    if page == [] then None else Some(page[0])
  }

  function GetLatestTimestamp(rows: seq<Row>, t: Ticker): Option<int> {
    match GetLatestByTicker(rows, t)
    case None => None
    case Some(r) => Some(r.timestamp)
  }

  function GetTimestampsInRange(rows: seq<Row>, t: Ticker, from: int, to: int): seq<int> {
    var listed := Listing(rows, Where(t, Some(from), Some(to)), Asc);
    seq(|listed|, i requires 0 <= i < |listed| => listed[i].timestamp)
  }

  /** A listing holds the rows of the ticker within the bounds that are given, and no others. */
  lemma ListingHoldsExactly(rows: seq<Row>, t: Ticker, from: Option<int>, to: Option<int>, order: SortOrder, r: Row)
    ensures r in Listing(rows, Where(t, from, to), order)
            <==> r in rows && r.ticker == t
                 && (from == None || from.value <= r.timestamp) && (to == None || r.timestamp <= to.value)
  {
    ListingMembers(rows, Where(t, from, to), order, Listing(rows, Where(t, from, to), order));
  }

  /** A page holds the rows from its offset on, as many as its limit allows. */
  lemma PageIsSlice(rows: seq<Row>, q: Where, limit: nat, offset: nat, order: SortOrder)
    ensures var full, page := Listing(rows, q, order), GetByTickerAndDateRange(rows, q, limit, offset, order);
      && |page| == (if |full| <= offset then 0 else if |full| - offset <= limit then |full| - offset else limit)
      && forall i :: 0 <= i < |page| ==> page[i] == full[offset + i]
  {}

  // ---------------------------------------------------------------- determinism of ORDER BY

  /** No two different matching rows share a timestamp. */
  ghost predicate NoTies(s: seq<Row>) {
    forall a, b :: a in s && b in s && a.timestamp == b.timestamp ==> a == b
  }

  lemma MatchingMembers(rows: seq<Row>, q: Where)
    ensures forall r :: r in Matching(rows, q) <==> r in rows && Matches(r, q)
  {
    FilterMembers(rows, Matcher(q));
  }

  lemma ListingMembers(rows: seq<Row>, q: Where, order: SortOrder, out: seq<Row>)
    requires IsListing(rows, q, order, out)
    ensures forall r :: r in out <==> r in rows && Matches(r, q)
  {
    MatchingMembers(rows, q);
    assert forall r :: r in out <==> r in multiset(out);
  }

  lemma UniqueRowsAgree(rows: seq<Row>, a: Row, b: Row)
    requires UniqueKeys(rows) && a in rows && b in rows && a.Id() == b.Id()
    ensures a == b
  {
    TableOfUnique(rows);
  }

  lemma UniqueKeysGiveNoTies(rows: seq<Row>, q: Where)
    requires UniqueKeys(rows)
    ensures NoTies(Matching(rows, q))
  {
    MatchingMembers(rows, q);
    forall a, b | a in Matching(rows, q) && b in Matching(rows, q) && a.timestamp == b.timestamp
      ensures a == b
    {
      UniqueRowsAgree(rows, a, b);
    }
  }

  lemma LastIsExtreme(s: seq<Row>, x: Row, order: SortOrder)
    requires Ordered(s, order) && x in s
    ensures Before(x, s[|s| - 1], order)
  {}

  lemma RowsBeforeLast(s: seq<Row>)
    requires s != []
    ensures multiset(s[..|s| - 1]) == multiset(s) - multiset{s[|s| - 1]}
  {
    assert s == s[..|s| - 1] + [s[|s| - 1]];
  }

  lemma SameLastRow(a: seq<Row>, b: seq<Row>, order: SortOrder)
    requires a != [] && multiset(a) == multiset(b) && Ordered(a, order) && Ordered(b, order) && NoTies(a)
    ensures b != [] && a[|a| - 1] == b[|b| - 1]
  {
    assert a[0] in multiset(b);
    var x, y := a[|a| - 1], b[|b| - 1];
    assert x in multiset(b) && y in multiset(a);
    LastIsExtreme(a, y, order);
    LastIsExtreme(b, x, order);
  }

  lemma {:induction false} SameOrderedRows(a: seq<Row>, b: seq<Row>, order: SortOrder)
    requires multiset(a) == multiset(b) && Ordered(a, order) && Ordered(b, order) && NoTies(a)
    ensures a == b
  {
    if a == [] {
      assert |multiset(b)| == 0;
    } else {
      SameLastRow(a, b, order);
      RowsBeforeLast(a);
      RowsBeforeLast(b);
      assert forall x :: x in a[..|a| - 1] ==> x in a;
      SameOrderedRows(a[..|a| - 1], b[..|b| - 1], order);
    }
  }

  /** Exchanging two rows with equal timestamps leaves a correct answer correct. */
  lemma TiedRowsMaySwap(s: seq<Row>, i: nat, j: nat, order: SortOrder)
    requires i < |s| && j < |s| && Ordered(s, order) && s[i].timestamp == s[j].timestamp
    ensures Ordered(s[i := s[j]][j := s[i]], order)
    ensures multiset(s[i := s[j]][j := s[i]]) == multiset(s)
  {
    var out := s[i := s[j]][j := s[i]];
    assert forall k :: 0 <= k < |s| ==> s[k].timestamp == out[k].timestamp;
  }

  /**
    ORDER BY timestamp has one answer exactly when no two different matching rows share a
    timestamp; the unique constraint is what guarantees that.
   */
  lemma OrderIsDeterministicExactlyWithoutTies(rows: seq<Row>, q: Where, order: SortOrder)
    ensures (forall a, b :: IsListing(rows, q, order, a) && IsListing(rows, q, order, b) ==> a == b)
            <==> NoTies(Matching(rows, q))
    ensures UniqueKeys(rows) ==> NoTies(Matching(rows, q))
  {
    if UniqueKeys(rows) {
      UniqueKeysGiveNoTies(rows, q);
    }
    MatchingMembers(rows, q);
    if NoTies(Matching(rows, q)) {
      forall a, b | IsListing(rows, q, order, a) && IsListing(rows, q, order, b) ensures a == b {
        ListingMembers(rows, q, order, a);
        SameOrderedRows(a, b, order);
      }
    } else {
      TiesGiveTwoAnswers(rows, q, order);
    }
  }

  lemma TiesGiveTwoAnswers(rows: seq<Row>, q: Where, order: SortOrder)
    requires !NoTies(Matching(rows, q))
    ensures exists a, b :: IsListing(rows, q, order, a) && IsListing(rows, q, order, b) && a != b
  {
    var a := Listing(rows, q, order);
    assert IsListing(rows, q, order, a);
    var i, j := TiedPositions(Matching(rows, q), a);
    TiedRowsMaySwap(a, i, j, order);
    var b := a[i := a[j]][j := a[i]];
    assert IsListing(rows, q, order, b) && b[i] != a[i];
  }

  lemma TiedPositions(s: seq<Row>, out: seq<Row>) returns (i: nat, j: nat)
    requires !NoTies(s) && multiset(out) == multiset(s)
    ensures i < |out| && j < |out| && out[i].timestamp == out[j].timestamp && out[i] != out[j]
  {
    var x, y :| x in s && y in s && x.timestamp == y.timestamp && x != y;
    assert x in multiset(out) && y in multiset(out);
    i :| 0 <= i < |out| && out[i] == x;
    j :| 0 <= j < |out| && out[j] == y;
  }

  /** Under the unique constraint every answer is the computed one, strictly ordered. */
  lemma ListingIsTheAnswer(rows: seq<Row>, q: Where, order: SortOrder, out: seq<Row>)
    requires UniqueKeys(rows) && IsListing(rows, q, order, out)
    ensures out == Listing(rows, q, order)
  {
    assert IsListing(rows, q, order, Listing(rows, q, order));
    OrderIsDeterministicExactlyWithoutTies(rows, q, order);
  }

  lemma ListingIsStrict(rows: seq<Row>, q: Where, order: SortOrder)
    requires UniqueKeys(rows)
    ensures var s := Listing(rows, q, order);
      forall i, j :: 0 <= i < j < |s| ==> Before(s[i], s[j], order) && s[i].timestamp != s[j].timestamp
  {
    var s := Listing(rows, q, order);
    ListingMembers(rows, q, order, s);
    MatchingMembers(rows, q);
    MatchingKeepsUniqueKeys(rows, q);
    forall i, j | 0 <= i < j < |s| && s[i].timestamp == s[j].timestamp ensures false {
      UniqueRowsAgree(rows, s[i], s[j]);
      assert multiset(s) == multiset(s[..j]) + multiset(s[j..]) by { assert s == s[..j] + s[j..]; }
      assert s[..j][i] == s[i] && s[j..][0] == s[j];
      assert multiset(s)[s[i]] >= 2;
      OncePerRow(Matching(rows, q), s[i]);
    }
  }

  lemma {:induction false} MatchingKeepsUniqueKeys(rows: seq<Row>, q: Where)
    requires UniqueKeys(rows)
    ensures UniqueKeys(Matching(rows, q))
  {
    if rows != [] {
      var init, last := rows[..|rows| - 1], rows[|rows| - 1];
      MatchingKeepsUniqueKeys(init, q);
      MatchingMembers(init, q);
      forall r | r in Matching(init, q) ensures r.Id() != last.Id() {
        var i :| 0 <= i < |init| && init[i] == r;
        assert rows[i] == r;
      }
    }
  }

  lemma {:induction false} OncePerRow(s: seq<Row>, r: Row)
    requires UniqueKeys(s)
    ensures multiset(s)[r] <= 1
  {
    if s != [] {
      assert s == s[..|s| - 1] + [s[|s| - 1]];
      OncePerRow(s[..|s| - 1], r);
      if s[|s| - 1] == r {
        forall i | 0 <= i < |s| - 1 ensures s[i] != r {
          assert s[i].Id() != s[|s| - 1].Id();
        }
        assert r !in s[..|s| - 1];
      }
    }
  }

  function Reverse<T>(s: seq<T>): (r: seq<T>)
    ensures |r| == |s| && forall i :: 0 <= i < |s| ==> r[i] == s[|s| - 1 - i]
  {
    if s == [] then [] else [s[|s| - 1]] + Reverse(s[..|s| - 1])
  }

  lemma {:induction false} ReverseKeepsRows(s: seq<Row>)
    ensures multiset(Reverse(s)) == multiset(s)
  {
    if s != [] {
      ReverseKeepsRows(s[..|s| - 1]);
      RowsBeforeLast(s);
    }
  }

  /** Any descending answer is the exact reverse of any ascending one. */
  lemma DescendingReversesAscending(rows: seq<Row>, q: Where, asc: seq<Row>, desc: seq<Row>)
    requires UniqueKeys(rows) && IsListing(rows, q, Asc, asc) && IsListing(rows, q, Desc, desc)
    ensures desc == Reverse(asc)
  {
    ReverseKeepsRows(asc);
    OrderIsDeterministicExactlyWithoutTies(rows, q, Desc);
    assert IsListing(rows, q, Desc, Reverse(asc));
  }

  // ---------------------------------------------------------------- pagination

  /** The first `n` pages of size `limit`, laid end to end. */
  function Pages(rows: seq<Row>, q: Where, order: SortOrder, limit: nat, n: nat): seq<Row> {
    if n == 0 then [] else
      Pages(rows, q, order, limit, n - 1) + GetByTickerAndDateRange(rows, q, limit, (n - 1) * limit, order)
  }

  /** Walking the pages reads a prefix of the listing. */
  lemma {:induction false} PagesReadAPrefix(rows: seq<Row>, q: Where, order: SortOrder, limit: nat, n: nat)
    ensures Pages(rows, q, order, limit, n) == Page(Listing(rows, q, order), 0, n * limit)
  {
    if n != 0 {
      PagesReadAPrefix(rows, q, order, limit, n - 1);
      NextOffset(n, limit);
      NextPage(Listing(rows, q, order), (n - 1) * limit, limit);
    }
  }

  lemma NextOffset(n: nat, limit: nat)
    requires n >= 1
    ensures 0 <= (n - 1) * limit && (n - 1) * limit + limit == n * limit
  {}

  lemma NextPage(full: seq<Row>, offset: nat, limit: nat)
    ensures Page(full, 0, offset) + Page(full, offset, limit) == Page(full, 0, offset + limit)
  {}

  /**
    With any limit of at least one, the pages hold the whole listing exactly when the next page
    comes back empty, and |listing| pages always suffice.
   */
  lemma PagesRoundTrip(rows: seq<Row>, q: Where, order: SortOrder, limit: nat, n: nat)
    requires limit >= 1
    ensures GetByTickerAndDateRange(rows, q, limit, n * limit, order) == []
            <==> Pages(rows, q, order, limit, n) == Listing(rows, q, order)
    ensures n >= |Listing(rows, q, order)| ==> Pages(rows, q, order, limit, n) == Listing(rows, q, order)
  {
    PagesReadAPrefix(rows, q, order, limit, n);
    AtLeast(n, limit);
    PrefixIsAll(Listing(rows, q, order), n * limit, limit);
  }

  lemma AtLeast(n: nat, limit: nat)
    requires limit >= 1
    ensures n * limit >= n
  {}

  lemma PrefixIsAll(full: seq<Row>, offset: nat, limit: nat)
    requires limit >= 1
    ensures Page(full, offset, limit) == [] <==> Page(full, 0, offset) == full
    ensures offset >= |full| ==> Page(full, 0, offset) == full
  {
    if offset < |full| {
      assert |Page(full, offset, limit)| > 0 && |Page(full, 0, offset)| < |full|;
    }
  }

  // ---------------------------------------------------------------- latest rows and counts

  function Tickers(rows: seq<Row>): set<Ticker> {
    set r | r in rows :: r.ticker
  }

  /** The grouped subquery: the greatest timestamp of each ticker. */
  function LatestTimestamps(rows: seq<Row>): map<Ticker, int> {
    if rows == [] then map[] else
      var seen, last := LatestTimestamps(rows[..|rows| - 1]), rows[|rows| - 1];
      if last.ticker in seen && seen[last.ticker] >= last.timestamp then seen
      else seen[last.ticker := last.timestamp]
  }

  function LatestMatcher(latest: map<Ticker, int>): Row -> bool {
    (r: Row) => r.ticker in latest && latest[r.ticker] == r.timestamp
  }

  /** The rows the group-max join selects. */
  function JoinLatest(rows: seq<Row>): seq<Row> {
    Filter(rows, LatestMatcher(LatestTimestamps(rows)))
  }

  function ByTicker(rows: seq<Row>): map<Ticker, Row> {
    if rows == [] then map[] else
      ByTicker(rows[..|rows| - 1])[rows[|rows| - 1].ticker := rows[|rows| - 1]]
  }

  function GetLatestPricesByTicker(rows: seq<Row>): map<Ticker, Row> {
    ByTicker(JoinLatest(rows))
  }

  function GetCountsByTicker(rows: seq<Row>): map<Ticker, int> {
    if rows == [] then map[] else
      var seen, t := GetCountsByTicker(rows[..|rows| - 1]), rows[|rows| - 1].ticker;
      seen[t := (if t in seen then seen[t] else 0) + 1]
  }

  lemma {:induction false} LatestTimestampsBound(rows: seq<Row>)
    ensures LatestTimestamps(rows).Keys == Tickers(rows)
    ensures forall r :: r in rows ==> r.ticker in LatestTimestamps(rows) && r.timestamp <= LatestTimestamps(rows)[r.ticker]
  {
    if rows != [] {
      var init, last := rows[..|rows| - 1], rows[|rows| - 1];
      LatestTimestampsBound(init);
      assert rows == init + [last];
      assert Tickers(rows) == Tickers(init) + {last.ticker};
    }
  }

  lemma {:induction false} LatestTimestampIsStored(rows: seq<Row>, t: Ticker) returns (r: Row)
    requires t in LatestTimestamps(rows)
    ensures r in rows && r.ticker == t && r.timestamp == LatestTimestamps(rows)[t]
  {
    var init, last := rows[..|rows| - 1], rows[|rows| - 1];
    assert rows == init + [last];
    if t == last.ticker && LatestTimestamps(rows)[t] == last.timestamp {
      r := last;
    } else {
      r := LatestTimestampIsStored(init, t);
    }
  }

  lemma {:induction false} ByTickerHoldsRows(rows: seq<Row>)
    ensures ByTicker(rows).Keys == Tickers(rows)
    ensures forall t :: t in ByTicker(rows) ==> ByTicker(rows)[t] in rows && ByTicker(rows)[t].ticker == t
  {
    if rows != [] {
      ByTickerHoldsRows(rows[..|rows| - 1]);
      assert rows == rows[..|rows| - 1] + [rows[|rows| - 1]];
      assert Tickers(rows) == Tickers(rows[..|rows| - 1]) + {rows[|rows| - 1].ticker};
    }
  }

  /** `get_latest_by_ticker` answers exactly a stored row no other row of its ticker is newer than. */
  lemma LatestIsNewest(rows: seq<Row>, t: Ticker)
    ensures GetLatestByTicker(rows, t).None? <==> t !in Tickers(rows)
    ensures GetLatestByTicker(rows, t).Some? ==>
              var r := GetLatestByTicker(rows, t).value;
              && r in rows && r.ticker == t
              && forall x :: x in rows && x.ticker == t ==> x.timestamp <= r.timestamp
  {
    var s := Listing(rows, All(t), Desc);
    ListingMembers(rows, All(t), Desc, s);
    assert Page(s, 0, 1) == if s == [] then [] else [s[0]];
    if s == [] {
      forall r | r in rows ensures r.ticker != t {
        assert r !in s;
      }
    } else {
      assert s[0] in s;
    }
  }

  lemma JoinedTickers(rows: seq<Row>)
    ensures ByTicker(JoinLatest(rows)).Keys == Tickers(rows)
  {
    var join := JoinLatest(rows);
    LatestTimestampsBound(rows);
    FilterMembers(rows, LatestMatcher(LatestTimestamps(rows)));
    ByTickerHoldsRows(join);
    forall t | t in Tickers(rows) ensures t in Tickers(join) {
      var r := LatestTimestampIsStored(rows, t);
      assert r in join;
    }
  }

  /** The row the join keeps for a ticker is stored, and no row of the ticker is newer. */
  lemma JoinedIsNewest(rows: seq<Row>, t: Ticker)
    requires t in ByTicker(JoinLatest(rows))
    ensures var r := ByTicker(JoinLatest(rows))[t];
      && r in rows && r.ticker == t
      && forall x :: x in rows && x.ticker == t ==> x.timestamp <= r.timestamp
  {
    LatestTimestampsBound(rows);
    FilterMembers(rows, LatestMatcher(LatestTimestamps(rows)));
    ByTickerHoldsRows(JoinLatest(rows));
  }

  /**
    The three "latest" queries agree: the join maps exactly the tickers present, each to the
    row of the descending limit-1 query, whose timestamp is what `get_latest_timestamp` returns.
   */
  lemma LatestQueriesAgree(rows: seq<Row>)
    requires UniqueKeys(rows)
    ensures GetLatestPricesByTicker(rows).Keys == Tickers(rows)
    ensures forall t :: t in Tickers(rows) ==>
              && GetLatestByTicker(rows, t) == Some(GetLatestPricesByTicker(rows)[t])
              && GetLatestTimestamp(rows, t) == Some(GetLatestPricesByTicker(rows)[t].timestamp)
  {
    JoinedTickers(rows);
    forall t | t in Tickers(rows)
      ensures GetLatestByTicker(rows, t) == Some(GetLatestPricesByTicker(rows)[t])
    {
      LatestIsNewest(rows, t);
      JoinedIsNewest(rows, t);
      UniqueRowsAgree(rows, GetLatestByTicker(rows, t).value, GetLatestPricesByTicker(rows)[t]);
    }
  }

  lemma {:induction false} CountsArePerTicker(rows: seq<Row>)
    ensures GetCountsByTicker(rows).Keys == Tickers(rows)
    ensures forall t :: t in Tickers(rows) ==> GetCountsByTicker(rows)[t] == |Matching(rows, All(t))|
  {
    if rows != [] {
      var init, last := rows[..|rows| - 1], rows[|rows| - 1];
      CountsArePerTicker(init);
      assert rows == init + [last];
      assert Tickers(rows) == Tickers(init) + {last.ticker};
      forall t | t in Tickers(rows) ensures GetCountsByTicker(rows)[t] == |Matching(rows, All(t))| {
        if t !in Tickers(init) {
          NoneMatching(init, t);
        }
      }
    }
  }

  lemma {:induction false} NoneMatching(rows: seq<Row>, t: Ticker)
    requires t !in Tickers(rows)
    ensures Matching(rows, All(t)) == []
  {
    if rows != [] {
      assert rows[|rows| - 1] in rows && forall r :: r in rows[..|rows| - 1] ==> r in rows;
      NoneMatching(rows[..|rows| - 1], t);
    }
  }

  /** Per-ticker counts are the sizes of the per-ticker listings and sum to the row count. */
  lemma {:induction false} CountsSumToTotal(rows: seq<Row>)
    ensures GetCountsByTicker(rows).Keys == Tickers(rows)
    ensures forall t :: t in Tickers(rows) ==> GetCountsByTicker(rows)[t] == |Matching(rows, All(t))|
    ensures Total(GetCountsByTicker(rows)) == |rows|
  {
    CountsArePerTicker(rows);
    if rows != [] {
      var init, last := rows[..|rows| - 1], rows[|rows| - 1];
      CountsSumToTotal(init);
      var seen := GetCountsByTicker(init);
      TotalUpdate(seen, last.ticker, (if last.ticker in seen then seen[last.ticker] else 0) + 1);
    }
  }

  // ---------------------------------------------------------------- the timestamps of one ticker

  function Stamps(rows: seq<Row>, t: Ticker): set<int> {
    set r | r in rows && r.ticker == t :: r.timestamp
  }

  ghost function Between(s: set<int>, from: int, to: int): set<int> {
    set x | x in s && from <= x <= to
  }

  /** The range scan lists the stored timestamps in the range, all of them and no others. */
  lemma RangeScanHoldsRange(rows: seq<Row>, t: Ticker, from: int, to: int)
    ensures Elements(GetTimestampsInRange(rows, t, from, to)) == Between(Stamps(rows, t), from, to)
  {
    var listed := Listing(rows, Where(t, Some(from), Some(to)), Asc);
    var ts := GetTimestampsInRange(rows, t, from, to);
    ListingMembers(rows, Where(t, Some(from), Some(to)), Asc, listed);
    forall x | x in Between(Stamps(rows, t), from, to) ensures x in ts {
      var r :| r in rows && r.ticker == t && r.timestamp == x;
      assert r in listed;
      var i :| 0 <= i < |listed| && listed[i] == r;
      assert ts[i] == x;
    }
    forall x | x in ts ensures x in Between(Stamps(rows, t), from, to) {
      var i :| 0 <= i < |ts| && ts[i] == x;
      assert listed[i] in listed;
    }
  }

  /** Under the unique constraint it lists each of them once, in increasing order. */
  lemma RangeScanIncreases(rows: seq<Row>, t: Ticker, from: int, to: int)
    requires UniqueKeys(rows)
    ensures Increasing(GetTimestampsInRange(rows, t, from, to))
  {
    var listed := Listing(rows, Where(t, Some(from), Some(to)), Asc);
    ListingIsStrict(rows, Where(t, Some(from), Some(to)), Asc);
    forall i, j | 0 <= i < j < |listed| ensures listed[i].timestamp < listed[j].timestamp {
      assert Before(listed[i], listed[j], Asc);
    }
  }

  /** The latest timestamp is the greatest stored one; there is none exactly when nothing is stored. */
  lemma LatestIsGreatestStamp(rows: seq<Row>, t: Ticker)
    ensures GetLatestTimestamp(rows, t).None? <==> Stamps(rows, t) == {}
    ensures GetLatestTimestamp(rows, t).Some? ==>
              && GetLatestTimestamp(rows, t).value in Stamps(rows, t)
              && forall x :: x in Stamps(rows, t) ==> x <= GetLatestTimestamp(rows, t).value
  {
    LatestIsNewest(rows, t);
    if t in Tickers(rows) {
      var r :| r in rows && r.ticker == t;
      assert r.timestamp in Stamps(rows, t);
    }
  }
}
