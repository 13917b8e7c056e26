/** Candles over fixed intervals and the price summary of a range. */
module Candles {
  import opened Collections
  import opened PriceTable
  import opened Queries
  import opened Decimals
  import opened Integers

  const ROW_LIMIT: nat := 10_000

  datatype CandleInterval = OneMinute | FiveMinutes | OneHour | OneDay

  function Seconds(i: CandleInterval): nat {
    match i
    case OneMinute => 60
    case FiveMinutes => 300
    case OneHour => 3600
    case OneDay => 86400
  }

  /** Floor division, also for negative timestamps. */
  function BucketStart(timestamp: int, width: nat): int
    requires width > 0
  {
    timestamp / width * width
  }

  function Higher(a: Price, b: Price): Price { if a < b then b else a }

  function Lower(a: Price, b: Price): Price { if b < a then b else a }

  /** A candle before its average is divided out: it keeps the exact sum. */
  datatype Bar = Bar(start: int, open: Price, high: Price, low: Price, close: Price, sum: int, points: nat)

  function Merge(a: Bar, b: Bar): Bar {
    Bar(a.start, a.open, Higher(a.high, b.high), Lower(a.low, b.low), b.close, a.sum + b.sum, a.points + b.points)
  }

  function Into(b: Bar, width: nat): Bar
    requires width > 0
  {
    b.(start := BucketStart(b.start, width))
  }

  /** Adds one bar to the bars of the buckets before it. */
  function Append(bars: seq<Bar>, b: Bar): seq<Bar> {
    if bars != [] && bars[|bars| - 1].start == b.start then
      bars[..|bars| - 1] + [Merge(bars[|bars| - 1], b)]
    else
      bars + [b]
  }

  /** Merges neighbouring bars that fall in the same bucket. */
  function RollUp(bars: seq<Bar>, width: nat): seq<Bar>
    requires width > 0
  {
    if bars == [] then [] else
      Append(RollUp(bars[..|bars| - 1], width), Into(bars[|bars| - 1], width))
  }

  /** One row as a bar of its own. */
  function RowBar(r: Row): Bar {
    Bar(r.timestamp, r.price, r.price, r.price, r.price, r.price, 1)
  }

  function RowBars(rows: seq<Row>): seq<Bar> {
    seq(|rows|, i requires 0 <= i < |rows| => RowBar(rows[i]))
  }

  function BarsOf(rows: seq<Row>, width: nat): seq<Bar>
    requires width > 0
  {
    RollUp(RowBars(rows), width)
  }

  // ---------------------------------------------------------------- roll-up

  /** Flooring to a fine bucket first does not change the coarse bucket. */
  lemma BucketOfBucket(t: int, fine: nat, factor: nat)
    requires fine > 0 && factor > 0
    ensures fine * factor > 0
    ensures BucketStart(BucketStart(t, fine), fine * factor) == BucketStart(t, fine * factor)
  {
    FloorOfFloor(t, fine, factor);
    QuotientIsUnique(BucketStart(t, fine), fine, t / fine, 0);
    FloorOfFloor(BucketStart(t, fine), fine, factor);
  }

  lemma MergeIsAssociative(a: Bar, b: Bar, c: Bar)
    ensures Merge(Merge(a, b), c) == Merge(a, Merge(b, c))
  {}

  lemma RollUpStep(bars: seq<Bar>, b: Bar, width: nat)
    requires width > 0
    ensures RollUp(bars + [b], width) == Append(RollUp(bars, width), Into(b, width))
  {
    assert (bars + [b])[..|bars|] == bars;
  }

  /** Appending a merged bar is appending its two parts. */
  lemma AppendMerged(bars: seq<Bar>, a: Bar, b: Bar)
    requires a.start == b.start
    ensures Append(bars, Merge(a, b)) == Append(Append(bars, a), b)
  {
    if bars != [] && bars[|bars| - 1].start == a.start {
      MergeIsAssociative(bars[|bars| - 1], a, b);
    }
  }

  /** Every coarse bucket is a union of fine ones. */
  ghost predicate Nests(fine: nat, coarse: nat) {
    && fine > 0 && coarse > 0
    && forall t :: BucketStart(BucketStart(t, fine), coarse) == BucketStart(t, coarse)
  }

  lemma MultiplesNest(fine: nat, factor: nat)
    requires fine > 0 && factor > 0
    ensures fine * factor > 0 && Nests(fine, fine * factor)
  {
    assert fine * factor > 0;
    forall t ensures BucketStart(BucketStart(t, fine), fine * factor) == BucketStart(t, fine * factor) {
      BucketOfBucket(t, fine, factor);
    }
  }

  lemma AppendThenRollUp(parts: seq<Bar>, b: Bar, coarse: nat)
    requires coarse > 0
    ensures RollUp(Append(parts, b), coarse) == Append(RollUp(parts, coarse), Into(b, coarse))
  {
    if parts != [] && parts[|parts| - 1].start == b.start {
      var first, last := parts[..|parts| - 1], parts[|parts| - 1];
      assert parts == first + [last];
      RollUpStep(first, last, coarse);
      RollUpStep(first, Merge(last, b), coarse);
      assert Into(Merge(last, b), coarse) == Merge(Into(last, coarse), Into(b, coarse));
      AppendMerged(RollUp(first, coarse), Into(last, coarse), Into(b, coarse));
    } else {
      RollUpStep(parts, b, coarse);
    }
  }

  /**
    Rolling fine bars up to a coarser interval gives the bars of the coarser interval: open of the
    first child, close of the last, highest high, lowest low, and points and exact sums added up.
   */
  lemma {:induction false} RollUpOfRollUp(bars: seq<Bar>, fine: nat, coarse: nat)
    requires Nests(fine, coarse)
    ensures RollUp(RollUp(bars, fine), coarse) == RollUp(bars, coarse)
  {
    if bars != [] {
      var init, b := bars[..|bars| - 1], bars[|bars| - 1];
      RollUpOfRollUp(init, fine, coarse);
      AppendThenRollUp(RollUp(init, fine), Into(b, fine), coarse);
      assert Into(Into(b, fine), coarse) == Into(b, coarse);
    }
  }

  // ---------------------------------------------------------------- the bars of ordered rows

  function BucketMatcher(width: nat, start: int): Row -> bool
    requires width > 0
  {
    (r: Row) => BucketStart(r.timestamp, width) == start
  }

  /** The rows of one bucket, in fetched order. */
  function InBucket(rows: seq<Row>, width: nat, start: int): seq<Row>
    requires width > 0
  {
    Filter(rows, BucketMatcher(width, start))
  }

  function Starts(rows: seq<Row>, width: nat): set<int>
    requires width > 0
  {
    set r | r in rows :: BucketStart(r.timestamp, width)
  }

  function Sum(rows: seq<Row>): int {
    if rows == [] then 0 else Sum(rows[..|rows| - 1]) + rows[|rows| - 1].price
  }

  function Highest(rows: seq<Row>): Price
    requires rows != []
  {
    var last := rows[|rows| - 1].price;
    if |rows| == 1 then last else Higher(Highest(rows[..|rows| - 1]), last)
  }

  function Lowest(rows: seq<Row>): Price
    requires rows != []
  {
    var last := rows[|rows| - 1].price;
    if |rows| == 1 then last else Lower(Lowest(rows[..|rows| - 1]), last)
  }

  /** The bar the service computes from the rows of one bucket. */
  function BucketBar(start: int, rows: seq<Row>): Bar {
    if rows == [] then Bar(start, 0, 0, 0, 0, 0, 0) else
      Bar(start, rows[0].price, Highest(rows), Lowest(rows), rows[|rows| - 1].price, Sum(rows), |rows|)
  }

  lemma BucketBarStep(start: int, rows: seq<Row>, r: Row)
    ensures rows == [] ==> BucketBar(start, rows + [r]) == RowBar(r).(start := start)
    ensures rows != [] ==> BucketBar(start, rows + [r]) == Merge(BucketBar(start, rows), RowBar(r))
  {
    assert (rows + [r])[..|rows|] == rows;
    if rows == [] {
      assert rows + [r] == [r] && Sum([r]) == Sum([]) + r.price;
    }
  }

  function StartSet(bars: seq<Bar>): set<int> {
    set b | b in bars :: b.start
  }

  /** The bar of a bucket holds exactly the rows of that bucket. */
  ghost predicate FromBucket(rows: seq<Row>, width: nat, b: Bar)
    requires width > 0
  {
    InBucket(rows, width, b.start) != [] && b == BucketBar(b.start, InBucket(rows, width, b.start))
  }

  ghost predicate Rising(bars: seq<Bar>) {
    forall i, j :: 0 <= i < j < |bars| ==> bars[i].start < bars[j].start
  }

  /** One bar per bucket in increasing order, each computed from exactly the rows of its bucket. */
  ghost predicate OneBarPerBucket(rows: seq<Row>, width: nat, bars: seq<Bar>)
    requires width > 0
  {
    && Rising(bars)
    && StartSet(bars) == Starts(rows, width)
    && forall i :: 0 <= i < |bars| ==> FromBucket(rows, width, bars[i])
  }

  lemma InBucketStep(rows: seq<Row>, r: Row, width: nat, start: int)
    requires width > 0
    ensures InBucket(rows + [r], width, start)
            == if BucketStart(r.timestamp, width) == start then InBucket(rows, width, start) + [r]
               else InBucket(rows, width, start)
    ensures Starts(rows + [r], width) == Starts(rows, width) + {BucketStart(r.timestamp, width)}
  {
    assert (rows + [r])[..|rows|] == rows;
  }

  lemma BucketStartIsMonotone(a: int, b: int, width: nat)
    requires width > 0 && a <= b
    ensures BucketStart(a, width) <= BucketStart(b, width)
  {
    DivMod(a, width);
    DivMod(b, width);
    FloorAtLeast(a / width, b / width, b % width, width);
    Scaled(a / width, b / width, width);
  }

  lemma AppendStarts(bars: seq<Bar>, b: Bar)
    ensures StartSet(Append(bars, b)) == StartSet(bars) + {b.start}
  {
    var out := Append(bars, b);
    assert out[|out| - 1] in out && out[|out| - 1].start == b.start;
    forall x | x in bars ensures x.start in StartSet(out) {
      var i :| 0 <= i < |bars| && bars[i] == x;
      assert out[i] in out && out[i].start == x.start;
    }
    forall x | x in out ensures x.start in StartSet(bars) + {b.start} {
      var i :| 0 <= i < |out| && out[i] == x;
      if i < |bars| {
        assert bars[i] in bars && bars[i].start == x.start;
      }
    }
  }

  /** The bar of a bucket after one more row, in or out of the bucket. */
  lemma FromBucketStep(rows: seq<Row>, r: Row, width: nat, b: Bar)
    requires width > 0
    ensures FromBucket(rows, width, b) && b.start != BucketStart(r.timestamp, width) ==> FromBucket(rows + [r], width, b)
    ensures FromBucket(rows, width, b) && b.start == BucketStart(r.timestamp, width) ==>
              FromBucket(rows + [r], width, Merge(b, Into(RowBar(r), width)))
    ensures InBucket(rows, width, BucketStart(r.timestamp, width)) == [] ==>
              FromBucket(rows + [r], width, Into(RowBar(r), width))
  {
    InBucketStep(rows, r, width, b.start);
    InBucketStep(rows, r, width, BucketStart(r.timestamp, width));
    BucketBarStep(b.start, InBucket(rows, width, b.start), r);
    BucketBarStep(BucketStart(r.timestamp, width), InBucket(rows, width, BucketStart(r.timestamp, width)), r);
  }

  lemma {:induction false} EmptyBucket(rows: seq<Row>, width: nat, k: int)
    requires width > 0 && k !in Starts(rows, width)
    ensures InBucket(rows, width, k) == []
  {
    if rows != [] {
      var init := rows[..|rows| - 1];
      InBucketStep(init, rows[|rows| - 1], width, k);
      assert rows == init + [rows[|rows| - 1]];
      EmptyBucket(init, width, k);
    }
  }

  lemma StartsAreBounded(rows: seq<Row>, r: Row, width: nat)
    requires width > 0 && forall x :: x in rows ==> x.timestamp <= r.timestamp
    ensures forall k :: k in Starts(rows, width) ==> k <= BucketStart(r.timestamp, width)
  {
    forall k | k in Starts(rows, width) ensures k <= BucketStart(r.timestamp, width) {
      var x :| x in rows && BucketStart(x.timestamp, width) == k;
      BucketStartIsMonotone(x.timestamp, r.timestamp, width);
    }
  }

  /** The bars of earlier buckets all start before the bucket of a row that opens a new one. */
  lemma NewBucketIsLast(rows: seq<Row>, r: Row, width: nat, bars: seq<Bar>)
    requires width > 0 && OneBarPerBucket(rows, width, bars)
    requires forall x :: x in rows ==> x.timestamp <= r.timestamp
    requires bars == [] || bars[|bars| - 1].start != BucketStart(r.timestamp, width)
    ensures forall i :: 0 <= i < |bars| ==> bars[i].start < BucketStart(r.timestamp, width)
    ensures BucketStart(r.timestamp, width) !in Starts(rows, width)
  {
    StartsAreBounded(rows, r, width);
    forall i | 0 <= i < |bars| ensures bars[i].start < BucketStart(r.timestamp, width) {
      assert bars[i] in bars && bars[|bars| - 1] in bars;
      assert bars[|bars| - 1].start in StartSet(bars);
      assert i == |bars| - 1 || bars[i].start < bars[|bars| - 1].start;
    }
    forall b | b in bars ensures b.start < BucketStart(r.timestamp, width) {
      var i :| 0 <= i < |bars| && bars[i] == b;
    }
  }

  lemma MergeKeepsOneBarPerBucket(rows: seq<Row>, r: Row, width: nat, bars: seq<Bar>)
    requires width > 0 && OneBarPerBucket(rows, width, bars)
    requires bars != [] && bars[|bars| - 1].start == BucketStart(r.timestamp, width)
    ensures OneBarPerBucket(rows + [r], width, Append(bars, Into(RowBar(r), width)))
  {
    var out := Append(bars, Into(RowBar(r), width));
    InBucketStep(rows, r, width, BucketStart(r.timestamp, width));
    AppendStarts(bars, Into(RowBar(r), width));
    forall i | 0 <= i < |bars| ensures FromBucket(rows + [r], width, out[i]) && out[i].start == bars[i].start {
      assert FromBucket(rows, width, bars[i]);
      assert i == |bars| - 1 || bars[i].start < bars[|bars| - 1].start;
      FromBucketStep(rows, r, width, bars[i]);
    }
  }

  lemma RisingStep(bars: seq<Bar>, b: Bar)
    requires Rising(bars) && forall i :: 0 <= i < |bars| ==> bars[i].start < b.start
    ensures Append(bars, b) == bars + [b] && Rising(bars + [b])
  {}

  lemma OpenKeepsOneBarPerBucket(rows: seq<Row>, r: Row, width: nat, bars: seq<Bar>)
    requires width > 0 && OneBarPerBucket(rows, width, bars)
    requires forall x :: x in rows ==> x.timestamp <= r.timestamp
    requires bars == [] || bars[|bars| - 1].start != BucketStart(r.timestamp, width)
    ensures OneBarPerBucket(rows + [r], width, Append(bars, Into(RowBar(r), width)))
  {
    var out := Append(bars, Into(RowBar(r), width));
    InBucketStep(rows, r, width, BucketStart(r.timestamp, width));
    AppendStarts(bars, Into(RowBar(r), width));
    NewBucketIsLast(rows, r, width, bars);
    RisingStep(bars, Into(RowBar(r), width));
    EmptyBucket(rows, width, BucketStart(r.timestamp, width));
    FromBucketStep(rows, r, width, Into(RowBar(r), width));
    forall i | 0 <= i < |out| ensures FromBucket(rows + [r], width, out[i]) {
      if i < |bars| {
        assert FromBucket(rows, width, bars[i]);
        FromBucketStep(rows, r, width, bars[i]);
      }
    }
  }

  lemma AppendKeepsOneBarPerBucket(rows: seq<Row>, r: Row, width: nat, bars: seq<Bar>)
    requires width > 0 && OneBarPerBucket(rows, width, bars)
    requires forall x :: x in rows ==> x.timestamp <= r.timestamp
    ensures OneBarPerBucket(rows + [r], width, Append(bars, Into(RowBar(r), width)))
  {
    if bars != [] && bars[|bars| - 1].start == BucketStart(r.timestamp, width) {
      MergeKeepsOneBarPerBucket(rows, r, width, bars);
    } else {
      OpenKeepsOneBarPerBucket(rows, r, width, bars);
    }
  }

  lemma LastIsLatest(rows: seq<Row>)
    requires rows != [] && Ordered(rows, Asc)
    ensures forall x :: x in rows[..|rows| - 1] ==> x.timestamp <= rows[|rows| - 1].timestamp
  {
    forall x | x in rows[..|rows| - 1] ensures x.timestamp <= rows[|rows| - 1].timestamp {
      var i :| 0 <= i < |rows| - 1 && rows[..|rows| - 1][i] == x;
      assert Before(rows[i], rows[|rows| - 1], Asc);
    }
  }

  /** On rows in timestamp order, merging neighbours yields exactly one bar per bucket. */
  lemma {:induction false} OrderedRowsGiveOneBarPerBucket(rows: seq<Row>, width: nat)
    requires width > 0 && Ordered(rows, Asc)
    ensures OneBarPerBucket(rows, width, BarsOf(rows, width))
  {
    if rows != [] {
      var init, r := rows[..|rows| - 1], rows[|rows| - 1];
      OrderedRowsGiveOneBarPerBucket(init, width);
      assert rows == init + [r];
      assert RowBars(rows) == RowBars(init) + [RowBar(r)];
      RollUpStep(RowBars(init), RowBar(r), width);
      LastIsLatest(rows);
      AppendKeepsOneBarPerBucket(init, r, width, BarsOf(init, width));
    }
  }

  // ---------------------------------------------------------------- sums and averages

  /** `sum(prices, Decimal("0"))`: repeated addition in the decimal context. */
  function ContextSum(rows: seq<Row>): int {
    if rows == [] then 0 else ContextAdd(ContextSum(rows[..|rows| - 1]), rows[|rows| - 1].price)
  }

  lemma {:induction false} SumsStaySmall(rows: seq<Row>)
    ensures Abs(Sum(rows)) <= |rows| * 100_000_000_000_000_000_000
  {
    if rows != [] {
      SumsStaySmall(rows[..|rows| - 1]);
    }
  }

  /** Every partial sum of up to 10,000 prices has at most 24 digits, so no addition rounds. */
  lemma {:induction false} ContextSumIsExact(rows: seq<Row>)
    requires |rows| <= ROW_LIMIT
    ensures ContextSum(rows) == Sum(rows)
    ensures Abs(Sum(rows)) <= 1_000_000_000_000_000_000_000_000
  {
    SumsStaySmall(rows);
    if rows != [] {
      ContextSumIsExact(rows[..|rows| - 1]);
      SmallSumsAreExact(Sum(rows[..|rows| - 1]), rows[|rows| - 1].price);
    }
  }

  /** The exact sum lies between the extremes times the number of points. */
  ghost predicate Balanced(b: Bar) {
    b.points > 0 && b.low * b.points <= b.sum <= b.high * b.points
  }

  lemma MergeKeepsBalance(a: Bar, b: Bar)
    requires Balanced(a) && Balanced(b)
    ensures Balanced(Merge(a, b))
  {
    var m := Merge(a, b);
    Scaled(m.low, a.low, a.points);
    Scaled(m.low, b.low, b.points);
    Scaled(a.high, m.high, a.points);
    Scaled(b.high, m.high, b.points);
    Distribute(m.low, a.points, b.points);
    Distribute(m.high, a.points, b.points);
  }

  lemma Distribute(x: int, p: int, q: int)
    ensures x * (p + q) == x * p + x * q
  {}

  lemma {:induction false} RollUpKeepsBalance(bars: seq<Bar>, width: nat)
    requires width > 0 && forall i :: 0 <= i < |bars| ==> Balanced(bars[i])
    ensures forall i :: 0 <= i < |RollUp(bars, width)| ==> Balanced(RollUp(bars, width)[i])
  {
    if bars != [] {
      var parts, b := RollUp(bars[..|bars| - 1], width), Into(bars[|bars| - 1], width);
      RollUpKeepsBalance(bars[..|bars| - 1], width);
      assert Balanced(bars[|bars| - 1]);
      if parts != [] {
        MergeKeepsBalance(parts[|parts| - 1], b);
      }
    }
  }

  lemma BarsAreBalanced(rows: seq<Row>, width: nat)
    requires width > 0
    ensures forall i :: 0 <= i < |BarsOf(rows, width)| ==> Balanced(BarsOf(rows, width)[i])
  {
    RollUpKeepsBalance(RowBars(rows), width);
  }

  lemma BalanceFitsContext(b: Bar)
    requires Balanced(b)
    ensures Abs(b.sum) < LIMIT * b.points
  {
    Scaled(b.high, 100_000_000_000_000_000_000, b.points);
    Scaled(-100_000_000_000_000_000_000, b.low, b.points);
  }

  // ---------------------------------------------------------------- candles

  datatype Candle = Candle(ticker: Ticker, bucketStart: int, bucketEnd: int, openPrice: Price, highPrice: Price,
                           lowPrice: Price, closePrice: Price, averagePrice: Decimal, points: nat)

  function AverageOf(b: Bar): Decimal
    requires Balanced(b)
  {
    BalanceFitsContext(b);
    Quotient(b.sum, b.points)
  }

  function CandleOf(ticker: Ticker, width: nat, b: Bar): Candle
    requires Balanced(b)
  {
    Candle(ticker, b.start, b.start + width - 1, b.open, b.high, b.low, b.close, AverageOf(b), b.points)
  }

  function Render(ticker: Ticker, width: nat, bars: seq<Bar>): seq<Candle>
    requires forall i :: 0 <= i < |bars| ==> Balanced(bars[i])
  {
    seq(|bars|, i requires 0 <= i < |bars| => CandleOf(ticker, width, bars[i]))
  }

  /** The candles of fetched rows. */
  function CandlesOf(ticker: Ticker, rows: seq<Row>, width: nat): seq<Candle>
    requires width > 0
  {
    BarsAreBalanced(rows, width);
    Render(ticker, width, BarsOf(rows, width))
  }

  /** Rounded as it is, an average never leaves the range of its prices. */
  lemma AverageIsBetweenLowAndHigh(ticker: Ticker, rows: seq<Row>, width: nat, i: nat)
    requires width > 0 && i < |CandlesOf(ticker, rows, width)|
    ensures var c := CandlesOf(ticker, rows, width)[i];
      c.lowPrice * Pow10(c.averagePrice.scale) <= c.averagePrice.coefficient
      <= c.highPrice * Pow10(c.averagePrice.scale)
  {
    BarsAreBalanced(rows, width);
    var b := BarsOf(rows, width)[i];
    BalanceFitsContext(b);
    QuotientKeepsBounds(b.sum, b.points, b.low, b.high);
  }

  /**
    The candles of a coarser interval are the roll-up of a finer interval's bars over the same
    fetched rows, whether or not the row limit cut the query.
   */
  lemma CoarseCandlesAreRolledUpFineOnes(ticker: Ticker, rows: seq<Row>, fine: CandleInterval, coarse: CandleInterval)
    requires Seconds(fine) <= Seconds(coarse)
    ensures var rolled := RollUp(BarsOf(rows, Seconds(fine)), Seconds(coarse));
      && rolled == BarsOf(rows, Seconds(coarse))
      && (forall i :: 0 <= i < |rolled| ==> Balanced(rolled[i]))
      && CandlesOf(ticker, rows, Seconds(coarse)) == Render(ticker, Seconds(coarse), rolled)
  {
    var factor := Seconds(coarse) / Seconds(fine);
    assert Seconds(fine) * factor == Seconds(coarse);
    MultiplesNest(Seconds(fine), factor);
    RollUpOfRollUp(RowBars(rows), Seconds(fine), Seconds(coarse));
    BarsAreBalanced(rows, Seconds(coarse));
  }

  /** A candle read back as a bar: its average and its number of points determine the exact sum. */
  function AsBar(c: Candle): Bar {
    Bar(c.bucketStart, c.openPrice, c.highPrice, c.lowPrice, c.closePrice,
        RoundHalfEven(c.averagePrice.coefficient * c.points, Pow10(c.averagePrice.scale)), c.points)
  }

  function AsBars(candles: seq<Candle>): seq<Bar> {
    seq(|candles|, i requires 0 <= i < |candles| => AsBar(candles[i]))
  }

  lemma CandleReadBack(ticker: Ticker, width: nat, b: Bar)
    requires Balanced(b) && b.points <= ROW_LIMIT
    ensures AsBar(CandleOf(ticker, width, b)) == b
  {
    BalanceFitsContext(b);
    Scaled(b.high, 100_000_000_000_000_000_000, b.points);
    Scaled(-100_000_000_000_000_000_000, b.low, b.points);
    SumFromAverage(b.sum, b.points);
  }

  /** The candles lose nothing of the bars they were made from. */
  lemma CandlesReadBack(ticker: Ticker, rows: seq<Row>, width: nat)
    requires width > 0 && Ordered(rows, Asc) && |rows| <= ROW_LIMIT
    ensures AsBars(CandlesOf(ticker, rows, width)) == BarsOf(rows, width)
  {
    var bars := BarsOf(rows, width);
    BarsAreBalanced(rows, width);
    OrderedRowsGiveOneBarPerBucket(rows, width);
    forall i | 0 <= i < |bars| ensures AsBar(CandleOf(ticker, width, bars[i])) == bars[i] {
      assert FromBucket(rows, width, bars[i]);
      CandleReadBack(ticker, width, bars[i]);
    }
  }

  /** So coarse candles, averages included, can be computed from fine candles alone. */
  lemma CoarseCandlesFromFineCandles(ticker: Ticker, rows: seq<Row>, fine: CandleInterval, coarse: CandleInterval)
    requires Seconds(fine) <= Seconds(coarse) && Ordered(rows, Asc) && |rows| <= ROW_LIMIT
    ensures var rolled := RollUp(AsBars(CandlesOf(ticker, rows, Seconds(fine))), Seconds(coarse));
      && (forall i :: 0 <= i < |rolled| ==> Balanced(rolled[i]))
      && CandlesOf(ticker, rows, Seconds(coarse)) == Render(ticker, Seconds(coarse), rolled)
  {
    CoarseCandlesAreRolledUpFineOnes(ticker, rows, fine, coarse);
    CandlesReadBack(ticker, rows, Seconds(fine));
  }

  // ---------------------------------------------------------------- the bucketing loops

  lemma ElementsStep(ks: seq<int>, k: int)
    ensures Elements(ks + [k]) == Elements(ks) + {k}
  {}

  /** Every listed key is below every key still to come. */
  ghost predicate Below(ks: seq<int>, rest: set<int>) {
    forall i, x :: 0 <= i < |ks| && x in rest ==> ks[i] < x
  }

  lemma NextKey(ks: seq<int>, rest: set<int>, m: int)
    requires Increasing(ks) && Below(ks, rest) && m in rest && forall x :: x in rest ==> m <= x
    ensures Increasing(ks + [m]) && Below(ks + [m], rest - {m})
    ensures Elements(ks + [m]) + (rest - {m}) == Elements(ks) + rest
  {
    ElementsStep(ks, m);
    forall i, x | 0 <= i < |ks + [m]| && x in rest - {m} ensures (ks + [m])[i] < x {
      assert x in rest;
    }
  }

  /** `sorted(keys)`. */
  method SortedKeys(keys: set<int>) returns (ks: seq<int>)
    ensures Increasing(ks) && Elements(ks) == keys
  {
    ks := [];
    var rest := keys;
    while rest != {}
      invariant Increasing(ks) && Below(ks, rest) && Elements(ks) + rest == keys
      decreases |rest|
    {
      LeastExists(rest);
      var m :| m in rest && forall x :: x in rest ==> m <= x;
      NextKey(ks, rest, m);
      ks := ks + [m];
      rest := rest - {m};
    }
  }

  /** The dictionary of buckets after the given rows. */
  ghost predicate Filled(rows: seq<Row>, width: nat, buckets: map<int, seq<Row>>)
    requires width > 0
  {
    && buckets.Keys == Starts(rows, width)
    && forall k :: k in buckets ==> buckets[k] == InBucket(rows, width, k) && buckets[k] != []
  }

  lemma FilledStep(rows: seq<Row>, r: Row, width: nat, buckets: map<int, seq<Row>>)
    requires width > 0 && Filled(rows, width, buckets)
    ensures var start := BucketStart(r.timestamp, width);
      Filled(rows + [r], width, buckets[start := (if start in buckets then buckets[start] else []) + [r]])
  {
    var start := BucketStart(r.timestamp, width);
    InBucketStep(rows, r, width, start);
    if start !in buckets {
      EmptyBucket(rows, width, start);
    }
    forall k | k in buckets && k != start ensures InBucket(rows + [r], width, k) == buckets[k] {
      InBucketStep(rows, r, width, k);
    }
  }

  /** The loop over the fetched rows: each row goes to the end of its bucket's list. */
  method FillBuckets(prices: seq<Row>, width: nat) returns (buckets: map<int, seq<Row>>)
    requires width > 0
    ensures Filled(prices, width, buckets)
  {
    buckets := map[];
    for i := 0 to |prices|
      invariant Filled(prices[..i], width, buckets)
    {
      var start := BucketStart(prices[i].timestamp, width);
      FilledStep(prices[..i], prices[i], width, buckets);
      assert prices[..i + 1] == prices[..i] + [prices[i]];
      buckets := buckets[start := (if start in buckets then buckets[start] else []) + [prices[i]]];
    }
    assert prices[..|prices|] == prices;
  }

  function Fetched(rows: seq<Row>, ticker: Ticker, from: int, to: int): seq<Row> {
    GetByTickerAndDateRange(rows, Where(ticker, Some(from), Some(to)), ROW_LIMIT, 0, Asc)
  }

  lemma FetchedIsOrdered(rows: seq<Row>, ticker: Ticker, from: int, to: int)
    ensures Ordered(Fetched(rows, ticker, from, to), Asc)
    ensures |Fetched(rows, ticker, from, to)|
            == Min(ROW_LIMIT, |Matching(rows, Where(ticker, Some(from), Some(to)))|)
  {
    var full := Listing(rows, Where(ticker, Some(from), Some(to)), Asc);
    assert |multiset(full)| == |full|;
    assert |multiset(Matching(rows, Where(ticker, Some(from), Some(to))))| == |Matching(rows, Where(ticker, Some(from), Some(to)))|;
  }

  /**
    Which rows they are: stored rows of the ticker in the range, and when one of those is left out
    there were 10,000 to fetch, none of them later than it.
   */
  lemma FetchedHoldsOldest(rows: seq<Row>, ticker: Ticker, from: int, to: int)
    ensures forall r :: r in Fetched(rows, ticker, from, to) ==>
              r in rows && r.ticker == ticker && from <= r.timestamp <= to
    ensures forall x :: x in rows && x.ticker == ticker && from <= x.timestamp <= to && x !in Fetched(rows, ticker, from, to) ==>
              && |Fetched(rows, ticker, from, to)| == 10_000
              && forall r :: r in Fetched(rows, ticker, from, to) ==> r.timestamp <= x.timestamp
  {
    var q := Where(ticker, Some(from), Some(to));
    var full := Listing(rows, q, Asc);
    var n := Min(10_000, |full|);
    RangeMembers(rows, ticker, from, to, full);
    assert Fetched(rows, ticker, from, to) == full[..n];
    forall x | x in full && x !in full[..n] ensures n == 10_000 && forall r :: r in full[..n] ==> r.timestamp <= x.timestamp {
      LeftOutIsLater(full, n, x);
    }
  }

  lemma RangeMembers(rows: seq<Row>, ticker: Ticker, from: int, to: int, listed: seq<Row>)
    requires IsListing(rows, Where(ticker, Some(from), Some(to)), Asc, listed)
    ensures forall r :: r in listed <==> r in rows && r.ticker == ticker && from <= r.timestamp <= to
  {
    ListingMembers(rows, Where(ticker, Some(from), Some(to)), Asc, listed);
  }

  lemma LeftOutIsLater(full: seq<Row>, n: nat, x: Row)
    requires Ordered(full, Asc) && n <= |full| && x in full && x !in full[..n]
    ensures n < |full| && forall r :: r in full[..n] ==> r.timestamp <= x.timestamp
  {
    var j :| 0 <= j < |full| && full[j] == x;
    forall i | 0 <= i < n ensures full[i] != x {
      assert full[..n][i] in full[..n];
    }
    forall r | r in full[..n] ensures r.timestamp <= x.timestamp {
      var i :| 0 <= i < n && full[..n][i] == r;
      assert Before(full[i], full[j], Asc);
    }
  }

  /** Buckets in increasing order determine the bars. */
  lemma SortedBucketsAreTheBars(rows: seq<Row>, width: nat, ks: seq<int>, bars: seq<Bar>)
    requires width > 0 && OneBarPerBucket(rows, width, bars)
    requires Increasing(ks) && Elements(ks) == Starts(rows, width)
    ensures |bars| == |ks| && forall i :: 0 <= i < |ks| ==> bars[i] == BucketBar(ks[i], InBucket(rows, width, ks[i]))
  {
    var starts := seq(|bars|, i requires 0 <= i < |bars| => bars[i].start);
    forall k ensures k in starts <==> k in StartSet(bars) {
      if k in StartSet(bars) {
        var b :| b in bars && b.start == k;
        var i :| 0 <= i < |bars| && bars[i] == b;
        assert starts[i] == k;
      }
    }
    assert Elements(starts) == Elements(ks);
    RisingListsAgree(starts, ks);
    forall i | 0 <= i < |ks| ensures bars[i] == BucketBar(ks[i], InBucket(rows, width, ks[i])) {
      assert starts[i] == ks[i] && FromBucket(rows, width, bars[i]);
    }
  }

  lemma LastIsGreatest(a: seq<int>)
    requires Increasing(a) && a != []
    ensures forall k :: k in Elements(a) ==> k <= a[|a| - 1]
    ensures a[|a| - 1] in Elements(a) && Elements(a[..|a| - 1]) == Elements(a) - {a[|a| - 1]}
  {
    assert a == a[..|a| - 1] + [a[|a| - 1]];
    ElementsStep(a[..|a| - 1], a[|a| - 1]);
  }

  lemma {:induction false} RisingListsAgree(a: seq<int>, b: seq<int>)
    requires Increasing(a) && Increasing(b) && Elements(a) == Elements(b)
    ensures a == b
  {
    if a == [] {
      assert forall i :: 0 <= i < |b| ==> b[i] in Elements(b);
    } else {
      LastIsGreatest(a);
      assert b != [] by { assert a[|a| - 1] in Elements(b); }
      LastIsGreatest(b);
      RisingListsAgree(a[..|a| - 1], b[..|b| - 1]);
      assert a == a[..|a| - 1] + [a[|a| - 1]] && b == b[..|b| - 1] + [b[|b| - 1]];
    }
  }

  /** The candle the loop builds from the rows of one bucket. */
  function BucketCandle(ticker: Ticker, width: nat, start: int, bucket: seq<Row>): Candle
    requires 0 < |bucket| <= ROW_LIMIT
  {
    ContextSumIsExact(bucket);
    SumsStaySmall(bucket);
    Candle(ticker, start, start + width - 1, bucket[0].price, Highest(bucket), Lowest(bucket),
           bucket[|bucket| - 1].price, Quotient(ContextSum(bucket), |bucket|), |bucket|)
  }

  lemma BucketCandleIsBarCandle(ticker: Ticker, rows: seq<Row>, width: nat, start: int, b: Bar)
    requires width > 0 && |rows| <= ROW_LIMIT && InBucket(rows, width, start) != []
    requires b == BucketBar(start, InBucket(rows, width, start)) && Balanced(b)
    ensures BucketCandle(ticker, width, start, InBucket(rows, width, start)) == CandleOf(ticker, width, b)
  {
    ContextSumIsExact(InBucket(rows, width, start));
    BalanceFitsContext(b);
  }

  lemma CandlesByBucket(ticker: Ticker, rows: seq<Row>, width: nat, starts: seq<int>, i: nat)
    requires width > 0 && Ordered(rows, Asc) && |rows| <= ROW_LIMIT
    requires Increasing(starts) && Elements(starts) == Starts(rows, width) && i < |starts|
    ensures |CandlesOf(ticker, rows, width)| == |starts| && 0 < |InBucket(rows, width, starts[i])| <= ROW_LIMIT
    ensures CandlesOf(ticker, rows, width)[i] == BucketCandle(ticker, width, starts[i], InBucket(rows, width, starts[i]))
  {
    var bars := BarsOf(rows, width);
    OrderedRowsGiveOneBarPerBucket(rows, width);
    SortedBucketsAreTheBars(rows, width, starts, bars);
    BarsAreBalanced(rows, width);
    assert FromBucket(rows, width, bars[i]);
    BucketCandleIsBarCandle(ticker, rows, width, starts[i], bars[i]);
  }

  lemma OneCandlePerStart(ticker: Ticker, rows: seq<Row>, width: nat, starts: seq<int>)
    requires width > 0 && Ordered(rows, Asc)
    requires Increasing(starts) && Elements(starts) == Starts(rows, width)
    ensures |CandlesOf(ticker, rows, width)| == |starts|
  {
    OrderedRowsGiveOneBarPerBucket(rows, width);
    SortedBucketsAreTheBars(rows, width, starts, BarsOf(rows, width));
  }

  /** The loop over the sorted bucket starts: one candle per bucket. */
  method RenderBuckets(ticker: Ticker, ghost rows: seq<Row>, width: nat, buckets: map<int, seq<Row>>)
    returns (candles: seq<Candle>)
    requires width > 0 && Ordered(rows, Asc) && |rows| <= ROW_LIMIT && Filled(rows, width, buckets)
    ensures candles == CandlesOf(ticker, rows, width)
  {
    var starts := SortedKeys(buckets.Keys);
    ghost var all := CandlesOf(ticker, rows, width);
    OneCandlePerStart(ticker, rows, width, starts);
    candles := [];
    for i := 0 to |starts|
      invariant candles == all[..i]
    {
      assert starts[i] in Elements(starts);
      CandlesByBucket(ticker, rows, width, starts, i);
      assert all[..i + 1] == all[..i] + [all[i]];
      candles := candles + [BucketCandle(ticker, width, starts[i], buckets[starts[i]])];
    }
    assert all[..|all|] == all;
  }

  /** `get_candles`. */
  method GetCandles(rows: seq<Row>, ticker: Ticker, interval: CandleInterval, from: int, to: int)
    returns (candles: seq<Candle>)
    ensures candles == CandlesOf(ticker, Fetched(rows, ticker, from, to), Seconds(interval))
    ensures forall i :: 0 <= i < |candles| ==>
              candles[i].bucketEnd - candles[i].bucketStart + 1
              == match interval case OneMinute => 60 case FiveMinutes => 5 * 60 case OneHour => 60 * 60 case OneDay => 24 * 60 * 60
  {
    var prices := Fetched(rows, ticker, from, to);
    FetchedIsOrdered(rows, ticker, from, to);
    var buckets := FillBuckets(prices, Seconds(interval));
    candles := RenderBuckets(ticker, prices, Seconds(interval), buckets);
  }

  // ---------------------------------------------------------------- what the candles say

  /** The candle covers the timestamp. */
  predicate Covers(c: Candle, timestamp: int) {
    c.bucketStart <= timestamp <= c.bucketEnd
  }

  lemma BucketSpan(t: int, width: nat, start: int)
    requires width > 0 && BucketStart(start, width) == start
    ensures BucketStart(t, width) == start <==> start <= t <= start + width - 1
  {
    DivMod(t, width);
    DivMod(start, width);
    if start <= t <= start + width - 1 {
      QuotientIsUnique(t, width, start / width, t - start);
    }
  }

  lemma BucketStartIsAligned(t: int, width: nat)
    requires width > 0
    ensures BucketStart(BucketStart(t, width), width) == BucketStart(t, width)
  {
    QuotientIsUnique(BucketStart(t, width), width, t / width, 0);
  }

  /** The facts about candle `i` that the lemmas below start from. */
  lemma CandleFacts(ticker: Ticker, rows: seq<Row>, width: nat, i: nat)
    requires width > 0 && Ordered(rows, Asc) && i < |CandlesOf(ticker, rows, width)|
    ensures var c := CandlesOf(ticker, rows, width)[i];
      && BucketStart(c.bucketStart, width) == c.bucketStart
      && c.bucketEnd == c.bucketStart + width - 1
      && var bucket := InBucket(rows, width, c.bucketStart);
      && bucket != []
      && c.openPrice == bucket[0].price && c.closePrice == bucket[|bucket| - 1].price
      && c.highPrice == Highest(bucket) && c.lowPrice == Lowest(bucket) && c.points == |bucket|
      && forall r :: r in bucket <==> r in rows && Covers(c, r.timestamp)
  {
    var b := BarsOf(rows, width)[i];
    OrderedRowsGiveOneBarPerBucket(rows, width);
    assert FromBucket(rows, width, b);
    assert b in BarsOf(rows, width) && b.start in StartSet(BarsOf(rows, width));
    var r :| r in rows && BucketStart(r.timestamp, width) == b.start;
    BucketStartIsAligned(r.timestamp, width);
    FilterMembers(rows, BucketMatcher(width, b.start));
    forall x ensures x in InBucket(rows, width, b.start) <==> x in rows && b.start <= x.timestamp <= b.start + width - 1 {
      BucketSpan(x.timestamp, width, b.start);
    }
  }

  /** Candles are aligned, disjoint, in increasing order, and every fetched row lies in exactly one. */
  lemma CandlesPartitionRows(ticker: Ticker, rows: seq<Row>, width: nat)
    requires width > 0 && Ordered(rows, Asc)
    ensures var cs := CandlesOf(ticker, rows, width);
      && (forall i :: 0 <= i < |cs| ==> cs[i].bucketStart % width == 0 && cs[i].bucketEnd == cs[i].bucketStart + width - 1)
      && (forall i, j :: 0 <= i < j < |cs| ==> cs[i].bucketEnd < cs[j].bucketStart)
      && (forall r :: r in rows ==> exists i :: 0 <= i < |cs| && Covers(cs[i], r.timestamp))
  {
    var cs, bars := CandlesOf(ticker, rows, width), BarsOf(rows, width);
    OrderedRowsGiveOneBarPerBucket(rows, width);
    forall i | 0 <= i < |cs| ensures cs[i].bucketStart % width == 0 && cs[i].bucketEnd == cs[i].bucketStart + width - 1 {
      CandleFacts(ticker, rows, width, i);
      QuotientIsUnique(cs[i].bucketStart, width, cs[i].bucketStart / width, 0);
    }
    forall i, j | 0 <= i < j < |cs| ensures cs[i].bucketEnd < cs[j].bucketStart {
      CandleFacts(ticker, rows, width, i);
      CandleFacts(ticker, rows, width, j);
      assert bars[i].start < bars[j].start;
      BucketSpan(cs[j].bucketStart, width, cs[i].bucketStart);
    }
    forall r | r in rows ensures exists i :: 0 <= i < |cs| && Covers(cs[i], r.timestamp) {
      assert BucketStart(r.timestamp, width) in StartSet(bars);
      var b :| b in bars && b.start == BucketStart(r.timestamp, width);
      var i :| 0 <= i < |bars| && bars[i] == b;
      BucketStartIsAligned(r.timestamp, width);
      BucketSpan(r.timestamp, width, b.start);
      assert Covers(cs[i], r.timestamp);
    }
  }

  lemma {:induction false} FilterKeepsOrder(rows: seq<Row>, p: Row -> bool)
    requires Ordered(rows, Asc)
    ensures Ordered(Filter(rows, p), Asc)
  {
    if rows != [] {
      var init, last := rows[..|rows| - 1], rows[|rows| - 1];
      FilterKeepsOrder(init, p);
      FilterMembers(init, p);
      LastIsLatest(rows);
      OrderedSnoc(Filter(init, p), last, Asc);
    }
  }

  lemma {:induction false} ExtremesAreAttained(rows: seq<Row>)
    requires rows != []
    ensures forall r :: r in rows ==> Lowest(rows) <= r.price <= Highest(rows)
    ensures (exists r :: r in rows && r.price == Highest(rows)) && (exists r :: r in rows && r.price == Lowest(rows))
  {
    var init, last := rows[..|rows| - 1], rows[|rows| - 1];
    assert rows == init + [last];
    assert last in rows;
    if |rows| > 1 {
      ExtremesAreAttained(init);
      var h :| h in init && h.price == Highest(init);
      var l :| l in init && l.price == Lowest(init);
      assert h in rows && l in rows;
    }
  }

  function Covered(rows: seq<Row>, c: Candle): seq<Row> {
    Filter(rows, (r: Row) => Covers(c, r.timestamp))
  }

  /** A candle counts the rows it covers, and its average is their exact sum over their number, correctly rounded. */
  lemma CandleAveragesItsRows(ticker: Ticker, rows: seq<Row>, width: nat, i: nat)
    requires width > 0 && Ordered(rows, Asc) && i < |CandlesOf(ticker, rows, width)|
    ensures var c := CandlesOf(ticker, rows, width)[i];
      && c.ticker == ticker && c.points == |Covered(rows, c)|
      && CorrectlyRounded(c.averagePrice, Sum(Covered(rows, c)), c.points)
  {
    var c, b := CandlesOf(ticker, rows, width)[i], BarsOf(rows, width)[i];
    BarsAreBalanced(rows, width);
    OrderedRowsGiveOneBarPerBucket(rows, width);
    assert FromBucket(rows, width, b);
    CandleFacts(ticker, rows, width, i);
    forall r | r in rows ensures BucketMatcher(width, b.start)(r) == Covers(c, r.timestamp) {
      FilterMembers(rows, BucketMatcher(width, b.start));
    }
    FilterSame(rows, BucketMatcher(width, b.start), (r: Row) => Covers(c, r.timestamp));
    BalanceFitsContext(b);
    QuotientIsCorrectlyRounded(b.sum, b.points);
  }

  /**
    Within the rows a candle covers, it opens at the price of a row with the least timestamp,
    closes at the price of one with the greatest, and its high and low are the extreme prices.
   */
  lemma CandleDescribesItsRows(ticker: Ticker, rows: seq<Row>, width: nat, i: nat)
    requires width > 0 && Ordered(rows, Asc) && i < |CandlesOf(ticker, rows, width)|
    ensures var c := CandlesOf(ticker, rows, width)[i];
      && (exists first :: first in rows && Covers(c, first.timestamp) && first.price == c.openPrice
                          && forall r :: r in rows && Covers(c, r.timestamp) ==> first.timestamp <= r.timestamp)
      && (exists last :: last in rows && Covers(c, last.timestamp) && last.price == c.closePrice
                         && forall r :: r in rows && Covers(c, r.timestamp) ==> r.timestamp <= last.timestamp)
      && (forall r :: r in rows && Covers(c, r.timestamp) ==> c.lowPrice <= r.price <= c.highPrice)
      && (exists r :: r in rows && Covers(c, r.timestamp) && r.price == c.highPrice)
      && (exists r :: r in rows && Covers(c, r.timestamp) && r.price == c.lowPrice)
  {
    var c := CandlesOf(ticker, rows, width)[i];
    var bucket := InBucket(rows, width, c.bucketStart);
    CandleFacts(ticker, rows, width, i);
    FilterKeepsOrder(rows, BucketMatcher(width, c.bucketStart));
    ExtremesAreAttained(bucket);
    var first, last := bucket[0], bucket[|bucket| - 1];
    assert first in bucket && last in bucket;
    forall r | r in bucket ensures first.timestamp <= r.timestamp <= last.timestamp {
      var j :| 0 <= j < |bucket| && bucket[j] == r;
      assert j == 0 || Before(bucket[0], bucket[j], Asc);
      assert j == |bucket| - 1 || Before(bucket[j], bucket[|bucket| - 1], Asc);
    }
    var h :| h in bucket && h.price == c.highPrice;
    var l :| l in bucket && l.price == c.lowPrice;
  }

  // ---------------------------------------------------------------- the whole range as one bar

  /** All bars merged from left to right. */
  function Whole(bars: seq<Bar>): Bar
    requires bars != []
  {
    if |bars| == 1 then bars[0] else Merge(Whole(bars[..|bars| - 1]), bars[|bars| - 1])
  }

  lemma WholeOfAppend(bars: seq<Bar>, b: Bar)
    ensures Whole(Append(bars, b)) == if bars == [] then b else Merge(Whole(bars), b)
  {
    if bars != [] && bars[|bars| - 1].start == b.start {
      var init, last := bars[..|bars| - 1], bars[|bars| - 1];
      assert Append(bars, b)[..|init|] == init;
      if init != [] {
        MergeIsAssociative(Whole(init), last, b);
      }
    } else {
      assert (bars + [b])[..|bars|] == bars;
    }
  }

  /** Rolling up loses nothing: the merged bars cover the same whole. */
  lemma {:induction false} WholeOfRollUp(bars: seq<Bar>, width: nat)
    requires width > 0 && bars != []
    ensures RollUp(bars, width) != []
    ensures Whole(RollUp(bars, width)) == Into(Whole(bars), width)
  {
    var init, b := bars[..|bars| - 1], bars[|bars| - 1];
    WholeOfAppend(RollUp(init, width), Into(b, width));
    if init != [] {
      WholeOfRollUp(init, width);
    }
  }

  lemma {:induction false} WholeOfRows(rows: seq<Row>)
    requires rows != []
    ensures Whole(RowBars(rows)) == BucketBar(rows[0].timestamp, rows)
  {
    var init, r := rows[..|rows| - 1], rows[|rows| - 1];
    assert rows == init + [r];
    assert RowBars(rows)[..|init|] == RowBars(init);
    BucketBarStep(rows[0].timestamp, init, r);
    if init != [] {
      WholeOfRows(init);
    }
  }

  /** What a list of candles says as a whole. */
  datatype Digest = Digest(open: Price, high: Price, low: Price, close: Price, points: nat)

  function DigestOf(candles: seq<Candle>): Digest
    requires candles != []
  {
    var c := candles[|candles| - 1];
    if |candles| == 1 then Digest(c.openPrice, c.highPrice, c.lowPrice, c.closePrice, c.points) else
      var d := DigestOf(candles[..|candles| - 1]);
      Digest(d.open, Higher(d.high, c.highPrice), Lower(d.low, c.lowPrice), c.closePrice, d.points + c.points)
  }

  lemma {:induction false} DigestOfRendered(ticker: Ticker, width: nat, bars: seq<Bar>)
    requires bars != [] && forall i :: 0 <= i < |bars| ==> Balanced(bars[i])
    ensures var w := Whole(bars); DigestOf(Render(ticker, width, bars)) == Digest(w.open, w.high, w.low, w.close, w.points)
  {
    if |bars| > 1 {
      DigestOfRendered(ticker, width, bars[..|bars| - 1]);
      assert Render(ticker, width, bars)[..|bars| - 1] == Render(ticker, width, bars[..|bars| - 1]);
    }
  }

  /** The candles of any interval, folded, are the first, highest, lowest and last price and the row count. */
  lemma CandlesDigestRows(ticker: Ticker, rows: seq<Row>, width: nat)
    requires width > 0
    ensures CandlesOf(ticker, rows, width) == [] <==> rows == []
    ensures rows != [] ==> DigestOf(CandlesOf(ticker, rows, width))
                           == Digest(rows[0].price, Highest(rows), Lowest(rows), rows[|rows| - 1].price, |rows|)
  {
    if rows != [] {
      WholeOfRollUp(RowBars(rows), width);
      WholeOfRows(rows);
      BarsAreBalanced(rows, width);
      DigestOfRendered(ticker, width, BarsOf(rows, width));
    }
  }

  // ---------------------------------------------------------------- the price summary

  datatype Trend = Up | Down | Flat

  datatype Summary = Summary(ticker: Ticker, timestampFrom: int, timestampTo: int, points: nat,
                             minPrice: Price, maxPrice: Price, averagePrice: Decimal,
                             priceChange: int, priceChangePercent: Decimal,
                             startPrice: Price, endPrice: Price, trend: Trend)

  /** (change / start) * 100; the product drops only zeros when it is cut back to 28 digits. */
  function ChangePercent(change: int, start: Price): Decimal
    requires Abs(change) < LIMIT
  {
    if start == 0 then Decimal(0, 0) else
      var ratio := Quotient(if start < 0 then -change else change, Abs(start));
      Decimal(100 * ratio.coefficient, ratio.scale)
  }

  /** `get_price_summary`; None when no row matches. */
  function GetPriceSummary(rows: seq<Row>, ticker: Ticker, from: int, to: int): Option<Summary> {
    var prices := Fetched(rows, ticker, from, to);
    if prices == [] then None else
      FetchedIsOrdered(rows, ticker, from, to);
      ContextSumIsExact(prices);
      SumsStaySmall(prices);
      var start, end := prices[0].price, prices[|prices| - 1].price;
      var change := ContextAdd(end, -start);
      SmallSumsAreExact(end, -start);
      Some(Summary(ticker, from, to, |prices|, Lowest(prices), Highest(prices),
                   Quotient(ContextSum(prices), |prices|), change, ChangePercent(change, start), start, end,
                   if change > 0 then Up else if change < 0 then Down else Flat))
  }

  /** The summary and the candles of any interval describe the same rows. */
  lemma SummaryAgreesWithCandles(rows: seq<Row>, ticker: Ticker, from: int, to: int, interval: CandleInterval)
    ensures var candles := CandlesOf(ticker, Fetched(rows, ticker, from, to), Seconds(interval));
      var summary := GetPriceSummary(rows, ticker, from, to);
      && (summary.None? <==> candles == [])
      && (summary.Some? ==>
            var s := summary.value;
            && DigestOf(candles) == Digest(s.startPrice, s.maxPrice, s.minPrice, s.endPrice, s.points)
            && s.priceChange == candles[|candles| - 1].closePrice - candles[0].openPrice
            && s.points == Min(ROW_LIMIT, |Matching(rows, Where(ticker, Some(from), Some(to)))|))
  {
    var prices := Fetched(rows, ticker, from, to);
    var candles := CandlesOf(ticker, prices, Seconds(interval));
    CandlesDigestRows(ticker, prices, Seconds(interval));
    SummaryDescribesFetchedRows(rows, ticker, from, to);
    if candles != [] {
      DigestEnds(candles);
    }
  }

  /** The prices a summary reports are those of the fetched rows, at most the first ROW_LIMIT matching ones. */
  lemma SummaryDescribesFetchedRows(rows: seq<Row>, ticker: Ticker, from: int, to: int)
    ensures var prices := Fetched(rows, ticker, from, to);
      var summary := GetPriceSummary(rows, ticker, from, to);
      && (summary.None? <==> prices == [])
      && (summary.Some? ==>
            var s := summary.value;
            && Digest(s.startPrice, s.maxPrice, s.minPrice, s.endPrice, s.points)
               == Digest(prices[0].price, Highest(prices), Lowest(prices), prices[|prices| - 1].price, |prices|)
            && s.ticker == ticker && s.timestampFrom == from && s.timestampTo == to
            && s.priceChange == s.endPrice - s.startPrice
            && s.points == Min(ROW_LIMIT, |Matching(rows, Where(ticker, Some(from), Some(to)))|))
  {
    var prices := Fetched(rows, ticker, from, to);
    FetchedIsOrdered(rows, ticker, from, to);
    if prices != [] {
      SmallSumsAreExact(prices[|prices| - 1].price, -prices[0].price);
    }
  }

  lemma {:induction false} DigestEnds(candles: seq<Candle>)
    requires candles != []
    ensures DigestOf(candles).open == candles[0].openPrice && DigestOf(candles).close == candles[|candles| - 1].closePrice
  {
    if |candles| > 1 {
      DigestEnds(candles[..|candles| - 1]);
    }
  }

  /** The average of a range is the exact sum of the fetched prices over their number, correctly rounded. */
  lemma SummaryAverageIsRounded(rows: seq<Row>, ticker: Ticker, from: int, to: int)
    requires Fetched(rows, ticker, from, to) != []
    ensures GetPriceSummary(rows, ticker, from, to).Some?
    ensures var prices, s := Fetched(rows, ticker, from, to), GetPriceSummary(rows, ticker, from, to).value;
      CorrectlyRounded(s.averagePrice, Sum(prices), |prices|)
  {
    var prices := Fetched(rows, ticker, from, to);
    FetchedIsOrdered(rows, ticker, from, to);
    ContextSumIsExact(prices);
    SumsStaySmall(prices);
    QuotientIsCorrectlyRounded(Sum(prices), |prices|);
  }

  /** `d` is 100 * change / start, off by at most half a unit of the 28th digit; zero for a zero start. */
  predicate PercentRounded(d: Decimal, change: int, start: int) {
    if start == 0 then d.coefficient == 0 else
      && 2 * Abs(d.coefficient * start - 100 * change * Pow10(d.scale)) <= 100 * Abs(start)
      && (change != 0 ==> 100 * LIMIT <= 10 * Abs(d.coefficient) <= 1000 * LIMIT)
  }

  /** An error bound of c against change / start, both turned to a positive start, holds a hundredfold of 100 * c. */
  lemma HundredfoldError(c: int, start: int, change: int, p: int)
    requires start > 0 ==> 2 * Abs(c * start - change * p) <= start
    requires start < 0 ==> 2 * Abs(c * -start - -change * p) <= -start
    requires start != 0
    ensures 2 * Abs((100 * c) * start - 100 * change * p) <= 100 * Abs(start)
  {
    assert (100 * c) * start - 100 * change * p == 100 * (c * start - change * p);
    assert c * -start - -change * p == -(c * start - change * p);
  }

  lemma PercentIsRounded(change: int, start: Price)
    requires Abs(change) < LIMIT
    ensures PercentRounded(ChangePercent(change, start), change, start)
  {
    if start != 0 {
      var d := Quotient(if start < 0 then -change else change, Abs(start));
      QuotientIsCorrectlyRounded(if start < 0 then -change else change, Abs(start));
      HundredfoldError(d.coefficient, start, change, Pow10(d.scale));
    }
  }

  /** The percentage a summary reports. */
  lemma SummaryPercentIsRounded(rows: seq<Row>, ticker: Ticker, from: int, to: int)
    requires Fetched(rows, ticker, from, to) != []
    ensures GetPriceSummary(rows, ticker, from, to).Some?
    ensures var s := GetPriceSummary(rows, ticker, from, to).value;
      PercentRounded(s.priceChangePercent, s.endPrice - s.startPrice, s.startPrice)
  {
    SummaryTrend(rows, ticker, from, to);
    var s := GetPriceSummary(rows, ticker, from, to).value;
    PercentIsRounded(s.priceChange, s.startPrice);
  }

  /** The rounded average of a range lies between its lowest and highest price. */
  lemma SummaryAverageIsBetween(rows: seq<Row>, ticker: Ticker, from: int, to: int)
    requires Fetched(rows, ticker, from, to) != []
    ensures GetPriceSummary(rows, ticker, from, to).Some?
    ensures var s := GetPriceSummary(rows, ticker, from, to).value;
      s.minPrice * Pow10(s.averagePrice.scale) <= s.averagePrice.coefficient
      <= s.maxPrice * Pow10(s.averagePrice.scale)
  {
    var prices := Fetched(rows, ticker, from, to);
    FetchedIsOrdered(rows, ticker, from, to);
    ContextSumIsExact(prices);
    SumsStaySmall(prices);
    SumIsBetween(prices);
    QuotientKeepsBounds(Sum(prices), |prices|, Lowest(prices), Highest(prices));
  }

  lemma {:induction false} SumIsBetween(rows: seq<Row>)
    requires rows != []
    ensures Balanced(BucketBar(0, rows))
  {
    var init, r := rows[..|rows| - 1], rows[|rows| - 1];
    assert rows == init + [r];
    BucketBarStep(0, init, r);
    if init != [] {
      SumIsBetween(init);
      MergeKeepsBalance(BucketBar(0, init), RowBar(r));
    }
  }

  function SignOf(x: int): int { if x > 0 then 1 else if x < 0 then -1 else 0 }

  function TrendSign(t: Trend): int {
    match t case Up => 1 case Down => -1 case Flat => 0
  }

  /**
    The trend is the sign of the exact change, and the sign of the rounded percentage agrees with
    it exactly when the start price is positive or nothing changed: a start price of zero reports
    zero percent whatever the trend, a negative one reports the opposite sign.
   */
  lemma TrendAgreesWithPercentExactlyWhen(rows: seq<Row>, ticker: Ticker, from: int, to: int)
    requires Fetched(rows, ticker, from, to) != []
    ensures GetPriceSummary(rows, ticker, from, to).Some?
    ensures var s := GetPriceSummary(rows, ticker, from, to).value;
      && TrendSign(s.trend) == SignOf(s.endPrice - s.startPrice)
      && SignOf(s.priceChangePercent.coefficient) == SignOf(s.startPrice) * SignOf(s.priceChange)
      && (SignOf(s.priceChangePercent.coefficient) == TrendSign(s.trend) <==> s.startPrice > 0 || s.priceChange == 0)
  {
    var s := GetPriceSummary(rows, ticker, from, to).value;
    SummaryTrend(rows, ticker, from, to);
    PercentSign(s.priceChange, s.startPrice);
  }

  lemma SummaryTrend(rows: seq<Row>, ticker: Ticker, from: int, to: int)
    requires Fetched(rows, ticker, from, to) != []
    ensures GetPriceSummary(rows, ticker, from, to).Some?
    ensures var s := GetPriceSummary(rows, ticker, from, to).value;
      && s.priceChange == s.endPrice - s.startPrice && Abs(s.priceChange) < LIMIT
      && TrendSign(s.trend) == SignOf(s.priceChange)
      && s.priceChangePercent == ChangePercent(s.priceChange, s.startPrice)
  {
    var prices := Fetched(rows, ticker, from, to);
    SmallSumsAreExact(prices[|prices| - 1].price, -prices[0].price);
  }

  /** Dividing by the start price turns the sign of the change with it; zero divides to zero. */
  lemma PercentSign(change: int, start: Price)
    requires Abs(change) < LIMIT
    ensures SignOf(ChangePercent(change, start).coefficient) == SignOf(start) * SignOf(change)
  {
    if start != 0 {
      QuotientIsCorrectlyRounded(if start < 0 then -change else change, Abs(start));
    }
  }
}
