/** The history ranges and the parse loop that turns one chart response into points. */
module ChartData {
  import opened Collections
  import opened PriceTable

  datatype HistoryRange = OneHour | OneDay | TwoDays | OneMonth | OneYear | AllHistory

  function RangeName(r: HistoryRange): string {
    match r
    case OneHour => "1h"
    case OneDay => "1d"
    case TwoDays => "2d"
    case OneMonth => "1m"
    case OneYear => "1y"
    case AllHistory => "all"
  }

  /** `HistoryRange(name)`; None where the enum raises ValueError. */
  function ParseRange(name: string): Option<HistoryRange> {
    if name == "1h" then Some(OneHour)
    else if name == "1d" then Some(OneDay)
    else if name == "2d" then Some(TwoDays)
    else if name == "1m" then Some(OneMonth)
    else if name == "1y" then Some(OneYear)
    else if name == "all" then Some(AllHistory)
    else None
  }

  datatype Point = Point(price: Price, timestamp: int)

  /** A JSON number used as a timestamp in milliseconds. */
  datatype Millis = IntMs(n: int) | FloatMs(x: real) | NotANumber | Infinite

  /** One element of the response list; `price` is None when it is not a decimal literal. */
  datatype ChartItem =
    | NotAPair
    | BadTimestamp
    | Item(ms: Millis, price: Option<Price>)

  /**
    What a chart request ends in. A float timestamp that is NaN raises ValueError; an infinite
    one, or a price that is no decimal, raises another exception.
   */
  datatype ChartAnswer =
    | Points(points: seq<Point>)
    | PermanentChartError
    | TransientChartError
    | ValueChartError
    | OtherChartError

  /** `int(ms)`: a float is cut toward zero. */
  function WholeMillis(ms: Millis): int
    requires ms.IntMs? || ms.FloatMs?
  {
    match ms
    case IntMs(n) => n
    case FloatMs(x) => if x >= 0.0 then x.Floor else -((-x).Floor)
  }

  /** `int(ms) // 1000`: floor division, also for negative timestamps. */
  function SecondOf(ms: Millis): int
    requires ms.IntMs? || ms.FloatMs?
  {
    WholeMillis(ms) / 1000
  }

  /** The millisecond timestamp, cut to a whole number toward zero, lies in the given second. */
  predicate InSecond(ms: Millis, second: int) {
    match ms
    case IntMs(n) => 1000 * second <= n < 1000 * (second + 1)
    case FloatMs(x) =>
      if x >= 0.0 then (1000 * second) as real <= x < (1000 * (second + 1)) as real
      else (1000 * second - 1) as real < x <= (1000 * second + 999) as real
    case NotANumber => false
    case Infinite => false
  }

  /** The second of a timestamp is the one it lies in, and it lies in no other. */
  lemma SecondIsFloored(ms: Millis, second: int)
    requires ms.IntMs? || ms.FloatMs?
    ensures InSecond(ms, second) <==> second == SecondOf(ms)
  {
    var n := WholeMillis(ms);
    if ms.FloatMs? && ms.x < 0.0 {
      assert (n - 1) as real < ms.x <= n as real;
    }
    assert 1000 * (n / 1000) <= n < 1000 * (n / 1000) + 1000;
  }

  predicate Wellformed(item: ChartItem) {
    item.Item? && item.price.Some? && (item.ms.IntMs? || item.ms.FloatMs?)
  }

  predicate Parseable(items: seq<ChartItem>) {
    forall i :: 0 <= i < |items| ==> Wellformed(items[i])
  }

  /** The exception a malformed item raises; the price is converted before the timestamp. */
  function ItemError(item: ChartItem): ChartAnswer
    requires !Wellformed(item)
  {
    if !item.Item? then PermanentChartError
    else if item.price.None? then OtherChartError
    else if item.ms.NotANumber? then ValueChartError
    else OtherChartError
  }

  function PointOf(item: ChartItem): Point
    requires Wellformed(item)
  {
    Point(item.price.value, SecondOf(item.ms))
  }

  /** One point per item, in order, with the item's price and the second its timestamp lies in. */
  ghost predicate Parsed(items: seq<ChartItem>, points: seq<Point>)
    requires Parseable(items)
  {
    && |points| == |items|
    && forall i :: 0 <= i < |items| ==> points[i].price == items[i].price.value && InSecond(items[i].ms, points[i].timestamp)
  }

  /** What the first malformed item ends the request in; a malformed price is noticed before a bad number. */
  predicate FailsWith(item: ChartItem, answer: ChartAnswer) {
    if item.NotAPair? || item.BadTimestamp? then answer == PermanentChartError
    else if item.price == None then answer == OtherChartError
    else if item.ms == NotANumber then answer == ValueChartError
    else item.ms == Infinite && answer == OtherChartError
  }

  /** The parse loop: every item becomes a point, or the first malformed one decides the error. */
  method ParseChart(items: seq<ChartItem>) returns (answer: ChartAnswer)
    ensures answer.Points? <==> Parseable(items)
    ensures Parseable(items) ==> Parsed(items, answer.points)
    ensures !answer.Points? ==>
              exists i :: 0 <= i < |items| && !Wellformed(items[i]) && FailsWith(items[i], answer)
                          && forall j :: 0 <= j < i ==> Wellformed(items[j])
  {
    var parsed: seq<Point> := [];
    for i := 0 to |items|
      invariant |parsed| == i
      invariant forall j :: 0 <= j < i ==> Wellformed(items[j])
      invariant forall j :: 0 <= j < i ==> parsed[j].price == items[j].price.value && InSecond(items[j].ms, parsed[j].timestamp)
    {
      if !Wellformed(items[i]) {
        return ItemError(items[i]);
      }
      SecondIsFloored(items[i].ms, SecondOf(items[i].ms));
      parsed := parsed + [PointOf(items[i])];
    }
    answer := Points(parsed);
  }

  /** The rows a backfill of one ticker saves, in order. */
  function RowsOf(t: Ticker, points: seq<Point>): seq<Row> {
    seq(|points|, i requires 0 <= i < |points| => Row(t, points[i].timestamp, points[i].price))
  }

  lemma {:induction false} LastWriteIsLastIndex(writes: seq<Row>, k: Key, i: nat)
    requires i < |writes| && writes[i].Id() == k
    requires forall j :: i < j < |writes| ==> writes[j].Id() != k
    ensures k in Keys(writes) && LastWrite(writes, k) == writes[i].price
  {
    assert writes[i] in writes;
    if i < |writes| - 1 {
      LastWriteIsLastIndex(writes[..|writes| - 1], k, i);
    }
  }

  /** Some item lies in the second. */
  ghost predicate Reports(items: seq<ChartItem>, second: int) {
    exists i :: 0 <= i < |items| && items[i].Item? && InSecond(items[i].ms, second)
  }

  /** Item `i` is the last one that lies in the second. */
  ghost predicate LastReport(items: seq<ChartItem>, second: int, i: nat)
    requires i < |items| && Parseable(items)
  {
    InSecond(items[i].ms, second) && forall j :: i < j < |items| ==> !InSecond(items[j].ms, second)
  }

  /**
    Backfill is a last-writer-wins fold: a second holds the price of the last chart item whose
    milliseconds lie in it, every other key is untouched, and replaying the chart changes nothing.
   */
  lemma BackfillKeepsLastPointOfEachSecond(table: Table, t: Ticker, items: seq<ChartItem>, points: seq<Point>)
    requires Parseable(items) && Parsed(items, points)
    ensures var after := Apply(table, RowsOf(t, points));
      && (forall i, second | 0 <= i < |items| && LastReport(items, second, i) ::
            Key(t, second) in after && after[Key(t, second)] == items[i].price.value)
      && (forall k: Key | k.ticker != t || !Reports(items, k.timestamp) ::
            (k in after <==> k in table) && (k in table ==> after[k] == table[k]))
      && (forall second | Reports(items, second) :: Key(t, second) in after)
      && Apply(after, RowsOf(t, points)) == after
  {
    var writes := RowsOf(t, points);
    ApplyIsLastWriterWins(table, writes);
    ApplyIsIdempotent(table, writes);
    forall i, second | 0 <= i < |items| && LastReport(items, second, i)
      ensures Key(t, second) in Keys(writes) && LastWrite(writes, Key(t, second)) == items[i].price.value
    {
      LastReportIsLastWrite(t, items, points, second, i);
    }
    forall k: Key ensures k in Keys(writes) <==> k.ticker == t && Reports(items, k.timestamp) {
      SavedKeys(t, items, points, k);
    }
  }

  lemma PointAt(items: seq<ChartItem>, points: seq<Point>, i: nat, second: int)
    requires Parseable(items) && Parsed(items, points) && i < |items|
    ensures InSecond(items[i].ms, second) <==> points[i].timestamp == second
  {
    SecondIsFloored(items[i].ms, points[i].timestamp);
    SecondIsFloored(items[i].ms, second);
  }

  lemma LastReportIsLastWrite(t: Ticker, items: seq<ChartItem>, points: seq<Point>, second: int, i: nat)
    requires Parseable(items) && Parsed(items, points) && i < |items| && LastReport(items, second, i)
    ensures var writes, k := RowsOf(t, points), Key(t, second);
      k in Keys(writes) && LastWrite(writes, k) == items[i].price.value
  {
    PointAt(items, points, i, second);
    forall j | i < j < |items| ensures points[j].timestamp != second {
      PointAt(items, points, j, second);
    }
    LastWriteIsLastIndex(RowsOf(t, points), Key(t, second), i);
  }

  lemma SavedKeys(t: Ticker, items: seq<ChartItem>, points: seq<Point>, k: Key)
    requires Parseable(items) && Parsed(items, points)
    ensures k in Keys(RowsOf(t, points)) <==> k.ticker == t && Reports(items, k.timestamp)
  {
    var writes := RowsOf(t, points);
    if k in Keys(writes) {
      var r :| r in writes && r.Id() == k;
      var i :| 0 <= i < |writes| && writes[i] == r;
      PointAt(items, points, i, k.timestamp);
      assert items[i].Item? && InSecond(items[i].ms, k.timestamp);
    }
    if k.ticker == t && Reports(items, k.timestamp) {
      var i :| 0 <= i < |items| && items[i].Item? && InSecond(items[i].ms, k.timestamp);
      PointAt(items, points, i, k.timestamp);
      assert writes[i] in writes;
    }
  }
}
