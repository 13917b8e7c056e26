/** The batch fetch and backfill tasks and their bounded retries. */
module Collector {
  import opened Collections
  import opened PriceTable
  import opened PriceStore
  import opened ChartData

  const MAX_RETRIES := 3

  /** How an attempt of a task ends. Only TransientError is retried. */
  datatype Verdict = Committed | TransientError | PermanentError | Crashed

  // ---------------------------------------------------------------- one fetch attempt

  /** What one ticker's request and save end in. */
  datatype Quote =
    | Quoted(price: Price, timestamp: int)
    | PermanentFailure
    | TransientFailure
    | UnexpectedFailure

  /** The outside world of one attempt: an answer per ticker, and whether the commit is accepted. */
  datatype FetchEnv = FetchEnv(quotes: seq<Quote>, commitAccepted: bool)

  /** The rows of the successful ones among the first `n` tickers, in the order they are saved. */
  function QuotedUpTo(tickers: seq<Ticker>, quotes: seq<Quote>, n: nat): seq<Row>
    requires n <= |tickers| == |quotes|
  {
    if n == 0 then [] else
      var earlier := QuotedUpTo(tickers, quotes, n - 1);
      if quotes[n - 1].Quoted? then earlier + [Row(tickers[n - 1], quotes[n - 1].timestamp, quotes[n - 1].price)]
      else earlier
  }

  lemma QuotedStep(t: Table, tickers: seq<Ticker>, quotes: seq<Quote>, n: nat)
    requires n < |tickers| == |quotes|
    ensures Apply(t, QuotedUpTo(tickers, quotes, n + 1))
            == if quotes[n].Quoted? then Apply(t, QuotedUpTo(tickers, quotes, n))[Key(tickers[n], quotes[n].timestamp) := quotes[n].price]
               else Apply(t, QuotedUpTo(tickers, quotes, n))
  {
    if quotes[n].Quoted? {
      ApplyStep(t, QuotedUpTo(tickers, quotes, n), Row(tickers[n], quotes[n].timestamp, quotes[n].price));
    }
  }

  function QuotedRows(tickers: seq<Ticker>, quotes: seq<Quote>): seq<Row>
    requires |tickers| == |quotes|
  {
    QuotedUpTo(tickers, quotes, |tickers|)
  }

  /** The first `n` tickers that failed in the given way, in order. */
  function Failed(tickers: seq<Ticker>, quotes: seq<Quote>, failure: Quote, n: nat): seq<Ticker>
    requires n <= |tickers| == |quotes|
  {
    if n == 0 then [] else
      var earlier := Failed(tickers, quotes, failure, n - 1);
      if quotes[n - 1] == failure then earlier + [tickers[n - 1]] else earlier
  }

  lemma {:induction false} SomeFailed(tickers: seq<Ticker>, quotes: seq<Quote>, failure: Quote, n: nat)
    requires n <= |tickers| == |quotes|
    ensures forall x :: x in Failed(tickers, quotes, failure, n)
                        <==> exists i :: 0 <= i < n && tickers[i] == x && quotes[i] == failure
    ensures Failed(tickers, quotes, failure, n) != [] <==> exists i :: 0 <= i < n && quotes[i] == failure
  {
    if n != 0 {
      SomeFailed(tickers, quotes, failure, n - 1);
    }
  }

  predicate AnyQuoted(quotes: seq<Quote>) {
    exists i :: 0 <= i < |quotes| && quotes[i].Quoted?
  }

  function FetchVerdict(env: FetchEnv): Verdict {
    if UnexpectedFailure in env.quotes then TransientError
    else if AnyQuoted(env.quotes) then (if env.commitAccepted then Committed else TransientError)
    else if TransientFailure in env.quotes then TransientError
    else PermanentError
  }

  function Successes(quotes: seq<Quote>, n: nat): nat
    requires n <= |quotes|
  {
    if n == 0 then 0 else Successes(quotes, n - 1) + (if quotes[n - 1].Quoted? then 1 else 0)
  }

  lemma {:induction false} SomethingSaved(tickers: seq<Ticker>, quotes: seq<Quote>, n: nat)
    requires n <= |tickers| == |quotes|
    ensures Successes(quotes, n) == |QuotedUpTo(tickers, quotes, n)|
    ensures Successes(quotes, n) > 0 <==> exists i :: 0 <= i < n && quotes[i].Quoted?
  {
    if n != 0 {
      SomethingSaved(tickers, quotes, n - 1);
    }
  }

  /** What the transaction sees once the successes among the first `n` tickers are staged, one after another. */
  function AfterQuotes(t: Table, tickers: seq<Ticker>, quotes: seq<Quote>, n: nat): Table
    requires n <= |tickers| == |quotes|
  {
    if n == 0 then t else
      var seen := AfterQuotes(t, tickers, quotes, n - 1);
      if quotes[n - 1].Quoted? then seen[Key(tickers[n - 1], quotes[n - 1].timestamp) := quotes[n - 1].price] else seen
  }

  lemma {:induction false} AfterQuotesAppliesRows(t: Table, tickers: seq<Ticker>, quotes: seq<Quote>, n: nat)
    requires n <= |tickers| == |quotes|
    ensures AfterQuotes(t, tickers, quotes, n) == Apply(t, QuotedUpTo(tickers, quotes, n))
  {
    if n != 0 {
      AfterQuotesAppliesRows(t, tickers, quotes, n - 1);
      QuotedStep(t, tickers, quotes, n - 1);
    }
  }

  /** The loop over the tickers: stages every success and lists the failures of each kind. */
  method FetchTickers(repo: SyncPriceRepository, tickers: seq<Ticker>, quotes: seq<Quote>)
    returns (successCount: nat, permanentFailures: seq<Ticker>, transientFailures: seq<Ticker>, unexpected: bool)
    requires repo.session.Valid() && |quotes| == |tickers|
    modifies repo.session
    ensures repo.session.Valid()
    ensures unexpected <==> UnexpectedFailure in quotes
    ensures !unexpected ==>
              && repo.session.View() == AfterQuotes(old(repo.session.View()), tickers, quotes, |tickers|)
              && successCount == Successes(quotes, |tickers|)
              && permanentFailures == Failed(tickers, quotes, PermanentFailure, |tickers|)
              && transientFailures == Failed(tickers, quotes, TransientFailure, |tickers|)
  {
    ghost var before := repo.session.View();
    successCount, permanentFailures, transientFailures, unexpected := 0, [], [], false;
    for i := 0 to |tickers|
      invariant repo.session.Valid()
      invariant repo.session.View() == AfterQuotes(before, tickers, quotes, i)
      invariant successCount == Successes(quotes, i)
      invariant permanentFailures == Failed(tickers, quotes, PermanentFailure, i)
      invariant transientFailures == Failed(tickers, quotes, TransientFailure, i)
      invariant forall j :: 0 <= j < i ==> quotes[j] != UnexpectedFailure
    {
      match quotes[i] {
        case Quoted(price, timestamp) =>
          repo.SavePrice(tickers[i], price, timestamp);
          successCount := successCount + 1;
        case PermanentFailure =>
          permanentFailures := permanentFailures + [tickers[i]];
        case TransientFailure =>
          transientFailures := transientFailures + [tickers[i]];
        case UnexpectedFailure =>
          unexpected := true;
          return;
      }
    }
  }

  /** The count and the list the loop leaves behind decide the verdict. */
  lemma VerdictFromLists(tickers: seq<Ticker>, env: FetchEnv)
    requires |env.quotes| == |tickers|
    ensures FetchVerdict(env)
            == if UnexpectedFailure in env.quotes then TransientError
               else if Successes(env.quotes, |tickers|) > 0 then (if env.commitAccepted then Committed else TransientError)
               else if Failed(tickers, env.quotes, TransientFailure, |tickers|) != [] then TransientError
               else PermanentError
  {
    SomethingSaved(tickers, env.quotes, |tickers|);
    SomeFailed(tickers, env.quotes, TransientFailure, |tickers|);
  }

  /** `fetch_price_batch`: one attempt, with its session opened and closed inside. */
  method FetchPriceBatch(db: Database, tickers: seq<Ticker>, env: FetchEnv) returns (verdict: Verdict)
    requires db.Valid() && |env.quotes| == |tickers|
    modifies db
    ensures db.Valid() && verdict == FetchVerdict(env)
    ensures verdict.Committed? ==> db.Table() == Apply(old(db.Table()), QuotedRows(tickers, env.quotes))
    ensures !verdict.Committed? ==> db.rows == old(db.rows)
  {
    var session := new Session(db);
    var repo := new SyncPriceRepository(session);
    var successCount, permanentFailures, transientFailures, unexpected := FetchTickers(repo, tickers, env.quotes);
    AfterQuotesAppliesRows(db.Table(), tickers, env.quotes, |tickers|);
    VerdictFromLists(tickers, env);
    if unexpected {
      session.Rollback();
      verdict := TransientError;
    } else if successCount > 0 {
      var ok := session.Commit(env.commitAccepted);
      if ok {
        verdict := Committed;
      } else {
        session.Rollback();
        verdict := TransientError;
      }
    } else {
      session.Rollback();
      verdict := if transientFailures != [] then TransientError else PermanentError;
    }
  }

  // ---------------------------------------------------------------- one backfill attempt

  /**
    The world of one backfill attempt: a chart answer per ticker; which of the attempt's saves the
    database refuses, if any (autoflush sends pending rows on the next select); and whether the
    commit is accepted.
   */
  datatype BackfillEnv = BackfillEnv(charts: seq<ChartAnswer>, refusedSave: Option<nat>, commitAccepted: bool)

  /** The saves asked for before ticker `n`. */
  function SavesUpTo(charts: seq<ChartAnswer>, n: nat): nat
    requires n <= |charts|
  {
    if n == 0 then 0 else
      SavesUpTo(charts, n - 1) + (if charts[n - 1].Points? then |charts[n - 1].points| else 0)
  }

  /** The refused save counted from the first point of ticker `i`. */
  function RefusedPoint(env: BackfillEnv, i: nat): Option<nat>
    requires i < |env.charts|
  {
    var before := SavesUpTo(env.charts, i);
    if env.refusedSave.Some? && env.refusedSave.value >= before then Some(env.refusedSave.value - before) else None
  }

  function SavedRows(t: Ticker, chart: ChartAnswer): seq<Row> {
    if chart.Points? then RowsOf(t, chart.points) else []
  }

  function ChartRowsUpTo(tickers: seq<Ticker>, charts: seq<ChartAnswer>, n: nat): seq<Row>
    requires n <= |tickers| == |charts|
  {
    if n == 0 then [] else ChartRowsUpTo(tickers, charts, n - 1) + SavedRows(tickers[n - 1], charts[n - 1])
  }

  /** The rows a complete attempt saves: all points of every ticker that has a chart. */
  function ChartRows(tickers: seq<Ticker>, charts: seq<ChartAnswer>): seq<Row>
    requires |tickers| == |charts|
  {
    ChartRowsUpTo(tickers, charts, |tickers|)
  }

  /**
    The verdict that ends the loop at one ticker, or None when it goes on. A refused save raises
    a database error, which nothing in the task catches: the attempt crashes and is not retried.
   */
  function StopsAt(chart: ChartAnswer, refused: Option<nat>): (stop: Option<Verdict>)
    ensures stop != Some(Committed)
  {
    match chart
    case Points(points) => if refused.Some? && refused.value < |points| then Some(Crashed) else None
    case PermanentChartError => None
    case TransientChartError => Some(TransientError)
    case ValueChartError => Some(PermanentError)
    case OtherChartError => Some(Crashed)
  }

  function TickerStop(env: BackfillEnv, i: nat): (stop: Option<Verdict>)
    requires i < |env.charts|
    ensures stop != Some(Committed)
  {
    StopsAt(env.charts[i], RefusedPoint(env, i))
  }

  function Stops(env: BackfillEnv): seq<Option<Verdict>> {
    seq(|env.charts|, i requires 0 <= i < |env.charts| => TickerStop(env, i))
  }

  function BackfillVerdict(rangeName: string, env: BackfillEnv): Verdict {
    if ParseRange(rangeName).None? then PermanentError
    else match FirstSome(Stops(env), |env.charts|)
      case Some(v) => v
      case None => if env.commitAccepted then Committed else TransientError
  }

  /** The first ticker that stops the loop decides, whatever comes after it and whatever the commit would do. */
  lemma FirstStopDecides(rangeName: string, env: BackfillEnv, i: nat)
    requires ParseRange(rangeName).Some? && i < |env.charts| && StopsFirstAt(env, i)
    ensures Some(BackfillVerdict(rangeName, env)) == TickerStop(env, i)
  {
    FirstSomeIsNone(Stops(env), i);
    FirstSomeStays(Stops(env), i + 1, |env.charts|);
  }

  /** Every entry is the stop of its ticker, and none of them is a commit. */
  lemma StopsAreTickerStops(env: BackfillEnv)
    ensures |Stops(env)| == |env.charts| && forall i :: 0 <= i < |env.charts| ==> Stops(env)[i] == TickerStop(env, i)
    ensures FirstSome(Stops(env), |env.charts|) != Some(Committed)
  {
    if FirstSome(Stops(env), |env.charts|).Some? {
      var i := FirstSomeWitness(Stops(env), |env.charts|);
      assert Stops(env)[i] == TickerStop(env, i);
    }
  }

  /** An attempt commits exactly when the range is known, no ticker stops it and the commit is accepted. */
  lemma BackfillCommitsExactlyWhen(rangeName: string, env: BackfillEnv)
    ensures BackfillVerdict(rangeName, env) == Committed
            <==> && ParseRange(rangeName).Some? && env.commitAccepted
                 && forall i :: 0 <= i < |env.charts| ==> TickerStop(env, i).None?
  {
    FirstSomeIsNone(Stops(env), |env.charts|);
    StopsAreTickerStops(env);
  }

  /** The chart of ticker `i`, or a save refused among its points, ends the loop. */
  predicate EndsLoop(env: BackfillEnv, i: nat)
    requires i < |env.charts|
  {
    match env.charts[i]
    case Points(_) =>
      && env.refusedSave.Some?
      && SavesUpTo(env.charts, i) <= env.refusedSave.value < SavesUpTo(env.charts, i + 1)
    case PermanentChartError => false
    case TransientChartError => true
    case ValueChartError => true
    case OtherChartError => true
  }

  /** The verdict by its cause: an unknown range, the first ticker to end the loop, or the commit. */
  lemma VerdictByCause(rangeName: string, env: BackfillEnv)
    ensures rangeName !in {"1h", "1d", "2d", "1m", "1y", "all"} ==> BackfillVerdict(rangeName, env) == PermanentError
    ensures rangeName in {"1h", "1d", "2d", "1m", "1y", "all"} ==>
              && (forall i :: 0 <= i < |env.charts| && EndsLoop(env, i) && (forall j :: 0 <= j < i ==> !EndsLoop(env, j)) ==>
                    (match env.charts[i]
                     case TransientChartError => BackfillVerdict(rangeName, env) == TransientError
                     case ValueChartError => BackfillVerdict(rangeName, env) == PermanentError
                     case _ => BackfillVerdict(rangeName, env) == Crashed))
              && ((forall i :: 0 <= i < |env.charts| ==> !EndsLoop(env, i)) ==>
                    BackfillVerdict(rangeName, env) == if env.commitAccepted then Committed else TransientError)
  {
    forall i | 0 <= i < |env.charts| ensures EndsLoop(env, i) <==> TickerStop(env, i).Some? {}
    FirstSomeIsNone(Stops(env), |env.charts|);
    StopsAreTickerStops(env);
    if ParseRange(rangeName).Some? {
      forall i | 0 <= i < |env.charts| && EndsLoop(env, i) && forall j :: 0 <= j < i ==> !EndsLoop(env, j)
        ensures Some(BackfillVerdict(rangeName, env)) == TickerStop(env, i)
      {
        FirstStopDecides(rangeName, env, i);
      }
    }
  }

  /** What the transaction sees once the first `n` points of a ticker are staged, one after another. */
  function AfterPoints(t: Table, ticker: Ticker, points: seq<Point>, n: nat): Table
    requires n <= |points|
  {
    if n == 0 then t else
      AfterPoints(t, ticker, points, n - 1)[Key(ticker, points[n - 1].timestamp) := points[n - 1].price]
  }

  lemma {:induction false} AfterPointsAppliesRows(t: Table, ticker: Ticker, points: seq<Point>, n: nat)
    requires n <= |points|
    ensures AfterPoints(t, ticker, points, n) == Apply(t, RowsOf(ticker, points)[..n])
  {
    var rows := RowsOf(ticker, points);
    if n != 0 {
      AfterPointsAppliesRows(t, ticker, points, n - 1);
      ApplyStep(t, rows[..n - 1], rows[n - 1]);
      assert rows[..n] == rows[..n - 1] + [rows[n - 1]];
    }
  }

  /** Saves one ticker's points until the database refuses one. */
  method SaveChart(repo: SyncPriceRepository, ticker: Ticker, points: seq<Point>, refused: Option<nat>)
    returns (saved: bool)
    requires repo.session.Valid()
    modifies repo.session
    ensures repo.session.Valid()
    ensures saved <==> !(refused.Some? && refused.value < |points|)
    ensures saved ==> repo.session.View() == AfterPoints(old(repo.session.View()), ticker, points, |points|)
  {
    ghost var before := repo.session.View();
    for j := 0 to |points|
      invariant repo.session.Valid()
      invariant refused.Some? ==> refused.value >= j
      invariant repo.session.View() == AfterPoints(before, ticker, points, j)
    {
      if refused == Some(j) {
        return false;
      }
      repo.SavePrice(ticker, points[j].price, points[j].timestamp);
    }
    saved := true;
  }

  function AfterChart(t: Table, ticker: Ticker, chart: ChartAnswer): Table {
    if chart.Points? then AfterPoints(t, ticker, chart.points, |chart.points|) else t
  }

  /** The loop body: one ticker's chart is staged, skipped, or ends the loop. */
  method SaveTicker(repo: SyncPriceRepository, ticker: Ticker, chart: ChartAnswer, refused: Option<nat>)
    returns (stop: Option<Verdict>)
    requires repo.session.Valid()
    modifies repo.session
    ensures repo.session.Valid()
    ensures stop == StopsAt(chart, refused)
    ensures stop.None? ==> repo.session.View() == AfterChart(old(repo.session.View()), ticker, chart)
  {
    match chart {
      case Points(points) =>
        var saved := SaveChart(repo, ticker, points, refused);
        stop := if saved then None else Some(Crashed);
      case PermanentChartError =>
        stop := None;
      case TransientChartError =>
        stop := Some(TransientError);
      case ValueChartError =>
        stop := Some(PermanentError);
      case OtherChartError =>
        stop := Some(Crashed);
    }
  }

  /** The loop's first stop is at ticker `i`. */
  predicate StopsFirstAt(env: BackfillEnv, i: nat)
    requires i < |env.charts|
  {
    TickerStop(env, i).Some? && forall j :: 0 <= j < i ==> TickerStop(env, j).None?
  }

  /** What the transaction sees once the charts of the first `n` tickers are staged, one after another. */
  function AfterCharts(t: Table, tickers: seq<Ticker>, charts: seq<ChartAnswer>, n: nat): Table
    requires n <= |tickers| == |charts|
  {
    if n == 0 then t else AfterChart(AfterCharts(t, tickers, charts, n - 1), tickers[n - 1], charts[n - 1])
  }

  lemma AfterChartAppliesRows(t: Table, ticker: Ticker, chart: ChartAnswer)
    ensures AfterChart(t, ticker, chart) == Apply(t, SavedRows(ticker, chart))
  {
    if chart.Points? {
      AfterPointsAppliesRows(t, ticker, chart.points, |chart.points|);
      assert RowsOf(ticker, chart.points)[..|chart.points|] == RowsOf(ticker, chart.points);
    }
  }

  /** Point by point and ticker by ticker comes to the same as all rows in one go. */
  lemma {:induction false} AfterChartsAppliesRows(t: Table, tickers: seq<Ticker>, charts: seq<ChartAnswer>, n: nat)
    requires n <= |tickers| == |charts|
    ensures AfterCharts(t, tickers, charts, n) == Apply(t, ChartRowsUpTo(tickers, charts, n))
  {
    if n != 0 {
      AfterChartsAppliesRows(t, tickers, charts, n - 1);
      var earlier, saved := ChartRowsUpTo(tickers, charts, n - 1), SavedRows(tickers[n - 1], charts[n - 1]);
      assert AfterCharts(t, tickers, charts, n) == Apply(Apply(t, earlier), saved) by {
        AfterChartAppliesRows(Apply(t, earlier), tickers[n - 1], charts[n - 1]);
      }
      assert ChartRowsUpTo(tickers, charts, n) == earlier + saved;
      ApplyConcat(t, earlier, saved);
    }
  }

  /** The loop over the tickers: stages every chart, skips permanent failures, and ends at the first stop. */
  method SaveCharts(repo: SyncPriceRepository, tickers: seq<Ticker>, env: BackfillEnv) returns (stop: Option<Verdict>)
    requires repo.session.Valid() && |env.charts| == |tickers|
    modifies repo.session
    ensures repo.session.Valid()
    ensures stop.None? ==> forall i :: 0 <= i < |tickers| ==> TickerStop(env, i).None?
    ensures stop.Some? ==> exists i :: 0 <= i < |tickers| && StopsFirstAt(env, i) && stop == TickerStop(env, i)
    ensures stop.None? ==>
              repo.session.View() == AfterCharts(old(repo.session.View()), tickers, env.charts, |tickers|)
  {
    ghost var before := repo.session.View();
    for i := 0 to |tickers|
      invariant repo.session.Valid() && forall j :: 0 <= j < i ==> TickerStop(env, j).None?
      invariant repo.session.View() == AfterCharts(before, tickers, env.charts, i)
    {
      stop := SaveTicker(repo, tickers[i], env.charts[i], RefusedPoint(env, i));
      if stop.Some? {
        assert StopsFirstAt(env, i);
        return;
      }
    }
    stop := None;
  }

  /** `backfill_price_history`: one attempt; whatever was staged before a stop is discarded. */
  method BackfillPriceHistory(db: Database, tickers: seq<Ticker>, rangeName: string, env: BackfillEnv)
    returns (verdict: Verdict)
    requires db.Valid() && |env.charts| == |tickers|
    modifies db
    ensures db.Valid() && verdict == BackfillVerdict(rangeName, env)
    ensures verdict.Committed? ==> db.Table() == Apply(old(db.Table()), ChartRows(tickers, env.charts))
    ensures !verdict.Committed? ==> db.rows == old(db.rows)
  {
    var session := new Session(db);
    var repo := new SyncPriceRepository(session);
    if ParseRange(rangeName).None? {
      session.Rollback();
      return PermanentError;
    }
    var stop := SaveCharts(repo, tickers, env);
    if stop.Some? {
      ghost var i :| 0 <= i < |tickers| && StopsFirstAt(env, i) && stop == TickerStop(env, i);
      FirstStopDecides(rangeName, env, i);
      session.Rollback();
      return stop.value;
    }
    FirstSomeIsNone(Stops(env), |tickers|);
    AfterChartsAppliesRows(db.Table(), tickers, env.charts, |tickers|);
    var ok := session.Commit(env.commitAccepted);
    if ok {
      verdict := Committed;
    } else {
      session.Rollback();
      verdict := TransientError;
    }
  }

  // ---------------------------------------------------------------- bounded retries

  /** One attempt as the table sees it. */
  datatype Attempt = Attempt(verdict: Verdict, writes: seq<Row>)

  function Effect(t: Table, a: Attempt): Table {
    if a.verdict.Committed? then Apply(t, a.writes) else t
  }

  datatype RunResult = RunResult(table: Table, verdict: Verdict, attempts: nat)

  /** A whole task run: the attempts one after another, while they fail transiently and retries remain. */
  function RunTask(t: Table, attempts: seq<Attempt>): RunResult
    requires attempts != []
  {
    var after := Effect(t, attempts[0]);
    if attempts[0].verdict.TransientError? && |attempts| > 1 then
      var rest := RunTask(after, attempts[1..]);
      rest.(attempts := rest.attempts + 1)
    else
      RunResult(after, attempts[0].verdict, 1)
  }

  /**
    A whole retried run is atomic. Every attempt but the last failed transiently, so at most one
    commits; an error leaves the table as it was; a normal end applies the last attempt's rows.
    The run stops before the attempts are used up unless the last one failed transiently too.
   */
  lemma {:induction false} RetriedRunIsAtomic(t: Table, attempts: seq<Attempt>)
    requires attempts != []
    ensures var run := RunTask(t, attempts);
      && 1 <= run.attempts <= |attempts|
      && run.verdict == attempts[run.attempts - 1].verdict
      && (forall i :: 0 <= i < run.attempts - 1 ==> attempts[i].verdict.TransientError?)
      && (run.verdict.TransientError? ==> run.attempts == |attempts|)
      && (run.verdict.Committed? ==> run.table == Apply(t, attempts[run.attempts - 1].writes))
      && (!run.verdict.Committed? ==> run.table == t)
  {
    if attempts[0].verdict.TransientError? && |attempts| > 1 {
      RetriedRunIsAtomic(t, attempts[1..]);
    }
  }

  function FetchAttempts(tickers: seq<Ticker>, envs: seq<FetchEnv>): seq<Attempt>
    requires forall i :: 0 <= i < |envs| ==> |envs[i].quotes| == |tickers|
  {
    seq(|envs|, i requires 0 <= i < |envs| => Attempt(FetchVerdict(envs[i]), QuotedRows(tickers, envs[i].quotes)))
  }

  /** The fetch task with its retries, against the world of each attempt. */
  method RunFetchTask(db: Database, tickers: seq<Ticker>, envs: seq<FetchEnv>) returns (verdict: Verdict, attempts: nat)
    requires db.Valid() && |envs| == MAX_RETRIES + 1
    requires forall i :: 0 <= i < |envs| ==> |envs[i].quotes| == |tickers|
    modifies db
    ensures db.Valid()
    ensures verdict == RunTask(old(db.Table()), FetchAttempts(tickers, envs)).verdict
    ensures db.Table() == RunTask(old(db.Table()), FetchAttempts(tickers, envs)).table
    ensures attempts == RunTask(old(db.Table()), FetchAttempts(tickers, envs)).attempts
    ensures 1 <= attempts <= 4 && (attempts < 4 ==> !verdict.TransientError?)
    ensures !verdict.Committed? ==> db.rows == old(db.rows)
  {
    ghost var all := FetchAttempts(tickers, envs);
    var retries := 0;
    verdict := FetchPriceBatch(db, tickers, envs[0]);
    assert all[0..] == all;
    while verdict.TransientError? && retries < MAX_RETRIES
      invariant 0 <= retries <= MAX_RETRIES && db.Valid()
      invariant verdict == all[retries].verdict
      invariant verdict.Committed? ==> db.Table() == Apply(old(db.Table()), all[retries].writes)
      invariant !verdict.Committed? ==> db.rows == old(db.rows)
      invariant RunTask(old(db.Table()), all[retries..]).table == RunTask(old(db.Table()), all).table
      invariant RunTask(old(db.Table()), all[retries..]).verdict == RunTask(old(db.Table()), all).verdict
      invariant retries + RunTask(old(db.Table()), all[retries..]).attempts == RunTask(old(db.Table()), all).attempts
    {
      assert all[retries..][1..] == all[retries + 1..];
      retries := retries + 1;
      verdict := FetchPriceBatch(db, tickers, envs[retries]);
    }
    attempts := retries + 1;
  }

  function BackfillAttempts(tickers: seq<Ticker>, rangeName: string, envs: seq<BackfillEnv>): seq<Attempt>
    requires forall i :: 0 <= i < |envs| ==> |envs[i].charts| == |tickers|
  {
    seq(|envs|, i requires 0 <= i < |envs| =>
      Attempt(BackfillVerdict(rangeName, envs[i]), ChartRows(tickers, envs[i].charts)))
  }

  /** The world of the attempt a run ended with. */
  function LastEnv(envs: seq<BackfillEnv>, run: RunResult): BackfillEnv
    requires envs != []
  {
    if 1 <= run.attempts <= |envs| then envs[run.attempts - 1] else envs[0]
  }

  lemma LastEnvDecides(t: Table, tickers: seq<Ticker>, rangeName: string, envs: seq<BackfillEnv>)
    requires envs != [] && forall i :: 0 <= i < |envs| ==> |envs[i].charts| == |tickers|
    ensures var run := RunTask(t, BackfillAttempts(tickers, rangeName, envs));
      && LastEnv(envs, run) in envs
      && run.verdict == BackfillVerdict(rangeName, LastEnv(envs, run))
      && (run.verdict == Committed ==> run.table == Apply(t, ChartRows(tickers, LastEnv(envs, run).charts)))
  {
    RetriedRunIsAtomic(t, BackfillAttempts(tickers, rangeName, envs));
  }

  /** Nothing before ticker `i` ends the loop, and its chart fails transiently. */
  predicate FirstFailsTransiently(env: BackfillEnv, i: nat)
    requires i < |env.charts|
  {
    env.charts[i].TransientChartError? && StopsFirstAt(env, i)
  }

  lemma LoopEndsTransientlyExactlyWhen(env: BackfillEnv)
    ensures FirstSome(Stops(env), |env.charts|) == Some(TransientError)
            <==> exists i :: 0 <= i < |env.charts| && FirstFailsTransiently(env, i)
  {
    StopsAreTickerStops(env);
    if FirstSome(Stops(env), |env.charts|) == Some(TransientError) {
      var i := FirstSomeWitness(Stops(env), |env.charts|);
      assert FirstFailsTransiently(env, i);
    }
    if i :| 0 <= i < |env.charts| && FirstFailsTransiently(env, i) {
      FirstSomeIsNone(Stops(env), i);
      FirstSomeStays(Stops(env), i + 1, |env.charts|);
    }
  }

  /**
    Exactly when a backfill makes a second attempt: the range is known, and in the first attempt
    either the first ticker to end the loop had a transient chart failure, or none ended it and
    the commit was refused. A save refused inside the loop is therefore never retried.
   */
  lemma BackfillIsRetriedExactlyWhen(t: Table, tickers: seq<Ticker>, rangeName: string, envs: seq<BackfillEnv>)
    requires |envs| == MAX_RETRIES + 1
    requires forall j :: 0 <= j < |envs| ==> |envs[j].charts| == |tickers|
    ensures RunTask(t, BackfillAttempts(tickers, rangeName, envs)).attempts > 1
            <==> && ParseRange(rangeName).Some?
                 && (|| (exists i :: 0 <= i < |tickers| && FirstFailsTransiently(envs[0], i))
                     || (&& !envs[0].commitAccepted
                         && forall i :: 0 <= i < |tickers| ==> TickerStop(envs[0], i).None?))
  {
    RetriedRunIsAtomic(t, BackfillAttempts(tickers, rangeName, envs));
    LoopEndsTransientlyExactlyWhen(envs[0]);
    FirstSomeIsNone(Stops(envs[0]), |tickers|);
    StopsAreTickerStops(envs[0]);
  }

  /** The backfill task with its retries. */
  method RunBackfillTask(db: Database, tickers: seq<Ticker>, rangeName: string, envs: seq<BackfillEnv>)
    returns (verdict: Verdict, attempts: nat)
    requires db.Valid() && |envs| == MAX_RETRIES + 1
    requires forall i :: 0 <= i < |envs| ==> |envs[i].charts| == |tickers|
    modifies db
    ensures db.Valid()
    ensures verdict == RunTask(old(db.Table()), BackfillAttempts(tickers, rangeName, envs)).verdict
    ensures db.Table() == RunTask(old(db.Table()), BackfillAttempts(tickers, rangeName, envs)).table
    ensures attempts == RunTask(old(db.Table()), BackfillAttempts(tickers, rangeName, envs)).attempts
    ensures 1 <= attempts <= 4 && (attempts < 4 ==> !verdict.TransientError?)
    ensures !verdict.Committed? ==> db.rows == old(db.rows)
  {
    ghost var all := BackfillAttempts(tickers, rangeName, envs);
    var retries := 0;
    verdict := BackfillPriceHistory(db, tickers, rangeName, envs[0]);
    assert all[0..] == all;
    while verdict.TransientError? && retries < MAX_RETRIES
      invariant 0 <= retries <= MAX_RETRIES && db.Valid()
      invariant verdict == all[retries].verdict
      invariant verdict.Committed? ==> db.Table() == Apply(old(db.Table()), all[retries].writes)
      invariant !verdict.Committed? ==> db.rows == old(db.rows)
      invariant RunTask(old(db.Table()), all[retries..]).table == RunTask(old(db.Table()), all).table
      invariant RunTask(old(db.Table()), all[retries..]).verdict == RunTask(old(db.Table()), all).verdict
      invariant retries + RunTask(old(db.Table()), all[retries..]).attempts == RunTask(old(db.Table()), all).attempts
    {
      assert all[retries..][1..] == all[retries + 1..];
      retries := retries + 1;
      verdict := BackfillPriceHistory(db, tickers, rangeName, envs[retries]);
    }
    attempts := retries + 1;
  }
}
