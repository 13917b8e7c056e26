/** The gap detector, and the repair loop it forms with the backfill task. */
module Reconciliation {
  import opened Collections
  import opened Integers
  import opened PriceTable
  import opened Queries
  import opened PriceStore
  import opened ChartData
  import opened Collector
  import Workers

  // ---------------------------------------------------------------- history ranges

  function ResolveReconciliationRange(lookbackSeconds: int): HistoryRange {
    if lookbackSeconds <= 3600 then OneHour
    else if lookbackSeconds <= 86400 then OneDay
    else if lookbackSeconds <= 172800 then TwoDays
    else if lookbackSeconds <= 31 * 86400 then OneMonth
    else if lookbackSeconds <= 366 * 86400 then OneYear
    else AllHistory
  }

  /** The seconds a range reaches back, by the resolver's own thresholds; None without limit. */
  function Span(r: HistoryRange): Option<int> {
    match r
    case OneHour => Some(3600)
    case OneDay => Some(86400)
    case TwoDays => Some(172800)
    case OneMonth => Some(31 * 86400)
    case OneYear => Some(366 * 86400)
    case AllHistory => None
  }

  /** The range reaches back over the whole lookback, and no shorter range does. */
  lemma ResolvedRangeIsShortestCover(lookback: int, other: HistoryRange)
    ensures var s := Span(ResolveReconciliationRange(lookback)); s.Some? ==> s.value >= lookback
    ensures Span(other).Some? && Span(other).value >= lookback ==>
              && Span(ResolveReconciliationRange(lookback)).Some?
              && Span(ResolveReconciliationRange(lookback)).value <= Span(other).value
    ensures ParseRange(RangeName(other)) == Some(other)
  {}

  /** The names of the ranges with the lookbacks they are chosen for. */
  predicate NamesShortestRange(name: string, lookback: int) {
    && (name == "1h" <==> lookback <= 3600)
    && (name == "1d" <==> 3600 < lookback <= 86400)
    && (name == "2d" <==> 86400 < lookback <= 2 * 86400)
    && (name == "1m" <==> 2 * 86400 < lookback <= 31 * 86400)
    && (name == "1y" <==> 31 * 86400 < lookback <= 366 * 86400)
    && (name == "all" <==> 366 * 86400 < lookback)
  }

  lemma ResolvedRangeIsNamed(lookback: int)
    ensures NamesShortestRange(RangeName(ResolveReconciliationRange(lookback)), lookback)
  {
    assert "1h"[0] != "2d"[0];
  }

  // ---------------------------------------------------------------- gaps in a set of timestamps

  ghost predicate Neighbours(s: set<int>, a: int, b: int) {
    a in s && b in s && a < b && forall x :: x in s ==> !(a < x < b)
  }

  ghost predicate GapsWithin(s: set<int>, g: int) {
    forall a, b :: Neighbours(s, a, b) ==> b - a <= g
  }

  /** A gap of a larger set that a gap-free subset reaches around is no wider than the subset's gaps. */
  lemma SubsetBridgesGap(s: set<int>, part: set<int>, a: int, b: int, g: int)
    requires part <= s && a < b && (forall x :: x in s ==> !(a < x < b)) && GapsWithin(part, g)
    requires (exists x :: x in part && x <= a) && (exists x :: x in part && x >= b)
    ensures b - a <= g
  {
    var lo := GreatestAtMost(part, a);
    var hi := LeastAtLeast(part, b);
    forall x | x in part ensures !(lo < x < hi) {
      assert x in s;
    }
    assert Neighbours(part, lo, hi);
  }

  // ---------------------------------------------------------------- the gap check on sorted lists

  predicate HasMissingIntervals(timestamps: seq<int>, expectedStepSec: int, staleMultiplier: int) {
    && |timestamps| >= 2
    && exists i :: 0 <= i < |timestamps| - 1
                   && timestamps[i + 1] - timestamps[i] > expectedStepSec * staleMultiplier
  }

  lemma NeighboursAreConsecutive(ts: seq<int>, i: int, j: int)
    requires Increasing(ts) && 0 <= i < |ts| && 0 <= j < |ts|
    ensures Neighbours(Elements(ts), ts[i], ts[j]) <==> j == i + 1
  {
    if i < j && j != i + 1 {
      assert ts[i + 1] in Elements(ts);
    }
    if j == i + 1 {
      forall x | x in Elements(ts) ensures !(ts[i] < x < ts[j]) {
        var k :| 0 <= k < |ts| && ts[k] == x;
      }
    }
  }

  /** On an increasing list the adjacent-pairs check finds exactly the wide gaps of its set. */
  lemma MissingIntervalsAreWideGaps(ts: seq<int>, step: int, multiplier: int)
    requires Increasing(ts)
    ensures HasMissingIntervals(ts, step, multiplier) <==> !GapsWithin(Elements(ts), step * multiplier)
  {
    WideGapsAreAdjacent(ts, step * multiplier);
  }

  lemma WideGapsAreAdjacent(ts: seq<int>, g: int)
    requires Increasing(ts)
    ensures (exists i :: 0 <= i < |ts| - 1 && ts[i + 1] - ts[i] > g) <==> !GapsWithin(Elements(ts), g)
  {
    if i :| 0 <= i < |ts| - 1 && ts[i + 1] - ts[i] > g {
      NeighboursAreConsecutive(ts, i, i + 1);
      assert Neighbours(Elements(ts), ts[i], ts[i + 1]);
    }
    if !GapsWithin(Elements(ts), g) {
      var a, b :| Neighbours(Elements(ts), a, b) && b - a > g;
      var i :| 0 <= i < |ts| && ts[i] == a;
      var j :| 0 <= j < |ts| && ts[j] == b;
      NeighboursAreConsecutive(ts, i, j);
    }
  }

  /** Timestamps added between the first and the last never make a gap-free list gapped. */
  lemma InsertionKeepsGapFree(ts: seq<int>, more: seq<int>, step: int, multiplier: int)
    requires Increasing(ts) && Increasing(more) && ts != [] && Elements(ts) <= Elements(more)
    requires forall x :: x in more ==> ts[0] <= x <= ts[|ts| - 1]
    requires !HasMissingIntervals(ts, step, multiplier)
    ensures !HasMissingIntervals(more, step, multiplier)
  {
    var g := step * multiplier;
    MissingIntervalsAreWideGaps(ts, step, multiplier);
    MissingIntervalsAreWideGaps(more, step, multiplier);
    forall a, b | Neighbours(Elements(more), a, b) ensures b - a <= g {
      assert ts[0] in Elements(ts) && ts[|ts| - 1] in Elements(ts);
      SubsetBridgesGap(Elements(more), Elements(ts), a, b, g);
    }
  }

  /** Cutting a list in two, the check finds the gaps of both parts and the one at the cut. */
  lemma GapCheckSplits(ts: seq<int>, cut: nat, step: int, multiplier: int)
    requires 0 < cut < |ts|
    ensures HasMissingIntervals(ts, step, multiplier)
            <==> || HasMissingIntervals(ts[..cut], step, multiplier)
                 || HasMissingIntervals(ts[cut..], step, multiplier)
                 || ts[cut] - ts[cut - 1] > step * multiplier
  {
    var g := step * multiplier;
    if HasMissingIntervals(ts, step, multiplier) {
      var i :| 0 <= i < |ts| - 1 && ts[i + 1] - ts[i] > g;
      if i < cut - 1 {
        assert ts[..cut][i + 1] - ts[..cut][i] > g;
      } else if i >= cut {
        assert ts[cut..][i - cut + 1] - ts[cut..][i - cut] > g;
      }
    }
  }

  /** Any run of consecutive samples of a gap-free list is gap-free. */
  lemma SubWindowKeepsGapFree(ts: seq<int>, from: nat, to: nat, step: int, multiplier: int)
    requires from <= to <= |ts| && !HasMissingIntervals(ts, step, multiplier)
    ensures !HasMissingIntervals(ts[from..to], step, multiplier)
  {}

  // ---------------------------------------------------------------- what the detector selects

  ghost function InWindow(s: set<int>, now: int, lookback: int): set<int> {
    Between(s, now - lookback, now)
  }

  /** Empty history, nothing as recent as `now - g`, or a wide gap between in-window samples. */
  ghost predicate NeedsBackfill(s: set<int>, now: int, lookback: int, g: int) {
    || s == {}
    || (forall x :: x in s ==> now - x > g)
    || !GapsWithin(InWindow(s, now, lookback), g)
  }

  ghost function Selector(rows: seq<Row>, now: int, lookback: int, g: int): Ticker -> bool {
    (t: Ticker) => NeedsBackfill(Stamps(rows, t), now, lookback, g)
  }

  ghost function Selected(rows: seq<Row>, tickers: seq<Ticker>, now: int, lookback: int, g: int): seq<Ticker> {
    Filter(tickers, Selector(rows, now, lookback, g))
  }

  datatype Config = Config(tickers: seq<Ticker>, fetchIntervalSec: int, staleMultiplier: int, lookbackSec: int)

  /** `tickers or list(config.supported_tickers)`: an empty list counts as missing. */
  function EffectiveTickers(tickers: Option<seq<Ticker>>, config: Config): seq<Ticker> {
    if tickers.None? || tickers.value == [] then config.tickers else tickers.value
  }

  /** `lookback_seconds or config…`: zero counts as missing. */
  function EffectiveLookback(lookback: Option<int>, config: Config): int {
    if lookback.None? || lookback.value == 0 then config.lookbackSec else lookback.value
  }

  /** The arguments of the queued backfill task. */
  datatype Dispatch = Dispatch(tickers: seq<Ticker>, rangeName: string)

  /** A sample no other is later than decides staleness for all of them. */
  lemma LatestDecidesStaleness(s: set<int>, latest: int, now: int, g: int)
    requires latest in s && forall x :: x in s ==> x <= latest
    ensures now - latest > g <==> forall x :: x in s ==> now - x > g
  {}

  /**
    On the answers of the two queries the three tests of the loop decide exactly `NeedsBackfill`:
    `latest` is the greatest sample, if any, and `timestamps` lists the in-window ones in order.
   */
  lemma LoopTestsAreExact(s: set<int>, latest: Option<int>, timestamps: seq<int>,
                          now: int, lookback: int, step: int, multiplier: int)
    requires latest.None? <==> s == {}
    requires latest.Some? ==> latest.value in s && forall x :: x in s ==> x <= latest.value
    requires Increasing(timestamps) && Elements(timestamps) == InWindow(s, now, lookback)
    ensures NeedsBackfill(s, now, lookback, step * multiplier)
            <==> latest.None? || now - latest.value > step * multiplier || HasMissingIntervals(timestamps, step, multiplier)
  {
    MissingIntervalsAreWideGaps(timestamps, step, multiplier);
    if latest.Some? {
      LatestDecidesStaleness(s, latest.value, now, step * multiplier);
    }
  }

  /** The loop body: one ticker's latest timestamp and in-window samples against the three tests. */
  method IsGapped(repo: SyncPriceRepository, ticker: Ticker, now: int, lookback: int, config: Config)
    returns (gapped: bool)
    requires repo.session.Valid() && repo.session.staged == NOTHING_STAGED
    ensures gapped <==> Gapped(Stamps(repo.session.db.rows, ticker), now, lookback, config.fetchIntervalSec * config.staleMultiplier)
  {
    NothingStaged(repo.session.db.rows);
    WindowGapsAreStoredGaps(Stamps(repo.session.db.rows, ticker), now, lookback, config.fetchIntervalSec * config.staleMultiplier);
    var latest := repo.LatestTimestamp(ticker);
    var timestamps := repo.TimestampsInRange(ticker, now - lookback, now);
    LoopTestsAreExact(Stamps(repo.session.db.rows, ticker), latest, timestamps, now, lookback,
                      config.fetchIntervalSec, config.staleMultiplier);
    if latest.None? {
      return true;
    }
    if now - latest.value > config.fetchIntervalSec * config.staleMultiplier {
      return true;
    }
    gapped := HasMissingIntervals(timestamps, config.fetchIntervalSec, config.staleMultiplier);
  }

  /** `reconcile_recent_prices`: reads the table and queues one backfill for the selected tickers. */
  method ReconcileRecentPrices(db: Database, tickers: Option<seq<Ticker>>, lookbackSeconds: Option<int>,
                               now: int, config: Config)
    returns (dispatch: Option<Dispatch>)
    requires db.Valid()
    ensures dispatch == Reconciled(db.rows, EffectiveTickers(tickers, config), now,
                                   EffectiveLookback(lookbackSeconds, config),
                                   config.fetchIntervalSec * config.staleMultiplier)
    ensures var asked := if tickers.Some? && |tickers.value| > 0 then tickers.value else config.tickers;
      var lookback := if lookbackSeconds.Some? && lookbackSeconds.value != 0 then lookbackSeconds.value else config.lookbackSec;
      && (forall t :: (dispatch.Some? && t in dispatch.value.tickers)
                      <==> t in asked && Gapped(Stamps(db.rows, t), now, lookback, config.fetchIntervalSec * config.staleMultiplier))
      && (dispatch.Some? ==> NamesShortestRange(dispatch.value.rangeName, lookback))
  {
    ghost var g := config.fetchIntervalSec * config.staleMultiplier;
    var selectedTickers := EffectiveTickers(tickers, config);
    var effectiveLookback := EffectiveLookback(lookbackSeconds, config);
    var backfillTickers: seq<Ticker> := [];
    var session := new Session(db);
    var repo := new SyncPriceRepository(session);

    for i := 0 to |selectedTickers|
      invariant repo.session.db == db && repo.session.Valid() && repo.session.staged == NOTHING_STAGED
      invariant backfillTickers == Selected(db.rows, selectedTickers[..i], now, effectiveLookback, g)
    {
      assert selectedTickers[..i + 1][..i] == selectedTickers[..i];
      var gapped := IsGapped(repo, selectedTickers[i], now, effectiveLookback, config);
      WindowGapsAreStoredGaps(Stamps(db.rows, selectedTickers[i]), now, effectiveLookback, g);
      if gapped {
        backfillTickers := backfillTickers + [selectedTickers[i]];
      }
    }

    assert selectedTickers[..|selectedTickers|] == selectedTickers;
    DetectorIsExact(db.rows, selectedTickers, now, effectiveLookback, g);
    ResolvedRangeIsNamed(effectiveLookback);
    if backfillTickers == [] {
      dispatch := None;
    } else {
      dispatch := Some(Dispatch(backfillTickers, RangeName(ResolveReconciliationRange(effectiveLookback))));
    }
  }

  /** What one reconciliation pass queues: nothing when no ticker is selected. */
  ghost function Reconciled(rows: seq<Row>, tickers: seq<Ticker>, now: int, lookback: int, g: int): Option<Dispatch> {
    var selected := Selected(rows, tickers, now, lookback, g);
    if selected == [] then None else Some(Dispatch(selected, RangeName(ResolveReconciliationRange(lookback))))
  }

  // ---------------------------------------------------------------- exactness and soundness

  /** `a` is obtained from `b` by leaving elements out. */
  ghost predicate Subsequence<T>(a: seq<T>, b: seq<T>)
    decreases |b|
  {
    || a == []
    || (b != [] && Subsequence(a, b[..|b| - 1]))
    || (b != [] && a[|a| - 1] == b[|b| - 1] && Subsequence(a[..|a| - 1], b[..|b| - 1]))
  }

  lemma {:induction false} FilterIsSubsequence<T>(s: seq<T>, p: T -> bool)
    ensures Subsequence(Filter(s, p), s)
  {
    if s != [] {
      var init, last := s[..|s| - 1], s[|s| - 1];
      FilterIsSubsequence(init, p);
      if p(last) {
        assert (Filter(init, p) + [last])[..|Filter(init, p)|] == Filter(init, p);
      }
    }
  }

  lemma {:induction false} FilterKeepsRepeats<T>(s: seq<T>, p: T -> bool, x: T)
    requires p(x)
    ensures multiset(Filter(s, p))[x] == multiset(s)[x]
  {
    if s != [] {
      FilterKeepsRepeats(s[..|s| - 1], p, x);
      assert s == s[..|s| - 1] + [s[|s| - 1]];
    }
  }

  /**
    The selected tickers are an order-preserving subsequence of the requested ones, each kept as
    often as it was requested, and hold exactly the tickers with empty history, no sample as
    recent as now - g, or two in-window samples more than g apart with none stored between.
   */
  lemma DetectorIsExact(rows: seq<Row>, tickers: seq<Ticker>, now: int, lookback: int, g: int)
    ensures var selected := Selected(rows, tickers, now, lookback, g);
      && Subsequence(selected, tickers)
      && (forall t :: t in selected <==> t in tickers && Gapped(Stamps(rows, t), now, lookback, g))
      && (forall t :: t in selected ==> multiset(selected)[t] == multiset(tickers)[t])
  {
    var keep := Selector(rows, now, lookback, g);
    FilterIsSubsequence(tickers, keep);
    FilterMembers(tickers, keep);
    forall t ensures keep(t) <==> Gapped(Stamps(rows, t), now, lookback, g) {
      WindowGapsAreStoredGaps(Stamps(rows, t), now, lookback, g);
    }
    forall t | t in Selected(rows, tickers, now, lookback, g)
      ensures multiset(Selected(rows, tickers, now, lookback, g))[t] == multiset(tickers)[t]
    {
      FilterKeepsRepeats(tickers, keep, t);
    }
  }

  /** The three reasons, with the third one about all stored samples. */
  ghost predicate Gapped(s: set<int>, now: int, lookback: int, g: int) {
    || s == {}
    || (forall x :: x in s ==> x < now - g)
    || (exists a, b :: Neighbours(s, a, b) && now - lookback <= a && b <= now && b - a > g)
  }

  lemma WindowGapsAreStoredGaps(s: set<int>, now: int, lookback: int, g: int)
    ensures NeedsBackfill(s, now, lookback, g) <==> Gapped(s, now, lookback, g)
  {
    var window := InWindow(s, now, lookback);
    forall a, b ensures Neighbours(window, a, b) <==> Neighbours(s, a, b) && now - lookback <= a && b <= now {
      assert forall x :: x in s && a < x < b && now - lookback <= a && b <= now ==> x in window;
    }
  }

  /** Some sample is at most `g` seconds old at time `t`. */
  ghost predicate CoveredAt(s: set<int>, t: real, g: int) {
    exists x :: x in s && t - g as real <= x as real <= t
  }

  /** From each in-window sample up to now, every moment has a sample at most `g` old. */
  ghost predicate CoveredUntil(s: set<int>, now: int, lookback: int, g: int) {
    forall first: int, t: real :: first in InWindow(s, now, lookback) && first as real <= t <= now as real ==>
      CoveredAt(s, t, g)
  }

  lemma UnselectedMomentIsCovered(s: set<int>, now: int, lookback: int, g: int, first: int, t: real)
    requires !NeedsBackfill(s, now, lookback, g) && CoveredAt(s, now as real, g)
    requires first in InWindow(s, now, lookback) && first as real <= t <= now as real
    ensures CoveredAt(s, t, g)
  {
    var window := InWindow(s, now, lookback);
    var a := GreatestAtMost(window, t.Floor);
    if later :| later in window && later > t.Floor {
      var b := LeastAtLeast(window, t.Floor + 1);
      assert Neighbours(window, a, b);
      assert t - g as real <= a as real <= t;
    } else {
      var x :| x in s && now as real - g as real <= x as real <= now as real;
      if x < now - lookback {
        assert t - g as real <= a as real <= t;
      } else {
        assert x in window;
        assert t - g as real <= x as real <= t;
      }
    }
  }

  /**
    What a silent detector means. For an unselected ticker with an in-window sample, every moment
    from each such sample up to now is covered exactly when now itself is; a latest timestamp
    that is not in the future guarantees it, and the history is never empty.
   */
  lemma SilenceMeansCoverage(s: set<int>, now: int, lookback: int, g: int)
    requires !NeedsBackfill(s, now, lookback, g)
    ensures s != {}
    ensures InWindow(s, now, lookback) != {} ==> (CoveredUntil(s, now, lookback, g) <==> CoveredAt(s, now as real, g))
    ensures (forall x :: x in s ==> x <= now) ==> CoveredAt(s, now as real, g) && CoveredUntil(s, now, lookback, g)
  {
    var window := InWindow(s, now, lookback);
    if forall x :: x in s ==> x <= now {
      var x :| x in s && now - x <= g;
      assert now as real - g as real <= x as real <= now as real;
    }
    if CoveredAt(s, now as real, g) {
      forall first: int, t: real | first in window && first as real <= t <= now as real ensures CoveredAt(s, t, g) {
        UnselectedMomentIsCovered(s, now, lookback, g, first, t);
      }
    } else if window != {} {
      var first :| first in window;
      assert first as real <= now as real <= now as real;
    }
  }

  /** One sample in the future hides any staleness: the ticker is not selected, yet now is not covered. */
  lemma FutureSampleHidesStaleness(now: int, lookback: int, g: int)
    requires 0 <= g < lookback
    ensures var s := {now - lookback, now + 1};
      !NeedsBackfill(s, now, lookback, g) && InWindow(s, now, lookback) != {} && !CoveredAt(s, now as real, g)
  {
    var s := {now - lookback, now + 1};
    assert now - lookback in InWindow(s, now, lookback);
    assert InWindow(s, now, lookback) == {now - lookback};
    assert now + 1 in s && now - (now + 1) <= g;
  }

  /** With no sample in the future and one in the window, silence is coverage and nothing else. */
  lemma SilenceIsCoverage(s: set<int>, now: int, lookback: int, g: int)
    requires (forall x :: x in s ==> x <= now) && InWindow(s, now, lookback) != {}
    ensures !NeedsBackfill(s, now, lookback, g) <==> CoveredUntil(s, now, lookback, g)
  {
    var window := InWindow(s, now, lookback);
    if !NeedsBackfill(s, now, lookback, g) {
      SilenceMeansCoverage(s, now, lookback, g);
    } else {
      var first :| first in window;
      if !CoveredAt(s, now as real, g) {
        assert first as real <= now as real <= now as real;
      } else {
        var x :| x in s && now as real - g as real <= x as real <= now as real;
        assert now - x <= g;
        var a, b :| Neighbours(window, a, b) && b - a > g;
        UncoveredInsideGap(s, now, lookback, g, a, b);
      }
    }
  }

  lemma UncoveredInsideGap(s: set<int>, now: int, lookback: int, g: int, a: int, b: int)
    requires Neighbours(InWindow(s, now, lookback), a, b) && b - a > g
    ensures !CoveredUntil(s, now, lookback, g)
  {
    var t := b as real - 0.5;
    forall x | x in s && x as real <= t ensures x as real < t - g as real {
      assert x < now - lookback || x in InWindow(s, now, lookback);
    }
    assert !CoveredAt(s, t, g);
    assert a in InWindow(s, now, lookback) && a as real <= t <= now as real;
  }

  // ---------------------------------------------------------------- repair

  /** Every moment of the window has a sample at most `g` old. */
  ghost predicate CoveredWindow(s: set<int>, now: int, lookback: int, g: int) {
    forall t: real :: now as real - lookback as real <= t <= now as real ==> CoveredAt(s, t, g)
  }

  /**
    Coverage from the first in-window sample on is coverage of the whole window exactly when a
    sample from before the window reaches the first one in it.
   */
  lemma WindowIsCoveredExactlyWhen(s: set<int>, now: int, lookback: int, g: int, first: int)
    requires g >= 0 && CoveredUntil(s, now, lookback, g)
    requires first in InWindow(s, now, lookback) && forall x :: x in InWindow(s, now, lookback) ==> first <= x
    ensures CoveredWindow(s, now, lookback, g)
            <==> exists x :: x in s && x <= now - lookback && first - x <= g
  {
    var start := now - lookback;
    if x :| x in s && x <= start && first - x <= g {
      forall t: real | start as real <= t <= now as real ensures CoveredAt(s, t, g) {
        if t < first as real {
          assert t - g as real <= x as real <= t;
        }
      }
    } else {
      assert start != first;
      var t := first as real - 0.5;
      forall x | x in s && x as real <= t ensures x as real < t - g as real {
        assert x !in InWindow(s, now, lookback);
        assert x <= start;
      }
      assert !CoveredAt(s, t, g);
    }
  }

  /** A lone sample at `now` silences the detector however much of the window before it is empty. */
  lemma HoleBeforeFirstSampleIsNotSeen(now: int, lookback: int, g: int)
    requires 0 <= g < lookback
    ensures !NeedsBackfill({now}, now, lookback, g) && CoveredUntil({now}, now, lookback, g)
    ensures !CoveredAt({now}, (now - lookback) as real, g) && !CoveredWindow({now}, now, lookback, g)
  {
    assert InWindow({now}, now, lookback) == {now};
    assert now in {now} && now - now <= g;
    SilenceMeansCoverage({now}, now, lookback, g);
    assert now as real - lookback as real <= (now - lookback) as real <= now as real;
  }

  /** When a passed-over ticker, with no sample in the future, is covered over the whole window. */
  lemma SilenceCoversWindowExactlyWhen(s: set<int>, now: int, lookback: int, g: int)
    requires !NeedsBackfill(s, now, lookback, g) && forall x :: x in s ==> x <= now
    ensures CoveredWindow(s, now, lookback, g) <==> !HoleAtStart(s, now, lookback, g)
  {
    var window, start := InWindow(s, now, lookback), now - lookback;
    SilenceMeansCoverage(s, now, lookback, g);
    if window == {} {
      var x :| x in s && now - x <= g;
      assert x !in window;
      forall t: real | start as real <= t <= now as real ensures CoveredAt(s, t, g) {
        assert t - g as real <= x as real <= t;
      }
    } else {
      LeastExists(window);
      var first :| first in window && forall x :: x in window ==> first <= x;
      WindowIsCoveredExactlyWhen(s, now, lookback, g, first);
    }
  }

  /** Some in-window sample has no sample at or before the start of the window within `g`, nor one before it in the window. */
  ghost predicate HoleAtStart(s: set<int>, now: int, lookback: int, g: int) {
    exists first ::
      && first in InWindow(s, now, lookback)
      && (forall x :: x in InWindow(s, now, lookback) ==> first <= x)
      && (forall x :: x in s && x <= now - lookback ==> first - x > g)
  }

  // ---------------------------------------------------------------- what keeps the detector quiet

  /** Timestamps that start by `from + g`, end no earlier than `to - g`, and leave no gap wider than `g`. */
  ghost predicate DenseOver(p: set<int>, from: int, to: int, g: int) {
    (exists x :: x in p && x <= from + g) && (exists x :: x in p && x >= to - g) && GapsWithin(p, g)
  }

  /**
    Whatever else is stored, before, between or after them, a dense set of stored samples keeps
    the detector quiet: every gap of the union is bridged by the dense part.
   */
  lemma DensePartKeepsDetectorQuiet(s: set<int>, part: set<int>, now: int, lookback: int, g: int)
    requires part <= s && DenseOver(part, now - lookback, now, g)
    ensures !NeedsBackfill(s, now, lookback, g)
  {
    var early :| early in part && early <= now - lookback + g;
    var late :| late in part && late >= now - g;
    assert late in s && now - late <= g;
    WindowGapsAreStoredGaps(s, now, lookback, g);
    forall a, b | Neighbours(s, a, b) && now - lookback <= a && b <= now ensures b - a <= g {
      if b - a > g {
        assert early in s && late in s;
        assert early <= a && late >= b;
        SubsetBridgesGap(s, part, a, b, g);
      }
    }
  }

  /** A sample strictly inside the gap. */
  ghost predicate Hits(p: set<int>, a: int, b: int) {
    exists x :: x in p && a < x < b
  }

  /** Fresh enough, and inside every gap of the window that is wider than `g`. */
  ghost predicate Bridges(p: set<int>, now: int, lookback: int, g: int) {
    && (exists x :: x in p && now - x <= g)
    && forall a, b :: now - lookback <= a < b <= now && b - a > g ==> Hits(p, a, b)
  }

  /** The weakest such part: it keeps every history that contains it quiet, and no other part does. */
  lemma AlwaysQuietExactlyWhen(part: set<int>, now: int, lookback: int, g: int)
    ensures (forall s: set<int> :: part <= s ==> !NeedsBackfill(s, now, lookback, g))
            <==> Bridges(part, now, lookback, g)
  {
    if Bridges(part, now, lookback, g) {
      forall s: set<int> | part <= s ensures !NeedsBackfill(s, now, lookback, g) {
        BridgingPartKeepsQuiet(s, part, now, lookback, g);
      }
    } else if exists x :: x in part && now - x <= g {
      var a, b :| now - lookback <= a < b <= now && b - a > g && !Hits(part, a, b);
      UnbridgedGapCanOpen(part, now, lookback, g, a, b);
      assert part <= part + {a, b};
    } else {
      assert part <= part && NeedsBackfill(part, now, lookback, g);
    }
  }

  lemma BridgingPartKeepsQuiet(s: set<int>, part: set<int>, now: int, lookback: int, g: int)
    requires part <= s && Bridges(part, now, lookback, g)
    ensures !NeedsBackfill(s, now, lookback, g)
  {
    forall a, b | Neighbours(InWindow(s, now, lookback), a, b) ensures b - a <= g {
      assert forall x :: x in part && a < x < b ==> x in InWindow(s, now, lookback);
      assert !Hits(part, a, b);
    }
  }

  /** A gap the part does not reach into opens when nothing but its two ends is stored beside it. */
  lemma UnbridgedGapCanOpen(part: set<int>, now: int, lookback: int, g: int, a: int, b: int)
    requires now - lookback <= a < b <= now && b - a > g && !Hits(part, a, b)
    ensures NeedsBackfill(part + {a, b}, now, lookback, g)
  {
    assert Neighbours(InWindow(part + {a, b}, now, lookback), a, b);
  }

  /** Points dense over the window, or whose in-window part is, or a longer stretch of them, bridge it. */
  lemma DensePartBridges(points: set<int>, part: set<int>, from: int, now: int, lookback: int, g: int)
    requires part <= points && from <= now - lookback && DenseOver(part, from, now, g)
    ensures Bridges(points, now, lookback, g)
  {
    forall s: set<int> | points <= s ensures !NeedsBackfill(s, now, lookback, g) {
      DensePartKeepsDetectorQuiet(s, part, now, lookback, g);
    }
    AlwaysQuietExactlyWhen(points, now, lookback, g);
  }

  lemma StampsAreKeys(rows: seq<Row>, t: Ticker, x: int)
    ensures x in Stamps(rows, t) <==> Key(t, x) in Keys(rows)
  {
    if Key(t, x) in Keys(rows) {
      var r :| r in rows && r.Id() == Key(t, x);
      assert r.timestamp in Stamps(rows, t);
    }
    if x in Stamps(rows, t) {
      var r :| r in rows && r.ticker == t && r.timestamp == x;
      assert r.Id() == Key(t, x);
    }
  }

  /** Committed writes add their timestamps to what each ticker has stored, and remove none. */
  lemma CommittedWritesAddStamps(rows: seq<Row>, writes: seq<Row>, after: seq<Row>, t: Ticker)
    requires UniqueKeys(rows) && UniqueKeys(after) && TableOf(after) == Apply(TableOf(rows), writes)
    ensures Stamps(after, t) == Stamps(rows, t) + Stamps(writes, t)
  {
    TableOfUnique(rows);
    TableOfUnique(after);
    ApplyIsLastWriterWins(TableOf(rows), writes);
    forall x ensures x in Stamps(after, t) <==> x in Stamps(rows, t) + Stamps(writes, t) {
      StampsAreKeys(after, t, x);
      StampsAreKeys(rows, t, x);
      StampsAreKeys(writes, t, x);
    }
  }

  /**
    Repair convergence for one ticker: committing points whose in-window part is dense makes the
    next detection at the same time and lookback pass the ticker over.
   */
  lemma DenseBackfillQuietsTicker(rows: seq<Row>, writes: seq<Row>, after: seq<Row>, t: Ticker,
                                  now: int, lookback: int, g: int)
    requires UniqueKeys(rows) && UniqueKeys(after) && TableOf(after) == Apply(TableOf(rows), writes)
    requires DenseOver(InWindow(Stamps(writes, t), now, lookback), now - lookback, now, g)
    ensures !NeedsBackfill(Stamps(after, t), now, lookback, g)
  {
    CommittedWritesAddStamps(rows, writes, after, t);
    DensePartKeepsDetectorQuiet(Stamps(after, t), InWindow(Stamps(writes, t), now, lookback), now, lookback, g);
  }

  // ---------------------------------------------------------------- the whole detect-and-repair loop

  ghost function Seconds(points: seq<Point>): set<int> {
    set p | p in points :: p.timestamp
  }

  /** The moment a chart of the given range starts at. */
  function RangeStart(range: HistoryRange, now: int, lookback: int): int {
    if Span(range).Some? then now - Span(range).value else now - lookback
  }

  /** The ticker got a chart, possibly at one of several places in the list. */
  ghost predicate HasChart(tickers: seq<Ticker>, charts: seq<ChartAnswer>, t: Ticker)
    requires |tickers| == |charts|
  {
    exists i :: 0 <= i < |tickers| && tickers[i] == t && charts[i].Points?
  }

  lemma {:induction false} ChartRowMembers(tickers: seq<Ticker>, charts: seq<ChartAnswer>, n: nat, r: Row)
    requires n <= |tickers| == |charts|
    ensures r in ChartRowsUpTo(tickers, charts, n)
            <==> exists i :: 0 <= i < n && charts[i].Points? && r in RowsOf(tickers[i], charts[i].points)
  {
    if n != 0 {
      ChartRowMembers(tickers, charts, n - 1, r);
    }
  }

  /** A ticker's own charts are all the backfill stores for it. */
  lemma ChartStamps(tickers: seq<Ticker>, charts: seq<ChartAnswer>, t: Ticker)
    requires |tickers| == |charts|
    ensures !HasChart(tickers, charts, t) ==> Stamps(ChartRows(tickers, charts), t) == {}
    ensures forall i :: 0 <= i < |tickers| && tickers[i] == t && charts[i].Points? ==>
              Seconds(charts[i].points) <= Stamps(ChartRows(tickers, charts), t)
  {
    var rows := ChartRows(tickers, charts);
    if x :| x in Stamps(rows, t) {
      var r :| r in rows && r.ticker == t;
      ChartRowMembers(tickers, charts, |tickers|, r);
      assert HasChart(tickers, charts, t);
    }
    forall i, x | 0 <= i < |tickers| && tickers[i] == t && charts[i].Points? && x in Seconds(charts[i].points)
      ensures x in Stamps(rows, t)
    {
      var p :| p in charts[i].points && p.timestamp == x;
      var j :| 0 <= j < |charts[i].points| && charts[i].points[j] == p;
      var r := RowsOf(t, charts[i].points)[j];
      ChartRowMembers(tickers, charts, |tickers|, r);
    }
  }

  /** Every chart the provider returned bridges the window. */
  ghost predicate BridgingCharts(charts: seq<ChartAnswer>, now: int, lookback: int, g: int) {
    forall i :: 0 <= i < |charts| && charts[i].Points? ==> Bridges(Seconds(charts[i].points), now, lookback, g)
  }

  /** A chart does so when it is dense over the range it was asked for, or only inside the window. */
  lemma DenseChartBridges(points: seq<Point>, now: int, lookback: int, g: int)
    requires || DenseOver(Seconds(points), RangeStart(ResolveReconciliationRange(lookback), now, lookback), now, g)
             || DenseOver(InWindow(Seconds(points), now, lookback), now - lookback, now, g)
    ensures Bridges(Seconds(points), now, lookback, g)
  {
    ResolvedRangeIsShortestCover(lookback, OneHour);
    if DenseOver(InWindow(Seconds(points), now, lookback), now - lookback, now, g) {
      DensePartBridges(Seconds(points), InWindow(Seconds(points), now, lookback), now - lookback, now, lookback, g);
    } else {
      var start := RangeStart(ResolveReconciliationRange(lookback), now, lookback);
      DensePartBridges(Seconds(points), Seconds(points), start, now, lookback, g);
    }
  }

  lemma RepairOfTicker(rows: seq<Row>, after: seq<Row>, selected: seq<Ticker>, charts: seq<ChartAnswer>, t: Ticker,
                       now: int, lookback: int, g: int)
    requires UniqueKeys(rows) && UniqueKeys(after) && |charts| == |selected|
    requires TableOf(after) == Apply(TableOf(rows), ChartRows(selected, charts))
    requires BridgingCharts(charts, now, lookback, g)
    ensures NeedsBackfill(Stamps(after, t), now, lookback, g)
            <==> NeedsBackfill(Stamps(rows, t), now, lookback, g) && !HasChart(selected, charts, t)
  {
    var writes := ChartRows(selected, charts);
    CommittedWritesAddStamps(rows, writes, after, t);
    ChartStamps(selected, charts, t);
    if HasChart(selected, charts, t) {
      var i :| 0 <= i < |selected| && selected[i] == t && charts[i].Points?;
      BridgingPartKeepsQuiet(Stamps(after, t), Seconds(charts[i].points), now, lookback, g);
    } else {
      assert Stamps(after, t) == Stamps(rows, t);
    }
  }

  ghost function Uncharted(tickers: seq<Ticker>, charts: seq<ChartAnswer>): Ticker -> bool
    requires |tickers| == |charts|
  {
    (t: Ticker) => !HasChart(tickers, charts, t)
  }

  lemma NextPassSelectsUncharted(rows: seq<Row>, after: seq<Row>, tickers: seq<Ticker>, charts: seq<ChartAnswer>,
                                 now: int, lookback: int, g: int)
    requires UniqueKeys(rows) && UniqueKeys(after) && |charts| == |Selected(rows, tickers, now, lookback, g)|
    requires TableOf(after) == Apply(TableOf(rows), ChartRows(Selected(rows, tickers, now, lookback, g), charts))
    requires BridgingCharts(charts, now, lookback, g)
    ensures var first := Selected(rows, tickers, now, lookback, g);
      Selected(after, tickers, now, lookback, g) == Filter(first, Uncharted(first, charts))
  {
    var first := Selected(rows, tickers, now, lookback, g);
    var before, later, missing := Selector(rows, now, lookback, g), Selector(after, now, lookback, g), Uncharted(first, charts);
    forall t ensures later(t) == (before(t) && missing(t)) {
      RepairOfTicker(rows, after, first, charts, t, now, lookback, g);
    }
    FilterTwice(tickers, before, missing, later);
  }

  lemma NothingFiltered<T>(s: seq<T>, p: T -> bool)
    ensures Filter(s, p) == [] <==> forall x :: x in s ==> !p(x)
  {
    FilterMembers(s, p);
    if Filter(s, p) != [] {
      assert Filter(s, p)[0] in Filter(s, p);
    }
  }

  /**
    The loop converges. After the dispatched backfill committed charts that bridge the window,
    the next pass at the same time and lookback selects exactly the tickers of
    the first pass that got no chart; it queues nothing exactly when every one of them got one.
   */
  lemma RepairLoopConverges(rows: seq<Row>, after: seq<Row>, tickers: seq<Ticker>, env: BackfillEnv,
                            now: int, lookback: int, g: int)
    requires UniqueKeys(rows) && UniqueKeys(after) && Reconciled(rows, tickers, now, lookback, g).Some?
    requires var dispatch := Reconciled(rows, tickers, now, lookback, g).value;
      && |env.charts| == |dispatch.tickers|
      && BackfillVerdict(dispatch.rangeName, env) == Committed
      && TableOf(after) == Apply(TableOf(rows), ChartRows(dispatch.tickers, env.charts))
      && BridgingCharts(env.charts, now, lookback, g)
    ensures var first := Reconciled(rows, tickers, now, lookback, g).value.tickers;
      && Selected(after, tickers, now, lookback, g) == Filter(first, Uncharted(first, env.charts))
      && (Reconciled(after, tickers, now, lookback, g).None? <==> forall t :: t in first ==> HasChart(first, env.charts, t))
  {
    var first := Reconciled(rows, tickers, now, lookback, g).value.tickers;
    ResolvedRangeIsShortestCover(lookback, ResolveReconciliationRange(lookback));
    NextPassSelectsUncharted(rows, after, tickers, env.charts, now, lookback, g);
    NothingFiltered(first, Uncharted(first, env.charts));
  }

  /** The same for the queued task with its retries: only the charts of the attempt that committed have to bridge. */
  lemma RetriedRepairConverges(rows: seq<Row>, after: seq<Row>, tickers: seq<Ticker>, envs: seq<BackfillEnv>,
                               now: int, lookback: int, g: int)
    requires UniqueKeys(rows) && UniqueKeys(after) && Reconciled(rows, tickers, now, lookback, g).Some?
    requires |envs| == MAX_RETRIES + 1
    requires forall i :: 0 <= i < |envs| ==> |envs[i].charts| == |Selected(rows, tickers, now, lookback, g)|
    requires var dispatch := Reconciled(rows, tickers, now, lookback, g).value;
      var run := RunTask(TableOf(rows), BackfillAttempts(dispatch.tickers, dispatch.rangeName, envs));
      && run.verdict == Committed && TableOf(after) == run.table
      && BridgingCharts(LastEnv(envs, run).charts, now, lookback, g)
    ensures var dispatch := Reconciled(rows, tickers, now, lookback, g).value;
      var run := RunTask(TableOf(rows), BackfillAttempts(dispatch.tickers, dispatch.rangeName, envs));
      var charts := LastEnv(envs, run).charts;
      && Selected(after, tickers, now, lookback, g) == Filter(dispatch.tickers, Uncharted(dispatch.tickers, charts))
      && (Reconciled(after, tickers, now, lookback, g).None?
          <==> forall t :: t in dispatch.tickers ==> HasChart(dispatch.tickers, charts, t))
  {
    var dispatch := Reconciled(rows, tickers, now, lookback, g).value;
    LastEnvDecides(TableOf(rows), dispatch.tickers, dispatch.rangeName, envs);
    var run := RunTask(TableOf(rows), BackfillAttempts(dispatch.tickers, dispatch.rangeName, envs));
    RepairLoopConverges(rows, after, tickers, LastEnv(envs, run), now, lookback, g);
  }

  // ---------------------------------------------------------------- repair among other workers

  /**
    The queued backfill is one worker among others: between the detection, its commit and the next
    detection any number of other attempts may save, commit and abort. A ticker whose committed
    chart bridges the window is not selected again, whatever they wrote.
   */
  lemma RepairSurvivesInterleaving(rows: seq<Row>, steps: seq<Workers.Step>, first: seq<Ticker>, charts: seq<ChartAnswer>,
                                   t: Ticker, now: int, lookback: int, g: int)
    requires UniqueKeys(rows) && Workers.ValidRun(Workers.Start(rows), steps) && |charts| == |first|
    requires ChartRows(first, charts) in Workers.CommittedBy(steps)
    requires BridgingCharts(charts, now, lookback, g) && HasChart(first, charts, t)
    ensures !NeedsBackfill(Stamps(Workers.Run(Workers.Start(rows), steps).rows, t), now, lookback, g)
  {
    var s := Workers.Run(Workers.Start(rows), steps);
    var writes := ChartRows(first, charts);
    Workers.EveryInterleavingIsSafe(rows, steps);
    FlattenMembers(Workers.CommittedBy(steps));
    assert Keys(writes) <= Keys(s.rows);
    var i :| 0 <= i < |first| && first[i] == t && charts[i].Points?;
    ChartStamps(first, charts, t);
    forall x | x in Seconds(charts[i].points) ensures x in Stamps(s.rows, t) {
      StampsAreKeys(writes, t, x);
      StampsAreKeys(s.rows, t, x);
    }
    BridgingPartKeepsQuiet(Stamps(s.rows, t), Seconds(charts[i].points), now, lookback, g);
  }
}
