/**
  Where a unique conflict surfaces in a backfill. Autoflush sends the rows an attempt has added
  before each of its selects, so a conflict is noticed at the next save, or at the commit when
  there is no next save. The two ends are not the same: only the commit is retried.
 */
module Autoflush {
  import opened Collections
  import opened PriceTable
  import opened ChartData
  import opened Collector

  /**
    The rows committed by all workers at the select of each save, and last at the commit. Other
    workers only ever add keys (`Workers.KeysOnlyGrow`).
   */
  ghost predicate Growing(moments: seq<seq<Row>>) {
    forall i, j :: 0 <= i <= j < |moments| ==> Keys(moments[i]) <= Keys(moments[j])
  }

  /** What the first `n` saves staged, each made against the rows committed at its moment. */
  function StagedAfter(writes: seq<Row>, moments: seq<seq<Row>>, n: nat): Staged
    requires n <= |writes| < |moments|
  {
    if n == 0 then NOTHING_STAGED else Save(moments[n - 1], StagedAfter(writes, moments, n - 1), writes[n - 1])
  }

  /** The rows not yet sent after `n` saves: what the last of them added, since its select sent all before it. */
  function Unsent(writes: seq<Row>, moments: seq<seq<Row>>, n: nat): seq<Row>
    requires n <= |writes| < |moments|
  {
    if n == 0 then [] else
      var before, after := StagedAfter(writes, moments, n - 1).inserts, StagedAfter(writes, moments, n).inserts;
      if |after| > |before| then after[|before|..] else []
  }

  /** Sending them before save `n`, or at the commit, violates the unique constraint. */
  predicate Refused(writes: seq<Row>, moments: seq<seq<Row>>, n: nat)
    requires n <= |writes| < |moments|
  {
    Conflicts(moments[n], Staged(Unsent(writes, moments, n), map[]))
  }

  /** The key of the save before moment `n` was free when the attempt first saved it, and taken at the moment. */
  predicate TakenMeanwhile(writes: seq<Row>, moments: seq<seq<Row>>, n: nat)
    requires n <= |writes| < |moments|
  {
    && n > 0
    && writes[n - 1].Id() !in Keys(moments[n - 1])
    && writes[n - 1].Id() in Keys(moments[n])
    && forall j :: 0 <= j < n - 1 ==> writes[j].Id() != writes[n - 1].Id()
  }

  /** The keys of the first `n` saves. */
  function Written(writes: seq<Row>, n: nat): set<Key>
    requires n <= |writes|
  {
    if n == 0 then {} else Written(writes, n - 1) + {writes[n - 1].Id()}
  }

  /** Written keys are staged or committed, and only written ones are staged. */
  ghost predicate Accounts(written: set<Key>, staged: set<Key>, committed: set<Key>) {
    staged <= written <= staged + committed
  }

  lemma Unaccounted(written: set<Key>, staged: set<Key>, committed: set<Key>, k: Key)
    requires Accounts(written, staged, committed)
    ensures k !in committed + staged <==> k !in committed && k !in written
  {}

  lemma KeyAdded(written: set<Key>, staged: set<Key>, committed: set<Key>, later: set<Key>, k: Key)
    requires Accounts(written, staged, committed) && committed <= later
    ensures Accounts(written + {k}, staged + (if k in committed then {} else {k}), later)
  {}

  /** Every key written so far is staged for insertion or committed; nothing else is staged for insertion. */
  lemma {:induction false} StagedKeys(writes: seq<Row>, moments: seq<seq<Row>>, n: nat)
    requires n <= |writes| < |moments| && Growing(moments)
    ensures Accounts(Written(writes, n), Keys(StagedAfter(writes, moments, n).inserts), Keys(moments[n]))
  {
    if n != 0 {
      StagedKeys(writes, moments, n - 1);
      SaveInserts(moments[n - 1], StagedAfter(writes, moments, n - 1), writes[n - 1]);
      KeyAdded(Written(writes, n - 1), Keys(StagedAfter(writes, moments, n - 1).inserts), Keys(moments[n - 1]),
               Keys(moments[n]), writes[n - 1].Id());
    }
  }

  /** A save leaves at most its own row unsent, and that exactly when the transaction sees none with its key. */
  lemma UnsentRow(writes: seq<Row>, moments: seq<seq<Row>>, n: nat)
    requires 0 < n <= |writes| < |moments|
    ensures Unsent(writes, moments, n)
            == if writes[n - 1].Id() in Keys(moments[n - 1]) + Keys(StagedAfter(writes, moments, n - 1).inserts) then []
               else [writes[n - 1]]
  {
    KeysSeen(moments[n - 1], StagedAfter(writes, moments, n - 1));
  }

  lemma {:induction false} WrittenBefore(writes: seq<Row>, n: nat, k: Key)
    requires n <= |writes|
    ensures k in Written(writes, n) <==> exists j :: 0 <= j < n && writes[j].Id() == k
  {
    if n != 0 {
      WrittenBefore(writes, n - 1, k);
    }
  }

  lemma RefusedKey(writes: seq<Row>, moments: seq<seq<Row>>, n: nat)
    requires 0 < n <= |writes| < |moments|
    ensures Refused(writes, moments, n)
            <==> && writes[n - 1].Id() !in Keys(moments[n - 1]) + Keys(StagedAfter(writes, moments, n - 1).inserts)
                 && writes[n - 1].Id() in Keys(moments[n])
  {
    UnsentRow(writes, moments, n);
    ConflictsOfOne(moments[n], writes[n - 1]);
  }

  lemma ConflictsOfOne(rows: seq<Row>, r: Row)
    ensures Conflicts(rows, Staged([r], map[])) <==> r.Id() in Keys(rows)
    ensures !Conflicts(rows, Staged([], map[]))
  {
    assert r in [r];
  }

  /** A transaction sees no row with a key exactly when none is committed and the attempt wrote none. */
  lemma UnseenKey(writes: seq<Row>, moments: seq<seq<Row>>, n: nat, k: Key)
    requires n <= |writes| < |moments| && Growing(moments)
    ensures k !in Keys(moments[n]) + Keys(StagedAfter(writes, moments, n).inserts)
            <==> k !in Keys(moments[n]) && forall j :: 0 <= j < n ==> writes[j].Id() != k
  {
    WrittenBefore(writes, n, k);
    StagedKeys(writes, moments, n);
    Unaccounted(Written(writes, n), Keys(StagedAfter(writes, moments, n).inserts), Keys(moments[n]), k);
  }

  /** A flush or commit conflicts exactly when another worker took the key of the save just before it. */
  lemma RefusedExactlyWhenTaken(writes: seq<Row>, moments: seq<seq<Row>>, n: nat)
    requires n <= |writes| < |moments| && Growing(moments)
    ensures Refused(writes, moments, n) <==> TakenMeanwhile(writes, moments, n)
  {
    if n > 0 {
      RefusedKey(writes, moments, n);
      UnseenKey(writes, moments, n - 1, writes[n - 1].Id());
    }
  }

  // ---------------------------------------------------------------- the attempt those conflicts end

  /** The first of `n` places that holds true. */
  function FirstTrue(flags: seq<bool>, n: nat): Option<nat>
    requires n <= |flags|
  {
    if n == 0 then None else
      var earlier := FirstTrue(flags, n - 1);
      if earlier.Some? then earlier else if flags[n - 1] then Some(n - 1) else None
  }

  lemma {:induction false} FirstTrueIsFirst(flags: seq<bool>, n: nat)
    requires n <= |flags|
    ensures var first := FirstTrue(flags, n);
      && (first.Some? ==> first.value < n && flags[first.value])
      && forall i :: 0 <= i < (if first.Some? then first.value else n) ==> !flags[i]
  {
    if n > 0 {
      FirstTrueIsFirst(flags, n - 1);
    }
  }

  /** Which selects the database refuses, and last whether it refuses the commit. */
  function Refusals(writes: seq<Row>, moments: seq<seq<Row>>): seq<bool>
    requires |writes| < |moments|
  {
    seq(|writes| + 1, n requires 0 <= n <= |writes| => Refused(writes, moments, n))
  }

  /** An attempt to save `writes` in which the database refuses nothing but unique conflicts. */
  function ConflictEnv(charts: seq<ChartAnswer>, writes: seq<Row>, moments: seq<seq<Row>>): BackfillEnv
    requires |writes| < |moments|
  {
    BackfillEnv(charts, FirstTrue(Refusals(writes, moments), |writes|), !Refused(writes, moments, |writes|))
  }

  lemma RefusalsAreTaken(writes: seq<Row>, moments: seq<seq<Row>>)
    requires |writes| < |moments| && Growing(moments)
    ensures forall i :: 0 <= i <= |writes| ==> Refusals(writes, moments)[i] == TakenMeanwhile(writes, moments, i)
  {
    forall i | 0 <= i <= |writes| ensures Refused(writes, moments, i) == TakenMeanwhile(writes, moments, i) {
      RefusedExactlyWhenTaken(writes, moments, i);
    }
  }

  /** Another worker took a key before the select of one of the first `n` saves. */
  predicate LosesKey(writes: seq<Row>, moments: seq<seq<Row>>, n: nat)
    requires n <= |writes| < |moments|
  {
    exists i :: 0 <= i < n && TakenMeanwhile(writes, moments, i)
  }

  lemma ConflictsInEnv(charts: seq<ChartAnswer>, writes: seq<Row>, moments: seq<seq<Row>>, n: nat)
    requires n <= |writes| < |moments| && Growing(moments)
    ensures var env := ConflictEnv(charts, writes, moments);
      && (env.refusedSave.Some? && env.refusedSave.value < n <==> LosesKey(writes, moments, n))
      && (env.commitAccepted <==> !TakenMeanwhile(writes, moments, |writes|))
  {
    RefusalsAreTaken(writes, moments);
    FirstTrueIsFirst(Refusals(writes, moments), |writes|);
    RefusedExactlyWhenTaken(writes, moments, |writes|);
  }

  lemma {:induction false} RowsAreSaves(tickers: seq<Ticker>, charts: seq<ChartAnswer>, n: nat)
    requires n <= |tickers| == |charts|
    ensures |ChartRowsUpTo(tickers, charts, n)| == SavesUpTo(charts, n)
  {
    if n != 0 {
      RowsAreSaves(tickers, charts, n - 1);
    }
  }

  lemma {:induction false} SavesAddUp(charts: seq<ChartAnswer>, n: nat, m: nat)
    requires n <= m <= |charts|
    ensures SavesUpTo(charts, n) <= SavesUpTo(charts, m)
    decreases m
  {
    if n < m {
      SavesAddUp(charts, n, m - 1);
    }
  }

  /** Among tickers that have a chart or fail permanently only a refused save ends the loop. */
  lemma {:induction false} OnlyRefusalsStop(env: BackfillEnv, n: nat)
    requires n <= |env.charts|
    requires forall i :: 0 <= i < n ==> env.charts[i].Points? || env.charts[i].PermanentChartError?
    ensures FirstSome(Stops(env), n)
            == if env.refusedSave.Some? && env.refusedSave.value < SavesUpTo(env.charts, n) then Some(Crashed) else None
  {
    if n != 0 {
      OnlyRefusalsStop(env, n - 1);
    }
  }

  /** The loop reaches ticker `m`, or the end, unless a save is refused; there the chart itself ends it. */
  predicate ChartsEndAt(charts: seq<ChartAnswer>, m: nat) {
    && m <= |charts|
    && (forall i :: 0 <= i < m ==> charts[i].Points? || charts[i].PermanentChartError?)
    && (m < |charts| ==> !charts[m].Points? && !charts[m].PermanentChartError?)
  }

  /** A save refused in the loop crashes the attempt, else the chart of ticker `m` decides, else the commit. */
  function VerdictFrom(charts: seq<ChartAnswer>, m: nat, refusedInLoop: bool, commitRefused: bool): Verdict
    requires ChartsEndAt(charts, m)
  {
    if refusedInLoop then Crashed
    else if m < |charts| then StopsAt(charts[m], None).value
    else if commitRefused then TransientError
    else Committed
  }

  lemma VerdictAt(rangeName: string, env: BackfillEnv, m: nat)
    requires ChartsEndAt(env.charts, m) && ParseRange(rangeName).Some?
    ensures BackfillVerdict(rangeName, env)
            == VerdictFrom(env.charts, m, env.refusedSave.Some? && env.refusedSave.value < SavesUpTo(env.charts, m),
                           !env.commitAccepted)
  {
    OnlyRefusalsStop(env, m);
    if FirstSome(Stops(env), m).Some? {
      FirstSomeStays(Stops(env), m, |env.charts|);
    } else if m < |env.charts| {
      FirstSomeStays(Stops(env), m + 1, |env.charts|);
    }
  }

  lemma SavesOfRows(tickers: seq<Ticker>, charts: seq<ChartAnswer>, m: nat)
    requires m <= |tickers| == |charts|
    ensures SavesUpTo(charts, m) <= |ChartRows(tickers, charts)|
  {
    RowsAreSaves(tickers, charts, |tickers|);
    SavesAddUp(charts, m, |charts|);
  }

  /**
    When a key another worker took sends a backfill into a retry: exactly when it was taken between
    the attempt's last save, which wrote it, and the commit, no earlier one having been taken
    before the next save. Taken anywhere else it ends the run at once, the table untouched.
    Ticker `m` is the first whose chart ends the loop by itself; only the saves before it are made.
   */
  lemma ConflictIsRetriedExactlyFromLastSave(t: Table, tickers: seq<Ticker>, rangeName: string, charts: seq<ChartAnswer>,
                                             moments: seq<seq<Row>>, m: nat, later: seq<BackfillEnv>)
    requires |charts| == |tickers| && |later| == MAX_RETRIES && forall j :: 0 <= j < |later| ==> |later[j].charts| == |tickers|
    requires |moments| == |ChartRows(tickers, charts)| + 1 && Growing(moments)
    requires ChartsEndAt(charts, m) && ParseRange(rangeName).Some?
    ensures SavesUpTo(charts, m) <= |ChartRows(tickers, charts)|
    ensures var writes := ChartRows(tickers, charts);
      var run := RunTask(t, BackfillAttempts(tickers, rangeName, [ConflictEnv(charts, writes, moments)] + later));
      var lost := LosesKey(writes, moments, SavesUpTo(charts, m));
      && (lost ==> run == RunResult(t, Crashed, 1))
      && (run.attempts > 1 <==> !lost && if m < |tickers| then charts[m].TransientChartError?
                                         else TakenMeanwhile(writes, moments, |writes|))
  {
    var first := ConflictEnv(charts, ChartRows(tickers, charts), moments);
    SavesOfRows(tickers, charts, m);
    ConflictsInEnv(charts, ChartRows(tickers, charts), moments, SavesUpTo(charts, m));
    VerdictAt(rangeName, first, m);
    FirstVerdictDecidesRetry(t, BackfillAttempts(tickers, rangeName, [first] + later));
  }

  /** A second attempt is made exactly after a transient error, and one that crashes leaves the table alone. */
  lemma FirstVerdictDecidesRetry(t: Table, attempts: seq<Attempt>)
    requires |attempts| > 1
    ensures RunTask(t, attempts).attempts > 1 <==> attempts[0].verdict == TransientError
    ensures attempts[0].verdict == Crashed ==> RunTask(t, attempts) == RunResult(t, Crashed, 1)
  {
    RetriedRunIsAtomic(t, attempts);
  }
}
