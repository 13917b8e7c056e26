/**
  Any number of fetch and backfill workers against one table. Each `save_price` is one step that
  reads the rows committed at that moment together with the worker's own staged rows; a commit
  installs all staged writes at once and is refused when they break the unique constraint; an
  attempt may be given up at any time, which discards what it staged. The machine admits more runs
  than the code: a save is always possible, although with autoflush its select is refused once a
  staged row conflicts (see `Autoflush`). What holds of every run here holds of those of the code.
 */
module Workers {
  import opened Collections
  import opened PriceTable

  type WorkerId = nat

  /** An attempt in progress: the rows it asked to save so far, and what is staged for them. */
  datatype Worker = Worker(writes: seq<Row>, staged: Staged)

  const FRESH_WORKER := Worker([], NOTHING_STAGED)

  /** The committed rows, the attempts in progress, and the writes of every attempt that committed. */
  datatype State = State(rows: seq<Row>, workers: map<WorkerId, Worker>, log: seq<seq<Row>>)

  datatype Step =
    | SaveStep(w: WorkerId, row: Row)
    | CommitStep(w: WorkerId)    // accepted by the database
    | ConflictStep(w: WorkerId)  // refused: a staged row's key is already committed
    | AbandonStep(w: WorkerId)   // any other failure, or all tickers failed

  function At(s: State, w: WorkerId): Worker {
    if w in s.workers then s.workers[w] else FRESH_WORKER
  }

  predicate Enabled(s: State, step: Step) {
    match step
    case SaveStep(_, _) => true
    case CommitStep(w) => !Conflicts(s.rows, At(s, w).staged)
    case ConflictStep(w) => Conflicts(s.rows, At(s, w).staged)
    case AbandonStep(_) => true
  }

  function Next(s: State, step: Step): State {
    match step
    case SaveStep(w, row) =>
      var a := At(s, w);
      s.(workers := s.workers[w := Worker(a.writes + [row], Save(s.rows, a.staged, row))])
    case CommitStep(w) =>
      State(Flushed(s.rows, At(s, w).staged), s.workers[w := FRESH_WORKER], s.log + [At(s, w).writes])
    case ConflictStep(w) => s.(workers := s.workers[w := FRESH_WORKER])
    case AbandonStep(w) => s.(workers := s.workers[w := FRESH_WORKER])
  }

  ghost predicate ValidRun(s: State, steps: seq<Step>)
    decreases |steps|
  {
    steps == [] || (Enabled(s, steps[0]) && ValidRun(Next(s, steps[0]), steps[1..]))
  }

  function Run(s: State, steps: seq<Step>): State
    decreases |steps|
  {
    if steps == [] then s else Run(Next(s, steps[0]), steps[1..])
  }

  function Start(rows: seq<Row>): State {
    State(rows, map[], [])
  }

  /** A worker may save or give up at any moment, and of a commit and its refusal exactly one is possible. */
  lemma OneOutcomePerCommit(s: State, w: WorkerId, row: Row)
    ensures Enabled(s, SaveStep(w, row)) && Enabled(s, AbandonStep(w))
    ensures Enabled(s, CommitStep(w)) <==> !Enabled(s, ConflictStep(w))
    ensures Enabled(s, ConflictStep(w)) <==> exists r :: r in At(s, w).staged.inserts && r.Id() in Keys(s.rows)
  {}

  // ---------------------------------------------------------------- attempts, read off the steps alone

  /** The rows worker `w` asked to save since its last commit, refusal or abandonment. */
  function AttemptOf(steps: seq<Step>, w: WorkerId): seq<Row> {
    if steps == [] then [] else
      var before, last := AttemptOf(steps[..|steps| - 1], w), steps[|steps| - 1];
      if last.w != w then before else if last.SaveStep? then before + [last.row] else []
  }

  /** The attempts that were committed, in commit order. */
  function CommittedBy(steps: seq<Step>): seq<seq<Row>> {
    if steps == [] then [] else
      var init, last := steps[..|steps| - 1], steps[|steps| - 1];
      if last.CommitStep? then CommittedBy(init) + [AttemptOf(init, last.w)] else CommittedBy(init)
  }

  lemma {:induction false} RunSnoc(s: State, steps: seq<Step>)
    requires steps != []
    ensures Run(s, steps) == Next(Run(s, steps[..|steps| - 1]), steps[|steps| - 1])
    decreases |steps|
  {
    if |steps| > 1 {
      RunSnoc(Next(s, steps[0]), steps[1..]);
      assert steps[1..][..|steps| - 2] == steps[..|steps| - 1][1..];
    }
  }

  /** A worker's writes are those of its current attempt, and the log holds the committed attempts. */
  lemma {:induction false} RunIsWhatStepsSay(rows0: seq<Row>, steps: seq<Step>)
    ensures forall w :: At(Run(Start(rows0), steps), w).writes == AttemptOf(steps, w)
    ensures Run(Start(rows0), steps).log == CommittedBy(steps)
  {
    if steps != [] {
      RunIsWhatStepsSay(rows0, steps[..|steps| - 1]);
      RunSnoc(Start(rows0), steps);
    }
  }

  // ---------------------------------------------------------------- attempts that end without a commit

  /** The next time worker `w` ends an attempt it is refused or given up. */
  predicate Discarded(steps: seq<Step>, w: WorkerId) {
    steps != [] &&
    if steps[0].w == w && !steps[0].SaveStep? then !steps[0].CommitStep? else Discarded(steps[1..], w)
  }

  /** The step belongs to an attempt that ends in a refusal or is given up. */
  predicate Gone(step: Step, rest: seq<Step>) {
    match step
    case SaveStep(w, _) => Discarded(rest, w)
    case CommitStep(_) => false
    case ConflictStep(_) => true
    case AbandonStep(_) => true
  }

  /** The steps without those attempts. */
  function Erase(steps: seq<Step>): seq<Step> {
    if steps == [] then []
    else if Gone(steps[0], steps[1..]) then Erase(steps[1..])
    else [steps[0]] + Erase(steps[1..])
  }

  /** The same table and log; only what a discarded attempt staged may differ. */
  ghost predicate SameButDiscarded(s: State, s': State, steps: seq<Step>) {
    && s'.rows == s.rows && s'.log == s.log
    && forall w :: At(s', w) == if Discarded(steps, w) then FRESH_WORKER else At(s, w)
  }

  lemma DiscardedStep(step: Step, rest: seq<Step>, w: WorkerId)
    ensures Discarded([step] + rest, w)
            == if step.w == w && !step.SaveStep? then !step.CommitStep? else Discarded(rest, w)
  {
    assert ([step] + rest)[1..] == rest;
  }

  lemma StepKeepsSame(s: State, s': State, step: Step, rest: seq<Step>)
    requires SameButDiscarded(s, s', [step] + rest) && Enabled(s, step)
    ensures Gone(step, rest) ==> SameButDiscarded(Next(s, step), s', rest)
    ensures !Gone(step, rest) ==> Enabled(s', step) && SameButDiscarded(Next(s, step), Next(s', step), rest)
  {
    forall w ensures Discarded([step] + rest, w)
                     == if step.w == w && !step.SaveStep? then !step.CommitStep? else Discarded(rest, w) {
      DiscardedStep(step, rest, w);
    }
    assert At(s', step.w) == if Discarded([step] + rest, step.w) then FRESH_WORKER else At(s, step.w);
  }

  lemma {:induction false} EraseAlong(s: State, s': State, steps: seq<Step>)
    requires SameButDiscarded(s, s', steps) && ValidRun(s, steps)
    ensures ValidRun(s', Erase(steps))
    ensures Run(s', Erase(steps)).rows == Run(s, steps).rows && Run(s', Erase(steps)).log == Run(s, steps).log
    decreases |steps|
  {
    if steps != [] {
      var step, rest := steps[0], steps[1..];
      assert steps == [step] + rest;
      StepKeepsSame(s, s', step, rest);
      if Gone(step, rest) {
        EraseAlong(Next(s, step), s', rest);
      } else {
        EraseAlong(Next(s, step), Next(s', step), rest);
        RunStep(s', step, Erase(rest));
      }
    }
  }

  /** Attempts that end in a refusal or are given up leave no trace: without them the run ends in the same table. */
  lemma DiscardedAttemptsLeaveNoTrace(rows0: seq<Row>, steps: seq<Step>)
    requires ValidRun(Start(rows0), steps)
    ensures ValidRun(Start(rows0), Erase(steps))
    ensures Run(Start(rows0), Erase(steps)).rows == Run(Start(rows0), steps).rows
    ensures CommittedBy(Erase(steps)) == CommittedBy(steps)
  {
    EraseAlong(Start(rows0), Start(rows0), steps);
    RunIsWhatStepsSay(rows0, steps);
    RunIsWhatStepsSay(rows0, Erase(steps));
  }

  // ---------------------------------------------------------------- what a worker has staged

  /** Every entry is an attempt's last write to its key. */
  ghost predicate Carries(writes: seq<Row>, t: Table) {
    forall k :: k in t ==> k in Keys(writes) && t[k] == LastWrite(writes, k)
  }

  /**
    Staged rows and prices are the attempt's last write to their key, updates only touch
    committed rows, and every key the attempt wrote is committed or staged for insertion.
   */
  ghost predicate StagedWell(rows: seq<Row>, a: Worker) {
    && UniqueKeys(a.staged.inserts)
    && a.staged.updates.Keys <= Keys(rows)
    && Keys(a.staged.inserts) !! a.staged.updates.Keys
    && Keys(a.writes) <= Keys(rows) + Keys(a.staged.inserts)
    && Carries(a.writes, a.staged.updates)
    && Carries(a.writes, TableOf(a.staged.inserts))
  }

  lemma CarriesStep(writes: seq<Row>, t: Table, row: Row)
    requires Carries(writes, t)
    ensures Carries(writes + [row], t[row.Id() := row.price])
    ensures row.Id() !in t || t[row.Id()] == row.price ==> Carries(writes + [row], t)
    ensures Keys(writes + [row]) == Keys(writes) + {row.Id()}
  {
    KeysConcat(writes, [row]);
    assert Keys([row]) == {row.Id()};
    assert (writes + [row])[..|writes|] == writes;
  }

  lemma InsertStagesWell(rows: seq<Row>, a: Worker, row: Row)
    requires StagedWell(rows, a) && row.Id() !in Keys(rows) + Keys(a.staged.inserts)
    ensures StagedWell(rows, Worker(a.writes + [row], Staged(a.staged.inserts + [row], a.staged.updates)))
  {
    CarriesStep(a.writes, a.staged.updates, row);
    CarriesStep(a.writes, TableOf(a.staged.inserts), row);
    ApplyStep(map[], a.staged.inserts, row);
    assert Keys([row]) == {row.Id()};
    KeysConcat(a.staged.inserts, [row]);
    UniqueConcat(a.staged.inserts, [row]);
  }

  lemma OverlayOne(t: Table, k: Key, p: Price)
    ensures t + map[k := p] == t[k := p]
  {}

  lemma PendingStagesWell(rows: seq<Row>, a: Worker, row: Row)
    requires StagedWell(rows, a) && row.Id() in Keys(a.staged.inserts)
    ensures StagedWell(rows, Worker(a.writes + [row],
                                    Staged(SetPrices(a.staged.inserts, map[row.Id() := row.price]), a.staged.updates)))
  {
    var inserts := a.staged.inserts;
    CarriesStep(a.writes, a.staged.updates, row);
    CarriesStep(a.writes, TableOf(inserts), row);
    SetPricesKeepsKeys(inserts, map[row.Id() := row.price]);
    SetPricesTable(inserts, map[row.Id() := row.price]);
    OverlayOne(TableOf(inserts), row.Id(), row.price);
  }

  lemma SeenPrice(rows: seq<Row>, st: Staged, k: Key)
    requires UniqueKeys(rows) && st.updates.Keys <= Keys(rows) && k in st.updates && k !in Keys(st.inserts)
    ensures k in TableOf(Flushed(rows, st)) && TableOf(Flushed(rows, st))[k] == st.updates[k]
  {
    SetPricesTable(rows, st.updates);
    ApplyConcat(map[], SetPrices(rows, st.updates), st.inserts);
    ApplyIsLastWriterWins(TableOf(SetPrices(rows, st.updates)), st.inserts);
  }

  lemma SaveStagesWell(rows: seq<Row>, a: Worker, row: Row)
    requires UniqueKeys(rows) && StagedWell(rows, a)
    ensures StagedWell(rows, Worker(a.writes + [row], Save(rows, a.staged, row)))
  {
    KeysSeen(rows, a.staged);
    if row.Id() !in Keys(rows) + Keys(a.staged.inserts) {
      InsertStagesWell(rows, a, row);
    } else if row.Id() in Keys(a.staged.inserts) {
      PendingStagesWell(rows, a, row);
    } else {
      CarriesStep(a.writes, a.staged.updates, row);
      CarriesStep(a.writes, TableOf(a.staged.inserts), row);
      ApplyIsLastWriterWins(map[], a.staged.inserts);
      if row.Id() in a.staged.updates {
        SeenPrice(rows, a.staged, row.Id());
      }
    }
  }

  /** Other workers' commits keep what this worker staged well-formed. */
  lemma StagedWellGrows(rows: seq<Row>, more: seq<Row>, a: Worker)
    requires StagedWell(rows, a) && Keys(rows) <= Keys(more)
    ensures StagedWell(more, a)
  {}

  lemma CommitInstalls(rows: seq<Row>, a: Worker)
    requires UniqueKeys(rows) && StagedWell(rows, a) && !Conflicts(rows, a.staged)
    ensures Fits(rows, a.staged)
    ensures UniqueKeys(Flushed(rows, a.staged))
    ensures Keys(Flushed(rows, a.staged)) == Keys(rows) + Keys(a.writes)
    ensures TableOf(Flushed(rows, a.staged)) == TableOf(rows) + a.staged.updates + TableOf(a.staged.inserts)
  {
    FlushedTable(rows, a.staged);
    ApplyIsLastWriterWins(map[], a.staged.inserts);
  }

  // ---------------------------------------------------------------- safety of every run

  ghost predicate WorkersWell(s: State) {
    && UniqueKeys(s.rows)
    && forall w :: w in s.workers ==> StagedWell(s.rows, s.workers[w])
  }

  lemma FreshIsWell(rows: seq<Row>)
    ensures StagedWell(rows, FRESH_WORKER)
  {}

  lemma StepKeepsWorkersWell(s: State, step: Step)
    requires WorkersWell(s) && Enabled(s, step)
    ensures WorkersWell(Next(s, step))
    ensures Keys(s.rows) <= Keys(Next(s, step).rows)
  {
    FreshIsWell(s.rows);
    if step.SaveStep? {
      SaveStagesWell(s.rows, At(s, step.w), step.row);
    } else if step.CommitStep? {
      var rows := Next(s, step).rows;
      CommitInstalls(s.rows, At(s, step.w));
      FreshIsWell(rows);
      forall w | w in s.workers ensures StagedWell(rows, s.workers[w]) {
        StagedWellGrows(s.rows, rows, s.workers[w]);
      }
    }
  }

  /** Whatever the interleaving, no committed row disappears and keys stay unique. */
  lemma {:induction false} KeysOnlyGrow(s: State, steps: seq<Step>)
    requires WorkersWell(s) && ValidRun(s, steps)
    ensures WorkersWell(Run(s, steps))
    ensures Keys(s.rows) <= Keys(Run(s, steps).rows)
    decreases |steps|
  {
    if steps != [] {
      StepKeepsWorkersWell(s, steps[0]);
      KeysOnlyGrow(Next(s, steps[0]), steps[1..]);
    }
  }

  /** The price of a row was there at the start or is a committed attempt's last write to its key. */
  ghost predicate Explained(rows0: seq<Row>, log: seq<seq<Row>>, r: Row) {
    r in rows0 || exists i :: 0 <= i < |log| && r.Id() in Keys(log[i]) && LastWrite(log[i], r.Id()) == r.price
  }

  ghost predicate Safe(rows0: seq<Row>, s: State) {
    && WorkersWell(s)
    && Keys(s.rows) == Keys(rows0) + Keys(Flatten(s.log))
    && forall r :: r in s.rows ==> Explained(rows0, s.log, r)
  }

  lemma ExplainedGrows(rows0: seq<Row>, log: seq<seq<Row>>, writes: seq<Row>, r: Row)
    ensures Explained(rows0, log, r) ==> Explained(rows0, log + [writes], r)
    ensures r.Id() in Keys(writes) && LastWrite(writes, r.Id()) == r.price ==> Explained(rows0, log + [writes], r)
  {
    var more := log + [writes];
    assert more[|log|] == writes;
    if Explained(rows0, log, r) && r !in rows0 {
      var i :| 0 <= i < |log| && r.Id() in Keys(log[i]) && LastWrite(log[i], r.Id()) == r.price;
      assert more[i] == log[i];
    }
  }

  lemma CommittedRowsExplained(rows0: seq<Row>, s: State, w: WorkerId, r: Row)
    requires Safe(rows0, s) && Enabled(s, CommitStep(w)) && r in Next(s, CommitStep(w)).rows
    ensures Explained(rows0, s.log + [At(s, w).writes], r)
  {
    var a := At(s, w);
    FreshIsWell(s.rows);
    ExplainedGrows(rows0, s.log, a.writes, r);
    if r in a.staged.inserts {
      TableOfUnique(a.staged.inserts);
    } else {
      var updated := SetPrices(s.rows, a.staged.updates);
      var i :| 0 <= i < |updated| && updated[i] == r;
      assert s.rows[i] in s.rows;
    }
  }

  lemma StepKeepsSafe(rows0: seq<Row>, s: State, step: Step)
    requires Safe(rows0, s) && Enabled(s, step)
    ensures Safe(rows0, Next(s, step))
  {
    StepKeepsWorkersWell(s, step);
    if step.CommitStep? {
      var writes := At(s, step.w).writes;
      FreshIsWell(s.rows);
      CommitInstalls(s.rows, At(s, step.w));
      assert (s.log + [writes])[..|s.log|] == s.log;
      KeysConcat(Flatten(s.log), writes);
      forall r | r in Next(s, step).rows ensures Explained(rows0, Next(s, step).log, r) {
        CommittedRowsExplained(rows0, s, step.w, r);
      }
    }
  }

  lemma {:induction false} SafeAlong(rows0: seq<Row>, s: State, steps: seq<Step>)
    requires Safe(rows0, s) && ValidRun(s, steps)
    ensures Safe(rows0, Run(s, steps))
    decreases |steps|
  {
    if steps != [] {
      StepKeepsSafe(rows0, s, steps[0]);
      SafeAlong(rows0, Next(s, steps[0]), steps[1..]);
    }
  }

  /**
    Every interleaving of any number of workers: at most one row per key, the keys are exactly the
    initial ones and those of committed attempts, and every price was there or was committed.
   */
  lemma EveryInterleavingIsSafe(rows0: seq<Row>, steps: seq<Step>)
    requires UniqueKeys(rows0) && ValidRun(Start(rows0), steps)
    ensures var s, committed := Run(Start(rows0), steps), CommittedBy(steps);
      && UniqueKeys(s.rows)
      && Keys(s.rows) == Keys(rows0) + Keys(Flatten(committed))
      && forall r :: r in s.rows ==> Explained(rows0, committed, r)
  {
    SafeAlong(rows0, Start(rows0), steps);
    RunIsWhatStepsSay(rows0, steps);
  }

  // ---------------------------------------------------------------- what one commit does

  /** Every written key that is not staged already shows the attempt's last write. */
  ghost predicate Shows(base: Table, staged: set<Key>, writes: seq<Row>) {
    forall k :: k in Keys(writes) && k !in staged ==> k in base && base[k] == LastWrite(writes, k)
  }

  /** A price the attempt wrote without staging it, because the row already showed it, still stands. */
  ghost predicate UpToDate(rows: seq<Row>, a: Worker) {
    Shows(TableOf(rows), a.staged.updates.Keys + Keys(a.staged.inserts), a.writes)
  }

  lemma OverlayIsUpsertExactlyWhen(base: Table, updates: Table, added: Table, writes: seq<Row>)
    requires Carries(writes, updates) && Carries(writes, added)
    requires Keys(writes) <= base.Keys + added.Keys && updates.Keys <= base.Keys
    ensures base + updates + added == Apply(base, writes) <==> Shows(base, updates.Keys + added.Keys, writes)
  {
    var overlaid, upserted := base + updates + added, Apply(base, writes);
    ApplyIsLastWriterWins(base, writes);
    assert overlaid.Keys == upserted.Keys;
    forall k | k in overlaid && (k !in Keys(writes) || k in updates || k in added)
      ensures overlaid[k] == upserted[k]
    {}
    if overlaid == upserted {
      forall k | k in Keys(writes) && k !in added && k !in updates
        ensures k in base && base[k] == LastWrite(writes, k)
      {
        assert upserted[k] == LastWrite(writes, k);
      }
    }
  }

  lemma FlushIsUpsertExactlyWhen(rows: seq<Row>, a: Worker)
    requires UniqueKeys(rows) && StagedWell(rows, a) && !Conflicts(rows, a.staged)
    ensures TableOf(Flushed(rows, a.staged)) == Apply(TableOf(rows), a.writes) <==> UpToDate(rows, a)
  {
    var base, added := TableOf(rows), TableOf(a.staged.inserts);
    assert base.Keys == Keys(rows) by { TableOfUnique(rows); }
    assert added.Keys == Keys(a.staged.inserts) by { ApplyIsLastWriterWins(map[], a.staged.inserts); }
    assert TableOf(Flushed(rows, a.staged)) == base + a.staged.updates + added by { CommitInstalls(rows, a); }
    OverlayIsUpsertExactlyWhen(base, a.staged.updates, added, a.writes);
  }

  /**
    A commit has the effect of upserting the attempt's writes exactly when no row it left alone,
    because the row already showed the price, has been changed by another worker since.
   */
  lemma CommitIsUpsertExactlyWhen(s: State, w: WorkerId)
    requires WorkersWell(s) && Enabled(s, CommitStep(w))
    ensures TableOf(Next(s, CommitStep(w)).rows) == Apply(TableOf(s.rows), At(s, w).writes)
            <==> UpToDate(s.rows, At(s, w))
  {
    FreshIsWell(s.rows);
    FlushIsUpsertExactlyWhen(s.rows, At(s, w));
  }

  /** Every commit of the run finds its worker up to date. */
  ghost predicate AlwaysUpToDate(s: State, steps: seq<Step>)
    decreases |steps|
  {
    steps == [] ||
    ((steps[0].CommitStep? ==> UpToDate(s.rows, At(s, steps[0].w))) && AlwaysUpToDate(Next(s, steps[0]), steps[1..]))
  }

  /** Then the run is serial: the table is the committed attempts applied in commit order. */
  lemma {:induction false} UpToDateRunsAreSerial(s: State, steps: seq<Step>, base: Table)
    requires WorkersWell(s) && ValidRun(s, steps) && AlwaysUpToDate(s, steps)
    requires TableOf(s.rows) == Apply(base, Flatten(s.log))
    ensures TableOf(Run(s, steps).rows) == Apply(base, Flatten(Run(s, steps).log))
    decreases |steps|
  {
    if steps != [] {
      var s' := Next(s, steps[0]);
      StepKeepsWorkersWell(s, steps[0]);
      if steps[0].CommitStep? {
        var writes := At(s, steps[0].w).writes;
        CommitIsUpsertExactlyWhen(s, steps[0].w);
        assert (s.log + [writes])[..|s.log|] == s.log;
        ApplyConcat(base, Flatten(s.log), writes);
      }
      UpToDateRunsAreSerial(s', steps[1..], base);
    }
  }

  // ---------------------------------------------------------------- exactly the serial runs

  /** What the commit of `a` leaves under a key it wrote is its price: staged, or still shown by the row. */
  ghost predicate Lands(rows: seq<Row>, a: Worker, k: Key)
    requires k in Keys(a.writes)
  {
    || k in a.staged.updates
    || k in Keys(a.staged.inserts)
    || (k in TableOf(rows) && TableOf(rows)[k] == LastWrite(a.writes, k))
  }

  /** Whether the price of the last committed attempt that wrote `k` landed; None when no commit wrote it. */
  ghost function LastLanding(s: State, steps: seq<Step>, k: Key): Option<bool>
    decreases |steps|
  {
    if steps == [] then None else
      var later := LastLanding(Next(s, steps[0]), steps[1..], k);
      if later.Some? then later
      else if steps[0].CommitStep? && k in Keys(At(s, steps[0].w).writes) then
        Some(Lands(s.rows, At(s, steps[0].w), k))
      else None
  }

  /** Under `k` the table shows what the committed attempts, applied in commit order, give. */
  ghost predicate SerialAt(s: State, base: Table, k: Key) {
    SameAt(TableOf(s.rows), Apply(base, Flatten(s.log)), k)
  }

  ghost predicate SameAt(a: Table, b: Table, k: Key) {
    (k in a <==> k in b) && (k in a && k in b ==> a[k] == b[k])
  }

  /** A commit decides the keys it wrote, by whether they land, and leaves the others as they were. */
  lemma OverlayLandsExactlyWhen(rows: seq<Row>, a: Worker, upserted: Table, k: Key)
    requires UniqueKeys(rows) && StagedWell(rows, a) && !Conflicts(rows, a.staged)
    ensures var overlaid := TableOf(Flushed(rows, a.staged));
      SameAt(overlaid, Apply(upserted, a.writes), k)
      <==> if k in Keys(a.writes) then Lands(rows, a, k) else SameAt(TableOf(rows), upserted, k)
  {
    assert TableOf(Flushed(rows, a.staged)) == TableOf(rows) + a.staged.updates + TableOf(a.staged.inserts) by {
      CommitInstalls(rows, a);
    }
    assert TableOf(rows).Keys == Keys(rows) by { TableOfUnique(rows); }
    assert TableOf(a.staged.inserts).Keys == Keys(a.staged.inserts) by { ApplyIsLastWriterWins(map[], a.staged.inserts); }
    OverlayAt(TableOf(rows), a.staged.updates, TableOf(a.staged.inserts), a.writes, upserted, k);
  }

  lemma OverlayAt(base: Table, updates: Table, added: Table, writes: seq<Row>, upserted: Table, k: Key)
    requires Carries(writes, updates) && Carries(writes, added) && Keys(writes) <= base.Keys + added.Keys
    ensures SameAt(base + updates + added, Apply(upserted, writes), k)
            <==> if k in Keys(writes) then k in updates || k in added || (k in base && base[k] == LastWrite(writes, k))
                 else SameAt(base, upserted, k)
  {
    ApplyIsLastWriterWins(upserted, writes);
  }

  lemma StepKeepsSerial(s: State, step: Step, base: Table, k: Key)
    requires WorkersWell(s) && Enabled(s, step)
    ensures SerialAt(Next(s, step), base, k)
            <==> if step.CommitStep? && k in Keys(At(s, step.w).writes) then Lands(s.rows, At(s, step.w), k)
                 else SerialAt(s, base, k)
  {
    if step.CommitStep? {
      FreshIsWell(s.rows);
      LogGrows(s.log, At(s, step.w).writes, base);
      OverlayLandsExactlyWhen(s.rows, At(s, step.w), Apply(base, Flatten(s.log)), k);
    }
  }

  lemma LogGrows(log: seq<seq<Row>>, writes: seq<Row>, base: Table)
    ensures Apply(base, Flatten(log + [writes])) == Apply(Apply(base, Flatten(log)), writes)
  {
    assert (log + [writes])[..|log|] == log;
    ApplyConcat(base, Flatten(log), writes);
  }

  lemma {:induction false} KeyIsSerialExactlyWhen(s: State, steps: seq<Step>, base: Table, k: Key)
    requires WorkersWell(s) && ValidRun(s, steps)
    ensures SerialAt(Run(s, steps), base, k)
            <==> if LastLanding(s, steps, k).Some? then LastLanding(s, steps, k).value else SerialAt(s, base, k)
    decreases |steps|
  {
    if steps != [] {
      StepKeepsWorkersWell(s, steps[0]);
      StepKeepsSerial(s, steps[0], base, k);
      KeyIsSerialExactlyWhen(Next(s, steps[0]), steps[1..], base, k);
    }
  }

  /** The last committed attempt to write each key staged its price, or still found it standing. */
  ghost predicate LastWritersLand(s: State, steps: seq<Step>) {
    forall k :: LastLanding(s, steps, k) != Some(false)
  }

  /**
    Exactly the serial runs: the table ends as the committed attempts applied in commit order if
    and only if for every key the last committed attempt that wrote it landed its price.
   */
  lemma RunIsSerialExactlyWhen(rows0: seq<Row>, steps: seq<Step>)
    requires UniqueKeys(rows0) && ValidRun(Start(rows0), steps)
    ensures TableOf(Run(Start(rows0), steps).rows) == Apply(TableOf(rows0), Flatten(CommittedBy(steps)))
            <==> LastWritersLand(Start(rows0), steps)
  {
    RunIsWhatStepsSay(rows0, steps);
    var s := Run(Start(rows0), steps);
    var serial := Apply(TableOf(rows0), Flatten(s.log));
    forall k ensures SameAt(TableOf(s.rows), serial, k) <==> LastLanding(Start(rows0), steps, k) != Some(false) {
      KeyIsSerialExactlyWhen(Start(rows0), steps, TableOf(rows0), k);
    }
    if forall k :: SameAt(TableOf(s.rows), serial, k) {
      SameEverywhere(TableOf(s.rows), serial);
    }
  }

  lemma SameEverywhere(a: Table, b: Table)
    requires forall k :: SameAt(a, b, k)
    ensures a == b
  {
    forall k ensures k in a <==> k in b {
      assert SameAt(a, b, k);
    }
    forall k | k in a ensures a[k] == b[k] {
      assert SameAt(a, b, k);
    }
  }

  // ---------------------------------------------------------------- workers that agree on prices

  /** Every price saved during the run is the one `truth` gives its key. */
  ghost predicate Truthful(steps: seq<Step>, truth: Key -> Price) {
    forall i :: 0 <= i < |steps| && steps[i].SaveStep? ==> steps[i].row.price == truth(steps[i].row.Id())
  }

  ghost predicate AgreesWith(writes: seq<Row>, truth: Key -> Price) {
    forall r :: r in writes ==> r.price == truth(r.Id())
  }

  ghost predicate AllAgree(s: State, truth: Key -> Price) {
    && WorkersWell(s)
    && AgreesWith(Flatten(s.log), truth)
    && forall w :: w in s.workers ==> AgreesWith(s.workers[w].writes, truth) && UpToDate(s.rows, s.workers[w])
  }

  lemma {:induction false} LastWriteAgrees(writes: seq<Row>, truth: Key -> Price, k: Key)
    requires AgreesWith(writes, truth) && k in Keys(writes)
    ensures LastWrite(writes, k) == truth(k)
  {
    var init := writes[..|writes| - 1];
    assert writes == init + [writes[|writes| - 1]];
    if writes[|writes| - 1].Id() != k {
      LastWriteAgrees(init, truth, k);
    }
  }

  /** `save_price` stages the key it is given, unless the row already shows the price. */
  lemma SaveStagesOneKey(rows: seq<Row>, st: Staged, row: Row)
    requires UniqueKeys(rows) && UniqueKeys(st.inserts) && st.updates.Keys <= Keys(rows)
    ensures var after, k := Save(rows, st, row), row.Id();
      && (Keys(after.inserts) == Keys(st.inserts) || Keys(after.inserts) == Keys(st.inserts) + {k})
      && (after.updates == st.updates || after.updates.Keys == st.updates.Keys + {k})
      && (k in Keys(after.inserts) || k in after.updates || (k in TableOf(rows) && TableOf(rows)[k] == row.price))
  {
    SaveInserts(rows, st, row);
    KeysSeen(rows, st);
    if row.Id() !in Keys(st.inserts) && row.Id() !in st.updates {
      UnstagedPrice(rows, st, row.Id());
    }
  }

  lemma SaveKeepsUpToDate(rows: seq<Row>, a: Worker, row: Row)
    requires UniqueKeys(rows) && StagedWell(rows, a) && UpToDate(rows, a)
    ensures UpToDate(rows, Worker(a.writes + [row], Save(rows, a.staged, row)))
  {
    SaveStagesOneKey(rows, a.staged, row);
    CarriesStep(a.writes, map[], row);
    assert (a.writes + [row])[..|a.writes|] == a.writes;
  }

  lemma UnstagedPrice(rows: seq<Row>, st: Staged, k: Key)
    requires UniqueKeys(rows) && st.updates.Keys <= Keys(rows) && k !in st.updates && k !in Keys(st.inserts)
    ensures k in TableOf(Flushed(rows, st)) <==> k in TableOf(rows)
    ensures k in TableOf(rows) ==> TableOf(Flushed(rows, st))[k] == TableOf(rows)[k]
  {
    SetPricesTable(rows, st.updates);
    ApplyConcat(map[], SetPrices(rows, st.updates), st.inserts);
    ApplyIsLastWriterWins(TableOf(SetPrices(rows, st.updates)), st.inserts);
  }

  lemma CommitKeepsUpToDate(s: State, w: WorkerId, a: Worker, truth: Key -> Price)
    requires WorkersWell(s) && Enabled(s, CommitStep(w)) && UpToDate(s.rows, At(s, w))
    requires AgreesWith(At(s, w).writes, truth) && AgreesWith(a.writes, truth) && UpToDate(s.rows, a)
    ensures UpToDate(Next(s, CommitStep(w)).rows, a)
  {
    CommitIsUpsertExactlyWhen(s, w);
    ApplyIsLastWriterWins(TableOf(s.rows), At(s, w).writes);
    forall k | k in Keys(a.writes) && k in Keys(At(s, w).writes)
      ensures LastWrite(a.writes, k) == LastWrite(At(s, w).writes, k)
    {
      LastWriteAgrees(a.writes, truth, k);
      LastWriteAgrees(At(s, w).writes, truth, k);
    }
  }

  lemma CommitKeepsAgreement(s: State, w: WorkerId, truth: Key -> Price)
    requires AllAgree(s, truth) && Enabled(s, CommitStep(w))
    ensures UpToDate(s.rows, At(s, w)) && AllAgree(Next(s, CommitStep(w)), truth)
  {
    var s' := Next(s, CommitStep(w));
    StepKeepsWorkersWell(s, CommitStep(w));
    forall v | v in s'.workers ensures AgreesWith(s'.workers[v].writes, truth) && UpToDate(s'.rows, s'.workers[v]) {
      if v != w {
        CommitKeepsUpToDate(s, w, s.workers[v], truth);
      }
    }
    assert s'.log[..|s.log|] == s.log;
  }

  lemma SaveKeepsAgreement(s: State, w: WorkerId, row: Row, truth: Key -> Price)
    requires AllAgree(s, truth) && row.price == truth(row.Id())
    ensures AllAgree(Next(s, SaveStep(w, row)), truth)
  {
    StepKeepsWorkersWell(s, SaveStep(w, row));
    FreshIsWell(s.rows);
    SaveKeepsUpToDate(s.rows, At(s, w), row);
  }

  lemma DiscardKeepsAgreement(s: State, step: Step, truth: Key -> Price)
    requires AllAgree(s, truth) && Enabled(s, step) && (step.ConflictStep? || step.AbandonStep?)
    ensures AllAgree(Next(s, step), truth)
  {
    StepKeepsWorkersWell(s, step);
    assert Next(s, step).rows == s.rows && Next(s, step).log == s.log;
  }

  lemma StepKeepsAgreement(s: State, step: Step, truth: Key -> Price)
    requires AllAgree(s, truth) && Enabled(s, step)
    requires step.SaveStep? ==> step.row.price == truth(step.row.Id())
    ensures AllAgree(Next(s, step), truth)
    ensures step.CommitStep? ==> UpToDate(s.rows, At(s, step.w))
  {
    if step.CommitStep? {
      CommitKeepsAgreement(s, step.w, truth);
    } else if step.SaveStep? {
      SaveKeepsAgreement(s, step.w, step.row, truth);
    } else {
      DiscardKeepsAgreement(s, step, truth);
    }
  }

  lemma {:induction false} AgreementAlong(s: State, steps: seq<Step>, truth: Key -> Price)
    requires AllAgree(s, truth) && ValidRun(s, steps) && Truthful(steps, truth)
    ensures AlwaysUpToDate(s, steps) && AllAgree(Run(s, steps), truth)
    decreases |steps|
  {
    if steps != [] {
      StepKeepsAgreement(s, steps[0], truth);
      assert forall i :: 0 <= i < |steps[1..]| ==> steps[1..][i] == steps[i + 1];
      AgreementAlong(Next(s, steps[0]), steps[1..], truth);
    }
  }

  /**
    Workers that collect the same data never disturb each other: however they interleave, retry or
    abandon attempts, the table ends as the initial one with the committed keys set to their
    prices. Two runs that commit the same keys end in the same table.
   */
  lemma AgreeingWorkersNeverDisturbEachOther(rows0: seq<Row>, steps: seq<Step>, truth: Key -> Price)
    requires UniqueKeys(rows0) && ValidRun(Start(rows0), steps) && Truthful(steps, truth)
    ensures TableOf(Run(Start(rows0), steps).rows)
            == TableOf(rows0) + map k | k in Keys(Flatten(CommittedBy(steps))) :: truth(k)
  {
    RunIsWhatStepsSay(rows0, steps);
    var s := Run(Start(rows0), steps);
    AgreementAlong(Start(rows0), steps, truth);
    UpToDateRunsAreSerial(Start(rows0), steps, TableOf(rows0));
    AgreedWrites(TableOf(rows0), Flatten(s.log), truth);
  }

  lemma AgreedWrites(base: Table, writes: seq<Row>, truth: Key -> Price)
    requires AgreesWith(writes, truth)
    ensures Apply(base, writes) == base + map k | k in Keys(writes) :: truth(k)
  {
    ApplyIsLastWriterWins(base, writes);
    forall k | k in Keys(writes) ensures LastWrite(writes, k) == truth(k) {
      LastWriteAgrees(writes, truth, k);
    }
  }

  // ---------------------------------------------------------------- commits need not be serial

  function Holding(k: Key, p: Price): Row { Row(k.ticker, k.timestamp, p) }

  lemma TwoRows(a: Key, p: Price, b: Key, q: Price)
    requires a != b
    ensures TableOf([Holding(a, p), Holding(b, q)]) == map[a := p, b := q]
    ensures Keys([Holding(a, p), Holding(b, q)]) == {a, b}
  {
    ApplyStep(map[], [Holding(a, p)], Holding(b, q));
    ApplyStep(map[], [], Holding(a, p));
    assert [Holding(a, p)] + [Holding(b, q)] == [Holding(a, p), Holding(b, q)] && [] + [Holding(a, p)] == [Holding(a, p)];
    assert Holding(a, p) in [Holding(a, p), Holding(b, q)] && Holding(b, q) in [Holding(a, p), Holding(b, q)];
  }

  /** Saving a key of a two-row table stages nothing when the row shows the price, else an update. */
  lemma SaveOneOfTwo(a: Key, p: Price, b: Key, q: Price, updates: Table, k: Key, r: Price)
    requires a != b && k in {a, b} && k !in updates && updates.Keys <= {a, b}
    ensures Save([Holding(a, p), Holding(b, q)], Staged([], updates), Holding(k, r))
            == Staged([], if r == (if k == a then p else q) then updates else updates[k := r])
  {
    var rows := [Holding(a, p), Holding(b, q)];
    TwoRows(a, p, b, q);
    UnstagedPrice(rows, Staged([], updates), k);
  }

  lemma RunStep(s: State, step: Step, rest: seq<Step>)
    ensures Run(s, [step] + rest) == Run(Next(s, step), rest)
    ensures ValidRun(s, [step] + rest) <==> Enabled(s, step) && ValidRun(Next(s, step), rest)
  {
    assert ([step] + rest)[1..] == rest;
  }

  /** Worker 1 commits its second row after worker 2 committed both. */
  lemma SecondHalf(a: Key, b: Key, s: State)
    requires a != b && s.rows == [Holding(a, 7), Holding(b, 8)] && s.log == [[Holding(a, 7), Holding(b, 8)]]
    requires At(s, 1) == Worker([Holding(a, 5)], NOTHING_STAGED)
    ensures var steps := [SaveStep(1, Holding(b, 9))] + ([CommitStep(1)] + []);
      && ValidRun(s, steps)
      && Run(s, steps).rows == [Holding(a, 7), Holding(b, 9)]
      && Run(s, steps).log == [[Holding(a, 7), Holding(b, 8)], [Holding(a, 5), Holding(b, 9)]]
  {
    var s1 := Next(s, SaveStep(1, Holding(b, 9)));
    SaveOneOfTwo(a, 7, b, 8, map[], b, 9);
    assert At(s1, 1).writes == [Holding(a, 5), Holding(b, 9)];
    RunStep(s, SaveStep(1, Holding(b, 9)), [CommitStep(1)] + []);
    RunStep(s1, CommitStep(1), []);
  }

  /** Worker 1 leaves the first row alone, worker 2 changes both rows and commits. */
  lemma FirstHalf(a: Key, b: Key, rest: seq<Step>) returns (s: State)
    requires a != b
    ensures s.rows == [Holding(a, 7), Holding(b, 8)] && s.log == [[Holding(a, 7), Holding(b, 8)]]
    ensures At(s, 1) == Worker([Holding(a, 5)], NOTHING_STAGED)
    ensures var s0 := Start([Holding(a, 5), Holding(b, 5)]);
      var steps := [SaveStep(1, Holding(a, 5))] + ([SaveStep(2, Holding(a, 7))]
                   + ([SaveStep(2, Holding(b, 8))] + ([CommitStep(2)] + rest)));
      Run(s0, steps) == Run(s, rest) && (ValidRun(s0, steps) <==> ValidRun(s, rest))
  {
    var s0 := Start([Holding(a, 5), Holding(b, 5)]);
    SaveOneOfTwo(a, 5, b, 5, map[], a, 5);
    SaveOneOfTwo(a, 5, b, 5, map[], a, 7);
    SaveOneOfTwo(a, 5, b, 5, map[a := 7], b, 8);
    var s1 := Next(s0, SaveStep(1, Holding(a, 5)));
    var s2 := Next(s1, SaveStep(2, Holding(a, 7)));
    var s3 := Next(s2, SaveStep(2, Holding(b, 8)));
    assert At(s3, 2).writes == [Holding(a, 7), Holding(b, 8)];
    s := Next(s3, CommitStep(2));
    RunStep(s0, SaveStep(1, Holding(a, 5)), [SaveStep(2, Holding(a, 7))] + ([SaveStep(2, Holding(b, 8))] + ([CommitStep(2)] + rest)));
    RunStep(s1, SaveStep(2, Holding(a, 7)), [SaveStep(2, Holding(b, 8))] + ([CommitStep(2)] + rest));
    RunStep(s2, SaveStep(2, Holding(b, 8)), [CommitStep(2)] + rest);
    RunStep(s3, CommitStep(2), rest);
  }

  /**
    Without agreement a run may match no order of its commits. Worker 1 leaves the first row
    alone because it already shows the price, worker 2 then changes both rows and commits, and
    worker 1 changes the second row and commits: the table keeps one price from each.
   */
  lemma CommitsNeedNotBeSerial(a: Key, b: Key) returns (steps: seq<Step>)
    requires a != b
    ensures var rows0 := [Holding(a, 5), Holding(b, 5)];
      && ValidRun(Start(rows0), steps)
      && var committed := CommittedBy(steps);
      && |committed| == 2
      && TableOf(Run(Start(rows0), steps).rows) == map[a := 7, b := 9]
      && Apply(Apply(TableOf(rows0), committed[0]), committed[1]) == map[a := 5, b := 9]
      && Apply(Apply(TableOf(rows0), committed[1]), committed[0]) == map[a := 7, b := 8]
  {
    var rest := [SaveStep(1, Holding(b, 9))] + ([CommitStep(1)] + []);
    var s := FirstHalf(a, b, rest);
    SecondHalf(a, b, s);
    steps := [SaveStep(1, Holding(a, 5))] + ([SaveStep(2, Holding(a, 7))]
             + ([SaveStep(2, Holding(b, 8))] + ([CommitStep(2)] + rest)));
    RunIsWhatStepsSay([Holding(a, 5), Holding(b, 5)], steps);
    TwoRows(a, 7, b, 9);
    EitherOrder(a, b, TableOf([Holding(a, 5), Holding(b, 5)]), [Holding(a, 7), Holding(b, 8)], [Holding(a, 5), Holding(b, 9)]);
  }

  lemma OverBoth(a: Key, b: Key, base: Table, writes: seq<Row>, p: Price, q: Price)
    requires a != b && base.Keys <= {a, b} && writes == [Holding(a, p), Holding(b, q)]
    ensures Apply(base, writes) == map[a := p, b := q]
  {
    TwoRows(a, p, b, q);
    ApplyIsOverlay(base, writes);
  }

  lemma EitherOrder(a: Key, b: Key, base: Table, one: seq<Row>, two: seq<Row>)
    requires a != b && base == TableOf([Holding(a, 5), Holding(b, 5)])
    requires one == [Holding(a, 7), Holding(b, 8)] && two == [Holding(a, 5), Holding(b, 9)]
    ensures Apply(Apply(base, one), two) == map[a := 5, b := 9]
    ensures Apply(Apply(base, two), one) == map[a := 7, b := 8]
  {
    TwoRows(a, 5, b, 5);
    OverBoth(a, b, base, one, 7, 8);
    OverBoth(a, b, base, two, 5, 9);
    OverBoth(a, b, map[a := 7, b := 8], two, 5, 9);
    OverBoth(a, b, map[a := 5, b := 9], one, 7, 8);
  }

  // ---------------------------------------------------------------- progress under conflicts

  /** The keys of `keys` the worker still has to win: not committed, or staged by it for insertion. */
  ghost function ToInsert(s: State, w: WorkerId, keys: set<Key>): set<Key> {
    set k | k in keys && (k !in Keys(s.rows) || k in Keys(At(s, w).staged.inserts))
  }

  /** Every row the worker asks to save has one of these keys. */
  ghost predicate SavesOnly(steps: seq<Step>, w: WorkerId, keys: set<Key>) {
    forall i :: 0 <= i < |steps| && steps[i].SaveStep? && steps[i].w == w ==> steps[i].row.Id() in keys
  }

  function ConflictCount(steps: seq<Step>, w: WorkerId): nat {
    if steps == [] then 0 else
      (if steps[0] == ConflictStep(w) then 1 else 0) + ConflictCount(steps[1..], w)
  }

  /** A step never makes a worker stage a key that was committed before it. */
  lemma StepInserts(s: State, step: Step, w: WorkerId)
    ensures var before, after := Keys(At(s, w).staged.inserts), Keys(At(Next(s, step), w).staged.inserts);
      && after <= before + (if step.SaveStep? && step.w == w then {step.row.Id()} - Keys(s.rows) else {})
      && (step == ConflictStep(w) ==> after == {})
  {
    if step.SaveStep? {
      SaveInserts(s.rows, At(s, step.w).staged, step.row);
    }
  }

  lemma StepShrinksToInsert(s: State, step: Step, w: WorkerId, keys: set<Key>)
    requires WorkersWell(s) && Enabled(s, step) && Keys(At(s, w).staged.inserts) <= keys
    requires step.SaveStep? && step.w == w ==> step.row.Id() in keys
    ensures Keys(At(Next(s, step), w).staged.inserts) <= keys
    ensures ToInsert(Next(s, step), w, keys) <= ToInsert(s, w, keys)
    ensures step == ConflictStep(w) ==> ToInsert(Next(s, step), w, keys) < ToInsert(s, w, keys)
  {
    StepKeepsWorkersWell(s, step);
    StepInserts(s, step, w);
    if step == ConflictStep(w) {
      var r :| r in At(s, w).staged.inserts && r.Id() in Keys(s.rows);
      assert r.Id() in ToInsert(s, w, keys) && r.Id() !in ToInsert(Next(s, step), w, keys);
    }
  }

  lemma {:induction false} ConflictsShrinkToInsert(s: State, steps: seq<Step>, w: WorkerId, keys: set<Key>)
    requires WorkersWell(s) && ValidRun(s, steps) && SavesOnly(steps, w, keys)
    requires Keys(At(s, w).staged.inserts) <= keys
    ensures ConflictCount(steps, w) + |ToInsert(Run(s, steps), w, keys)| <= |ToInsert(s, w, keys)|
    decreases |steps|
  {
    if steps != [] {
      var s' := Next(s, steps[0]);
      StepKeepsWorkersWell(s, steps[0]);
      StepShrinksToInsert(s, steps[0], w, keys);
      SmallerSet(ToInsert(s', w, keys), ToInsert(s, w, keys));
      assert forall i :: 0 <= i < |steps[1..]| ==> steps[1..][i] == steps[i + 1];
      ConflictsShrinkToInsert(s', steps[1..], w, keys);
    }
  }

  /**
    A worker that keeps saving rows with the same keys is refused at most once per key that was
    absent at the start, however the other workers behave: the conflicts alone bound its attempts.
   */
  lemma ConflictsAreBounded(rows0: seq<Row>, steps: seq<Step>, w: WorkerId, keys: set<Key>)
    requires UniqueKeys(rows0) && ValidRun(Start(rows0), steps) && SavesOnly(steps, w, keys)
    ensures ConflictCount(steps, w) <= |keys - Keys(rows0)|
  {
    ConflictsShrinkToInsert(Start(rows0), steps, w, keys);
    assert ToInsert(Start(rows0), w, keys) == keys - Keys(rows0);
  }

  lemma {:induction false} CommittedKeyIsNeverInserted(s: State, steps: seq<Step>, w: WorkerId, k: Key)
    requires WorkersWell(s) && ValidRun(s, steps)
    requires k in Keys(s.rows) && k !in Keys(At(s, w).staged.inserts)
    ensures k in Keys(Run(s, steps).rows) && k !in Keys(At(Run(s, steps), w).staged.inserts)
    decreases |steps|
  {
    if steps != [] {
      StepKeepsWorkersWell(s, steps[0]);
      StepInserts(s, steps[0], w);
      CommittedKeyIsNeverInserted(Next(s, steps[0]), steps[1..], w, k);
    }
  }

  /**
    After a conflict over `k` the key is there for good: at every later moment the worker has not
    staged it for insertion, so a new attempt takes the update branch for it.
   */
  lemma ConflictingKeyIsUpdatedFromThenOn(s: State, w: WorkerId, k: Key, steps: seq<Step>)
    requires WorkersWell(s) && k in Keys(s.rows) && k in Keys(At(s, w).staged.inserts)
    requires ValidRun(Next(s, ConflictStep(w)), steps)
    ensures Enabled(s, ConflictStep(w)) && !Enabled(s, CommitStep(w))
    ensures var later := Run(Next(s, ConflictStep(w)), steps);
      k in Keys(later.rows) && k !in Keys(At(later, w).staged.inserts)
  {
    var r :| r in At(s, w).staged.inserts && r.Id() == k;
    StepKeepsWorkersWell(s, ConflictStep(w));
    CommittedKeyIsNeverInserted(Next(s, ConflictStep(w)), steps, w, k);
  }
}
