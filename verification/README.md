# A verified model of the price service

The service collects index prices into one table, repairs holes in the collected
history, and serves listings, candles and summaries from that table. The model follows
the code module by module and proves what the pieces promise together.

| module | what it models |
|---|---|
| `PriceTable` | the `prices` table as a list of rows, what a transaction stages, and the meaning of a run of upserts |
| `PriceStore` | `Database`, `Session` and `SyncPriceRepository` as classes: autoflush, atomic commit, rollback |
| `ChartData` | the chart parse loop: milliseconds floored to seconds, the first malformed item decides the error |
| `Collector` | one attempt and the bounded retries of `fetch_price_batch` and `backfill_price_history` |
| `Autoflush` | at which select or commit of a backfill a unique conflict surfaces, and what that makes of the run |
| `Batching` | `chunked`, the fan-out into batches and the queue of batch tasks |
| `Workers` | any number of workers interleaving saves, commits and aborts on one table |
| `Reconciliation` | the gap detector and the repair loop it forms with the backfill |
| `Queries` | filter, order, limit and offset, latest row per ticker, counts |
| `Decimals` | 28-digit decimal addition and division, rounding half to even |
| `Candles` | bucketing, candles, roll-up between intervals, the price summary |
| `Metrics` | the runtime counters and every interleaving of requests |
| `Collections`, `Integers` | vocabulary and arithmetic the others share |

A price is an integer in units of 1e-8 with at most 20 digits, a timestamp is an
integer, and the table is a list of rows in which (ticker, timestamp) being unique is
an invariant that has to be proved, not a consequence of the representation. The
provider is an oracle: each attempt of a task is given an answer per ticker and
whether the database accepts the commit. The clock is a parameter.

## What the proofs found

- A batch in which one ticker fails unexpectedly is discarded whole, also after its
  retries. Batch size and order are irrelevant exactly when no ticker fails that way, or
  when the table already holds everything the successes would write.
- A backfill is retried exactly when the first ticker to end its loop fails transiently, or none
  ends it and the commit is refused. A save refused inside the loop is a raw database error and
  ends the run. Autoflush sends a new row at the next select, so a key another worker commits
  meanwhile leads to a retry only when the attempt's very last save wrote it; a key lost to
  another worker anywhere earlier in the loop ends the run at its first attempt.
- Assigning a row the price it already shows sends no UPDATE. Commits of interleaved
  workers therefore need not amount to any serial order: a two-row scenario ends in a
  table neither order gives. A commit amounts to upserting the attempt's rows exactly
  when no row it left alone has been changed since, and a whole run amounts to its commits in
  order exactly when the last attempt to write each key landed its price; workers that agree on
  the price of each key are always in that case.
- A stored sample in the future hides any staleness, and a hole between the start of the
  window and the first sample in it is not looked at: one sample at `now` silences the
  detector. A ticker that is passed over and has no sample in the future is covered over the
  whole window exactly when some sample from before the window reaches its first sample.
- What a backfill has to store to keep the detector quiet whatever else is stored: a sample at
  most g old, and one strictly inside every stretch of the window longer than g. No weaker
  condition does, and a chart dense inside the window, or over the whole range, meets it.
- `chunked` with size 0 yields no batch, so every ticker is lost; with a negative size it raises.
- The 28 digits of a candle's average determine the exact sum of its prices, so the candles of a
  coarser interval, averages included, can be computed from those of a finer one.
- The trend of a summary and the sign of its percentage agree exactly when the start price
  is positive or nothing changed.

## Model

| member | source | states |
|---|---|---|
| `PriceTable.ApplyIsLastWriterWins` | app/repositories.py:121-134 | after any run of upserts each written key holds its last price, and every other key is as before |
| `PriceTable.ApplyIsOverlay` | app/repositories.py:121-134 | a run of upserts is the old table overlaid with the table the writes make on their own |
| `PriceTable.ApplyIsIdempotent` | app/repositories.py:121-134 | replaying a run of upserts that was just applied changes nothing |
| `PriceTable.SaveIsUpsert` | app/repositories.py:121-134 | the three branches of a save amount to one upsert of what the transaction sees, and never stage a row that breaks the unique key |
| `PriceTable.FlushedTable` | app/core/db.py:36 | rows flushed from a session keep keys unique, and read as committed rows, then updates, then inserts |
| `PriceTable.TableOfUnique` | app/models.py:28-31 | under the unique constraint the table as a map loses no row |
| `PriceStore.Session.Commit` | collector/tasks.py:240-247 | a commit makes the table what the transaction saw, or changes nothing |
| `PriceStore.Session.Rollback` | collector/tasks.py:259-284 | a rollback discards all staged writes |
| `PriceStore.SyncPriceRepository.SavePrice` | app/repositories.py:121-134 | later selects of the session see the saved price; the committed rows do not change |
| `PriceStore.SyncPriceRepository.LatestTimestamp` | app/repositories.py:136-143 | the greatest timestamp of the ticker among the rows the transaction sees, and none exactly when it sees none |
| `PriceStore.SyncPriceRepository.TimestampsInRange` | app/repositories.py:145-160 | exactly the timestamps of the ticker in the range that the transaction sees, each once, in increasing order |
| `ChartData.ParseChart` | collector/client.py:127-147 | all items become points in order, each with its price and the second its milliseconds lie in, or the first malformed item decides the error |
| `ChartData.SecondIsFloored` | collector/client.py:143 | the second of a timestamp is the only one with 1000 * second <= ms < 1000 * (second + 1), a negative float being cut toward zero first |
| `ChartData.BackfillKeepsLastPointOfEachSecond` | collector/client.py:127-147 | after parsing and saving, each (ticker, second) holds the price of the last chart item whose milliseconds lie in that second; other keys are untouched and a replay changes nothing |
| `Collector.FetchTickers` | collector/tasks.py:215-238 | the loop stages exactly the successes, lists failures of each kind in order, and stops at an unexpected one |
| `Collector.AfterQuotesAppliesRows` | collector/tasks.py:215-222 | staging the successes ticker by ticker comes to upserting their rows in order |
| `Collector.SomethingSaved` | collector/tasks.py:240-242 | the success count is the number of rows saved, and positive exactly when some ticker was quoted |
| `Collector.SomeFailed` | collector/tasks.py:258-269 | a failure list holds exactly the tickers that failed that way, and is non-empty exactly when there is one |
| `Collector.VerdictFromLists` | collector/tasks.py:240-284 | the success count and the list of transient failures decide the verdict |
| `Collector.FetchPriceBatch` | collector/tasks.py:199-284 | one attempt commits all its successes or leaves the rows as they were; the verdict in each case |
| `Collector.SaveChart` | collector/tasks.py:331-333 | all points of a ticker are staged in order unless the database refuses one |
| `Collector.SaveTicker` | collector/tasks.py:315-333 | a permanent failure skips the ticker; a transient one, a value error or a refused save ends the attempt |
| `Collector.SaveCharts` | collector/tasks.py:315-333 | the loop stages the points of every ticker with a chart, or ends at the first stop |
| `Collector.AfterChartsAppliesRows` | collector/tasks.py:315-333 | staging point by point and ticker by ticker comes to upserting all rows in order |
| `Collector.FirstStopDecides` | collector/tasks.py:315-355 | the first ticker to end the loop gives the verdict, whatever follows it and whatever the commit would do |
| `Collector.VerdictByCause` | collector/tasks.py:308-355 | an unknown range or a value error ends in the permanent error, a transient chart failure in the transient one, another error or a refused save in a crash, by the first ticker to end the loop; else the commit decides |
| `Collector.BackfillCommitsExactlyWhen` | collector/tasks.py:310-355 | an attempt commits if and only if the range is known, no ticker ends the loop and the commit is accepted |
| `Collector.BackfillPriceHistory` | collector/tasks.py:296-355 | one attempt commits the points of all tickers, or leaves the rows as they were, also after a stop in mid-backfill |
| `Collector.RetriedRunIsAtomic` | collector/tasks.py:190-198 | over a whole run at most the last attempt commits, every earlier one failed transiently, an error leaves the table as it was, a normal end applies exactly the last attempt's rows |
| `Collector.BackfillIsRetriedExactlyWhen` | collector/tasks.py:287-355 | a second attempt is made if and only if the range is known and either the first ticker to end the loop failed transiently, or none ended it and the commit was refused |
| `Autoflush.StagedKeys` | app/repositories.py:121-134 | every key an attempt wrote is staged for insertion or committed by then, and only keys it wrote are staged |
| `Autoflush.RefusedExactlyWhenTaken` | app/core/db.py:36 | a flush or commit violates the unique constraint if and only if the save just before it was the attempt's first of its key, found the key free, and another worker has committed it since |
| `Autoflush.VerdictAt` | collector/tasks.py:308-355 | a save refused before the first chart that ends the loop crashes the attempt, else that chart decides, else the commit |
| `Autoflush.ConflictIsRetriedExactlyFromLastSave` | collector/tasks.py:331-341 | with conflicts derived from the rows other workers commit: a key lost before a later save ends the run at its first attempt with the table untouched; a full loop is retried if and only if only the key of its last save was lost |
| `Collector.RunFetchTask` | collector/tasks.py:190-284 | the retry loop over real attempts has the verdict, table and number of attempts of the specified run: at most four, fewer only when the last did not fail transiently |
| `Collector.RunBackfillTask` | collector/tasks.py:287-355 | the same for the backfill |
| `Batching.Chunked` | collector/tasks.py:23-29 | the take-until-empty loop computes the chunks; it fails exactly for a negative size |
| `Batching.ChunksPartition` | collector/tasks.py:23-29 | laid end to end the chunks are the input exactly when the size is at least 1 or there is no input; all but the last are full; size 0 yields none |
| `Batching.DispatchPriceBatches` | collector/tasks.py:90-104 | one queued task per chunk, in order; with a negative size it fails and queues none |
| `Batching.DrainQueue` | collector/tasks.py:190-284 | running the queued tasks with their retries gives the specified table |
| `Batching.BatchEffect` | collector/tasks.py:199-284 | with its retries a batch commits exactly its successes, or nothing when a ticker fails unexpectedly |
| `Batching.QueueWritesServedTickers` | collector/tasks.py:103-104 | the final table depends only on the set of tickers served, not on batch sizes, order or repeats |
| `Batching.BatchingIsIrrelevantExactlyWhen` | collector/tasks.py:90-104 | every size of at least 1 and every order ends in the table of one single batch if and only if no ticker fails unexpectedly or the table already holds all successes |
| `Batching.BatchingIsIrrelevant` | collector/tasks.py:199-269 | when no ticker fails unexpectedly, any dispatch upserts exactly the successes of the whole list |
| `Batching.ConcurrentBatchesAgree` | collector/tasks.py:199-269 | any interleaving of the batch workers, with retries and aborts, in which every batch with a success commits ends in the table of one single batch |
| `Workers.EveryInterleavingIsSafe` | app/models.py:28-31 | in every reachable state of any number of workers keys are unique, the keys are the initial ones plus those of the committed attempts as the steps alone tell them, and every price is initial or the last write of such an attempt |
| `Workers.OneOutcomePerCommit` | collector/tasks.py:240-247 | a worker may save or give up at any moment; a commit is refused exactly when a row it adds has a committed key |
| `Workers.RunIsWhatStepsSay` | collector/tasks.py:199-284 | what a worker carries are its saves since its last commit, refusal or abandonment, and the log is that list at each commit |
| `Workers.DiscardedAttemptsLeaveNoTrace` | collector/tasks.py:258-284 | deleting every attempt that was refused or given up leaves a valid run with the same table and the same committed attempts |
| `Workers.KeysOnlyGrow` | app/repositories.py:121-134 | no committed row ever disappears, whatever the interleaving |
| `Workers.CommitIsUpsertExactlyWhen` | app/repositories.py:133-134 | a commit has the effect of upserting the attempt's rows if and only if no row it left alone has changed since |
| `Workers.RunIsSerialExactlyWhen` | app/repositories.py:133-134 | a run ends as its committed attempts applied in commit order if and only if for every key the last committed attempt that wrote it staged its price or still found it standing |
| `Workers.UpToDateRunsAreSerial` | collector/tasks.py:240-247 | in particular when every commit has the effect of an upsert, from any state on |
| `Workers.AgreeingWorkersNeverDisturbEachOther` | collector/tasks.py:240-247 | workers that save the same price for each key end in the initial table plus the committed keys, however they interleave or abort |
| `Workers.CommitsNeedNotBeSerial` | app/repositories.py:133-134 | a run of two workers that ends in a table neither commit order gives |
| `Workers.ConflictsAreBounded` | collector/tasks.py:335-341 | a worker meets at most as many conflicts as it writes keys the initial table lacks |
| `Workers.ConflictingKeyIsUpdatedFromThenOn` | app/repositories.py:122-134 | after a conflict the key stays committed and the worker never again stages it for insertion |
| `Reconciliation.ResolvedRangeIsShortestCover` | collector/tasks.py:53-64 | the range covers the lookback, no shorter range does, and its name is accepted by the backfill |
| `Reconciliation.ResolvedRangeIsNamed` | collector/tasks.py:53-64 | the name of the range for each lookback |
| `Reconciliation.MissingIntervalsAreWideGaps` | collector/tasks.py:67-83 | on an increasing list the adjacent-pair check finds exactly the gaps of the set of samples |
| `Reconciliation.InsertionKeepsGapFree` | collector/tasks.py:75-83 | samples added between the first and the last never create a missing interval |
| `Reconciliation.GapCheckSplits` | collector/tasks.py:75-83 | a list has a missing interval exactly when one of its two parts has, or the cut itself is too wide |
| `Reconciliation.SubWindowKeepsGapFree` | collector/tasks.py:75-83 | any run of consecutive samples of a gap-free list is gap-free |
| `Reconciliation.LoopTestsAreExact` | collector/tasks.py:133-170 | on the greatest stored timestamp and the ordered in-window ones, the three tests decide exactly whether a ticker needs a backfill |
| `Reconciliation.IsGapped` | collector/tasks.py:133-170 | the loop body decides for one ticker whether it has no history, is stale or has a wide gap, by the configured step times the configured multiplier |
| `Reconciliation.ReconcileRecentPrices` | collector/tasks.py:111-187 | a ticker is in the dispatch if and only if it was asked for, or configured when none was, and is gapped over the given lookback, or the configured one for none or zero, by the configured step times multiplier; the range is the shortest that covers it |
| `Reconciliation.DetectorIsExact` | collector/tasks.py:121-170 | the selection is an order-preserving subsequence holding exactly the tickers with no history, a latest sample older than now - g, or two in-window samples more than g apart with no stored sample between |
| `Reconciliation.SilenceMeansCoverage` | collector/tasks.py:72-83 | a ticker passed over has history; from its first in-window sample every moment up to now has a sample at most g old, exactly when now itself has one |
| `Reconciliation.SilenceIsCoverage` | collector/tasks.py:133-170 | with a sample in the window and none in the future, being passed over and being covered are the same |
| `Reconciliation.WindowIsCoveredExactlyWhen` | collector/tasks.py:133-170 | coverage from the first in-window sample on is coverage of the whole window if and only if a sample at or before its start is at most g before the first one in it |
| `Reconciliation.SilenceCoversWindowExactlyWhen` | collector/tasks.py:133-170 | a ticker passed over, with no sample in the future, is covered over the whole window if and only if there is no hole at its start |
| `Reconciliation.HoleBeforeFirstSampleIsNotSeen` | collector/tasks.py:72-83 | a lone sample at now is passed over although the start of the window is not covered |
| `Reconciliation.FutureSampleHidesStaleness` | collector/tasks.py:153-154 | a family of histories with a future sample that are passed over though now is not covered |
| `Reconciliation.DensePartKeepsDetectorQuiet` | collector/tasks.py:67-83 | a dense part of the stored samples keeps the detector quiet whatever else is stored before, between or after |
| `Reconciliation.AlwaysQuietExactlyWhen` | collector/tasks.py:67-83 | samples keep every history that contains them quiet if and only if one is at most g old and one lies strictly inside every stretch of the window longer than g |
| `Reconciliation.DenseChartBridges` | collector/tasks.py:177-181 | a chart that is dense inside the window, or over the whole dispatched range, meets that condition |
| `Reconciliation.CommittedWritesAddStamps` | app/repositories.py:121-160 | committed upserts add their timestamps to each ticker's history and remove none |
| `Reconciliation.DenseBackfillQuietsTicker` | collector/tasks.py:111-185 | committing points whose in-window part is dense makes the next detection pass the ticker over |
| `Reconciliation.NextPassSelectsUncharted` | collector/tasks.py:315-343 | when every committed chart meets that condition the next pass selects exactly the tickers of the first that got no chart |
| `Reconciliation.RepairLoopConverges` | collector/tasks.py:177-181 | the same for the dispatched tickers and range; the next pass queues nothing if and only if each dispatched ticker got a chart |
| `Reconciliation.RetriedRepairConverges` | collector/tasks.py:287-355 | the same for the dispatched task with its retries: only the committing attempt's charts have to meet it |
| `Reconciliation.RepairSurvivesInterleaving` | collector/tasks.py:111-187 | the backfill as one worker among others: whatever is saved, committed or aborted before, between and after, a ticker whose committed chart meets it is not selected again |
| `Queries.OrderIsDeterministicExactlyWithoutTies` | app/repositories.py:20-42 | ORDER BY timestamp has one answer if and only if no two different matching rows share a timestamp; unique keys give that |
| `Queries.ListingIsTheAnswer` | app/repositories.py:55-80 | under unique keys any correct answer of the database is the modelled listing |
| `Queries.ListingHoldsExactly` | app/repositories.py:66-69 | a listing holds the rows of the ticker within whichever bounds are given, and no others |
| `Queries.PageIsSlice` | app/repositories.py:77 | a page holds the rows from any offset on, as many as its limit allows |
| `Queries.ListingIsStrict` | app/repositories.py:55-80 | under unique keys listings are strictly ordered |
| `Queries.DescendingReversesAscending` | app/repositories.py:55-80 | any descending answer is the exact reverse of any ascending one |
| `Queries.PagesReadAPrefix` | app/repositories.py:20-42 | walking pages of any size reads a prefix of the listing, no row lost or repeated |
| `Queries.PagesRoundTrip` | app/repositories.py:20-42 | the pages read so far are the whole listing exactly when the next page is empty, and enough pages always are |
| `Queries.LatestIsNewest` | app/repositories.py:44-53 | the descending limit-1 query answers exactly for stored tickers, with a row none of the ticker is newer than |
| `Queries.LatestQueriesAgree` | app/repositories.py:92-114 | the group-max join maps exactly the stored tickers, each to the row of the limit-1 query, whose timestamp is the latest timestamp |
| `Queries.CountsSumToTotal` | app/repositories.py:82-90 | per-ticker counts are the sizes of the per-ticker listings and sum to the row count |
| `Queries.RangeScanHoldsRange` | app/repositories.py:145-160 | the range scan lists all stored timestamps in the range and no others |
| `Queries.RangeScanIncreases` | app/repositories.py:145-160 | under unique keys it lists them in strictly increasing order |
| `Queries.LatestIsGreatestStamp` | app/repositories.py:136-143 | the latest timestamp is the greatest stored one, and missing exactly when nothing is stored |
| `Decimals.RoundingIsNearest` | app/services.py:76-78 | rounding is to the nearest, ties to even |
| `Decimals.SumIsCorrectlyRounded` | app/services.py:76-78 | a sum in the context is the nearest number with 28 digits |
| `Decimals.SmallSumsAreExact` | app/services.py:76-78 | sums of at most 28 digits are exact in the context |
| `Decimals.QuotientIsCorrectlyRounded` | app/services.py:76-78 | division keeps the sign, fills 28 digits, and is off by at most half a unit in the last one, ties to even |
| `Decimals.QuotientKeepsBounds` | app/services.py:131-131 | a rounded quotient never passes an integer bound of the exact one |
| `Decimals.SumFromAverage` | app/services.py:76-78 | an average of at most 10,000 prices, rounded to 28 digits, times their number and rounded, is their exact sum |
| `Candles.RollUpOfRollUp` | app/services.py:70-92 | rolling up in two steps is rolling up in one, for any nested widths |
| `Candles.OrderedRowsGiveOneBarPerBucket` | app/services.py:70-92 | on ordered rows, merging neighbours gives one bar per non-empty bucket in increasing order, each computed from exactly the bucket's rows |
| `Candles.CoarseCandlesAreRolledUpFineOnes` | app/schemas.py:53-59 | over the same fetched rows, coarse candles are the roll-up of fine bars, exact sums included, also when the row limit cut the query |
| `Candles.CandlesReadBack` | app/services.py:75-92 | the bars a candle list was made from can be read back from it, sums included |
| `Candles.CoarseCandlesFromFineCandles` | app/services.py:56-92 | coarse candles, averages included, are computed from the fine candles alone |
| `Candles.ContextSumIsExact` | app/services.py:76-78 | every partial sum of up to 10,000 prices has at most 24 digits, so the 28-digit sum is the exact one |
| `Candles.AverageIsBetweenLowAndHigh` | app/services.py:75-89 | low <= average <= high for every candle after rounding |
| `Candles.SortedKeys` | app/services.py:73-73 | the bucket starts in increasing order, each once |
| `Candles.FillBuckets` | app/services.py:67-71 | the dictionary maps each occurring bucket start to exactly its rows in order |
| `Candles.RenderBuckets` | app/services.py:72-92 | the candle loop over the sorted dictionary computes the rolled-up candles |
| `Candles.GetCandles` | app/services.py:49-94 | fetch, bucket and render refine the roll-up specification; the width is that of the interval in seconds |
| `Candles.FetchedIsOrdered` | app/services.py:56-63 | the fetched rows are ordered and number min(10000, matching rows) |
| `Candles.FetchedHoldsOldest` | app/services.py:56-63 | every fetched row is a stored row of the ticker in the range; one left out means 10,000 were fetched, none of them later than it |
| `Candles.CandlesPartitionRows` | app/services.py:67-92 | candles are aligned, disjoint and increasing, and each fetched row lies in one |
| `Candles.CandleDescribesItsRows` | app/services.py:80-92 | within the rows it covers, a candle opens and closes at the earliest and latest price, and its high and low are attained extremes |
| `Candles.CandleAveragesItsRows` | app/services.py:75-89 | a candle counts the rows it covers, and its average is their exact sum over their number, rounded to 28 digits |
| `Candles.CandlesDigestRows` | app/services.py:49-94 | the candles of any interval fold to the first, highest, lowest and last price and the row count |
| `Candles.SummaryDescribesFetchedRows` | app/services.py:102-146 | the summary exists exactly when rows were fetched and reports their first, last and extreme prices, count and exact change |
| `Candles.SummaryAgreesWithCandles` | app/services.py:96-146 | points, min, max, start, end and change of the summary equal the fold of the candles of any interval |
| `Candles.SummaryAverageIsBetween` | app/services.py:131-140 | min <= average <= max after rounding |
| `Candles.SummaryAverageIsRounded` | app/services.py:131-131 | the average is the exact sum of the fetched prices over their number, rounded to 28 digits |
| `Candles.SummaryPercentIsRounded` | app/services.py:119-122 | the percentage is 100 * change / start, off by at most half a unit of the quotient's last digit, and zero for a zero start |
| `Candles.TrendAgreesWithPercentExactlyWhen` | app/services.py:117-129 | the trend is the sign of the exact change; the percentage has that sign if and only if the start price is positive or nothing changed |
| `Metrics.RuntimeMetrics.OnRequestStart` | app/core/metrics.py:80-83 | the new counters |
| `Metrics.RuntimeMetrics.OnRequestEnd` | app/core/metrics.py:85-93 | the new counters |
| `Metrics.RuntimeMetrics.TakeSnapshot` | app/core/metrics.py:95-110 | a snapshot holds the counters and the mean duration to the nearest hundredth, ties to even |
| `Metrics.CollectRuntimeMetrics` | app/main.py:45-65 | a request that returns or raises ends with one start and one end, and in_progress as it was |
| `Metrics.EveryInterleavingConserves` | app/main.py:45-65 | over every interleaving in_progress is the number of open requests and started minus ended, path counts sum to total plus in_progress, status counts to total, and failed is the sum of groups 4 and above |
| `Metrics.CountersCountEvents` | app/core/metrics.py:80-93 | each path and status counter is the number of its events, a response counting in the hundred of its code and an exception in the five hundreds; failed counts those from 400 up; durations add up |

## Left out

- HTTP transport, JSON decoding and error texts: foreign calls; each attempt gets its answers as data.
- Celery and Redis: backoff, jitter, expiry and delivery; only the retry of the transient error, at most three times, is modelled.
- SQLAlchemy and PostgreSQL internals: row ids, `created_at`, row locks, isolation, the identity map. A session reads the rows committed at that moment together with its own staged ones. An accepted commit is atomic; a commit the server applied but reported as failed is not modelled.
- Values the price column refuses: they appear as refused saves or commits, and rounding of more than eight decimals by the column is not modelled.
- The row order a transaction sees among rows with equal timestamps; the unique constraint rules such rows out.
- The percentage before it is cut back to 28 digits: multiplying by 100 only shifts the decimal point, so the cut drops zeros only.
- Workers.ConflictsAreBounded: bounds conflicts, not other failures, which the retry cap alone limits; the model lets a worker be abandoned at any step.
- Batching.BatchingIsIrrelevant: takes the provider's answer to a ticker as the same whenever it is asked, and every commit as accepted (`Batching.ConcurrentBatchesAgree` lets commits conflict and be retried); differing answers per attempt are covered by `Collector.RetriedRunIsAtomic`.
- Metrics.RuntimeMetrics.TakeSnapshot: takes durations as real numbers, not as binary floats. Status groups are numbers instead of texts like 4xx.
- Sizes above the largest `islice` accepts.
- Waiting: a flush that meets another worker's uncommitted row of the same key waits for it; the model sees only the rows committed by then.
- Cancellation of a request, which `except Exception` does not see: requests return or raise `Exception`.
- FastAPI endpoints, pydantic validation, Prometheus text, logging, configuration loading, the command line, migrations and provider metadata: wrappers, I/O or static data.
