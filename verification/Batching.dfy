/** The fan-out of the ticker list into batches, and why batch size and order do not matter. */
module Batching {
  import opened Collections
  import opened PriceTable
  import opened PriceStore
  import opened Collector
  import Workers

  // ---------------------------------------------------------------- chunked

  function Chunks<T>(items: seq<T>, size: nat): seq<seq<T>> {
    if size == 0 || items == [] then []
    else if |items| <= size then [items]
    else [items[..size]] + Chunks(items[size..], size)
  }

  /** `chunked`: takes `size` items at a time until a take comes back empty; None where a negative take raises. */
  method Chunked<T>(items: seq<T>, size: int) returns (result: Option<seq<seq<T>>>)
    ensures result.None? <==> size < 0
    ensures result.Some? ==> result.value == Chunks(items, size)
  {
    if size < 0 {
      return None;
    }
    var batches := [];
    var rest := items;
    var batch := if |rest| <= size then rest else rest[..size];
    while batch != []
      invariant batch == if |rest| <= size then rest else rest[..size]
      invariant batches + Chunks(rest, size) == Chunks(items, size)
      decreases |rest|
    {
      batches := batches + [batch];
      rest := rest[|batch|..];
      batch := if |rest| <= size then rest else rest[..size];
    }
    result := Some(batches);
  }

  lemma {:induction false} FlattenCons<T>(s: seq<T>, ss: seq<seq<T>>)
    ensures Flatten([s] + ss) == s + Flatten(ss)
  {
    if ss == [] {
      assert [s] + ss == [s] && [s][..0] == [];
    } else {
      FlattenCons(s, ss[..|ss| - 1]);
      assert ([s] + ss)[..|ss|] == [s] + ss[..|ss| - 1];
    }
  }

  /**
    With a size of at least one the batches are a partition of the list into consecutive runs,
    all full but the last. A size of zero yields no batch at all, so every ticker is lost.
   */
  lemma {:induction false} ChunksPartition<T>(items: seq<T>, size: nat)
    ensures Flatten(Chunks(items, size)) == items <==> size >= 1 || items == []
    ensures size == 0 ==> Chunks(items, size) == []
    ensures forall i :: 0 <= i < |Chunks(items, size)| ==> 1 <= |Chunks(items, size)[i]| <= size
    ensures forall i :: 0 <= i < |Chunks(items, size)| - 1 ==> |Chunks(items, size)[i]| == size
    decreases |items|
  {
    if size != 0 && items != [] {
      if |items| <= size {
        FlattenCons(items, []);
        assert [items] + [] == [items];
      } else {
        ChunksPartition(items[size..], size);
        FlattenCons(items[..size], Chunks(items[size..], size));
      }
    }
  }

  /** `dispatch_price_batches`: one queued fetch task per batch, in list order; a negative size fails and queues none. */
  method DispatchPriceBatches(tickers: seq<Ticker>, batchSize: int) returns (queue: seq<seq<Ticker>>, failed: bool)
    ensures failed <==> batchSize < 0
    ensures queue == if failed then [] else Chunks(tickers, batchSize)
  {
    queue := [];
    var batches := Chunked(tickers, batchSize);
    if batches.None? {
      return queue, true;
    }
    for i := 0 to |batches.value|
      invariant queue == batches.value[..i]
    {
      queue := queue + [batches.value[i]];
    }
    failed := false;
  }

  // ---------------------------------------------------------------- running the queue

  /** The provider's answer to each ticker, the same whenever it is asked. */
  type Oracle = Ticker -> Quote

  function Ask(batch: seq<Ticker>, oracle: Oracle): (quotes: seq<Quote>)
    ensures |quotes| == |batch|
  {
    seq(|batch|, i requires 0 <= i < |batch| => oracle(batch[i]))
  }

  /** The attempts of one batch task when the provider is steady and every commit is accepted. */
  function SteadyEnvs(batch: seq<Ticker>, oracle: Oracle): seq<FetchEnv> {
    seq(MAX_RETRIES + 1, _ => FetchEnv(Ask(batch, oracle), true))
  }

  /** The table after the batch tasks ran one after another, each with its retries. */
  function RunQueue(t: Table, queue: seq<seq<Ticker>>, oracle: Oracle): Table {
    if queue == [] then t else
      var batch := queue[|queue| - 1];
      RunTask(RunQueue(t, queue[..|queue| - 1], oracle), FetchAttempts(batch, SteadyEnvs(batch, oracle))).table
  }

  /** The workers draining the queue. */
  method DrainQueue(db: Database, queue: seq<seq<Ticker>>, oracle: Oracle)
    requires db.Valid()
    modifies db
    ensures db.Valid() && db.Table() == RunQueue(old(db.Table()), queue, oracle)
  {
    for i := 0 to |queue|
      invariant db.Valid() && db.Table() == RunQueue(old(db.Table()), queue[..i], oracle)
    {
      assert queue[..i + 1][..i] == queue[..i];
      var _, _ := RunFetchTask(db, queue[i], SteadyEnvs(queue[i], oracle));
    }
    assert queue[..|queue|] == queue;
  }

  predicate Fails(batch: seq<Ticker>, oracle: Oracle) {
    exists i :: 0 <= i < |batch| && oracle(batch[i]).UnexpectedFailure?
  }

  /** A batch commits exactly its successes, or nothing when a ticker fails unexpectedly. */
  lemma BatchEffect(t: Table, batch: seq<Ticker>, oracle: Oracle)
    ensures RunTask(t, FetchAttempts(batch, SteadyEnvs(batch, oracle))).table
            == if Fails(batch, oracle) then t else Apply(t, QuotedRows(batch, Ask(batch, oracle)))
  {
    var attempts := FetchAttempts(batch, SteadyEnvs(batch, oracle));
    var quotes := Ask(batch, oracle);
    RetriedRunIsAtomic(t, attempts);
    SomethingSaved(batch, quotes, |batch|);
    assert Fails(batch, oracle) <==> UnexpectedFailure in quotes by {
      assert forall i :: 0 <= i < |batch| ==> quotes[i] == oracle(batch[i]);
    }
  }

  /** What the successful ones among a set of tickers write; each ticker has its own key. */
  ghost function QuoteTable(tickers: set<Ticker>, oracle: Oracle): Table {
    map x | x in tickers && oracle(x).Quoted? :: Key(x, oracle(x).timestamp) := oracle(x).price
  }

  ghost function Members(batch: seq<Ticker>): set<Ticker> {
    set x | x in batch
  }

  lemma QuoteTableStep(a: set<Ticker>, x: Ticker, oracle: Oracle)
    ensures QuoteTable(a + {x}, oracle)
            == if oracle(x).Quoted? then QuoteTable(a, oracle)[Key(x, oracle(x).timestamp) := oracle(x).price]
               else QuoteTable(a, oracle)
  {}

  lemma {:induction false} QuotesAsTable(batch: seq<Ticker>, oracle: Oracle, n: nat)
    requires n <= |batch|
    ensures TableOf(QuotedUpTo(batch, Ask(batch, oracle), n)) == QuoteTable(Members(batch[..n]), oracle)
  {
    if n != 0 {
      QuotesAsTable(batch, oracle, n - 1);
      var x, quotes := batch[n - 1], Ask(batch, oracle);
      assert Members(batch[..n]) == Members(batch[..n - 1]) + {x};
      QuoteTableStep(Members(batch[..n - 1]), x, oracle);
      QuotedStep(map[], batch, quotes, n - 1);
    }
  }

  ghost function ServedBy(batch: seq<Ticker>, oracle: Oracle): set<Ticker> {
    if Fails(batch, oracle) then {} else Members(batch)
  }

  /** The tickers of the batches in which nothing fails unexpectedly. */
  ghost function Served(queue: seq<seq<Ticker>>, oracle: Oracle): set<Ticker> {
    if queue == [] then {} else Served(queue[..|queue| - 1], oracle) + ServedBy(queue[|queue| - 1], oracle)
  }

  lemma {:induction false} ServedMembers(queue: seq<seq<Ticker>>, oracle: Oracle)
    ensures forall x :: x in Served(queue, oracle) <==> exists b :: b in queue && !Fails(b, oracle) && x in b
  {
    if queue != [] {
      ServedMembers(queue[..|queue| - 1], oracle);
      assert queue == queue[..|queue| - 1] + [queue[|queue| - 1]];
    }
  }

  lemma BatchOverlay(t: Table, batch: seq<Ticker>, oracle: Oracle)
    ensures RunTask(t, FetchAttempts(batch, SteadyEnvs(batch, oracle))).table
            == t + QuoteTable(ServedBy(batch, oracle), oracle)
  {
    BatchEffect(t, batch, oracle);
    if !Fails(batch, oracle) {
      ApplyIsOverlay(t, QuotedRows(batch, Ask(batch, oracle)));
      assert batch[..|batch|] == batch;
      QuotesAsTable(batch, oracle, |batch|);
    }
  }

  lemma QuoteTableUnion(t: Table, a: set<Ticker>, b: set<Ticker>, oracle: Oracle)
    ensures t + QuoteTable(a, oracle) + QuoteTable(b, oracle) == t + QuoteTable(a + b, oracle)
  {}

  /** The final table depends only on the set of tickers served, not on sizes, order or repeats. */
  lemma {:induction false} QueueWritesServedTickers(t: Table, queue: seq<seq<Ticker>>, oracle: Oracle)
    ensures RunQueue(t, queue, oracle) == t + QuoteTable(Served(queue, oracle), oracle)
  {
    if queue != [] {
      var init, batch := queue[..|queue| - 1], queue[|queue| - 1];
      QueueWritesServedTickers(t, init, oracle);
      BatchOverlay(RunQueue(t, init, oracle), batch, oracle);
      QuoteTableUnion(t, Served(init, oracle), ServedBy(batch, oracle), oracle);
    }
  }

  /** The queue is some order of the batches a dispatch with some size of at least one makes. */
  ghost predicate Dispatched(queue: seq<seq<Ticker>>, tickers: seq<Ticker>, size: nat) {
    size >= 1 && multiset(queue) == multiset(Chunks(tickers, size))
  }

  lemma DispatchedTickers(queue: seq<seq<Ticker>>, tickers: seq<Ticker>, size: nat)
    requires Dispatched(queue, tickers, size)
    ensures forall x :: x in tickers <==> exists b :: b in queue && x in b
  {
    ChunksPartition(tickers, size);
    FlattenMembers(Chunks(tickers, size));
    assert forall b :: b in queue <==> b in multiset(queue);
  }

  lemma AloneIsServed(batch: seq<Ticker>, x: Ticker, oracle: Oracle)
    requires |batch| <= 1 && x in batch && oracle(x).Quoted?
    ensures !Fails(batch, oracle)
  {}

  lemma ServedBySingleTickers(tickers: seq<Ticker>, oracle: Oracle)
    ensures QuoteTable(Served(Chunks(tickers, 1), oracle), oracle) == QuoteTable(Members(tickers), oracle)
  {
    var queue := Chunks(tickers, 1);
    ChunksPartition(tickers, 1);
    DispatchedTickers(queue, tickers, 1);
    ServedMembers(queue, oracle);
    forall x | x in tickers && oracle(x).Quoted? ensures x in Served(queue, oracle) {
      var b :| b in queue && x in b;
      var i :| 0 <= i < |queue| && queue[i] == b;
      AloneIsServed(b, x, oracle);
    }
    forall x | x in Served(queue, oracle) ensures x in tickers {}
    SameQuotes(Served(queue, oracle), Members(tickers), oracle);
  }

  lemma SameQuotes(a: set<Ticker>, b: set<Ticker>, oracle: Oracle)
    requires forall x :: oracle(x).Quoted? ==> (x in a <==> x in b)
    ensures QuoteTable(a, oracle) == QuoteTable(b, oracle)
  {}

  /** One task for the whole list. */
  lemma SingleBatch(t: Table, tickers: seq<Ticker>, oracle: Oracle)
    ensures RunQueue(t, [tickers], oracle)
            == if Fails(tickers, oracle) then t else t + QuoteTable(Members(tickers), oracle)
  {
    QueueWritesServedTickers(t, [tickers], oracle);
    ServedMembers([tickers], oracle);
    assert Served([tickers], oracle) == if Fails(tickers, oracle) then {} else Members(tickers);
  }

  /**
    For fixed answers and accepted commits, every batch size of at least one and every order of
    the batches leave the table that one single batch leaves, exactly when no ticker fails
    unexpectedly or the table already holds every quoted price.
   */
  lemma BatchingIsIrrelevantExactlyWhen(t: Table, tickers: seq<Ticker>, oracle: Oracle)
    ensures (forall queue, size :: Dispatched(queue, tickers, size) ==>
               RunQueue(t, queue, oracle) == RunQueue(t, [tickers], oracle))
            <==> !Fails(tickers, oracle) || QuoteTable(Members(tickers), oracle).Items <= t.Items
  {
    var all := QuoteTable(Members(tickers), oracle);
    SingleBatch(t, tickers, oracle);
    if !Fails(tickers, oracle) || all.Items <= t.Items {
      forall queue, size | Dispatched(queue, tickers, size)
        ensures RunQueue(t, queue, oracle) == RunQueue(t, [tickers], oracle)
      {
        DispatchedTickers(queue, tickers, size);
        QueueWritesServedTickers(t, queue, oracle);
        ServedMembers(queue, oracle);
        assert Served(queue, oracle) <= Members(tickers);
        if !Fails(tickers, oracle) {
          EveryBatchServed(queue, tickers, oracle);
        } else {
          SubsetOfHeld(t, Served(queue, oracle), Members(tickers), oracle);
          SubsetOfHeld(t, Members(tickers), Members(tickers), oracle);
        }
      }
    } else {
      var queue := Chunks(tickers, 1);
      assert Dispatched(queue, tickers, 1);
      QueueWritesServedTickers(t, queue, oracle);
      ServedBySingleTickers(tickers, oracle);
      assert t + all != t by {
        var item :| item in all.Items && item !in t.Items;
        assert item.0 in t + all && (t + all)[item.0] == item.1;
      }
    }
  }

  lemma EveryBatchServed(queue: seq<seq<Ticker>>, tickers: seq<Ticker>, oracle: Oracle)
    requires !Fails(tickers, oracle)
    requires forall x :: x in tickers <==> exists b :: b in queue && x in b
    ensures Served(queue, oracle) == Members(tickers)
  {
    ServedMembers(queue, oracle);
    forall b | b in queue ensures !Fails(b, oracle) {
      forall i | 0 <= i < |b| ensures !oracle(b[i]).UnexpectedFailure? {
        assert b[i] in tickers;
      }
    }
  }

  lemma SubsetOfHeld(t: Table, some: set<Ticker>, all: set<Ticker>, oracle: Oracle)
    requires some <= all && QuoteTable(all, oracle).Items <= t.Items
    ensures t + QuoteTable(some, oracle) == t
  {
    forall k | k in QuoteTable(some, oracle) ensures k in t && t[k] == QuoteTable(some, oracle)[k] {
      assert k in QuoteTable(all, oracle) && QuoteTable(all, oracle)[k] == QuoteTable(some, oracle)[k];
      assert (k, QuoteTable(all, oracle)[k]) in QuoteTable(all, oracle).Items;
    }
  }

  /** In particular whenever no ticker fails unexpectedly: the successes are upserted, nothing else. */
  lemma BatchingIsIrrelevant(t: Table, tickers: seq<Ticker>, size: nat, queue: seq<seq<Ticker>>, oracle: Oracle)
    requires Dispatched(queue, tickers, size) && !Fails(tickers, oracle)
    ensures RunQueue(t, queue, oracle) == Apply(t, QuotedRows(tickers, Ask(tickers, oracle)))
  {
    BatchingIsIrrelevantExactlyWhen(t, tickers, oracle);
    BatchEffect(t, tickers, oracle);
    assert [tickers][..0] == [];
  }

  // ---------------------------------------------------------------- batches run concurrently

  /** The row is what the provider answers for its ticker. */
  predicate Answers(oracle: Oracle, r: Row) {
    oracle(r.ticker) == Quoted(r.price, r.timestamp)
  }

  /** The attempts that committed are attempts of batches of the queue, and each batch with a success is among them. */
  ghost predicate CommitsOf(queue: seq<seq<Ticker>>, oracle: Oracle, log: seq<seq<Row>>) {
    && (forall writes :: writes in log ==> exists b :: b in queue && writes == QuotedRows(b, Ask(b, oracle)))
    && (forall b :: b in queue ==> QuotedRows(b, Ask(b, oracle)) == [] || QuotedRows(b, Ask(b, oracle)) in log)
  }

  lemma {:induction false} QuotedRowMembers(batch: seq<Ticker>, oracle: Oracle, n: nat, r: Row)
    requires n <= |batch|
    ensures r in QuotedUpTo(batch, Ask(batch, oracle), n)
            <==> Answers(oracle, r) && exists i :: 0 <= i < n && batch[i] == r.ticker
  {
    if n != 0 {
      QuotedRowMembers(batch, oracle, n - 1, r);
    }
  }

  lemma CommittedRows(queue: seq<seq<Ticker>>, tickers: seq<Ticker>, oracle: Oracle, log: seq<seq<Row>>, r: Row)
    requires CommitsOf(queue, oracle, log) && forall x :: x in tickers <==> exists b :: b in queue && x in b
    ensures r in Flatten(log) <==> r in QuotedRows(tickers, Ask(tickers, oracle))
  {
    FlattenMembers(log);
    QuotedRowMembers(tickers, oracle, |tickers|, r);
    if r in Flatten(log) {
      var writes :| writes in log && r in writes;
      var b :| b in queue && writes == QuotedRows(b, Ask(b, oracle));
      QuotedRowMembers(b, oracle, |b|, r);
      assert r.ticker in b && r.ticker in tickers;
      assert r in QuotedRows(tickers, Ask(tickers, oracle));
    }
    if r in QuotedRows(tickers, Ask(tickers, oracle)) {
      assert r.ticker in tickers;
      var b :| b in queue && r.ticker in b;
      QuotedRowMembers(b, oracle, |b|, r);
      assert r in QuotedRows(b, Ask(b, oracle)) && QuotedRows(b, Ask(b, oracle)) in log;
      assert r in Flatten(log);
    }
  }

  lemma CommittedKeys(queue: seq<seq<Ticker>>, tickers: seq<Ticker>, oracle: Oracle, log: seq<seq<Row>>)
    requires CommitsOf(queue, oracle, log) && forall x :: x in tickers <==> exists b :: b in queue && x in b
    ensures Keys(Flatten(log)) == Keys(QuotedRows(tickers, Ask(tickers, oracle)))
  {
    var rows := QuotedRows(tickers, Ask(tickers, oracle));
    forall r ensures r in Flatten(log) <==> r in rows {
      CommittedRows(queue, tickers, oracle, log, r);
    }
  }

  /** The price the provider answers, whatever the timestamp; 0 where it has none. */
  function PriceAnswered(oracle: Oracle, k: Key): Price {
    if oracle(k.ticker).Quoted? then oracle(k.ticker).price else 0
  }

  function QuotedPrice(oracle: Oracle): Key -> Price {
    (k: Key) => PriceAnswered(oracle, k)
  }

  lemma QuotesAgree(t: Table, tickers: seq<Ticker>, oracle: Oracle)
    ensures var rows := QuotedRows(tickers, Ask(tickers, oracle));
      Apply(t, rows) == t + map k | k in Keys(rows) :: QuotedPrice(oracle)(k)
  {
    var rows := QuotedRows(tickers, Ask(tickers, oracle));
    forall r | r in rows ensures r.price == QuotedPrice(oracle)(r.Id()) {
      QuotedRowMembers(tickers, oracle, |tickers|, r);
    }
    Workers.AgreedWrites(t, rows, QuotedPrice(oracle));
  }

  /**
    The batches need not run one after another. In any interleaving of their workers, with retries
    and aborts, in which every batch with a success commits in the end, possibly more than once,
    the table ends as if one batch had fetched the whole list.
   */
  lemma {:induction false} ConcurrentBatchesAgree(rows0: seq<Row>, steps: seq<Workers.Step>, tickers: seq<Ticker>, size: nat,
                               queue: seq<seq<Ticker>>, oracle: Oracle)
    requires UniqueKeys(rows0) && Workers.ValidRun(Workers.Start(rows0), steps)
    requires Dispatched(queue, tickers, size) && !Fails(tickers, oracle)
    requires forall i :: 0 <= i < |steps| && steps[i].SaveStep? ==> Answers(oracle, steps[i].row)
    requires CommitsOf(queue, oracle, Workers.CommittedBy(steps))
    ensures TableOf(Workers.Run(Workers.Start(rows0), steps).rows) == RunQueue(TableOf(rows0), [tickers], oracle)
  {
    DispatchedTickers(queue, tickers, size);
    CommittedKeys(queue, tickers, oracle, Workers.CommittedBy(steps));
    Workers.AgreeingWorkersNeverDisturbEachOther(rows0, steps, QuotedPrice(oracle));
    QuotesAgree(TableOf(rows0), tickers, oracle);
    BatchEffect(TableOf(rows0), tickers, oracle);
    assert [tickers][..0] == [] && RunQueue(TableOf(rows0), [], oracle) == TableOf(rows0);
  }
}
