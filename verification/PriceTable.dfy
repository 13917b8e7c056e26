/** The `prices` table as a list of rows, and what one transaction stages against it. */
module PriceTable {
  import opened Collections

  /** A price in units of 1e-8; the column is Numeric(20, 8), so 20 digits is the most it holds. */
  type Price = p: int | -100_000_000_000_000_000_000 < p < 100_000_000_000_000_000_000

  /** An instrument name such as btc_usd. */
  datatype Ticker = Ticker(name: string)

  /** The columns of the unique constraint. */
  datatype Key = Key(ticker: Ticker, timestamp: int)

  datatype Row = Row(ticker: Ticker, timestamp: int, price: Price) {
    function Id(): Key { Key(ticker, timestamp) }
  }

  /** What a table with unique keys says. */
  type Table = map<Key, Price>

  function Keys(rows: seq<Row>): set<Key> {
    set r | r in rows :: r.Id()
  }

  /** The constraint uq_prices_ticker_timestamp. */
  ghost predicate UniqueKeys(rows: seq<Row>) {
    forall i, j {:trigger rows[i].Id(), rows[j].Id()} :: 0 <= i < j < |rows| ==> rows[i].Id() != rows[j].Id()
  }

  /** Last writer wins: the table after upserting `writes` one after another. */
  function Apply(t: Table, writes: seq<Row>): Table {
    if writes == [] then t else
      var last := writes[|writes| - 1];
      Apply(t, writes[..|writes| - 1])[last.Id() := last.price]
  }

  function TableOf(rows: seq<Row>): Table {
    Apply(map[], rows)
  }

  /** The price the last write to `k` carries. */
  function LastWrite(writes: seq<Row>, k: Key): Price
    requires k in Keys(writes)
  {
    var init, last := writes[..|writes| - 1], writes[|writes| - 1];
    assert writes == init + [last];
    if last.Id() == k then last.price else LastWrite(init, k)
  }

  lemma KeysConcat(a: seq<Row>, b: seq<Row>)
    ensures Keys(a + b) == Keys(a) + Keys(b)
  {
    forall k | k in Keys(a) + Keys(b) ensures k in Keys(a + b) {
      var r :| (r in a || r in b) && r.Id() == k;
      assert r in a + b;
    }
  }

  /** An upserted key holds its last write; every other key keeps what it had. */
  lemma {:induction false} ApplyIsLastWriterWins(t: Table, writes: seq<Row>)
    ensures Apply(t, writes).Keys == t.Keys + Keys(writes)
    ensures forall k :: k in Keys(writes) ==> Apply(t, writes)[k] == LastWrite(writes, k)
    ensures forall k :: k in t && k !in Keys(writes) ==> Apply(t, writes)[k] == t[k]
  {
    if writes != [] {
      var init, last := writes[..|writes| - 1], writes[|writes| - 1];
      ApplyIsLastWriterWins(t, init);
      assert writes == init + [last];
      KeysConcat(init, [last]);
      assert Keys([last]) == {last.Id()};
    }
  }

  lemma {:induction false} ApplyConcat(t: Table, a: seq<Row>, b: seq<Row>)
    ensures Apply(t, a + b) == Apply(Apply(t, a), b)
  {
    if b == [] {
      assert a + b == a;
    } else {
      ApplyConcat(t, a, b[..|b| - 1]);
      assert (a + b)[..|a + b| - 1] == a + b[..|b| - 1];
    }
  }

  lemma ApplyStep(t: Table, writes: seq<Row>, r: Row)
    ensures Apply(t, writes + [r]) == Apply(t, writes)[r.Id() := r.price]
  {
    assert (writes + [r])[..|writes|] == writes;
  }

  /** Upserting is adding the table the writes make on their own. */
  lemma ApplyIsOverlay(t: Table, writes: seq<Row>)
    ensures Apply(t, writes) == t + TableOf(writes)
  {
    ApplyIsLastWriterWins(t, writes);
    ApplyIsLastWriterWins(map[], writes);
  }

  /** Replaying writes that were just applied changes nothing. */
  lemma ApplyIsIdempotent(t: Table, writes: seq<Row>)
    ensures Apply(Apply(t, writes), writes) == Apply(t, writes)
  {
    ApplyIsOverlay(t, writes);
    ApplyIsOverlay(Apply(t, writes), writes);
  }

  lemma {:induction false} LastWriteOfUnique(rows: seq<Row>, r: Row)
    requires UniqueKeys(rows) && r in rows
    ensures r.Id() in Keys(rows) && LastWrite(rows, r.Id()) == r.price
  {
    var init, last := rows[..|rows| - 1], rows[|rows| - 1];
    assert rows == init + [last];
    if r != last {
      var i :| 0 <= i < |rows| - 1 && rows[i] == r;
      assert init[i] == r;
      LastWriteOfUnique(init, r);
    }
  }

  /** With unique keys the table is exactly the set of its rows. */
  lemma TableOfUnique(rows: seq<Row>)
    requires UniqueKeys(rows)
    ensures TableOf(rows).Keys == Keys(rows)
    ensures forall r :: r in rows ==> r.Id() in TableOf(rows) && TableOf(rows)[r.Id()] == r.price
  {
    ApplyIsLastWriterWins(map[], rows);
    forall r | r in rows ensures r.Id() in TableOf(rows) && TableOf(rows)[r.Id()] == r.price {
      LastWriteOfUnique(rows, r);
    }
  }

  lemma UniqueConcat(a: seq<Row>, b: seq<Row>)
    requires UniqueKeys(a) && UniqueKeys(b) && Keys(a) !! Keys(b)
    ensures UniqueKeys(a + b)
  {
    forall i, j | 0 <= i < j < |a + b| ensures (a + b)[i].Id() != (a + b)[j].Id() {
      if i < |a| <= j {
        assert a[i].Id() in Keys(a) && b[j - |a|].Id() in Keys(b);
      }
    }
  }

  // ---------------------------------------------------------------- staged writes

  /** What a session holds between its first write and its commit: added rows and changed prices. */
  datatype Staged = Staged(inserts: seq<Row>, updates: Table)

  const NOTHING_STAGED := Staged([], map[])

  /** UPDATE: rows keep their place and key, some get a new price. */
  function SetPrices(rows: seq<Row>, updates: Table): (r: seq<Row>) {
    seq(|rows|, i requires 0 <= i < |rows| =>
      if rows[i].Id() in updates then rows[i].(price := updates[rows[i].Id()]) else rows[i])
  }

  /** What a SELECT inside the transaction sees, and what a commit installs. */
  function Flushed(rows: seq<Row>, st: Staged): seq<Row> {
    SetPrices(rows, st.updates) + st.inserts
  }

  /**
    `save_price`: look the key up in what the transaction sees; add a row when there is none,
    otherwise assign the price. Assigning the price a stored row already shows emits no UPDATE.
   */
  function Save(rows: seq<Row>, st: Staged, r: Row): Staged {
    var seen := TableOf(Flushed(rows, st));
    if r.Id() !in seen then
      Staged(st.inserts + [r], st.updates)
    else if r.Id() in Keys(st.inserts) then
      Staged(SetPrices(st.inserts, map[r.Id() := r.price]), st.updates)
    else if seen[r.Id()] == r.price then
      st
    else
      Staged(st.inserts, st.updates[r.Id() := r.price])
  }

  /** The staged rows violate the unique constraint against the committed ones. */
  predicate Conflicts(rows: seq<Row>, st: Staged) {
    exists r :: r in st.inserts && r.Id() in Keys(rows)
  }

  /** Staged writes that still fit the table they were staged against. */
  ghost predicate Fits(rows: seq<Row>, st: Staged) {
    && UniqueKeys(rows)
    && UniqueKeys(st.inserts)
    && !Conflicts(rows, st)
    && st.updates.Keys <= Keys(rows)
  }

  lemma SetPricesKeepsKeys(rows: seq<Row>, updates: Table)
    ensures Keys(SetPrices(rows, updates)) == Keys(rows)
    ensures UniqueKeys(rows) ==> UniqueKeys(SetPrices(rows, updates))
    ensures forall i :: 0 <= i < |rows| ==> SetPrices(rows, updates)[i].Id() == rows[i].Id()
  {
    var out := SetPrices(rows, updates);
    assert forall i :: 0 <= i < |rows| ==> out[i].Id() == rows[i].Id();
    forall k | k in Keys(rows) ensures k in Keys(out) {
      var i :| 0 <= i < |rows| && rows[i].Id() == k;
      assert out[i] in out;
    }
    forall k | k in Keys(out) ensures k in Keys(rows) {
      var i :| 0 <= i < |out| && out[i].Id() == k;
      assert rows[i] in rows;
    }
  }

  lemma SetPricesAt(rows: seq<Row>, updates: Table, i: nat)
    requires UniqueKeys(rows) && i < |rows|
    ensures var k := rows[i].Id();
      && k in TableOf(rows) && k in TableOf(SetPrices(rows, updates))
      && TableOf(SetPrices(rows, updates))[k] == if k in updates then updates[k] else TableOf(rows)[k]
  {
    var out := SetPrices(rows, updates);
    SetPricesKeepsKeys(rows, updates);
    TableOfUnique(rows);
    TableOfUnique(out);
    assert rows[i] in rows && out[i] in out;
  }

  lemma SetPricesTable(rows: seq<Row>, updates: Table)
    requires UniqueKeys(rows) && updates.Keys <= Keys(rows)
    ensures TableOf(SetPrices(rows, updates)) == TableOf(rows) + updates
  {
    var out := SetPrices(rows, updates);
    SetPricesKeepsKeys(rows, updates);
    TableOfUnique(rows);
    TableOfUnique(out);
    forall k | k in Keys(rows) ensures TableOf(out)[k] == (TableOf(rows) + updates)[k] {
      var i :| 0 <= i < |rows| && rows[i].Id() == k;
      SetPricesAt(rows, updates, i);
    }
  }

  lemma FlushedTable(rows: seq<Row>, st: Staged)
    requires Fits(rows, st)
    ensures UniqueKeys(Flushed(rows, st))
    ensures TableOf(Flushed(rows, st)) == TableOf(rows) + st.updates + TableOf(st.inserts)
    ensures Keys(Flushed(rows, st)) == Keys(rows) + Keys(st.inserts)
  {
    SetPricesKeepsKeys(rows, st.updates);
    SetPricesTable(rows, st.updates);
    TableOfUnique(rows);
    KeysConcat(SetPrices(rows, st.updates), st.inserts);
    UniqueConcat(SetPrices(rows, st.updates), st.inserts);
    ApplyConcat(map[], SetPrices(rows, st.updates), st.inserts);
    ApplyIsOverlay(TableOf(rows) + st.updates, st.inserts);
  }

  lemma SaveNewRow(rows: seq<Row>, st: Staged, r: Row)
    requires Fits(rows, st) && r.Id() !in Keys(rows) && r.Id() !in Keys(st.inserts)
    ensures Fits(rows, Staged(st.inserts + [r], st.updates))
    ensures TableOf(st.inserts + [r]) == TableOf(st.inserts)[r.Id() := r.price]
  {
    assert Keys([r]) == {r.Id()};
    KeysConcat(st.inserts, [r]);
    UniqueConcat(st.inserts, [r]);
    ApplyConcat(map[], st.inserts, [r]);
  }

  lemma SavePendingRow(rows: seq<Row>, st: Staged, r: Row)
    requires Fits(rows, st) && r.Id() in Keys(st.inserts)
    ensures Fits(rows, Staged(SetPrices(st.inserts, map[r.Id() := r.price]), st.updates))
    ensures TableOf(SetPrices(st.inserts, map[r.Id() := r.price])) == TableOf(st.inserts)[r.Id() := r.price]
  {
    var out := SetPrices(st.inserts, map[r.Id() := r.price]);
    SetPricesKeepsKeys(st.inserts, map[r.Id() := r.price]);
    SetPricesTable(st.inserts, map[r.Id() := r.price]);
    forall x | x in out ensures x.Id() !in Keys(rows) {
      assert x.Id() in Keys(out);
      var y :| y in st.inserts && y.Id() == x.Id();
    }
  }

  /** Each of these three ways of staging a price under `k` sets it in the overlay. */
  lemma OverlayUpdate(base: Table, updates: Table, added: Table, updates': Table, added': Table, k: Key, p: Price)
    requires || (updates' == updates && added' == added[k := p])
             || (updates' == updates && added' == added && k in base + updates + added && (base + updates + added)[k] == p)
             || (k !in added && added' == added && updates' == updates[k := p])
    ensures base + updates' + added' == (base + updates + added)[k := p]
  {}

  /** The three things `save_price` may do: set a pending row, leave the stored price, or change it. */
  lemma SaveStages(rows: seq<Row>, st: Staged, r: Row)
    requires Fits(rows, st)
    ensures var k, after, added := r.Id(), Save(rows, st, r), TableOf(st.inserts);
      && Fits(rows, after)
      && added.Keys == Keys(st.inserts)
      && (|| (after.updates == st.updates && TableOf(after.inserts) == added[k := r.price])
          || (after == st && k in TableOf(Flushed(rows, st)) && TableOf(Flushed(rows, st))[k] == r.price)
          || (k !in added && after.inserts == st.inserts && after.updates == st.updates[k := r.price]))
  {
    FlushedTable(rows, st);
    TableOfUnique(Flushed(rows, st));
    TableOfUnique(st.inserts);
    if r.Id() !in TableOf(Flushed(rows, st)) {
      SaveNewRow(rows, st, r);
    } else if r.Id() in Keys(st.inserts) {
      SavePendingRow(rows, st, r);
    }
  }

  /** `save_price` is an upsert of what the transaction sees, and keeps the unique constraint. */
  lemma SaveIsUpsert(rows: seq<Row>, st: Staged, r: Row)
    requires Fits(rows, st)
    ensures Fits(rows, Save(rows, st, r))
    ensures TableOf(Flushed(rows, Save(rows, st, r))) == TableOf(Flushed(rows, st))[r.Id() := r.price]
  {
    SaveStages(rows, st, r);
    FlushedTable(rows, st);
    FlushedTable(rows, Save(rows, st, r));
    var after := Save(rows, st, r);
    OverlayUpdate(TableOf(rows), st.updates, TableOf(st.inserts), after.updates, TableOf(after.inserts), r.Id(), r.price);
  }

  lemma KeysSeen(rows: seq<Row>, st: Staged)
    ensures TableOf(Flushed(rows, st)).Keys == Keys(rows) + Keys(st.inserts)
  {
    ApplyIsLastWriterWins(map[], Flushed(rows, st));
    SetPricesKeepsKeys(rows, st.updates);
    KeysConcat(SetPrices(rows, st.updates), st.inserts);
  }

  /** `save_price` stages a row for insertion exactly when the transaction sees none with its key. */
  lemma SaveInserts(rows: seq<Row>, st: Staged, row: Row)
    ensures Keys(Save(rows, st, row).inserts)
            == Keys(st.inserts) + (if row.Id() in Keys(rows) then {} else {row.Id()})
  {
    KeysSeen(rows, st);
    SetPricesKeepsKeys(st.inserts, map[row.Id() := row.price]);
    KeysConcat(st.inserts, [row]);
    assert Keys([row]) == {row.Id()};
  }
}
