/** The shared database, a session with staged writes, and the repository the collector writes through. */
module PriceStore {
  import opened Collections
  import opened PriceTable
  import opened Queries
  import opened Integers

  class Database {
    var rows: seq<Row>

    ghost predicate Valid() reads this { UniqueKeys(rows) }

    ghost function Table(): Table reads this { TableOf(rows) }

    constructor ()
      ensures Valid() && rows == []
    {
      rows := [];
    }
  }

  /** `SyncSessionLocal()`: autoflush makes every select see the rows staged before it. */
  class Session {
    const db: Database
    var staged: Staged

    ghost predicate Valid() reads this, db { Fits(db.rows, staged) }

    /** The rows a select in this transaction sees. */
    function Seen(): seq<Row> reads this, db { Flushed(db.rows, staged) }

    ghost function View(): Table reads this, db { TableOf(Flushed(db.rows, staged)) }

    constructor (db: Database)
      requires db.Valid()
      ensures this.db == db && Valid() && staged == NOTHING_STAGED && View() == db.Table()
    {
      this.db := db;
      staged := NOTHING_STAGED;
      new;
      NothingStaged(db.rows);
    }

    /** Installs the staged writes all together, or none of them when the database refuses. */
    method Commit(accepted: bool) returns (ok: bool)
      requires Valid()
      modifies this, db
      ensures Valid() && ok == accepted
      ensures ok ==> db.Table() == old(View()) && staged == NOTHING_STAGED
      ensures !ok ==> db.rows == old(db.rows) && staged == old(staged)
    {
      ok := accepted && !Conflicts(db.rows, staged);
      if ok {
        FlushedTable(db.rows, staged);
        db.rows := Flushed(db.rows, staged);
        staged := NOTHING_STAGED;
        NothingStaged(db.rows);
      }
    }

    method Rollback()
      requires Valid()
      modifies this
      ensures Valid() && staged == NOTHING_STAGED && View() == db.Table()
    {
      staged := NOTHING_STAGED;
      NothingStaged(db.rows);
    }
  }

  lemma NothingStaged(rows: seq<Row>)
    ensures Flushed(rows, NOTHING_STAGED) == rows
  {}

  class SyncPriceRepository {
    const session: Session

    constructor (session: Session)
      ensures this.session == session
    {
      this.session := session;
    }

    /** An upsert of what the transaction sees; nothing is committed. */
    method SavePrice(ticker: Ticker, price: Price, timestamp: int)
      requires session.Valid()
      modifies session
      ensures session.Valid()
      ensures session.View() == old(session.View())[Key(ticker, timestamp) := price]
    {
      SaveIsUpsert(session.db.rows, session.staged, Row(ticker, timestamp, price));
      session.staged := Save(session.db.rows, session.staged, Row(ticker, timestamp, price));
    }

    /** The greatest timestamp of the ticker in what the transaction sees. */
    method LatestTimestamp(ticker: Ticker) returns (latest: Option<int>)
      ensures var s := Stamps(session.Seen(), ticker);
        && (latest.None? <==> s == {})
        && (latest.Some? ==> latest.value in s && forall x :: x in s ==> x <= latest.value)
    {
      LatestIsGreatestStamp(session.Seen(), ticker);
      latest := GetLatestTimestamp(session.Seen(), ticker);
    }

    /** All timestamps of the ticker in the range, each once and in increasing order. */
    method TimestampsInRange(ticker: Ticker, from: int, to: int) returns (timestamps: seq<int>)
      requires session.Valid()
      ensures Increasing(timestamps)
      ensures Elements(timestamps) == Between(Stamps(session.Seen(), ticker), from, to)
    {
      FlushedTable(session.db.rows, session.staged);
      RangeScanIncreases(session.Seen(), ticker, from, to);
      RangeScanHoldsRange(session.Seen(), ticker, from, to);
      timestamps := GetTimestampsInRange(session.Seen(), ticker, from, to);
    }
  }
}
