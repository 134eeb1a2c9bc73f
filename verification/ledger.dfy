/** The vault's access-event ledger: the `vault_events` table and the two
    operations that shape it, creating the table if absent and appending one
    event. The table is an immutable sequence of records; the clock, the
    storage outcome and the table's existence are explicit inputs. */
module Ledger {

  datatype Option<+T> = None | Some(value: T)

  /** The event types the gate controller writes. The column is free text,
      so any other string is a legal (if never written) event type. */
  const OPENED: string := "opened"
  const SECURED: string := "secured"

  /** One row of `vault_events`. `timestamp` is the wall-clock reading taken
      when the row was inserted, as an integer number of seconds. */
  datatype Event = Event(
    id: int,
    eventType: string,
    timestamp: int,
    details: string,
    usageIntent: string
  )

  /** The database file: either the table does not exist yet, or it holds
      its rows in insertion order. */
  datatype Database = NoTable | Table(events: seq<Event>)

  /** Ids are positive and strictly increasing in insertion order. */
  ghost predicate ValidLedger(events: seq<Event>) {
    && (forall i :: 0 <= i < |events| ==> events[i].id > 0)
    && (forall i, j :: 0 <= i < j < |events| ==> events[i].id < events[j].id)
  }

  ghost predicate ValidDatabase(db: Database) {
    db.Table? ==> ValidLedger(db.events)
  }

  /** The largest id in the table, 0 when it is empty. */
  function MaxId(events: seq<Event>): (m: int)
    ensures m >= 0
    ensures forall i :: 0 <= i < |events| ==> events[i].id <= m
    ensures m == 0 || exists i :: 0 <= i < |events| && events[i].id == m
  {
    if |events| == 0 then 0
    else
      var m0 := MaxId(events[..|events| - 1]);
      var last := events[|events| - 1].id;
      if last > m0 then last else m0
  }

  /** The id AUTOINCREMENT hands out next: one more than the largest id
      ever used, which is the largest present id since rows are never
      deleted. */
  function NextId(events: seq<Event>): (n: int)
    ensures n >= 1
    ensures forall i :: 0 <= i < |events| ==> events[i].id < n
  {
    MaxId(events) + 1
  }

  /** On a valid ledger the next id is the last id plus one. */
  lemma NextIdFollowsLast(events: seq<Event>)
    requires ValidLedger(events)
    requires |events| > 0
    ensures NextId(events) == events[|events| - 1].id + 1
  {
  }

  /** `CREATE TABLE IF NOT EXISTS vault_events`: when the file can be opened
      the table exists afterwards and existing rows are untouched; otherwise
      nothing changes and false is reported. */
  function InitDatabase(db: Database, fileOk: bool): (r: (Database, bool))
    ensures r.1 == fileOk
    ensures !fileOk ==> r.0 == db
    ensures fileOk ==> r.0.Table?
    ensures fileOk && db.Table? ==> r.0 == db
    ensures fileOk && db.NoTable? ==> r.0.events == []
  {
    if !fileOk then (db, false)
    else match db
      case NoTable => (Table([]), true)
      case Table(_) => (db, true)
  }

  /** Initialising twice is the same as initialising once. */
  lemma InitDatabaseIdempotent(db: Database)
    ensures InitDatabase(InitDatabase(db, true).0, true) == InitDatabase(db, true)
    ensures db.Table? ==> InitDatabase(db, true).0.events == db.events
  {
  }

  /** The row an INSERT would add at time `now`. */
  function NewEvent(events: seq<Event>, eventType: string, now: int,
                    details: string, usageIntent: string): Event
  {
    Event(NextId(events), eventType, now, details, usageIntent)
  }

  /** `record_vault_event`: insert one row; any storage failure (the write
      failing, or the table missing) is swallowed and leaves the database
      as it was. Nothing is returned to the caller either way. */
  function RecordVaultEvent(db: Database, eventType: string, details: string,
                            usageIntent: string, now: int, writeOk: bool): (r: Database)
    ensures r.NoTable? <==> db.NoTable?
    ensures !writeOk || db.NoTable? ==> r == db
    ensures writeOk && db.Table? ==>
      && |r.events| == |db.events| + 1
      && r.events[..|db.events|] == db.events
      && r.events[|db.events|].eventType == eventType
      && r.events[|db.events|].details == details
      && r.events[|db.events|].usageIntent == usageIntent
      && r.events[|db.events|].timestamp == now
      && (forall i :: 0 <= i < |db.events| ==> db.events[i].id < r.events[|db.events|].id)
  {
    if writeOk && db.Table? then
      Table(db.events + [NewEvent(db.events, eventType, now, details, usageIntent)])
    else db
  }

  /** Appending keeps ids positive and strictly increasing. */
  lemma RecordPreservesValid(db: Database, eventType: string, details: string,
                             usageIntent: string, now: int, writeOk: bool)
    requires ValidDatabase(db)
    ensures ValidDatabase(RecordVaultEvent(db, eventType, details, usageIntent, now, writeOk))
  {
  }

  /** Ids are dense: the i-th row carries id i + 1. */
  ghost predicate DenseIds(events: seq<Event>) {
    forall i :: 0 <= i < |events| ==> events[i].id == i + 1
  }

  /** A table created empty and only ever appended to has ids 1, 2, 3, ...
      with no gaps or repeats. */
  lemma RecordPreservesDense(db: Database, eventType: string, details: string,
                             usageIntent: string, now: int, writeOk: bool)
    requires db.Table? && DenseIds(db.events)
    ensures DenseIds(RecordVaultEvent(db, eventType, details, usageIntent, now, writeOk).events)
  {
  }
}
