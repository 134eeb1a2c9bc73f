# Phone vault: access-event ledger, statistics and gate controller

A Dafny model of the core of the phone-vault guardian server. The vault is a
physically locked box whose relay is switched by publishing `ON`/`OFF` to an
MQTT topic. Every successful switch is logged in the `vault_events` table,
unless the write fails.
A history check reads that table back as two statistics: the last time the
vault was opened and how many times it was opened this week. These feed a
usage classification.

The model is functional:

- the table is an immutable `seq<Event>`, or `NoTable` before it is created;
- every I/O outcome is an explicit input: the clock reading, whether the
  database file opens, whether a write or read succeeds, and what the relay
  publisher returned;
- each tool call maps (database, inputs) to (new database, outcome).

Modules, one per component:

- `Ledger` (`ledger.dfy`): the event record, the table, `init_database` and
  `record_vault_event`, and AUTOINCREMENT id assignment.
- `Stats` (`stats.dfy`): the two queries of `get_last_access_stats` as
  reference functions, single-pass scans showing they are computable, and the
  degraded result.
- `Report` (`report.dfy`): usage classification, the elapsed-time
  decomposition, and `check_phone_access_history`.
- `Gate` (`gate.dfy`): `unlock_phone_vault`, `secure_phone_vault`, and runs
  of arbitrary call sequences.

Behaviour of the code that the model reproduces:

- A write that fails after a successful publish is swallowed
  (server.py:49-50). The unlock or secure call still returns its success
  message, and nothing is surfaced to the caller.
- The weekly count uses the SQL comparison `timestamp > cutoff` (server.py:69); the
  integer cutoff is read as described under "Left out".
- The last access is ordered by `timestamp` (server.py:61). Timestamps are
  not assumed to be monotonic, because nothing in the code enforces that.

## Model

| member | source | states |
|---|---|---|
| Ledger.NextId | server.py:24 | the id AUTOINCREMENT assigns is positive and greater than every id already in the table |
| Ledger.NextIdFollowsLast | server.py:24 | on a table with increasing ids, the next id is the last id plus one |
| Ledger.InitDatabase | server.py:17-36 | when the file opens, the table exists afterwards; an existing table and its rows are untouched; a fresh table is empty; when the file cannot be opened, nothing changes and false is returned |
| Ledger.InitDatabaseIdempotent | server.py:22-30 | initialising twice equals initialising once and preserves the existing events |
| Ledger.RecordVaultEvent | server.py:38-50 | a successful insert adds exactly one row at the end, with the given type, details, intent and timestamp and an id above all existing ids, and leaves earlier rows unchanged; a write failure or a missing table leaves the database as it was |
| Ledger.RecordPreservesValid | server.py:24 | appending keeps ids positive and strictly increasing in insertion order |
| Ledger.RecordPreservesDense | server.py:24 | if a table's ids are 1..n with no gaps, they still are after an append |
| Stats.LastOpened | server.py:58-64 | the result is None exactly when there is no `opened` row; otherwise it is an `opened` row of the table whose timestamp is at least every other `opened` row's |
| Stats.QueryLastOpened | server.py:58-64 | the last-opened reference answer is computable in one pass over the rows (the database performs this step in the source) |
| Stats.LastOpenedIgnoresOthers | server.py:60 | removing every non-`opened` row (such as `secured`) does not change the last access |
| Stats.LastOpenedAfterAppend | server.py:58-64 | an appended `opened` event strictly newer than every earlier `opened` event becomes the last access, whatever the tie-break |
| Stats.CountOpenedAfter | server.py:66-71 | the count is at most the number of rows, and is 0 exactly when no `opened` row is strictly after the cutoff (in particular on an empty table) |
| Stats.CountIsMatchingRows | server.py:66-71 | the count equals the number of row positions holding an `opened` event strictly after the cutoff |
| Stats.QueryCountOpenedAfter | server.py:66-71 | the reference count is computable in one pass over the rows (the database performs this step in the source) |
| Stats.CountIgnoresOthers | server.py:68 | removing every non-`opened` row does not change the count |
| Stats.CountAppend | server.py:66-71 | the count over two consecutive stretches of the ledger is the sum of their counts |
| Stats.CountAntitone | server.py:69 | a later cutoff never gives a larger count |
| Stats.GetLastAccessStats | server.py:52-77 | on a readable table, the last access is the timestamp and intent of a most-recent `opened` row (None when there is none), and the weekly count is the number of matching rows; an unreadable file or a missing table gives (None, 0) |
| Report.Classify | server.py:100 | the label is EXCESSIVE iff the count is at least 11, MODERATE iff it is 6..10, and MINIMAL iff it is at most 5 |
| Report.ClassifyMonotone | server.py:100 | a larger weekly count never gives a milder label |
| Report.TruncDiv | server.py:91-92 | Python's int() of a quotient truncates toward zero: for non-negative input it is the floor, for negative input the ceiling |
| Report.Decompose | server.py:91-92 | the reported hour of day is always in 0..23; for non-negative elapsed seconds, hours are the whole hours elapsed and days the whole days within those hours |
| Report.DecomposeRecomposes | server.py:91-97 | for non-negative elapsed seconds, days*24 + hour-of-day equals the whole hours elapsed, and days are the whole days elapsed |
| Report.BuildReport | server.py:88-102 | without a last access the report is "remains unopened", whatever the count; otherwise it carries the last access's timestamp and intent, the weekly count, an hour of day in 0..23, and the label for the count; when the access is not in the future, the elapsed seconds lie within the reported days plus the reported hour |
| Report.CheckPhoneAccessHistory | server.py:80-104 | a failed read, a missing table, or a table with no `opened` rows gives the unopened report; a readable table with an `opened` row gives an access report carrying the timestamp and intent of a most-recent `opened` row, the number of matching rows as the weekly count, and the label for that count; the reported hour of day is in 0..23, and when the access is not in the future the elapsed seconds lie within the reported days plus the reported hour |
| Gate.UnlockPhoneVault | server.py:107-133 | a failed publish leaves the ledger unchanged and returns the publisher's stderr, or the launch error message; a successful publish returns the unlocked message in every case; with a successful write it also appends exactly one `opened` row carrying the justification and intended use, and with a failed write the ledger is unchanged |
| Gate.SecurePhoneVault | server.py:136-153 | the same as unlock, except that a successful write appends one `secured` row with empty details and empty intent |
| Gate.RunWithoutPublishLeavesLedger | server.py:121-153 | any sequence of history checks and gate calls whose publish failed leaves the database unchanged |
| Gate.RunIsAppendOnly | server.py:38-50 | any sequence of calls keeps the table and every existing row in place, and adds at most one row per call |
| Gate.RunPreservesValid | server.py:24 | any sequence of calls keeps ids positive and strictly increasing |
| Gate.RunCountsOpenings | server.py:122-131 | the number of `opened` rows grows by exactly the number of unlock calls whose publish and write both succeeded |
| Gate.EndToEndScenario | server.py:80-131 | on an empty table the history is "unopened"; after one successful unlock the ledger is exactly that `opened` event with id 1; the history then reports one access this week, classified MINIMAL |

## Left out

- SQLite connections, SQL text, commit and close: the table is a sequence. Read and write failures are boolean inputs. The file failing to open is an input to `InitDatabase`.
- The `datetime.now()` clock: every timestamp and "now" is an integer number of seconds, supplied by the caller.
- The weekly cutoff `date('now', '-7 days')` is an integer parameter. In the source it truncates to a UTC date and is compared as text against a local-time timestamp, so the window is not exactly seven days. The model makes no claim about the window's length. The integer `cutoff` stands for one second before the cutoff date's midnight: the stored text `YYYY-MM-DD HH:MM:SS...` compares greater than the bare date text `YYYY-MM-DD` for every row stamped on that date, including exactly at midnight, and the two texts are never equal, so strict and inclusive comparison do not differ in the source.
- Ties under `ORDER BY timestamp DESC LIMIT 1`: SQLite does not order tied rows. `Stats.LastOpened` promises only that the row it returns has maximal timestamp; its definition happens to pick the latest inserted.
- Timestamp text format and `strptime` parsing (server.py:90). The source stores the timestamp text and parses it back. Parse failures, which the outer handler turns into an error report, are not modelled. Sub-second precision and the float in `total_seconds()` are not modelled either: elapsed time is whole seconds.
- Report.Decompose: states the recomposition only for non-negative elapsed time. Negative elapsed time occurs when the last access is timestamped in the future, for example after a clock change. The truncating behaviour in that case is defined but not characterised beyond the hour-of-day bound.
- The `mosquitto_pub` subprocess (server.py:122-127, 142-147) is the `ActuatorResult` input: exit 0, non-zero exit with stderr, or failure to launch.
- Exact report and confirmation strings: a report is the `HistoryReport` value, and a confirmation is the `GateOutcome` value.
- The catch-all `except Exception` around the report (server.py:103-104): with integer timestamps nothing in the modelled report path can raise.
- `get_phone_discipline_questions` and `generate_phone_usage_contract` (server.py:155-231): random choice and text templates with no state.
- FastMCP tool registration, stderr logging, and the start-up call of `init_database` (server.py:12, 233-246).
- Concurrency: the source serves one call at a time. `Gate.Run` models calls served in sequence.
