/** The gate controller: unlocking and securing the vault. Each call first
    publishes to the relay actuator; only when that succeeds does it append
    an event to the ledger, and a failed append is swallowed so the success
    message is still returned. Neither call checks the current lock state. */
module Gate {
  import opened Ledger
  import opened Stats
  import opened Report

  /** What running the relay publisher produced: it ran and exited 0, it ran
      and exited non-zero (with its standard error), or it could not be run
      at all (with the exception's message). */
  datatype ActuatorResult =
    | Published
    | CommandFailed(stderr: string)
    | LaunchFailed(message: string)

  /** The caller-visible result of an unlock or secure call. */
  datatype GateOutcome =
    | Unlocked(intendedUse: string)
    | Secured
    | UnlockError(stderr: string)
    | SecureError(stderr: string)
    | Unexpected(message: string)

  datatype GateResult = GateResult(db: Database, outcome: GateOutcome)

  /** `unlock_phone_vault`. */
  function UnlockPhoneVault(db: Database, justification: string, intendedUse: string,
                            actuator: ActuatorResult, writeOk: bool, now: int): (r: GateResult)
    ensures !actuator.Published? ==> r.db == db
    ensures actuator.CommandFailed? ==> r.outcome == UnlockError(actuator.stderr)
    ensures actuator.LaunchFailed? ==> r.outcome == Unexpected(actuator.message)
    ensures actuator.Published? ==> r.outcome == Unlocked(intendedUse)
    ensures actuator.Published? && (!writeOk || db.NoTable?) ==> r.db == db
    ensures actuator.Published? && writeOk && db.Table? ==>
      && r.db.Table?
      && |r.db.events| == |db.events| + 1
      && r.db.events[..|db.events|] == db.events
      && r.db.events[|db.events|].eventType == OPENED
      && r.db.events[|db.events|].details == justification
      && r.db.events[|db.events|].usageIntent == intendedUse
      && r.db.events[|db.events|].timestamp == now
  {
    match actuator
    case Published =>
      GateResult(RecordVaultEvent(db, OPENED, justification, intendedUse, now, writeOk),
                 Unlocked(intendedUse))
    case CommandFailed(stderr) => GateResult(db, UnlockError(stderr))
    case LaunchFailed(message) => GateResult(db, Unexpected(message))
  }

  /** `secure_phone_vault`: the `secured` event carries empty details and
      intent, the defaults of `record_vault_event`. */
  function SecurePhoneVault(db: Database, actuator: ActuatorResult, writeOk: bool, now: int): (r: GateResult)
    ensures !actuator.Published? ==> r.db == db
    ensures actuator.CommandFailed? ==> r.outcome == SecureError(actuator.stderr)
    ensures actuator.LaunchFailed? ==> r.outcome == Unexpected(actuator.message)
    ensures actuator.Published? ==> r.outcome == Secured
    ensures actuator.Published? && (!writeOk || db.NoTable?) ==> r.db == db
    ensures actuator.Published? && writeOk && db.Table? ==>
      && r.db.Table?
      && |r.db.events| == |db.events| + 1
      && r.db.events[..|db.events|] == db.events
      && r.db.events[|db.events|].eventType == SECURED
      && r.db.events[|db.events|].details == ""
      && r.db.events[|db.events|].usageIntent == ""
      && r.db.events[|db.events|].timestamp == now
  {
    match actuator
    case Published => GateResult(RecordVaultEvent(db, SECURED, "", "", now, writeOk), Secured)
    case CommandFailed(stderr) => GateResult(db, SecureError(stderr))
    case LaunchFailed(message) => GateResult(db, Unexpected(message))
  }

  /** One call on the tool surface, with the outcomes of its I/O. */
  datatype Request =
    | UnlockRequest(justification: string, intendedUse: string,
                    actuator: ActuatorResult, writeOk: bool, now: int)
    | SecureRequest(actuator: ActuatorResult, writeOk: bool, now: int)
    | HistoryRequest(readOk: bool, cutoff: int, now: int)

  function Step(db: Database, req: Request): Database {
    match req
    case UnlockRequest(j, u, a, w, t) => UnlockPhoneVault(db, j, u, a, w, t).db
    case SecureRequest(a, w, t) => SecurePhoneVault(db, a, w, t).db
    case HistoryRequest(_, _, _) => db
  }

  /** The database after serving a sequence of calls in order. */
  function Run(db: Database, reqs: seq<Request>): Database
  {
    if |reqs| == 0 then db else Step(Run(db, reqs[..|reqs| - 1]), reqs[|reqs| - 1])
  }

  /** Whether a call appends an `opened` event (given an existing table). */
  predicate RecordsOpened(req: Request) {
    req.UnlockRequest? && req.actuator.Published? && req.writeOk
  }

  function RecordedOpenings(reqs: seq<Request>): nat {
    if |reqs| == 0 then 0
    else RecordedOpenings(reqs[..|reqs| - 1]) + (if RecordsOpened(reqs[|reqs| - 1]) then 1 else 0)
  }

  /** The ledger is append-only: any sequence of calls keeps the table,
      keeps every existing row in place, and adds at most one row per call. */
  lemma {:induction false} RunIsAppendOnly(db: Database, reqs: seq<Request>)
    requires db.Table?
    ensures Run(db, reqs).Table?
    ensures |db.events| <= |Run(db, reqs).events| <= |db.events| + |reqs|
    ensures Run(db, reqs).events[..|db.events|] == db.events
  {
    if |reqs| > 0 {
      var prev := Run(db, reqs[..|reqs| - 1]);
      RunIsAppendOnly(db, reqs[..|reqs| - 1]);
      var next := Run(db, reqs);
      assert next.events[..|prev.events|] == prev.events;
      assert next.events[..|db.events|] == prev.events[..|db.events|];
    }
  }

  /** Ids stay positive and strictly increasing across any sequence of calls. */
  lemma {:induction false} RunPreservesValid(db: Database, reqs: seq<Request>)
    requires ValidDatabase(db)
    ensures ValidDatabase(Run(db, reqs))
  {
    if |reqs| > 0 {
      var prev := Run(db, reqs[..|reqs| - 1]);
      RunPreservesValid(db, reqs[..|reqs| - 1]);
      match reqs[|reqs| - 1]
      case UnlockRequest(j, u, a, w, t) =>
        if a.Published? { RecordPreservesValid(prev, OPENED, j, u, t, w); }
      case SecureRequest(a, w, t) =>
        if a.Published? { RecordPreservesValid(prev, SECURED, "", "", t, w); }
      case HistoryRequest(_, _, _) =>
    }
  }

  /** The audit trail is exact: the number of `opened` rows grows by exactly
      the number of unlock calls whose publish and write both succeeded. */
  lemma {:induction false} RunCountsOpenings(db: Database, reqs: seq<Request>)
    requires db.Table?
    ensures Run(db, reqs).Table?
    ensures |OpenedOnly(Run(db, reqs).events)| == |OpenedOnly(db.events)| + RecordedOpenings(reqs)
  {
    RunIsAppendOnly(db, reqs);
    if |reqs| > 0 {
      var prev := Run(db, reqs[..|reqs| - 1]);
      RunCountsOpenings(db, reqs[..|reqs| - 1]);
      var req := reqs[|reqs| - 1];
      match req
      case UnlockRequest(j, u, a, w, t) =>
        if a.Published? && w {
          OpenedOnlyAppend(prev.events, NewEvent(prev.events, OPENED, t, j, u));
        }
      case SecureRequest(a, w, t) =>
        if a.Published? && w {
          OpenedOnlyAppend(prev.events, NewEvent(prev.events, SECURED, t, "", ""));
        }
      case HistoryRequest(_, _, _) =>
    }
  }

  /** Whether a call leaves the ledger alone whatever the storage does:
      a history check, or a gate call whose publish failed. */
  predicate NeverWrites(req: Request) {
    req.HistoryRequest? || !req.actuator.Published?
  }

  /** A run made only of failed publishes and history checks leaves the
      database exactly as it was. */
  lemma {:induction false} RunWithoutPublishLeavesLedger(db: Database, reqs: seq<Request>)
    requires forall i :: 0 <= i < |reqs| ==> NeverWrites(reqs[i])
    ensures Run(db, reqs) == db
  {
    if |reqs| > 0 {
      RunWithoutPublishLeavesLedger(db, reqs[..|reqs| - 1]);
      assert NeverWrites(reqs[|reqs| - 1]);
    }
  }

  /** Starting from an empty table: the report says the vault is unopened;
      after one successful unlock the ledger holds exactly that `opened`
      event, and the report shows one access this week, classified minimal. */
  lemma EndToEndScenario(t: int, cutoff: int, now: int)
    requires cutoff < t <= now
    ensures CheckPhoneAccessHistory(Table([]), true, cutoff, now) == Unopened
    ensures
      var r := UnlockPhoneVault(Table([]), "fix alarm", "set morning alarm", Published, true, t);
      && r.outcome == Unlocked("set morning alarm")
      && r.db == Table([Event(1, OPENED, t, "fix alarm", "set morning alarm")])
      && CheckPhoneAccessHistory(r.db, true, cutoff, now).Accessed?
      && CheckPhoneAccessHistory(r.db, true, cutoff, now).weeklyAccess == 1
      && CheckPhoneAccessHistory(r.db, true, cutoff, now).usage == Minimal
  {
  }
}
