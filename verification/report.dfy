/** The access-history report: the three-way usage classification of the
    weekly count and the days/hours decomposition of the time since the last
    access. Text formatting is reduced to which report is produced and the
    numbers it carries. */
module Report {
  import opened Ledger
  import opened Stats

  datatype Usage = Minimal | Moderate | Excessive

  /** Position of a usage level on the scale MINIMAL < MODERATE < EXCESSIVE. */
  function Rank(u: Usage): nat {
    match u
    case Minimal => 0
    case Moderate => 1
    case Excessive => 2
  }

  /** The usage label for a weekly count: above 10 is excessive, above 5 is
      moderate, anything else minimal. */
  function Classify(weeklyAccess: int): (u: Usage)
    ensures u == Excessive <==> weeklyAccess >= 11
    ensures u == Moderate <==> 6 <= weeklyAccess <= 10
    ensures u == Minimal <==> weeklyAccess <= 5
  {
    if weeklyAccess > 10 then Excessive
    else if weeklyAccess > 5 then Moderate
    else Minimal
  }

  /** More accesses never give a milder label. */
  lemma ClassifyMonotone(a: int, b: int)
    requires a <= b
    ensures Rank(Classify(a)) <= Rank(Classify(b))
  {
  }

  /** Python's `int()` of a true quotient: division truncating toward zero. */
  function TruncDiv(a: int, b: int): (q: int)
    requires b > 0
    ensures a >= 0 ==> q * b <= a < (q + 1) * b
    ensures a < 0 ==> (q - 1) * b < a <= q * b
  {
    if a >= 0 then a / b else -((-a) / b)
  }

  /** Days and hour-of-day reported for an elapsed time in seconds:
      `hours = int(s / 3600)`, `days = int(hours / 24)`, hour `hours % 24`
      (Python's `%`, which for the divisor 24 agrees with Dafny's). */
  datatype Elapsed = Elapsed(hours: int, days: int, hourOfDay: int)

  function Decompose(seconds: int): (e: Elapsed)
    ensures 0 <= e.hourOfDay < 24
    ensures seconds >= 0 ==> e.hours * 3600 <= seconds < (e.hours + 1) * 3600
    ensures seconds >= 0 ==> e.days * 24 <= e.hours < (e.days + 1) * 24
  {
    var hours := TruncDiv(seconds, 3600);
    Elapsed(hours, TruncDiv(hours, 24), hours % 24)
  }

  /** For a non-negative elapsed time the reported days and hour of day
      recompose to the whole hours elapsed, and the days are the whole days
      elapsed. */
  lemma DecomposeRecomposes(seconds: int)
    ensures seconds >= 0 ==>
      var e := Decompose(seconds);
      && e.days >= 0
      && e.days * 24 + e.hourOfDay == e.hours
      && e.days * 86400 <= seconds < (e.days + 1) * 86400
  {
  }

  /** The report `check_phone_access_history` produces. */
  datatype HistoryReport =
    | Unopened
    | Accessed(timestamp: int, usageIntent: string, days: int, hours: int,
               weeklyAccess: nat, usage: Usage)

  /** Builds the report from the statistics at time `now`. Without a last
      `opened` event the report is the "vault remains unopened" message,
      whatever the count. */
  function BuildReport(stats: AccessStats, now: int): (r: HistoryReport)
    ensures stats.lastOpened.None? <==> r.Unopened?
    ensures r.Accessed? ==>
      && r.timestamp == stats.lastOpened.value.timestamp
      && r.usageIntent == stats.lastOpened.value.usageIntent
      && r.weeklyAccess == stats.weeklyAccess
      && 0 <= r.hours < 24
      && (now >= r.timestamp ==>
            && r.days * 86400 + r.hours * 3600 <= now - r.timestamp
            && now - r.timestamp < r.days * 86400 + (r.hours + 1) * 3600)
      && (r.usage == Excessive <==> stats.weeklyAccess > 10)
      && (r.usage == Minimal <==> stats.weeklyAccess <= 5)
  {
    match stats.lastOpened
    case None => Unopened
    case Some(last) =>
      var e := Decompose(now - last.timestamp);
      DecomposeRecomposes(now - last.timestamp);
      Accessed(last.timestamp, last.usageIntent, e.days, e.hourOfDay,
               stats.weeklyAccess, Classify(stats.weeklyAccess))
  }

  /** `check_phone_access_history`: read the statistics, then build the
      report. The database is only read. */
  function CheckPhoneAccessHistory(db: Database, readOk: bool, cutoff: int, now: int): (r: HistoryReport)
    ensures !readOk || db.NoTable? ==> r == Unopened
    ensures db.Table? && (forall i :: 0 <= i < |db.events| ==> !IsOpened(db.events[i])) ==> r == Unopened
    ensures readOk && db.Table? && (exists i :: 0 <= i < |db.events| && IsOpened(db.events[i])) ==>
              r.Accessed?
    ensures r.Accessed? ==>
      exists i :: 0 <= i < |db.events| && IsOpened(db.events[i])
                  && db.events[i].timestamp == r.timestamp
                  && db.events[i].usageIntent == r.usageIntent
    ensures r.Accessed? ==>
      forall i :: 0 <= i < |db.events| && IsOpened(db.events[i]) ==> db.events[i].timestamp <= r.timestamp
    ensures r.Accessed? ==> r.weeklyAccess == |MatchingRows(db.events, cutoff)|
    ensures r.Accessed? ==> r.usage == Classify(r.weeklyAccess)
    ensures r.Accessed? ==> 0 <= r.hours < 24
    ensures r.Accessed? && now >= r.timestamp ==>
      && r.days * 86400 + r.hours * 3600 <= now - r.timestamp
      && now - r.timestamp < r.days * 86400 + (r.hours + 1) * 3600
  {
    BuildReport(GetLastAccessStats(db, readOk, cutoff), now)
  }
}
