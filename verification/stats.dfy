/** The statistics read from the ledger: the most recent `opened` event and
    the number of `opened` events after a cutoff. Both are read-only views;
    a failed read degrades to "no last access, count 0". */
module Stats {
  import opened Ledger

  predicate IsOpened(e: Event) {
    e.eventType == OPENED
  }

  predicate IsOpenedAfter(e: Event, cutoff: int) {
    IsOpened(e) && e.timestamp > cutoff
  }

  /** The `opened` event with the greatest timestamp (`ORDER BY timestamp
      DESC LIMIT 1`). SQLite leaves ties unordered; this definition takes the
      latest-inserted of the tied rows, and the contract promises only a
      maximal one. */
  function LastOpened(events: seq<Event>): (r: Option<Event>)
    ensures r.None? <==> forall i :: 0 <= i < |events| ==> !IsOpened(events[i])
    ensures r.Some? ==> IsOpened(r.value)
    ensures r.Some? ==> exists i :: 0 <= i < |events| && events[i] == r.value
    ensures r.Some? ==> forall i :: 0 <= i < |events| && IsOpened(events[i]) ==>
                          events[i].timestamp <= r.value.timestamp
  {
    if |events| == 0 then None
    else
      var rest := LastOpened(events[..|events| - 1]);
      var last := events[|events| - 1];
      if !IsOpened(last) then rest
      else if rest.None? || last.timestamp >= rest.value.timestamp then Some(last)
      else rest
  }

  /** The number of `opened` events strictly after `cutoff`
      (`COUNT(*) ... WHERE event_type = 'opened' AND timestamp > cutoff`). */
  function CountOpenedAfter(events: seq<Event>, cutoff: int): (n: nat)
    ensures n <= |events|
    ensures n == 0 <==> forall i :: 0 <= i < |events| ==> !IsOpenedAfter(events[i], cutoff)
  {
    if |events| == 0 then 0
    else
      CountOpenedAfter(events[..|events| - 1], cutoff)
        + (if IsOpenedAfter(events[|events| - 1], cutoff) then 1 else 0)
  }

  /** Independent reference for the count: the positions whose row matches. */
  ghost function MatchingRows(events: seq<Event>, cutoff: int): set<int> {
    set i | 0 <= i < |events| && IsOpenedAfter(events[i], cutoff)
  }

  /** Matching rows of a non-empty ledger: those of its prefix, plus the
      last position when the last row matches. */
  lemma MatchingRowsSnoc(events: seq<Event>, cutoff: int)
    requires |events| > 0
    ensures MatchingRows(events, cutoff) ==
      MatchingRows(events[..|events| - 1], cutoff)
        + (if IsOpenedAfter(events[|events| - 1], cutoff) then {|events| - 1} else {})
  {
  }

  /** The count is exactly the number of matching rows. */
  lemma {:induction false} CountIsMatchingRows(events: seq<Event>, cutoff: int)
    ensures CountOpenedAfter(events, cutoff) == |MatchingRows(events, cutoff)|
  {
    if |events| > 0 {
      var k := |events| - 1;
      CountIsMatchingRows(events[..k], cutoff);
      MatchingRowsSnoc(events, cutoff);
      assert k !in MatchingRows(events[..k], cutoff);
    }
  }

  /** The `opened` rows of the ledger, in order. */
  function OpenedOnly(events: seq<Event>): (r: seq<Event>)
    ensures |r| <= |events|
    ensures forall i :: 0 <= i < |r| ==> IsOpened(r[i])
  {
    if |events| == 0 then []
    else
      var rest := OpenedOnly(events[..|events| - 1]);
      if IsOpened(events[|events| - 1]) then rest + [events[|events| - 1]] else rest
  }

  /** The `opened` rows after an append: the earlier ones, then the new
      row if it is `opened`. */
  lemma OpenedOnlyAppend(events: seq<Event>, e: Event)
    ensures OpenedOnly(events + [e]) == OpenedOnly(events) + (if IsOpened(e) then [e] else [])
  {
  }

  /** Events other than `opened` (such as `secured`) never affect the last
      access: dropping them leaves the answer unchanged. */
  lemma {:induction false} LastOpenedIgnoresOthers(events: seq<Event>)
    ensures LastOpened(OpenedOnly(events)) == LastOpened(events)
  {
    if |events| > 0 {
      var k := |events| - 1;
      LastOpenedIgnoresOthers(events[..k]);
      var rest := OpenedOnly(events[..k]);
      if IsOpened(events[k]) {
        assert (rest + [events[k]])[..|rest|] == rest;
      }
    }
  }

  /** Events other than `opened` never affect the count either. */
  lemma {:induction false} CountIgnoresOthers(events: seq<Event>, cutoff: int)
    ensures CountOpenedAfter(OpenedOnly(events), cutoff) == CountOpenedAfter(events, cutoff)
  {
    if |events| > 0 {
      var k := |events| - 1;
      CountIgnoresOthers(events[..k], cutoff);
      var rest := OpenedOnly(events[..k]);
      if IsOpened(events[k]) {
        assert (rest + [events[k]])[..|rest|] == rest;
      }
    }
  }

  /** The count over two consecutive stretches of the ledger is the sum of
      the counts over each. */
  lemma {:induction false} CountAppend(a: seq<Event>, b: seq<Event>, cutoff: int)
    ensures CountOpenedAfter(a + b, cutoff) == CountOpenedAfter(a, cutoff) + CountOpenedAfter(b, cutoff)
  {
    if |b| > 0 {
      var k := |b| - 1;
      CountAppend(a, b[..k], cutoff);
      assert (a + b)[..|a + b| - 1] == a + b[..k];
    } else {
      assert a + b == a;
    }
  }

  /** A later cutoff never counts more events. */
  lemma {:induction false} CountAntitone(events: seq<Event>, early: int, late: int)
    requires early <= late
    ensures CountOpenedAfter(events, late) <= CountOpenedAfter(events, early)
  {
    if |events| > 0 {
      CountAntitone(events[..|events| - 1], early, late);
    }
  }

  /** Appending an `opened` event strictly newer than every earlier
      `opened` event makes it the last access. The strict comparison keeps
      this independent of how ties are broken. */
  lemma LastOpenedAfterAppend(events: seq<Event>, e: Event)
    requires IsOpened(e)
    requires forall i :: 0 <= i < |events| && IsOpened(events[i]) ==> events[i].timestamp < e.timestamp
    ensures LastOpened(events + [e]) == Some(e)
  {
  }

  /** Last access and weekly count as `get_last_access_stats` returns them:
      the timestamp and intent of the last `opened` row, and the count. */
  datatype LastAccess = LastAccess(timestamp: int, usageIntent: string)
  datatype AccessStats = AccessStats(lastOpened: Option<LastAccess>, weeklyAccess: nat)

  /** `get_last_access_stats`: both queries on a readable table; on any
      failure (unreadable file, missing table) the degraded `(None, 0)`. */
  function GetLastAccessStats(db: Database, readOk: bool, cutoff: int): (s: AccessStats)
    ensures !readOk || db.NoTable? ==> s == AccessStats(None, 0)
    ensures readOk && db.Table? ==>
      && (s.lastOpened.None? <==> forall i :: 0 <= i < |db.events| ==> !IsOpened(db.events[i]))
      && (s.lastOpened.Some? ==> (exists i :: 0 <= i < |db.events| && IsOpened(db.events[i])
                                       && db.events[i].timestamp == s.lastOpened.value.timestamp
                                       && db.events[i].usageIntent == s.lastOpened.value.usageIntent))
      && (s.lastOpened.Some? ==> forall i :: 0 <= i < |db.events| && IsOpened(db.events[i]) ==>
            db.events[i].timestamp <= s.lastOpened.value.timestamp)
      && s.weeklyAccess == |MatchingRows(db.events, cutoff)|
  {
    if readOk && db.Table? then
      CountIsMatchingRows(db.events, cutoff);
      var last := match LastOpened(db.events)
        case None => None
        case Some(e) => Some(LastAccess(e.timestamp, e.usageIntent));
      AccessStats(last, CountOpenedAfter(db.events, cutoff))
    else AccessStats(None, 0)
  }

  /** The first query computed in one pass over the rows, showing the
      reference definition is computable by a single scan. The database
      engine performs this step; nothing in the model calls this method. */
  method QueryLastOpened(events: seq<Event>) returns (r: Option<Event>)
    ensures r == LastOpened(events)
  {
    r := None;
    var i := 0;
    while i < |events|
      invariant 0 <= i <= |events|
      invariant r == LastOpened(events[..i])
    {
      assert events[..i + 1][..i] == events[..i];
      var e := events[i];
      if IsOpened(e) && (r.None? || e.timestamp >= r.value.timestamp) {
        r := Some(e);
      }
      i := i + 1;
    }
    assert events[..i] == events;
  }

  /** The second query computed in one pass over the rows, showing the
      reference count is computable by a single scan. The database engine
      performs this step; nothing in the model calls this method. */
  method QueryCountOpenedAfter(events: seq<Event>, cutoff: int) returns (n: nat)
    ensures n == CountOpenedAfter(events, cutoff)
  {
    n := 0;
    var i := 0;
    while i < |events|
      invariant 0 <= i <= |events|
      invariant n == CountOpenedAfter(events[..i], cutoff)
    {
      assert events[..i + 1][..i] == events[..i];
      if IsOpenedAfter(events[i], cutoff) {
        n := n + 1;
      }
      i := i + 1;
    }
    assert events[..i] == events;
  }
}
