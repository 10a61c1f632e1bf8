/** Audit entries written by the auth routes and the query
    `Log.find({ studentNumber }).sort({ timestamp: -1 }).limit(50)` that
    `/logs/:studentNumber` answers with. Timestamps are `Date.now()` values
    supplied by the caller. */
module ActivityLog {

  /** The `action` values the routes write. */
  datatype Action = Registration | LoginSuccess | LoginFailed

  datatype LogEntry = LogEntry(studentNumber: string, action: Action, timestamp: int, details: string)

  /** The page size of the logs query. */
  const LogsLimit: nat := 50

  predicate NewestFirst(xs: seq<LogEntry>) {
    forall i, j :: 0 <= i < j < |xs| ==> xs[i].timestamp >= xs[j].timestamp
  }

  /** The entries about one student number, in stored order. */
  function EntriesFor(logs: seq<LogEntry>, studentNumber: string): (r: seq<LogEntry>)
    ensures forall e :: e in r ==> e.studentNumber == studentNumber
  {
    if logs == [] then []
    else
      var rest := EntriesFor(logs[1..], studentNumber);
      if logs[0].studentNumber == studentNumber then [logs[0]] + rest else rest
  }

  /** The selection keeps every entry about the student as often as the log
      holds it, and nothing else. */
  lemma {:induction false} EntriesForCounts(logs: seq<LogEntry>, studentNumber: string)
    ensures forall e: LogEntry :: e.studentNumber == studentNumber ==>
      multiset(EntriesFor(logs, studentNumber))[e] == multiset(logs)[e]
    ensures multiset(EntriesFor(logs, studentNumber)) <= multiset(logs)
  {
    if logs != [] {
      EntriesForCounts(logs[1..], studentNumber);
      assert logs == [logs[0]] + logs[1..];
    }
  }

  /** A new entry shows up among exactly one student's entries: its own. */
  lemma {:induction false} EntriesForAppend(logs: seq<LogEntry>, e: LogEntry, studentNumber: string)
    ensures EntriesFor(logs + [e], studentNumber) ==
      EntriesFor(logs, studentNumber) + (if e.studentNumber == studentNumber then [e] else [])
  {
    if logs == [] {
      assert [e][1..] == [];
    } else {
      var longer := logs + [e];
      var tail := if e.studentNumber == studentNumber then [e] else [];
      assert longer[0] == logs[0] && longer[1..] == logs[1..] + [e];
      EntriesForAppend(logs[1..], e, studentNumber);
      if logs[0].studentNumber == studentNumber {
        calc {
          EntriesFor(longer, studentNumber);
          [logs[0]] + EntriesFor(logs[1..] + [e], studentNumber);
          [logs[0]] + (EntriesFor(logs[1..], studentNumber) + tail);
          ([logs[0]] + EntriesFor(logs[1..], studentNumber)) + tail;
          EntriesFor(logs, studentNumber) + tail;
        }
      }
    }
  }

  /** Place `e` into a newest-first list. */
  function InsertNewestFirst(e: LogEntry, xs: seq<LogEntry>): (r: seq<LogEntry>)
    requires NewestFirst(xs)
    ensures NewestFirst(r)
    ensures multiset(r) == multiset(xs) + multiset{e}
    ensures forall k :: 0 <= k < |r| ==> r[k] == e || r[k] in xs
  {
    if xs == [] || e.timestamp >= xs[0].timestamp then
      ConsNewestFirst(e, xs);
      [e] + xs
    else
      var rest := InsertNewestFirst(e, xs[1..]);
      InsertBehindHead(e, xs, rest);
      [xs[0]] + rest
  }

  /** The step of `InsertNewestFirst` that keeps the head: an entry older
      than the head, inserted into the tail, gives a newest-first list of
      the same entries. */
  lemma InsertBehindHead(e: LogEntry, xs: seq<LogEntry>, rest: seq<LogEntry>)
    requires NewestFirst(xs) && xs != [] && e.timestamp < xs[0].timestamp
    requires NewestFirst(rest)
    requires multiset(rest) == multiset(xs[1..]) + multiset{e}
    requires forall k :: 0 <= k < |rest| ==> rest[k] == e || rest[k] in xs[1..]
    ensures NewestFirst([xs[0]] + rest)
    ensures multiset([xs[0]] + rest) == multiset(xs) + multiset{e}
    ensures forall k :: 0 <= k < |[xs[0]] + rest| ==> ([xs[0]] + rest)[k] == e || ([xs[0]] + rest)[k] in xs
  {
    assert xs == [xs[0]] + xs[1..];
    assert rest != [] by {
      assert e in multiset(rest);
    }
    assert rest[0] == e || rest[0] in xs[1..];
    ConsNewestFirst(xs[0], rest);
    var r := [xs[0]] + rest;
    assert forall k :: 1 <= k < |r| ==> r[k] == rest[k - 1];
  }

  /** An entry no older than the head of a newest-first list can go in
      front of it. */
  lemma ConsNewestFirst(x: LogEntry, rest: seq<LogEntry>)
    requires NewestFirst(rest)
    requires rest == [] || x.timestamp >= rest[0].timestamp
    ensures NewestFirst([x] + rest)
  {
    var r := [x] + rest;
    forall i, j | 0 <= i < j < |r|
      ensures r[i].timestamp >= r[j].timestamp
    {
      if i > 0 {
        assert r[i] == rest[i - 1] && r[j] == rest[j - 1];
      } else {
        assert r[j] == rest[j - 1];
        assert rest[0].timestamp >= rest[j - 1].timestamp;
      }
    }
  }

  /** `sort({ timestamp: -1 })`. Entries with equal timestamps may come in
      any order; this model picks one. */
  function SortNewestFirst(xs: seq<LogEntry>): (r: seq<LogEntry>)
    ensures NewestFirst(r)
    ensures multiset(r) == multiset(xs)
  {
    if xs == [] then []
    else
      assert xs == [xs[0]] + xs[1..];
      InsertNewestFirst(xs[0], SortNewestFirst(xs[1..]))
  }

  /** What `limit(n)` keeps of a newest-first list: a newest-first part of
      it, and what it cuts off is no newer than anything it keeps. */
  lemma LimitKeepsNewest(sorted: seq<LogEntry>, n: nat)
    requires NewestFirst(sorted) && n <= |sorted|
    ensures NewestFirst(sorted[..n])
    ensures multiset(sorted[..n]) <= multiset(sorted)
    ensures forall e :: e in sorted[..n] ==> e in sorted
    ensures forall e :: multiset(sorted[..n])[e] < multiset(sorted)[e] ==>
      forall k :: 0 <= k < n ==> e.timestamp <= sorted[k].timestamp
  {
    assert sorted == sorted[..n] + sorted[n..];
    forall e | multiset(sorted[..n])[e] < multiset(sorted)[e]
      ensures forall k :: 0 <= k < n ==> e.timestamp <= sorted[k].timestamp
    {
      assert e in multiset(sorted[n..]);
      var m :| 0 <= m < |sorted[n..]| && sorted[n..][m] == e;
      assert sorted[n + m] == e;
    }
  }

  /** What the first `n` of a newest-first arrangement of one student's
      entries say about the whole log. */
  lemma SortedLimitOfEntries(logs: seq<LogEntry>, studentNumber: string, sorted: seq<LogEntry>, n: nat)
    requires NewestFirst(sorted)
    requires multiset(sorted) == multiset(EntriesFor(logs, studentNumber))
    requires n == if |sorted| < LogsLimit then |sorted| else LogsLimit
    ensures forall e :: e in sorted[..n] ==> e.studentNumber == studentNumber && e in logs
    ensures multiset(sorted[..n]) <= multiset(logs)
    ensures NewestFirst(sorted[..n])
    ensures |sorted| == |EntriesFor(logs, studentNumber)|
    ensures forall e: LogEntry :: e.studentNumber == studentNumber && multiset(sorted[..n])[e] < multiset(logs)[e] ==>
      forall k :: 0 <= k < n ==> e.timestamp <= sorted[..n][k].timestamp
    ensures |EntriesFor(logs, studentNumber)| <= LogsLimit ==> multiset(sorted[..n]) == multiset(EntriesFor(logs, studentNumber))
  {
    var mine := EntriesFor(logs, studentNumber);
    LimitKeepsNewest(sorted, n);
    assert |sorted| == |mine| by {
      assert |sorted| == |multiset(sorted)| == |multiset(mine)| == |mine|;
    }
    LimitedEntriesInLog(logs, studentNumber, sorted, n);
    LimitedEntriesNewest(logs, studentNumber, sorted, n);
    if n == |sorted| {
      assert sorted[..n] == sorted;
    }
  }

  /** The first `n` of an arrangement of one student's entries are that
      student's and come from the log. */
  lemma LimitedEntriesInLog(logs: seq<LogEntry>, studentNumber: string, sorted: seq<LogEntry>, n: nat)
    requires multiset(sorted) == multiset(EntriesFor(logs, studentNumber)) && n <= |sorted|
    ensures forall e :: e in sorted[..n] ==> e.studentNumber == studentNumber && e in logs
    ensures multiset(sorted[..n]) <= multiset(logs)
  {
    var mine := EntriesFor(logs, studentNumber);
    assert sorted == sorted[..n] + sorted[n..];
    assert multiset(sorted) <= multiset(logs) by {
      EntriesForCounts(logs, studentNumber);
    }
    forall e | e in sorted[..n]
      ensures e.studentNumber == studentNumber && e in logs
    {
      assert e in multiset(mine);
      assert e in multiset(logs);
    }
  }

  /** Every entry of the student's left out of the first `n` of a
      newest-first arrangement is no newer than any entry kept. */
  lemma LimitedEntriesNewest(logs: seq<LogEntry>, studentNumber: string, sorted: seq<LogEntry>, n: nat)
    requires NewestFirst(sorted) && n <= |sorted|
    requires multiset(sorted) == multiset(EntriesFor(logs, studentNumber))
    ensures forall e: LogEntry :: e.studentNumber == studentNumber && multiset(sorted[..n])[e] < multiset(logs)[e] ==>
      forall k :: 0 <= k < n ==> e.timestamp <= sorted[..n][k].timestamp
  {
    LimitKeepsNewest(sorted, n);
    forall e: LogEntry | e.studentNumber == studentNumber && multiset(sorted[..n])[e] < multiset(logs)[e]
      ensures forall k :: 0 <= k < n ==> e.timestamp <= sorted[..n][k].timestamp
    {
      assert multiset(sorted[..n])[e] < multiset(sorted)[e] by {
        EntriesForCounts(logs, studentNumber);
      }
    }
  }

  /** The answer of `/logs/:studentNumber`: only that student's entries,
      newest first, at most 50, and none left out that is newer than one
      returned. */
  function LogsFor(logs: seq<LogEntry>, studentNumber: string): (r: seq<LogEntry>)
    ensures forall e :: e in r ==> e.studentNumber == studentNumber && e in logs
    ensures multiset(r) <= multiset(logs)
    ensures NewestFirst(r)
    ensures |r| == if |EntriesFor(logs, studentNumber)| < LogsLimit then |EntriesFor(logs, studentNumber)| else LogsLimit
    ensures forall e: LogEntry :: e.studentNumber == studentNumber && multiset(r)[e] < multiset(logs)[e] ==>
      forall k :: 0 <= k < |r| ==> e.timestamp <= r[k].timestamp
    ensures |EntriesFor(logs, studentNumber)| <= LogsLimit ==> multiset(r) == multiset(EntriesFor(logs, studentNumber))
  {
    var sorted := SortNewestFirst(EntriesFor(logs, studentNumber));
    var n := if |sorted| < LogsLimit then |sorted| else LogsLimit;
    SortedLimitOfEntries(logs, studentNumber, sorted, n);
    sorted[..n]
  }

  /** The answer depends on the log only through the student's entries. */
  lemma LogsForOfSameEntries(logs: seq<LogEntry>, other: seq<LogEntry>, studentNumber: string)
    requires EntriesFor(logs, studentNumber) == EntriesFor(other, studentNumber)
    ensures LogsFor(logs, studentNumber) == LogsFor(other, studentNumber)
  {
  }

  /** An entry appended under a number joins that number's entries, so its
      log is not empty, and the entry is shown while the log has room. */
  lemma AppendedEntryShown(logs: seq<LogEntry>, e: LogEntry)
    ensures EntriesFor(logs + [e], e.studentNumber) == EntriesFor(logs, e.studentNumber) + [e]
    ensures LogsFor(logs + [e], e.studentNumber) != []
    ensures |EntriesFor(logs, e.studentNumber)| < LogsLimit ==> e in LogsFor(logs + [e], e.studentNumber)
  {
    EntriesForAppend(logs, e, e.studentNumber);
    var mine := EntriesFor(logs + [e], e.studentNumber);
    if |EntriesFor(logs, e.studentNumber)| < LogsLimit {
      assert e in multiset(mine) by {
        assert mine[|mine| - 1] == e;
      }
      assert e in multiset(LogsFor(logs + [e], e.studentNumber));
    }
  }
}
