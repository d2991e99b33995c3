/** What the sweeps of `MonitoringEngine` do to the `incidents` table,
    stated as functions of the table before the sweep, the solutions and
    the outside world. */
module Sweeps {
  import opened Common
  import opened LogFormat
  import opened Ledger
  import opened Selection

  /** One attempt at a row: the best solution's script is run and, when it
      succeeds, the row is marked resolved with the run's record. A row with
      no solution, or whose script fails, stays as it was. */
  ghost function Attempt(row: Incident, sols: seq<Solution>, w: World): (r: Incident)
    ensures r.id == row.id && EntryOf(r) == EntryOf(row)
  {
    match Best(sols, row.message)
    case Some(s) =>
      if Runs(w, s) then row.(resolved := true, resolution := Some(ResolutionOf(w, s))) else row
    case None => row
  }

  /** The rows a sweep appends for the fresh alerts `f`, numbered on from
      `base`, each inserted unresolved and then attempted once. */
  ghost function Inserted(f: seq<LogEntry>, base: nat, sols: seq<Solution>, w: World): (r: seq<Incident>)
    ensures |r| == |f|
    decreases |f|
  {
    if |f| == 0 then []
    else Inserted(f[..|f| - 1], base, sols, w) + [Attempt(Unresolved(base + |f|, f[|f| - 1]), sols, w)]
  }

  /** The alerts of a log file that a sweep over it inserts into `incs`. */
  function FreshOf(incs: seq<Incident>, content: string): seq<LogEntry> {
    FreshAlerts(Alerts(LatestLines(ReadLines(content))), Messages(incs))
  }

  /** The table part-way through a sweep of `base`, once the lines
      `lines` are read. */
  ghost function Swept(base: seq<Incident>, lines: seq<string>, sols: seq<Solution>, w: World): seq<Incident> {
    base + Inserted(FreshAlerts(Alerts(lines), Messages(base)), |base|, sols, w)
  }

  /** How many incidents the sweep has resolved once the lines `lines` are
      read. */
  ghost function SweptCount(base: seq<Incident>, lines: seq<string>, sols: seq<Solution>, w: World): nat {
    CountResolved(Inserted(FreshAlerts(Alerts(lines), Messages(base)), |base|, sols, w))
  }

  /** The table after `check_logs` has read the log file `content`. */
  ghost function Sweep(incs: seq<Incident>, content: string, sols: seq<Solution>, w: World): seq<Incident> {
    Swept(incs, LatestLines(ReadLines(content)), sols, w)
  }

  /** The table after `resolve_unresolved_incidents`: every unresolved row
      attempted once, resolved rows untouched. */
  ghost function Retried(incs: seq<Incident>, sols: seq<Solution>, w: World): (r: seq<Incident>)
    ensures |r| == |incs|
  {
    seq(|incs|, i requires 0 <= i < |incs| => if incs[i].resolved then incs[i] else Attempt(incs[i], sols, w))
  }

  // ---------------------------------------------------------------------
  // One attempt

  /** An unresolved row ends resolved exactly when a solution is found and
      its script exists and exits with status 0; the record is that run's. */
  lemma AttemptOutcome(row: Incident, sols: seq<Solution>, w: World)
    requires !row.resolved && row.resolution.None?
    ensures Attempt(row, sols, w).resolved <==> Best(sols, row.message).Some? && Runs(w, Best(sols, row.message).value)
    ensures Attempt(row, sols, w).resolved ==>
              Attempt(row, sols, w).resolution == Some(ResolutionOf(w, Best(sols, row.message).value))
    ensures !Attempt(row, sols, w).resolved ==> Attempt(row, sols, w) == row
  {
  }

  /** An attempt keeps a row's resolved flag in step with its record. */
  lemma AttemptRecorded(row: Incident, sols: seq<Solution>, w: World)
    requires row.resolved <==> row.resolution.Some?
    ensures Attempt(row, sols, w).resolved <==> Attempt(row, sols, w).resolution.Some?
  {
  }

  /** A row that failed an attempt fails it again with the same solutions
      and world, and a resolved row is never attempted: retrying is
      idempotent. */
  lemma AttemptAgain(row: Incident, sols: seq<Solution>, w: World)
    requires !row.resolved
    ensures var r := Attempt(row, sols, w);
            !r.resolved ==> Attempt(r, sols, w) == r
  {
  }

  /** An attempt, told by the solution found and whether running it
      succeeded. */
  lemma AttemptBy(row: Incident, sols: seq<Solution>, w: World, solution: Option<string>, ok: bool)
    requires solution == Best(sols, row.message)
    requires ok <==> solution.Some? && Runs(w, solution.value)
    ensures ok ==> Attempt(row, sols, w) == row.(resolved := true, resolution := Some(ResolutionOf(w, solution.value)))
    ensures !ok ==> Attempt(row, sols, w) == row
  {
  }

  // ---------------------------------------------------------------------
  // `check_logs`

  lemma {:induction false} InsertedRows(f: seq<LogEntry>, base: nat, sols: seq<Solution>, w: World)
    ensures forall k :: 0 <= k < |f| ==> Inserted(f, base, sols, w)[k] == Attempt(Unresolved(base + k + 1, f[k]), sols, w)
    decreases |f|
  {
    if |f| > 0 {
      InsertedRows(f[..|f| - 1], base, sols, w);
    }
  }

  lemma InsertedMessages(f: seq<LogEntry>, base: nat, sols: seq<Solution>, w: World)
    ensures Messages(Inserted(f, base, sols, w)) == MessagesOf(f)
  {
    var r := Inserted(f, base, sols, w);
    InsertedRows(f, base, sols, w);
    forall m | m in Messages(r) ensures m in MessagesOf(f) {
      var k :| 0 <= k < |r| && r[k].message == m;
      assert EntryOf(r[k]) == EntryOf(Unresolved(base + k + 1, f[k]));
    }
    forall m | m in MessagesOf(f) ensures m in Messages(r) {
      var k :| 0 <= k < |f| && f[k].message == m;
      assert EntryOf(r[k]) == EntryOf(Unresolved(base + k + 1, f[k]));
    }
  }

  lemma MessagesAppend(a: seq<Incident>, b: seq<Incident>)
    ensures Messages(a + b) == Messages(a) + Messages(b)
  {
    var ab := a + b;
    forall m | m in Messages(ab) ensures m in Messages(a) + Messages(b) {
      var k :| 0 <= k < |ab| && ab[k].message == m;
      if k >= |a| {
        assert b[k - |a|].message == m;
      }
    }
    forall m | m in Messages(a) + Messages(b) ensures m in Messages(ab) {
      if m in Messages(a) {
        var k :| 0 <= k < |a| && a[k].message == m;
        assert ab[k].message == m;
      } else {
        var k :| 0 <= k < |b| && b[k].message == m;
        assert ab[|a| + k].message == m;
      }
    }
  }

  /** The messages of the table part-way through a sweep. */
  lemma SweepMessages(base: seq<Incident>, added: seq<LogEntry>, sols: seq<Solution>, w: World)
    ensures Messages(base + Inserted(added, |base|, sols, w)) == Messages(base) + MessagesOf(added)
  {
    MessagesAppend(base, Inserted(added, |base|, sols, w));
    InsertedMessages(added, |base|, sols, w);
  }

  lemma FreshSnoc(es: seq<LogEntry>, e: LogEntry, seen: set<string>)
    ensures var prev := FreshAlerts(es, seen);
            FreshAlerts(es + [e], seen) == if e.message in seen || e.message in MessagesOf(prev) then prev else prev + [e]
  {
    assert (es + [e])[..|es|] == es;
  }

  lemma InsertedSnoc(f: seq<LogEntry>, e: LogEntry, base: nat, sols: seq<Solution>, w: World)
    ensures Inserted(f + [e], base, sols, w) == Inserted(f, base, sols, w) + [Attempt(Unresolved(base + |f| + 1, e), sols, w)]
  {
    assert (f + [e])[..|f|] == f;
  }

  lemma SnocAssoc(base: seq<Incident>, x: seq<Incident>, a: Incident)
    ensures base + (x + [a]) == (base + x) + [a]
  {
  }

  /** Inserting the fresh alert `e` part-way through a sweep appends its
      attempted row, and counts it when the attempt resolved it. */
  lemma InsertStep(base: seq<Incident>, added: seq<LogEntry>, e: LogEntry, sols: seq<Solution>, w: World, incs: seq<Incident>)
    requires incs == base + Inserted(added, |base|, sols, w)
    ensures var a := Attempt(Unresolved(|incs| + 1, e), sols, w);
            && incs + [a] == base + Inserted(added + [e], |base|, sols, w)
            && CountResolved(Inserted(added + [e], |base|, sols, w)) == CountResolved(Inserted(added, |base|, sols, w)) + Flag(a.resolved)
  {
    var x := Inserted(added, |base|, sols, w);
    var a := Attempt(Unresolved(|incs| + 1, e), sols, w);
    InsertedSnoc(added, e, |base|, sols, w);
    assert |incs| == |base| + |added|;
    SnocAssoc(base, x, a);
    CountResolvedSnoc(x, a);
  }

  /** The incidents a sweep resolves are counted among the rows it adds. */
  lemma SweepCount(incs: seq<Incident>, content: string, sols: seq<Solution>, w: World)
    ensures var r := Sweep(incs, content, sols, w);
            |incs| <= |r| && SweptCount(incs, LatestLines(ReadLines(content)), sols, w) == CountResolved(r[|incs|..])
  {
    var r := Sweep(incs, content, sols, w);
    assert r[|incs|..] == Inserted(FreshOf(incs, content), |incs|, sols, w);
  }

  lemma SweptNone(base: seq<Incident>, sols: seq<Solution>, w: World)
    ensures Swept(base, [], sols, w) == base && SweptCount(base, [], sols, w) == 0
  {
    assert base + [] == base;
  }

  /** Reading one more line: a line that is not an alert, or whose message
      already has an incident, changes nothing; otherwise its row is
      appended, attempted, and counted when resolved. */
  lemma SweptStep(base: seq<Incident>, lines: seq<string>, line: string, sols: seq<Solution>, w: World)
    ensures var incs := Swept(base, lines, sols, w);
            var n := SweptCount(base, lines, sols, w);
            match AlertOf(line)
            case Some(e) =>
              if e.message in Messages(incs) then
                Swept(base, lines + [line], sols, w) == incs && SweptCount(base, lines + [line], sols, w) == n
              else
                var a := Attempt(Unresolved(|incs| + 1, e), sols, w);
                Swept(base, lines + [line], sols, w) == incs + [a] && SweptCount(base, lines + [line], sols, w) == n + Flag(a.resolved)
            case None =>
              Swept(base, lines + [line], sols, w) == incs && SweptCount(base, lines + [line], sols, w) == n
  {
    var es := Alerts(lines);
    var added := FreshAlerts(es, Messages(base));
    var incs := Swept(base, lines, sols, w);
    AlertsSnoc(lines, line);
    match AlertOf(line)
    case Some(e) =>
      FreshSnoc(es, e, Messages(base));
      SweepMessages(base, added, sols, w);
      if e.message in Messages(incs) {
        SweptSame(base, lines, line, sols, w);
      } else {
        SweptAdd(base, lines, line, e, sols, w);
      }
    case None =>
      assert es + [] == es;
      SweptSame(base, lines, line, sols, w);
  }

  /** `SweptStep` at line `i` for an alert whose message has no incident yet. */
  lemma SweptTakes(base: seq<Incident>, lines: seq<string>, i: nat, e: LogEntry, sols: seq<Solution>, w: World)
    requires i < |lines| && AlertOf(lines[i]) == Some(e) && e.message !in Messages(Swept(base, lines[..i], sols, w))
    ensures var a := Attempt(Unresolved(|Swept(base, lines[..i], sols, w)| + 1, e), sols, w);
            Swept(base, lines[..i + 1], sols, w) == Swept(base, lines[..i], sols, w) + [a]
            && SweptCount(base, lines[..i + 1], sols, w) == SweptCount(base, lines[..i], sols, w) + Flag(a.resolved)
  {
    var read, line := lines[..i], lines[i];
    assert lines[..i + 1] == read + [line];
    var incs := Swept(base, read, sols, w);
    FreshSnoc(Alerts(read), e, Messages(base));
    AlertsSnoc(read, line);
    SweepMessages(base, FreshAlerts(Alerts(read), Messages(base)), sols, w);
    SweptAdd(base, read, line, e, sols, w);
  }

  /** `SweptStep` at line `i` for a line that is no alert, or whose message
      is recorded. */
  lemma SweptSkips(base: seq<Incident>, lines: seq<string>, i: nat, sols: seq<Solution>, w: World)
    requires i < |lines|
    requires AlertOf(lines[i]).None? || AlertOf(lines[i]).value.message in Messages(Swept(base, lines[..i], sols, w))
    ensures Swept(base, lines[..i + 1], sols, w) == Swept(base, lines[..i], sols, w)
    ensures SweptCount(base, lines[..i + 1], sols, w) == SweptCount(base, lines[..i], sols, w)
  {
    assert lines[..i + 1] == lines[..i] + [lines[i]];
    SweptStep(base, lines[..i], lines[i], sols, w);
  }

  /** A line that adds no fresh alert leaves the sweep as it was. */
  lemma SweptSame(base: seq<Incident>, lines: seq<string>, line: string, sols: seq<Solution>, w: World)
    requires FreshAlerts(Alerts(lines + [line]), Messages(base)) == FreshAlerts(Alerts(lines), Messages(base))
    ensures Swept(base, lines + [line], sols, w) == Swept(base, lines, sols, w)
    ensures SweptCount(base, lines + [line], sols, w) == SweptCount(base, lines, sols, w)
  {
  }

  /** A line that adds the fresh alert `e` appends its attempted row. */
  lemma SweptAdd(base: seq<Incident>, lines: seq<string>, line: string, e: LogEntry, sols: seq<Solution>, w: World)
    requires FreshAlerts(Alerts(lines + [line]), Messages(base)) == FreshAlerts(Alerts(lines), Messages(base)) + [e]
    ensures var incs := Swept(base, lines, sols, w);
            var a := Attempt(Unresolved(|incs| + 1, e), sols, w);
            Swept(base, lines + [line], sols, w) == incs + [a]
            && SweptCount(base, lines + [line], sols, w) == SweptCount(base, lines, sols, w) + Flag(a.resolved)
  {
    var added := FreshAlerts(Alerts(lines), Messages(base));
    InsertStep(base, added, e, sols, w, Swept(base, lines, sols, w));
  }

  /** A sweep keeps the table numbered and every row's flag in step with its
      record. */
  lemma SweepValid(incs: seq<Incident>, content: string, sols: seq<Solution>, w: World)
    requires Numbered(incs) && Recorded(incs)
    ensures Numbered(Sweep(incs, content, sols, w)) && Recorded(Sweep(incs, content, sols, w))
  {
    var f := FreshOf(incs, content);
    var r := Sweep(incs, content, sols, w);
    InsertedRows(f, |incs|, sols, w);
    forall i | |incs| <= i < |r| ensures r[i].id == i + 1 && (r[i].resolved <==> r[i].resolution.Some?) {
      AttemptRecorded(Unresolved(i + 1, f[i - |incs|]), sols, w);
    }
  }

  /** The sweep appends one row per fresh alert, in log order, carrying that
      alert's fields; rows already in the table are left as they were. */
  lemma SweepRows(incs: seq<Incident>, content: string, sols: seq<Solution>, w: World)
    ensures var r := Sweep(incs, content, sols, w);
            var f := FreshOf(incs, content);
            && |r| == |incs| + |f|
            && r[..|incs|] == incs
            && (forall k :: 0 <= k < |f| ==> EntryOf(r[|incs| + k]) == f[k] && r[|incs| + k].id == |incs| + k + 1)
  {
    var f := FreshOf(incs, content);
    var r := Sweep(incs, content, sols, w);
    InsertedRows(f, |incs|, sols, w);
    assert r[..|incs|] == incs;
    forall k | 0 <= k < |f| ensures EntryOf(r[|incs| + k]) == f[k] && r[|incs| + k].id == |incs| + k + 1 {
      assert r[|incs| + k] == Inserted(f, |incs|, sols, w)[k];
    }
  }

  /** No row the sweep adds repeats a message already in the table or added
      earlier in the same sweep. */
  lemma SweepNoDuplicates(incs: seq<Incident>, content: string, sols: seq<Solution>, w: World)
    ensures var r := Sweep(incs, content, sols, w);
            && (forall k :: |incs| <= k < |r| ==> r[k].message !in Messages(incs))
            && (forall j, k :: |incs| <= j < k < |r| ==> r[j].message != r[k].message)
  {
    var f := FreshOf(incs, content);
    var r := Sweep(incs, content, sols, w);
    FreshUnique(Alerts(LatestLines(ReadLines(content))), Messages(incs));
    SweepRows(incs, content, sols, w);
    forall k | |incs| <= k < |r| ensures r[k].message !in Messages(incs) {
      assert EntryOf(r[|incs| + (k - |incs|)]) == f[k - |incs|];
    }
    forall j, k | |incs| <= j < k < |r| ensures r[j].message != r[k].message {
      assert EntryOf(r[|incs| + (j - |incs|)]) == f[j - |incs|];
      assert EntryOf(r[|incs| + (k - |incs|)]) == f[k - |incs|];
    }
  }

  /** After the sweep every alert among the latest lines has an incident. */
  lemma SweepCovers(incs: seq<Incident>, content: string, sols: seq<Solution>, w: World)
    ensures forall e :: e in Alerts(LatestLines(ReadLines(content))) ==> e.message in Messages(Sweep(incs, content, sols, w))
  {
    var es := Alerts(LatestLines(ReadLines(content)));
    var f := FreshOf(incs, content);
    FreshCovers(es, Messages(incs));
    MessagesAppend(incs, Inserted(f, |incs|, sols, w));
    InsertedMessages(f, |incs|, sols, w);
  }

  /** Sweeping the same log twice inserts nothing the second time: repeated
      messages, within one sweep or across sweeps, give one incident. */
  lemma SweepAgain(incs: seq<Incident>, content: string, sols: seq<Solution>, w: World)
    ensures var once := Sweep(incs, content, sols, w);
            Sweep(once, content, sols, w) == once
  {
    var once := Sweep(incs, content, sols, w);
    var es := Alerts(LatestLines(ReadLines(content)));
    SweepCovers(incs, content, sols, w);
    forall i | 0 <= i < |es| ensures es[i].message in Messages(once) {
      assert es[i] in es;
    }
    FreshNone(es, Messages(once));
    assert Inserted([], |once|, sols, w) == [];
    assert once + [] == once;
  }

  // ---------------------------------------------------------------------
  // `resolve_unresolved_incidents`

  /** Part-way through a retry of `rows`: the first `i` rows retried, the
      rest as they were. */
  ghost predicate RetriedUpTo(rows: seq<Incident>, incs: seq<Incident>, i: nat, sols: seq<Solution>, w: World) {
    && i <= |rows| == |incs|
    && (forall j :: 0 <= j < i ==> incs[j] == Retried(rows, sols, w)[j])
    && (forall j :: i <= j < |rows| ==> incs[j] == rows[j])
  }

  lemma RetryStep(rows: seq<Incident>, incs: seq<Incident>, i: nat, sols: seq<Solution>, w: World)
    requires RetriedUpTo(rows, incs, i, sols, w) && i < |rows|
    ensures RetriedUpTo(rows, incs[i := Retried(rows, sols, w)[i]], i + 1, sols, w)
  {
  }

  lemma RetryDone(rows: seq<Incident>, incs: seq<Incident>, sols: seq<Solution>, w: World)
    requires RetriedUpTo(rows, incs, |rows|, sols, w)
    ensures incs == Retried(rows, sols, w)
  {
  }

  lemma RetriedValid(incs: seq<Incident>, sols: seq<Solution>, w: World)
    requires Numbered(incs) && Recorded(incs)
    ensures Numbered(Retried(incs, sols, w)) && Recorded(Retried(incs, sols, w))
  {
    var r := Retried(incs, sols, w);
    forall i | 0 <= i < |incs| ensures r[i].id == i + 1 && (r[i].resolved <==> r[i].resolution.Some?) {
      AttemptRecorded(incs[i], sols, w);
    }
  }

  /** Retrying keeps every row's log fields and never unresolves a row;
      resolved rows are left exactly as they were. */
  lemma RetriedRows(incs: seq<Incident>, sols: seq<Solution>, w: World)
    ensures var r := Retried(incs, sols, w);
            forall i :: 0 <= i < |incs| ==>
              && EntryOf(r[i]) == EntryOf(incs[i]) && r[i].id == incs[i].id
              && (incs[i].resolved ==> r[i] == incs[i])
  {
  }

  /** A second retry with the same solutions and world changes nothing. */
  lemma RetriedAgain(incs: seq<Incident>, sols: seq<Solution>, w: World)
    ensures Retried(Retried(incs, sols, w), sols, w) == Retried(incs, sols, w)
  {
    var once := Retried(incs, sols, w);
    var twice := Retried(once, sols, w);
    forall i | 0 <= i < |incs| ensures twice[i] == once[i] {
      if !incs[i].resolved {
        AttemptAgain(incs[i], sols, w);
      }
    }
  }
}
