/** The two sqlite tables `MonitoringEngine` works on, as sequences of rows,
    the outside world its sweeps consult, and the row-level operations the
    sweeps are specified by. */
module Ledger {
  import opened Common
  import opened LogFormat

  /** The JSON document `apply_solution` stores in the `resolution` column. */
  datatype Resolution = Resolution(script: string, executedAt: string, executionTime: nat, output: string)

  /** A row of `incidents`. */
  datatype Incident = Incident(id: nat, timestamp: string, service: string, logType: string,
                               message: string, severity: string, resolved: bool,
                               resolution: Option<Resolution>)

  /** A row of `solutions`. */
  datatype Solution = Solution(pattern: string, script: string, successRate: real, lastUsed: string)

  /** What running one command gives back: exit status, whether its
      standard output is valid UTF-8, that output decoded, and the time it
      took. */
  datatype Outcome = Outcome(exitCode: int, utf8: bool, stdout: string, elapsed: nat)

  /** The environment of a sweep: the script files that exist under
      `scripts/`, what running a script with an argument string does, and
      the clock. */
  datatype World = World(scripts: set<string>, run: (string, string) -> Outcome, now: string)

  /** Rows are numbered 1, 2, ... in insertion order: `id INTEGER PRIMARY KEY`
      and no row is ever deleted. */
  predicate Numbered(incs: seq<Incident>) {
    forall i :: 0 <= i < |incs| ==> incs[i].id == i + 1
  }

  /** A row is marked resolved exactly when it carries a resolution. */
  predicate Recorded(incs: seq<Incident>) {
    forall i :: 0 <= i < |incs| ==> (incs[i].resolved <==> incs[i].resolution.Some?)
  }

  /** The log fields a row was made from. */
  function EntryOf(inc: Incident): LogEntry {
    LogEntry(inc.timestamp, inc.service, inc.logType, inc.severity, inc.message)
  }

  /** The row `check_logs` inserts for a log entry: `resolved = 0`, no resolution. */
  function Unresolved(id: nat, e: LogEntry): Incident {
    Incident(id, e.timestamp, e.service, e.logType, e.message, e.severity, false, None)
  }

  function Messages(incs: seq<Incident>): set<string> {
    set i | 0 <= i < |incs| :: incs[i].message
  }

  function MessagesOf(es: seq<LogEntry>): set<string> {
    set i | 0 <= i < |es| :: es[i].message
  }

  // ---------------------------------------------------------------------
  // Deduplication in `check_logs`

  /** The alerts a sweep inserts, in log order: each alert whose message is
      neither in the table before the sweep (`seen`) nor carried by an
      earlier alert of the same sweep. */
  function FreshAlerts(es: seq<LogEntry>, seen: set<string>): seq<LogEntry>
    decreases |es|
  {
    if |es| == 0 then []
    else
      var prev := FreshAlerts(es[..|es| - 1], seen);
      var e := es[|es| - 1];
      if e.message in seen || e.message in MessagesOf(prev) then prev else prev + [e]
  }

  lemma MessagesOfSnoc(es: seq<LogEntry>, e: LogEntry)
    ensures MessagesOf(es + [e]) == MessagesOf(es) + {e.message}
  {
    var xs := es + [e];
    forall m | m in MessagesOf(xs) ensures m in MessagesOf(es) + {e.message} {
      var i :| 0 <= i < |xs| && xs[i].message == m;
      if i < |es| {
        assert es[i] == xs[i];
      }
    }
    forall m | m in MessagesOf(es) ensures m in MessagesOf(xs) {
      var i :| 0 <= i < |es| && es[i].message == m;
      assert xs[i] == es[i];
    }
    assert xs[|es|] == e;
  }

  /** A sweep whose alerts are all already recorded inserts nothing. */
  lemma {:induction false} FreshNone(es: seq<LogEntry>, seen: set<string>)
    requires forall i :: 0 <= i < |es| ==> es[i].message in seen
    ensures FreshAlerts(es, seen) == []
    decreases |es|
  {
    if |es| > 0 {
      FreshNone(es[..|es| - 1], seen);
    }
  }

  /** No message of `f` is in `seen`, and no two entries of `f` share one. */
  predicate Distinct(f: seq<LogEntry>, seen: set<string>) {
    && (forall i :: 0 <= i < |f| ==> f[i].message !in seen)
    && (forall i, j :: 0 <= i < j < |f| ==> f[i].message != f[j].message)
  }

  /** No two inserted incidents share a message, and none repeats a message
      already in the table. */
  lemma {:induction false} FreshUnique(es: seq<LogEntry>, seen: set<string>)
    ensures Distinct(FreshAlerts(es, seen), seen)
    decreases |es|
  {
    if |es| > 0 {
      var prev := FreshAlerts(es[..|es| - 1], seen);
      var e := es[|es| - 1];
      FreshUnique(es[..|es| - 1], seen);
      if !(e.message in seen || e.message in MessagesOf(prev)) {
        var f := prev + [e];
        assert FreshAlerts(es, seen) == f;
        assert f[|prev|] == e;
        forall i | 0 <= i < |f| ensures f[i].message !in seen {
          if i < |prev| {
            assert f[i] == prev[i];
          }
        }
        forall i, j | 0 <= i < j < |f| ensures f[i].message != f[j].message {
          assert f[i] == prev[i];
          if j == |prev| {
            assert prev[i].message in MessagesOf(prev);
          } else {
            assert f[j] == prev[j];
          }
        }
      }
    }
  }

  /** Every alert of the sweep ends up in the table: its message was there
      before or an inserted incident carries it. */
  lemma {:induction false} FreshCovers(es: seq<LogEntry>, seen: set<string>)
    ensures forall i :: 0 <= i < |es| ==> es[i].message in seen + MessagesOf(FreshAlerts(es, seen))
    decreases |es|
  {
    if |es| > 0 {
      var init := es[..|es| - 1];
      var prev := FreshAlerts(init, seen);
      var e := es[|es| - 1];
      FreshCovers(init, seen);
      var f := FreshAlerts(es, seen);
      assert MessagesOf(prev) <= MessagesOf(f) by {
        if f != prev {
          MessagesOfSnoc(prev, e);
        }
      }
      if f != prev {
        MessagesOfSnoc(prev, e);
      }
      forall i | 0 <= i < |es| ensures es[i].message in seen + MessagesOf(f) {
        if i < |init| {
          assert es[i] == init[i];
        }
      }
    }
  }

  /** `es[k]` is the first entry of `es` with its message. */
  predicate FirstWith(es: seq<LogEntry>, k: nat) {
    k < |es| && forall j :: 0 <= j < k ==> es[j].message != es[k].message
  }

  /** Every entry of `f` is the first entry of `es` with its message. */
  predicate FirstsOf(es: seq<LogEntry>, f: seq<LogEntry>) {
    forall i :: 0 <= i < |f| ==> HasFirst(es, f[i])
  }

  /** `x` is the first entry of `es` with its message. */
  predicate HasFirst(es: seq<LogEntry>, x: LogEntry) {
    exists k: nat :: k < |es| && FirstWith(es, k) && es[k] == x
  }

  /** Each inserted incident comes from the first alert of the sweep with
      its message. */
  lemma {:induction false} FreshFirst(es: seq<LogEntry>, seen: set<string>)
    ensures FirstsOf(es, FreshAlerts(es, seen))
    decreases |es|
  {
    if |es| > 0 {
      var init := es[..|es| - 1];
      var prev := FreshAlerts(init, seen);
      var e := es[|es| - 1];
      assert es == init + [e];
      FreshFirst(init, seen);
      FirstsGrow(init, e, prev);
      if !(e.message in seen || e.message in MessagesOf(prev)) {
        FreshCovers(init, seen);
        FirstNew(init, e, seen + MessagesOf(prev));
        FirstsSnoc(es, prev, |init|);
      }
    }
  }

  /** A later entry does not change which entries came first. */
  lemma FirstsGrow(init: seq<LogEntry>, e: LogEntry, f: seq<LogEntry>)
    requires FirstsOf(init, f)
    ensures FirstsOf(init + [e], f)
  {
    var es := init + [e];
    forall i | 0 <= i < |f| ensures HasFirst(es, f[i]) {
      assert HasFirst(init, f[i]);
      var k: nat :| k < |init| && FirstWith(init, k) && init[k] == f[i];
      assert forall j :: 0 <= j <= k ==> es[j] == init[j];
      assert FirstWith(es, k) && es[k] == f[i];
    }
  }

  /** An entry whose message no earlier entry has is the first with it. */
  lemma FirstNew(init: seq<LogEntry>, e: LogEntry, known: set<string>)
    requires forall i :: 0 <= i < |init| ==> init[i].message in known
    requires e.message !in known
    ensures FirstWith(init + [e], |init|)
  {
    var es := init + [e];
    forall j | 0 <= j < |init| ensures es[j].message != es[|init|].message {
      assert es[j] == init[j];
    }
  }

  lemma FirstsSnoc(es: seq<LogEntry>, f: seq<LogEntry>, k: nat)
    requires FirstsOf(es, f) && FirstWith(es, k)
    ensures FirstsOf(es, f + [es[k]])
  {
    var g := f + [es[k]];
    forall i | 0 <= i < |g| ensures HasFirst(es, g[i]) {
      if i < |f| {
        assert g[i] == f[i];
      } else {
        assert g[i] == es[k];
      }
    }
  }

  // ---------------------------------------------------------------------
  // `UPDATE incidents SET resolved = 1, resolution = ? WHERE id = ?`

  function MarkResolved(incs: seq<Incident>, id: nat, res: Resolution): (r: seq<Incident>)
    ensures |r| == |incs|
  {
    seq(|incs|, i requires 0 <= i < |incs| =>
      if incs[i].id == id then incs[i].(resolved := true, resolution := Some(res)) else incs[i])
  }

  /** On a numbered table the update touches exactly the row at position
      `id - 1`, and nothing when no row has that id. */
  lemma MarkResolvedRow(incs: seq<Incident>, id: nat, res: Resolution)
    requires Numbered(incs)
    ensures 1 <= id <= |incs| ==>
      MarkResolved(incs, id, res) == incs[id - 1 := incs[id - 1].(resolved := true, resolution := Some(res))]
    ensures !(1 <= id <= |incs|) ==> MarkResolved(incs, id, res) == incs
  {
    var r := MarkResolved(incs, id, res);
    if 1 <= id <= |incs| {
      var u := incs[id - 1 := incs[id - 1].(resolved := true, resolution := Some(res))];
      forall i | 0 <= i < |incs| ensures r[i] == u[i] {
      }
    } else {
      forall i | 0 <= i < |incs| ensures r[i] == incs[i] {
      }
    }
  }

  /** The update keeps the numbering, the resolved/resolution agreement and
      every row's log fields. */
  lemma MarkResolvedKeeps(incs: seq<Incident>, id: nat, res: Resolution)
    ensures Numbered(incs) ==> Numbered(MarkResolved(incs, id, res))
    ensures Recorded(incs) ==> Recorded(MarkResolved(incs, id, res))
    ensures forall i :: 0 <= i < |incs| ==> EntryOf(MarkResolved(incs, id, res)[i]) == EntryOf(incs[i])
    ensures Messages(MarkResolved(incs, id, res)) == Messages(incs)
  {
    var r := MarkResolved(incs, id, res);
    assert forall i :: 0 <= i < |incs| ==> r[i].message == incs[i].message;
  }

  /** Updating twice with the same id leaves the second resolution: a
      repeated run overwrites the record. */
  lemma MarkResolvedOverwrites(incs: seq<Incident>, id: nat, res1: Resolution, res2: Resolution)
    ensures MarkResolved(MarkResolved(incs, id, res1), id, res2) == MarkResolved(incs, id, res2)
  {
    var a := MarkResolved(MarkResolved(incs, id, res1), id, res2);
    var b := MarkResolved(incs, id, res2);
    forall i | 0 <= i < |incs| ensures a[i] == b[i] {
    }
  }

  // ---------------------------------------------------------------------
  // Counting resolved rows

  function CountResolved(incs: seq<Incident>): (n: nat)
    ensures n <= |incs|
    decreases |incs|
  {
    if |incs| == 0 then 0
    else CountResolved(incs[..|incs| - 1]) + (if incs[|incs| - 1].resolved then 1 else 0)
  }

  function Flag(b: bool): nat { if b then 1 else 0 }

  /** Replacing one row changes the count by the change of that row's flag. */
  lemma {:induction false} CountResolvedUpdate(incs: seq<Incident>, i: nat, x: Incident)
    requires i < |incs|
    ensures CountResolved(incs[i := x]) + Flag(incs[i].resolved) == CountResolved(incs) + Flag(x.resolved)
    decreases |incs|
  {
    var n := |incs|;
    var u := incs[i := x];
    if i == n - 1 {
      assert u[..n - 1] == incs[..n - 1];
    } else {
      assert u[..n - 1] == incs[..n - 1][i := x];
      CountResolvedUpdate(incs[..n - 1], i, x);
    }
  }

  lemma CountResolvedSnoc(incs: seq<Incident>, x: Incident)
    ensures CountResolved(incs + [x]) == CountResolved(incs) + Flag(x.resolved)
  {
    assert (incs + [x])[..|incs|] == incs;
  }

  // ---------------------------------------------------------------------
  // The command `apply_solution` runs

  /** `solution_script.split()` taken apart into the script name and the
      argument string `" ".join(script_parts[1:])`; `None` for a blank
      script, where `script_parts[0]` raises. */
  function ParseCommand(script: string): (r: Option<(string, string)>)
    ensures r.None? <==> |Words(script)| == 0
    ensures r.Some? ==> IsWord(r.value.0)
  {
    var ws := Words(script);
    if |ws| == 0 then None else Some((ws[0], Join(ws[1..], " ")))
  }

  lemma WordsOfSpaceThen(t: string)
    ensures Words(" " + t) == Words(t)
  {
    assert IsSpace(' ');
    assert (" " + t)[1..] == t;
    assert LStrip(" " + t) == LStrip(t);
  }

  /** A word, a space and more text split into the word and the rest's words. */
  lemma WordsCons(w: string, t: string)
    requires IsWord(w)
    ensures Words(w + " " + t) == [w] + Words(t)
  {
    var s := w + " " + t;
    assert s[0] == w[0];
    assert LStrip(s) == s;
    var k := WordEnd(s);
    assert s[|w|] == ' ' && IsSpace(' ');
    forall i | 0 <= i < |w| ensures !IsSpace(s[i]) {
      assert s[i] == w[i];
    }
    assert k == |w|;
    assert s[..k] == w;
    assert s[k..] == " " + t;
    WordsOfSpaceThen(t);
  }

  lemma WordsOfWord(w: string)
    requires IsWord(w)
    ensures Words(w) == [w]
  {
    assert LStrip(w) == w;
    assert WordEnd(w) == |w|;
    assert w[..|w|] == w && w[|w|..] == "";
  }

  /** Words joined by single spaces split back into the same words. */
  lemma {:induction false} WordsJoin(ws: seq<string>)
    requires forall i :: 0 <= i < |ws| ==> IsWord(ws[i])
    ensures Words(Join(ws, " ")) == ws
    decreases |ws|
  {
    if |ws| == 1 {
      WordsOfWord(ws[0]);
    } else if |ws| > 1 {
      assert forall i :: 0 <= i < |ws[1..]| ==> ws[1..][i] == ws[i + 1];
      WordsJoin(ws[1..]);
      WordsJoinStep(ws);
    }
  }

  lemma WordsJoinStep(ws: seq<string>)
    requires |ws| > 1 && IsWord(ws[0]) && Words(Join(ws[1..], " ")) == ws[1..]
    ensures Words(Join(ws, " ")) == ws
  {
    var j := Join(ws[1..], " ");
    assert Join(ws, " ") == ws[0] + " " + j;
    WordsCons(ws[0], j);
    assert ws == [ws[0]] + ws[1..];
  }

  /** The script name and the space-joined arguments split back into the
      stored script's words: nothing is lost or merged when the command is
      taken apart and put back together. */
  lemma CommandLine(script: string)
    requires ParseCommand(script).Some?
    ensures var c := ParseCommand(script).value;
            Words(c.0 + " " + c.1) == Words(script)
  {
    var ws := Words(script);
    WordsJoin(ws[1..]);
    WordsCons(ws[0], Join(ws[1..], " "));
    assert ws == [ws[0]] + ws[1..];
  }

  function RunOf(w: World, script: string): Outcome
    requires ParseCommand(script).Some?
  {
    var c := ParseCommand(script).value;
    w.run(c.0, c.1)
  }

  /** `apply_solution` succeeds: the script file exists, the run exits
      with status 0, and its output decodes as UTF-8 (a failed decode
      raises inside the `try` and the call returns False). */
  predicate Runs(w: World, script: string) {
    && ParseCommand(script).Some? && ParseCommand(script).value.0 in w.scripts
    && RunOf(w, script).exitCode == 0 && RunOf(w, script).utf8
  }

  /** The record a successful run leaves in the row. */
  function ResolutionOf(w: World, script: string): Resolution
    requires ParseCommand(script).Some?
  {
    Resolution(script, w.now, RunOf(w, script).elapsed, RunOf(w, script).stdout)
  }
}
