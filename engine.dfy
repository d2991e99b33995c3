/** `MonitoringEngine`: the sweep that turns alert lines of `services.log`
    into incidents, looks up a solution for each and runs it, the retry of
    unresolved incidents, and learning a solution from the operator. */
module Engine {
  import opened Common
  import opened LogFormat
  import opened Ledger
  import opened PatternCompiler
  import opened HoleMatch
  import opened Selection
  import opened ScriptBinding
  import opened Learning
  import opened Seeds
  import opened Sweeps

  /** `initialize_solutions`: the seed rows, but only into an empty table. */
  function Seeded(sols: seq<Solution>, now: string): (r: seq<Solution>)
  {
    if |sols| == 0 then SeedSolutions(now) else sols
  }

  /** Seeding is done once: a second start keeps the first start's rows. */
  lemma SeededOnce(sols: seq<Solution>, now: string, later: string)
    ensures |Seeded(sols, now)| > 0
    ensures Seeded(Seeded(sols, now), later) == Seeded(sols, now)
    ensures |sols| > 0 ==> Seeded(sols, now) == sols
  {
  }

  /** The solution row `request_user_input` stores for an answer. */
  function Learned(message: string, answer: string, now: string): Solution {
    Solution(Generalize(message), Strip(answer), 0.8, now)
  }

  lemma {:induction false} SubNonEmpty(r: Rule, s: string)
    requires |s| > 0
    ensures |Sub(r, s)| > 0
  {
    match RuleMatch(r, s)
    case Some(k) =>
      assert Sub(r, s) == Kept(r) + Placeholder(RuleHole(r)) + Sub(r, s[k..]);
      assert |Placeholder(RuleHole(r))| > 0;
    case None =>
      assert Sub(r, s) == [s[0]] + Sub(r, s[1..]);
  }

  /** Once an answer is learned for a message, the message has a solution:
      the learned pattern matches the message it came from and, being
      non-empty, scores above zero. */
  lemma LearnedFound(sols: seq<Solution>, message: string, answer: string, now: string)
    requires NoBrace(message) && |message| > 0
    ensures Best(sols + [Learned(message, answer, now)], message).Some?
  {
    var all := sols + [Learned(message, answer, now)];
    SubNonEmpty(Decimal, message);
    SubNonEmpty(ExitCode, Sub(Decimal, message));
    SubNonEmpty(Tx, Sub(ExitCode, Sub(Decimal, message)));
    LearnedPatternMatches(message);
    assert all[|sols|] == Learned(message, answer, now);
    assert Eligible(all[|sols|], message);
  }

  /** An empty command has no script name: `solution_script.split()[0]`
      raises and `apply_solution` reports failure. */
  lemma EmptyNeverRuns(w: World)
    ensures !Runs(w, "")
  {
    assert LStrip("") == "";
  }

  /** Marking the last row resolved only changes that row. */
  lemma MarkLast(incs: seq<Incident>, row: Incident, res: Resolution)
    requires Numbered(incs + [row])
    ensures MarkResolved(incs + [row], |incs| + 1, res) == incs + [row.(resolved := true, resolution := Some(res))]
  {
    MarkResolvedRow(incs + [row], |incs| + 1, res);
    assert (incs + [row])[|incs| := row.(resolved := true, resolution := Some(res))]
        == incs + [row.(resolved := true, resolution := Some(res))];
  }

  class MonitoringEngine {
    /** The `incidents` table, in insertion order. */
    var incidents: seq<Incident>
    /** The `solutions` table, in insertion order. */
    var solutions: seq<Solution>

    predicate Valid()
      reads this
    {
      Numbered(incidents) && Recorded(incidents)
    }

    /** A fresh database: both tables empty. */
    constructor ()
      ensures Valid() && incidents == [] && solutions == []
    {
      incidents := [];
      solutions := [];
    }

    /** `initialize_solutions`: the nine seed rows go into an empty table;
        a table with rows is left alone. */
    method InitializeSolutions(now: string)
      modifies this
      ensures solutions == Seeded(old(solutions), now)
      ensures incidents == old(incidents)
    {
      if |solutions| > 0 {
        return;
      }
      solutions := SeedSolutions(now);
    }

    /** `find_solution`: scan the solutions in table order, keep the first
        match with the longest pattern, and bind its captures into its
        script. */
    method FindSolution(message: string) returns (r: Option<string>)
      ensures r == Best(solutions, message)
    {
      ghost var scores := Scores(solutions, message);
      var best: Option<string> := None;
      var bestScore: nat := 0;
      ghost var lead: nat := 0;
      ScanStart(scores);
      var k := 0;
      while k < |solutions|
        invariant ScanState(scores, k, best.Some?, bestScore, lead)
        invariant best.Some? ==> Matches(solutions[lead], message)
                                 && best.value == Suggestion(solutions[lead], message)
      {
        var s := solutions[k];
        var m := Search(Compile(s.pattern), message);
        assert scores[k] == if m.Some? then |s.pattern| else 0;
        if m.Some? && |s.pattern| > bestScore {
          ScanTake(scores, k, best.Some?, bestScore, lead);
          bestScore := |s.pattern|;
          var bound := BindScript(s.script, m.value);
          best := Some(bound);
          lead := k;
        } else {
          ScanPass(scores, k, best.Some?, bestScore, lead);
        }
        k := k + 1;
      }
      ScanEnd(solutions, message, best.Some?, bestScore, lead);
      if best.Some? {
        BestOf(solutions, message, lead);
      }
      r := best;
    }

    /** `apply_solution`: split the command, refuse a script that is not
        under `scripts/`, run it, and on exit status 0 with output that
        decodes as UTF-8 store the run's record in the row with that id. */
    method ApplySolution(id: nat, script: string, w: World) returns (ok: bool)
      requires Valid()
      modifies this
      ensures Valid()
      ensures ok <==> Runs(w, script)
      ensures ok ==> incidents == MarkResolved(old(incidents), id, ResolutionOf(w, script))
      ensures !ok ==> incidents == old(incidents)
      ensures solutions == old(solutions)
    {
      var command := ParseCommand(script);
      if command.None? {
        return false;
      }
      var (name, args) := command.value;
      if name !in w.scripts {
        return false;
      }
      var outcome := w.run(name, args);
      if outcome.exitCode != 0 {
        return false;
      }
      if !outcome.utf8 {
        return false;
      }
      MarkResolvedKeeps(incidents, id, Resolution(script, w.now, outcome.elapsed, outcome.stdout));
      incidents := MarkResolved(incidents, id, Resolution(script, w.now, outcome.elapsed, outcome.stdout));
      ok := true;
    }

    /** The step both sweeps take for an unresolved row: look up a
        solution for its message and, when there is a non-empty one, apply
        it to the row's id. */
    method Resolve(i: nat, w: World) returns (resolved: bool)
      requires Valid() && i < |incidents| && !incidents[i].resolved
      modifies this
      ensures Valid() && solutions == old(solutions)
      ensures incidents == old(incidents)[i := Attempt(old(incidents)[i], solutions, w)]
      ensures resolved == Attempt(old(incidents)[i], solutions, w).resolved
    {
      var row := incidents[i];
      var solution := FindSolution(row.message);
      resolved := false;
      if solution.Some? && |solution.value| > 0 {
        resolved := ApplySolution(row.id, solution.value, w);
        if resolved {
          MarkResolvedRow(old(incidents), i + 1, ResolutionOf(w, solution.value));
        }
      } else if solution.Some? {
        EmptyNeverRuns(w);
      }
      AttemptBy(row, solutions, w, solution, resolved);
    }

    /** What `check_logs` does with a fresh alert: insert it as an
        unresolved incident with the next id, then try to resolve it. */
    method Record(e: LogEntry, w: World) returns (resolved: bool)
      requires Valid()
      modifies this
      ensures Valid() && solutions == old(solutions)
      ensures incidents == old(incidents) + [Attempt(Unresolved(|old(incidents)| + 1, e), solutions, w)]
      ensures resolved == Attempt(Unresolved(|old(incidents)| + 1, e), solutions, w).resolved
    {
      incidents := incidents + [Unresolved(|incidents| + 1, e)];
      resolved := Resolve(|incidents| - 1, w);
    }

    /** Line `i` of the sweep that started from `base` and has read the
        lines before it: an alert whose message has no incident yet is
        recorded. */
    method Take(lines: seq<string>, i: nat, ghost base: seq<Incident>, w: World, count: nat)
      returns (newCount: nat)
      requires i < |lines|
      requires Valid() && incidents == Swept(base, lines[..i], solutions, w)
      requires count == SweptCount(base, lines[..i], solutions, w)
      modifies this
      ensures Valid() && solutions == old(solutions)
      ensures incidents == Swept(base, lines[..i + 1], solutions, w)
      ensures newCount == SweptCount(base, lines[..i + 1], solutions, w)
    {
      newCount := count;
      var entry := AlertOf(lines[i]);
      if entry.Some? && entry.value.message !in Messages(incidents) {
        SweptTakes(base, lines, i, entry.value, solutions, w);
        var resolved := Record(entry.value, w);
        if resolved {
          newCount := newCount + 1;
        }
      } else {
        SweptSkips(base, lines, i, solutions, w);
      }
    }

    /** The sweep of `check_logs` over the lines `lines`; the result is how
        many of the incidents it adds it resolved. */
    method Ingest(lines: seq<string>, w: World) returns (resolvedCount: nat)
      requires Valid()
      modifies this
      ensures Valid() && solutions == old(solutions)
      ensures incidents == Swept(old(incidents), lines, solutions, w)
      ensures resolvedCount == SweptCount(old(incidents), lines, solutions, w)
    {
      ghost var base := incidents;
      SweptNone(base, solutions, w);
      assert lines[..0] == [];
      resolvedCount := 0;
      var i := 0;
      while i < |lines|
        invariant i <= |lines|
        invariant Valid() && solutions == old(solutions)
        invariant incidents == Swept(base, lines[..i], solutions, w)
        invariant resolvedCount == SweptCount(base, lines[..i], solutions, w)
      {
        resolvedCount := Take(lines, i, base, w, resolvedCount);
        i := i + 1;
      }
      assert lines[..i] == lines;
    }

    /** `check_logs` over the log file's contents (`None`: no file). Each
        alert among the latest lines whose message has no incident yet is
        inserted, a solution is looked up and applied; the result is the
        number of new incidents resolved. */
    method CheckLogs(log: Option<string>, w: World) returns (resolvedCount: nat)
      requires Valid()
      modifies this
      ensures Valid()
      ensures log.None? ==> incidents == old(incidents) && resolvedCount == 0
      ensures log.Some? ==> incidents == Sweep(old(incidents), log.value, old(solutions), w)
      ensures log.Some? ==> resolvedCount == CountResolved(incidents[|old(incidents)|..])
      ensures solutions == old(solutions)
    {
      resolvedCount := 0;
      if log.None? {
        return;
      }
      resolvedCount := Ingest(LatestLines(ReadLines(log.value)), w);
      SweepCount(old(incidents), log.value, solutions, w);
    }

    /** `resolve_unresolved_incidents`: the rows unresolved at the start,
        each looked up and applied again; the result is how many of them
        were resolved. */
    method ResolveUnresolvedIncidents(w: World) returns (count: nat)
      requires Valid()
      modifies this
      ensures Valid()
      ensures incidents == Retried(old(incidents), old(solutions), w)
      ensures CountResolved(old(incidents)) + count == CountResolved(incidents)
      ensures solutions == old(solutions)
    {
      var rows := incidents;
      count := 0;
      var i := 0;
      while i < |rows|
        invariant Valid() && solutions == old(solutions)
        invariant RetriedUpTo(rows, incidents, i, solutions, w)
        invariant CountResolved(rows) + count == CountResolved(incidents)
      {
        ghost var before := incidents;
        if !rows[i].resolved {
          var resolved := Resolve(i, w);
          CountResolvedUpdate(before, i, incidents[i]);
          if resolved {
            count := count + 1;
          }
        }
        RetryStep(rows, before, i, solutions, w);
        i := i + 1;
      }
      RetryDone(rows, incidents, solutions, w);
    }

    /** `request_user_input` with the operator's answer: an empty answer
        changes nothing; otherwise the message's generalised pattern is
        stored with the answer as its script, and the answer is applied to
        the incident. */
    method RequestUserInput(id: nat, message: string, answer: string, w: World) returns (ok: bool)
      requires Valid()
      modifies this
      ensures Valid()
      ensures |Strip(answer)| == 0 ==> !ok && incidents == old(incidents) && solutions == old(solutions)
      ensures |Strip(answer)| > 0 ==> solutions == old(solutions) + [Learned(message, answer, w.now)]
      ensures |Strip(answer)| > 0 ==> (ok <==> Runs(w, Strip(answer)))
      ensures |Strip(answer)| > 0 && ok ==> incidents == MarkResolved(old(incidents), id, ResolutionOf(w, Strip(answer)))
      ensures !ok ==> incidents == old(incidents)
    {
      var solution := Strip(answer);
      if |solution| == 0 {
        return false;
      }
      var pattern := Generalize(message);
      solutions := solutions + [Solution(pattern, solution, 0.8, w.now)];
      ok := ApplySolution(id, solution, w);
    }
  }
}
