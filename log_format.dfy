/** The services log: the pipe-delimited line written by
    `SyntheticDataGenerator._write_log_entry`, the file as `readlines()`
    returns it, and the line filter at the top of `check_logs`. */
module LogFormat {
  import opened Common

  datatype LogEntry = LogEntry(timestamp: string, service: string, logType: string,
                               severity: string, message: string)

  function Fields(e: LogEntry): seq<string> {
    [e.timestamp, e.service, e.logType, e.severity, e.message]
  }

  /** The line `_write_log_entry` appends: five fields joined by '|', then a newline. */
  function FormatEntry(e: LogEntry): string {
    e.timestamp + "|" + e.service + "|" + e.logType + "|" + e.severity + "|" + e.message + "\n"
  }

  /** `check_logs`: `parts = line.strip().split("|")`, kept only when there
      are exactly five parts. */
  function ParseLine(line: string): (r: Option<LogEntry>)
    ensures r.Some? <==> |SplitOn(Strip(line), '|')| == 5
    ensures r.Some? ==> Join(Fields(r.value), "|") == Strip(line)
    ensures r.Some? ==> forall i :: 0 <= i < 5 ==> '|' !in Fields(r.value)[i]
  {
    var parts := SplitOn(Strip(line), '|');
    if |parts| != 5 then None
    else
      var e := LogEntry(parts[0], parts[1], parts[2], parts[3], parts[4]);
      assert Fields(e) == parts;
      Some(e)
  }

  /** What a written entry must satisfy to be read back unchanged: no field
      holds the separator, and `strip()` cannot eat into the first or last field. */
  predicate Writable(e: LogEntry) {
    && (forall i :: 0 <= i < 5 ==> '|' !in Fields(e)[i])
    && (|e.timestamp| > 0 ==> !IsSpace(e.timestamp[0]))
    && (|e.message| > 0 ==> !IsSpace(e.message[|e.message| - 1]))
  }

  lemma JoinFields(e: LogEntry)
    ensures FormatEntry(e) == Join(Fields(e), "|") + "\n"
  {
    var f := Fields(e);
    assert f[1..][1..][1..][1..] == [e.message];
    assert f[1..][1..][1..] == [e.severity, e.message];
    assert f[1..][1..] == [e.logType, e.severity, e.message];
    assert f[1..] == [e.service, e.logType, e.severity, e.message];
    var j4 := e.message;
    var j3 := e.severity + "|" + j4;
    var j2 := e.logType + "|" + j3;
    var j1 := e.service + "|" + j2;
    var j0 := e.timestamp + "|" + j1;
    assert Join(f[1..][1..][1..], "|") == j3;
    assert Join(f[1..][1..], "|") == j2;
    assert Join(f[1..], "|") == j1;
    assert Join(f, "|") == j0;
    assert FormatEntry(e) == j0 + "\n";
  }

  lemma LStripKeeps(s: string)
    requires |s| > 0 && !IsSpace(s[0])
    ensures LStrip(s) == s
  {
  }

  lemma RStripNewline(j: string)
    requires |j| > 0 && !IsSpace(j[|j| - 1])
    ensures RStrip(j + "\n") == j
  {
    var s := j + "\n";
    assert s[..|s| - 1] == j;
  }

  /** `strip()` removes exactly the newline from a writable line. */
  lemma StripFormatted(e: LogEntry)
    requires Writable(e)
    ensures Strip(FormatEntry(e)) == Join(Fields(e), "|")
  {
    JoinFields(e);
    var j := Join(Fields(e), "|");
    var x := e.timestamp + "|" + e.service + "|" + e.logType + "|" + e.severity + "|";
    assert j + "\n" == x + e.message + "\n";
    assert j == x + e.message by {
      assert |j| == |x + e.message|;
      assert (j + "\n")[..|j|] == j;
      assert (x + e.message + "\n")[..|j|] == x + e.message;
    }
    assert |x| > 0 && x[|x| - 1] == '|';
    assert j[|j| - 1] == (if |e.message| > 0 then e.message[|e.message| - 1] else '|');
    var y := "|" + e.service + "|" + e.logType + "|" + e.severity + "|" + e.message + "\n";
    assert j + "\n" == e.timestamp + y;
    assert (j + "\n")[0] == (if |e.timestamp| > 0 then e.timestamp[0] else '|');
    LStripKeeps(j + "\n");
    RStripNewline(j);
  }

  /** Round trip: parsing a line written by `_write_log_entry` gives back
      its five fields. */
  lemma ParseFormatted(e: LogEntry)
    requires Writable(e)
    ensures ParseLine(FormatEntry(e)) == Some(e)
  {
    StripFormatted(e);
    SplitJoin(Fields(e), '|');
  }

  /** Index just past the first newline of `s`, or `|s|` when there is none. */
  function LineEnd(s: string): (k: nat)
    requires |s| > 0
    ensures 0 < k <= |s|
    ensures forall i :: 0 <= i < k - 1 ==> s[i] != '\n'
    ensures s[k - 1] == '\n' || k == |s|
    decreases |s|
  {
    if s[0] == '\n' || |s| == 1 then 1 else 1 + LineEnd(s[1..])
  }

  /** The text cut after every '\n', each line keeping its '\n'; a last
      line without one is kept too. */
  function SplitLines(text: string): (lines: seq<string>)
    ensures forall i :: 0 <= i < |lines| ==> |lines[i]| > 0
    decreases |text|
  {
    if |text| == 0 then []
    else
      var k := LineEnd(text);
      [text[..k]] + SplitLines(text[k..])
  }

  /** Universal newlines of a file opened in text mode: "\r\n" and a lone
      '\r' are both read as '\n'. */
  function Universal(content: string): (text: string)
    ensures '\r' !in text
    ensures |text| <= |content|
    decreases |content|
  {
    if |content| == 0 then ""
    else if content[0] == '\r' then
      if |content| > 1 && content[1] == '\n' then "\n" + Universal(content[2..])
      else "\n" + Universal(content[1..])
    else [content[0]] + Universal(content[1..])
  }

  /** Text without a carriage return is read as written. */
  lemma {:induction false} UniversalFixed(content: string)
    requires '\r' !in content
    ensures Universal(content) == content
    decreases |content|
  {
    if |content| > 0 {
      assert content[0] != '\r' by { assert content[0] in content; }
      assert '\r' !in content[1..] by { assert forall c :: c in content[1..] ==> c in content; }
      UniversalFixed(content[1..]);
      assert content == [content[0]] + content[1..];
    }
  }

  /** Each line terminator, whichever of "\n", "\r\n" or "\r" it is, ends
      exactly one line: the text read has as many '\n' as the file has
      terminators. */
  lemma {:induction false} UniversalTerminators(content: string)
    ensures NewlineCount(Universal(content)) == TerminatorCount(content)
    decreases |content|
  {
    if |content| > 0 {
      if content[0] == '\r' && |content| > 1 && content[1] == '\n' {
        UniversalTerminators(content[2..]);
        assert ("\n" + Universal(content[2..]))[1..] == Universal(content[2..]);
      } else if content[0] == '\r' {
        UniversalTerminators(content[1..]);
        assert ("\n" + Universal(content[1..]))[1..] == Universal(content[1..]);
      } else {
        UniversalTerminators(content[1..]);
        assert ([content[0]] + Universal(content[1..]))[1..] == Universal(content[1..]);
      }
    }
  }

  function NewlineCount(s: string): nat
    decreases |s|
  {
    if |s| == 0 then 0 else (if s[0] == '\n' then 1 else 0) + NewlineCount(s[1..])
  }

  /** Line terminators of a file: "\r\n" counts once, a lone '\r' or '\n' once. */
  function TerminatorCount(s: string): nat
    decreases |s|
  {
    if |s| == 0 then 0
    else if s[0] == '\r' && |s| > 1 && s[1] == '\n' then 1 + TerminatorCount(s[2..])
    else (if s[0] == '\r' || s[0] == '\n' then 1 else 0) + TerminatorCount(s[1..])
  }

  /** `f.readlines()` on a file opened with `open(log_file, "r")`: universal
      newlines, then the text cut after every '\n'. */
  function ReadLines(content: string): (lines: seq<string>)
    ensures forall i :: 0 <= i < |lines| ==> |lines[i]| > 0
  {
    SplitLines(Universal(content))
  }

  /** The log file after `_write_log_entry` has appended `entries` in order. */
  function LogFile(entries: seq<LogEntry>): string
    decreases |entries|
  {
    if |entries| == 0 then "" else FormatEntry(entries[0]) + LogFile(entries[1..])
  }

  /** No field holds a line terminator, '\n' or '\r'. */
  predicate NoNewline(e: LogEntry) {
    forall i :: 0 <= i < 5 ==> '\n' !in Fields(e)[i] && '\r' !in Fields(e)[i]
  }

  lemma {:induction false} LineEndOfFormatted(e: LogEntry, tail: string)
    requires NoNewline(e)
    ensures LineEnd(FormatEntry(e) + tail) == |FormatEntry(e)|
  {
    JoinFields(e);
    var line := FormatEntry(e);
    var j := Join(Fields(e), "|");
    JoinHasNoNewline(Fields(e));
    assert line == j + "\n";
    LineEndAt(j, tail);
  }

  lemma {:induction false} JoinHasNoNewline(parts: seq<string>)
    requires forall i :: 0 <= i < |parts| ==> '\n' !in parts[i]
    ensures '\n' !in Join(parts, "|")
    decreases |parts|
  {
    if |parts| > 1 {
      JoinHasNoNewline(parts[1..]);
      assert Join(parts, "|") == parts[0] + "|" + Join(parts[1..], "|");
    }
  }

  lemma {:induction false} LineEndAt(j: string, tail: string)
    requires '\n' !in j
    ensures LineEnd(j + "\n" + tail) == |j| + 1
    decreases |j|
  {
    var s := j + "\n" + tail;
    if |j| > 0 {
      assert s[0] == j[0] && s[0] != '\n' by { assert j[0] in j; }
      assert s[1..] == j[1..] + "\n" + tail;
      assert '\n' !in j[1..] by { assert forall c :: c in j[1..] ==> c in j; }
      LineEndAt(j[1..], tail);
    } else {
      assert s[0] == '\n';
    }
  }

  /** Text without a carriage return passes through unchanged ahead of the rest. */
  lemma {:induction false} UniversalPrefix(a: string, b: string)
    requires '\r' !in a
    ensures Universal(a + b) == a + Universal(b)
    decreases |a|
  {
    if |a| > 0 {
      assert a[0] != '\r' by { assert a[0] in a; }
      assert '\r' !in a[1..] by { assert forall c :: c in a[1..] ==> c in a; }
      assert (a + b)[1..] == a[1..] + b;
      UniversalPrefix(a[1..], b);
      assert a == [a[0]] + a[1..];
    } else {
      assert a + b == b;
    }
  }

  lemma {:induction false} LoneReturnTail(y: string)
    requires '\r' !in y && '\n' !in y && |y| > 0
    ensures Universal("\r" + y + "\n") == "\n" + y + "\n"
  {
    var tail := "\r" + y + "\n";
    assert tail[0] == '\r';
    assert tail[1] == y[0] && y[0] != '\n' by { assert y[0] in y; }
    assert tail[1..] == y + "\n";
    UniversalFixed(y + "\n");
  }

  lemma {:induction false} LoneReturnRead(x: string, y: string)
    requires '\r' !in x && '\r' !in y && '\n' !in y && |y| > 0
    ensures Universal(x + "\r" + y + "\n") == x + "\n" + y + "\n"
  {
    assert x + "\r" + y + "\n" == x + ("\r" + y + "\n");
    UniversalPrefix(x, "\r" + y + "\n");
    LoneReturnTail(y);
    assert x + ("\n" + y + "\n") == x + "\n" + y + "\n";
  }

  lemma {:induction false} TwoLines(x: string, y: string)
    requires '\n' !in x && '\n' !in y
    ensures SplitLines(x + "\n" + y + "\n") == [x + "\n", y + "\n"]
  {
    var u := x + "\n" + y + "\n";
    LineEndAt(x, y + "\n");
    assert u == x + "\n" + (y + "\n");
    assert u[..|x| + 1] == x + "\n";
    assert u[|x| + 1..] == y + "\n";
    LineEndAt(y, "");
    assert y + "\n" + "" == y + "\n";
    assert (y + "\n")[..|y| + 1] == y + "\n";
    assert (y + "\n")[|y| + 1..] == "";
    assert SplitLines(y + "\n") == [y + "\n"] + SplitLines("");
  }

  /** A lone '\r' ends a line just as '\n' does: a file holding `x`, a
      carriage return, `y` and a newline reads as two lines. */
  lemma LoneReturnEndsLine(x: string, y: string)
    requires '\r' !in x && '\n' !in x && '\r' !in y && '\n' !in y && |y| > 0
    ensures ReadLines(x + "\r" + y + "\n") == [x + "\n", y + "\n"]
  {
    LoneReturnRead(x, y);
    TwoLines(x, y);
  }

  /** Cutting what `_write_log_entry` wrote gives one line per entry. */
  lemma {:induction false} SplitLogFile(entries: seq<LogEntry>)
    requires forall i :: 0 <= i < |entries| ==> NoNewline(entries[i])
    ensures |SplitLines(LogFile(entries))| == |entries|
    ensures forall i :: 0 <= i < |entries| ==> SplitLines(LogFile(entries))[i] == FormatEntry(entries[i])
    decreases |entries|
  {
    if |entries| > 0 {
      var line := FormatEntry(entries[0]);
      var tail := LogFile(entries[1..]);
      var file := LogFile(entries);
      assert file == line + tail;
      LineEndOfFormatted(entries[0], tail);
      assert file[..|line|] == line;
      assert file[|line|..] == tail;
      SplitLogFile(entries[1..]);
      var lines := SplitLines(file);
      assert lines == [line] + SplitLines(tail);
      forall i | 0 <= i < |entries| ensures lines[i] == FormatEntry(entries[i]) {
        if i > 0 {
          assert lines[i] == SplitLines(tail)[i - 1];
          assert entries[1..][i - 1] == entries[i];
        }
      }
    }
  }

  /** A file of entries without a '\r' in any field holds no '\r'. */
  lemma {:induction false} LogFileNoReturn(entries: seq<LogEntry>)
    requires forall i :: 0 <= i < |entries| ==> NoNewline(entries[i])
    ensures '\r' !in LogFile(entries)
    decreases |entries|
  {
    if |entries| > 0 {
      var e := entries[0];
      assert NoNewline(e);
      assert '\r' !in e.timestamp && '\r' !in e.service && '\r' !in e.logType
          && '\r' !in e.severity && '\r' !in e.message by {
        assert Fields(e)[0] == e.timestamp && Fields(e)[1] == e.service;
        assert Fields(e)[2] == e.logType && Fields(e)[3] == e.severity;
        assert Fields(e)[4] == e.message;
      }
      LogFileNoReturn(entries[1..]);
      assert '\r' !in FormatEntry(e);
    }
  }

  /** Round trip through the file: reading back what `_write_log_entry`
      wrote gives one line per entry, each the line written. */
  lemma ReadLogFile(entries: seq<LogEntry>)
    requires forall i :: 0 <= i < |entries| ==> NoNewline(entries[i])
    ensures |ReadLines(LogFile(entries))| == |entries|
    ensures forall i :: 0 <= i < |entries| ==> ReadLines(LogFile(entries))[i] == FormatEntry(entries[i])
  {
    LogFileNoReturn(entries);
    UniversalFixed(LogFile(entries));
    SplitLogFile(entries);
  }

  /** Number of log lines `check_logs` looks at. */
  const Window: nat := 50

  /** `lines[-50:] if len(lines) > 50 else lines`. */
  function LatestLines(lines: seq<string>): (r: seq<string>)
    ensures |r| <= Window && |r| <= |lines|
    ensures r == lines[|lines| - |r|..]
    ensures |lines| <= Window ==> r == lines
    ensures |lines| > Window ==> |r| == Window
  {
    if |lines| > Window then lines[|lines| - Window..] else lines
  }

  /** The severities `check_logs` turns into incidents. */
  predicate IsAlert(severity: string) {
    severity == "error" || severity == "warning" || severity == "critical"
  }

  /** One line through the filter: its entry when it parses and is an alert. */
  function AlertOf(line: string): (r: Option<LogEntry>)
    ensures r.Some? ==> IsAlert(r.value.severity)
  {
    match ParseLine(line)
    case Some(e) => if IsAlert(e.severity) then Some(e) else None
    case None => None
  }

  /** The entries `check_logs` goes on to deduplicate, in log order: lines
      that parse into five fields with an alert severity. */
  function Alerts(lines: seq<string>): (es: seq<LogEntry>)
    ensures |es| <= |lines|
    ensures forall i :: 0 <= i < |es| ==> IsAlert(es[i].severity)
    decreases |lines|
  {
    if |lines| == 0 then []
    else
      var rest := Alerts(lines[1..]);
      match AlertOf(lines[0])
      case Some(e) => [e] + rest
      case None => rest
  }

  /** Every entry that survives the filter comes from a line that parses to
      it with an alert severity. */
  lemma {:induction false} AlertsSound(lines: seq<string>, e: LogEntry)
    requires e in Alerts(lines)
    ensures exists i :: 0 <= i < |lines| && AlertOf(lines[i]) == Some(e)
    decreases |lines|
  {
    AlertsCons(lines);
    if AlertOf(lines[0]) != Some(e) {
      var tail := lines[1..];
      AlertListOther(lines[0], e);
      InLeftOrRight(e, AlertList(lines[0]), Alerts(tail));
      AlertsSound(tail, e);
      var i :| 0 <= i < |tail| && AlertOf(tail[i]) == Some(e);
      assert tail[i] == lines[i + 1];
    }
  }

  lemma AlertListOther(line: string, e: LogEntry)
    requires AlertOf(line) != Some(e)
    ensures e !in AlertList(line)
  {
  }

  lemma InLeftOrRight(x: LogEntry, a: seq<LogEntry>, b: seq<LogEntry>)
    requires x in a + b && x !in a
    ensures x in b
  {
  }

  /** Every line that parses to an alert contributes its entry. */
  lemma {:induction false} AlertsComplete(lines: seq<string>, i: nat)
    requires i < |lines| && AlertOf(lines[i]).Some?
    ensures AlertOf(lines[i]).value in Alerts(lines)
    decreases i
  {
    AlertsCons(lines);
    if i > 0 {
      var tail := lines[1..];
      assert tail[i - 1] == lines[i];
      AlertsComplete(tail, i - 1);
      InRight(AlertOf(lines[i]).value, AlertList(lines[0]), Alerts(tail));
    } else {
      AlertListSome(lines[0]);
    }
  }

  /** The filter reads the first line, then the rest. */
  lemma {:induction false} AlertsCons(lines: seq<string>)
    requires |lines| > 0
    ensures Alerts(lines) == AlertList(lines[0]) + Alerts(lines[1..])
  {
    var rest := Alerts(lines[1..]);
    match AlertOf(lines[0])
    case Some(e) =>
      assert AlertList(lines[0]) == [e];
    case None =>
      assert AlertList(lines[0]) == [];
      assert [] + rest == rest;
  }

  lemma AlertListSome(line: string)
    requires AlertOf(line).Some?
    ensures AlertList(line) == [AlertOf(line).value]
  {
  }

  lemma InRight(x: LogEntry, a: seq<LogEntry>, b: seq<LogEntry>)
    requires x in b
    ensures x in a + b
  {
  }

  /** The entries one line contributes: its alert, if it is one. */
  function AlertList(line: string): (es: seq<LogEntry>)
    ensures |es| <= 1
  {
    match AlertOf(line)
    case Some(e) => [e]
    case None => []
  }

  /** Filtering one more line appends that line's alert, if any: the filter
      reads the lines one at a time, in order. */
  lemma {:induction false} AlertsSnoc(lines: seq<string>, line: string)
    ensures Alerts(lines + [line]) == Alerts(lines) + AlertList(line)
    decreases |lines|
  {
    if |lines| == 0 {
      assert lines + [line] == [line];
      assert Alerts([line][1..]) == [];
    } else {
      assert (lines + [line])[1..] == lines[1..] + [line];
      AlertsSnoc(lines[1..], line);
    }
  }
}
