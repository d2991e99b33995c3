/** The solution patterns `initialize_solutions` seeds, and what
    `find_solution` makes of three alert messages against them. */
module Seeds {
  import opened Common
  import opened PatternCompiler
  import opened HoleMatch
  import opened ScriptBinding
  import opened Ledger
  import opened Selection

  /** The nine rows `initialize_solutions` inserts into an empty `solutions`
      table, in order, each stamped with the clock reading `now`. Each
      template is written as its literal runs and its placeholders joined
      together; the text they spell is the seed's text. */
  function SeedSolutions(now: string): (r: seq<Solution>)
    ensures |r| == 9
  {
    [ Solution("{service}" + " process terminated" + " unexpectedly with exit code " + "{code}",
               "restart_service.sh " + "{service}", 0.95, now),
      Solution("CPU usage for " + "{service}" + " exceeded threshold: " + "{value}" + "%",
               "optimize_service.sh " + "{service}" + " cpu", 0.9, now),
      Solution("Memory usage for " + "{service}" + " continually increasing," + " current: " + "{value}" + "MB",
               "restart_service.sh " + "{service}", 0.95, now),
      Solution("Disk usage reached " + "{value}" + "%, clean up required",
               "cleanup_disk.sh", 0.98, now),
      Solution("Network usage for " + "{service}" + " exceeds normal patterns: " + "{value}" + "MB/s",
               "optimize_service.sh " + "{service}" + " network", 0.85, now),
      Solution("Database deadlock detected" + " in transaction " + "{txid}",
               "resolve_deadlock.sh " + "{txid}", 0.9, now),
      Solution("Slow query detected in " + "{service}" + ": " + "{query}" + " (took " + "{value}" + "ms)",
               "optimize_query.sh \"" + "{query}" + "\"", 0.8, now),
      Solution("Connection timeout when " + "{service}" + " accessing " + "{target}",
               "check_network.sh " + "{service}" + " " + "{target}", 0.85, now),
      Solution("Permission denied for " + "{service}" + " accessing " + "{resource}",
               "fix_permissions.sh " + "{service}" + " " + "{resource}", 0.95, now) ]
  }

  // ---------------------------------------------------------------------
  // Compiling templates piece by piece

  lemma TokenizeLiteral(a: string)
    requires NoBrace(a)
    ensures Tokenize(a) == Escape(a)
  {
    TokenizeLiteralThen(a, "");
    assert a + "" == a;
    assert Tokenize("") == [];
  }

  /** Compiling is tokenizing, stated so that callers need not unfold `Compile`. */
  lemma CompileAs(t: string, toks: seq<Tok>)
    requires Tokenize(t) == toks
    ensures Compile(t) == toks
  {
    CompileIsTokenize(t);
  }

  /** A literal run, a placeholder and another literal run. */
  lemma TokenizeOne(a: string, h: Hole, b: string)
    requires NoBrace(a) && NoBrace(b)
    ensures Tokenize(a + (Placeholder(h) + b)) == Escape(a) + ([Group(h)] + Escape(b))
  {
    TokenizeLiteralThen(a, Placeholder(h) + b);
    TokenizePlaceholderThen(h, b);
    TokenizeLiteral(b);
  }

  lemma TokenizeTwo(a: string, h1: Hole, b: string, h2: Hole, c: string)
    requires NoBrace(a) && NoBrace(b) && NoBrace(c)
    ensures Tokenize(a + (Placeholder(h1) + (b + (Placeholder(h2) + c))))
            == Escape(a) + ([Group(h1)] + (Escape(b) + ([Group(h2)] + Escape(c))))
  {
    TokenizeLiteralThen(a, Placeholder(h1) + (b + (Placeholder(h2) + c)));
    TokenizePlaceholderThen(h1, b + (Placeholder(h2) + c));
    TokenizeOne(b, h2, c);
  }

  /** A template with one placeholder between two literal runs. */
  lemma CompileOne(a: string, h: Hole, b: string)
    requires NoBrace(a) && NoBrace(b)
    ensures Compile(a + (Placeholder(h) + b)) == Escape(a) + ([Group(h)] + Escape(b))
  {
    TokenizeOne(a, h, b);
    CompileAs(a + (Placeholder(h) + b), Escape(a) + ([Group(h)] + Escape(b)));
  }

  /** A template with two placeholders among three literal runs. */
  lemma CompileTwo(a: string, h1: Hole, b: string, h2: Hole, c: string)
    requires NoBrace(a) && NoBrace(b) && NoBrace(c)
    ensures Compile(a + (Placeholder(h1) + (b + (Placeholder(h2) + c))))
            == Escape(a) + ([Group(h1)] + (Escape(b) + ([Group(h2)] + Escape(c))))
  {
    TokenizeTwo(a, h1, b, h2, c);
    CompileAs(a + (Placeholder(h1) + (b + (Placeholder(h2) + c))),
              Escape(a) + ([Group(h1)] + (Escape(b) + ([Group(h2)] + Escape(c)))));
  }

  /** A literal character at the head of a template is a literal unit of
      its tokens. */
  lemma LiteralTokenFirst(a: string, rest: string, c: char)
    requires NoBrace(a) && c in a
    ensures Lit(c) in Tokenize(a + rest)
  {
    TokenizeLiteralThen(a, rest);
    var k :| 0 <= k < |a| && a[k] == c;
    assert Escape(a)[k] == Lit(c);
    assert Tokenize(a + rest)[k] == Lit(c);
  }

  /** The same for a literal run right after a placeholder. */
  lemma LiteralTokenAfter(h: Hole, a: string, rest: string, c: char)
    requires NoBrace(a) && c in a
    ensures Lit(c) in Tokenize(Placeholder(h) + (a + rest))
  {
    LiteralTokenFirst(a, rest, c);
    TokenizePlaceholderThen(h, a + rest);
    var k :| 0 <= k < |Tokenize(a + rest)| && Tokenize(a + rest)[k] == Lit(c);
    assert Tokenize(Placeholder(h) + (a + rest))[1 + k] == Lit(c);
  }

  /** A template whose tokens hold a literal the message lacks never
      matches it. */
  lemma MissesLiteral(t: string, c: char, msg: string)
    requires Lit(c) in Tokenize(t) && c !in msg
    ensures Search(Compile(t), msg).None?
  {
    CompileAs(t, Tokenize(t));
    MissingLiteral(Compile(t), msg, c);
  }

  // ---------------------------------------------------------------------
  // Matching a message built from the template

  /** A literal run then a group: the run is spelled out at `p` and the
      capture after it is the longest of its class. */
  lemma FitsRunGroup(a: string, h: Hole, v: string, rest: seq<Tok>, msg: string, p: nat, vals: seq<string>)
    requires At(a + v, msg, p) && InClass(h, v)
    requires Longest(h, msg, p + |a|, p + |a| + |v|)
    requires Fits(rest, msg, p + |a| + |v|, vals)
    ensures Fits(Escape(a) + ([Group(h)] + rest), msg, p, [v] + vals)
  {
    assert msg[p + |a|..p + |a| + |v|] == (a + v)[|a|..];
    FitsGroup(h, rest, msg, p + |a|, v, vals);
    assert msg[p..p + |a|] == (a + v)[..|a|];
    FitsLiteral(a, [Group(h)] + rest, msg, p, [v] + vals);
  }

  /** The capture ending at `e` is the longest when the text ends there or
      goes on with a character outside the class. */
  lemma LongestBefore(h: Hole, msg: string, p: nat, e: nat)
    requires p <= e <= |msg|
    requires e < |msg| ==> !ClassChar(h, msg[e])
    ensures Longest(h, msg, p, e)
  {
    if e < |msg| {
      LongestByStop(h, msg, p, e);
    }
  }

  lemma FitsRun(c: string, msg: string, p: nat)
    requires p + |c| == |msg| && msg[p..] == c
    ensures Fits(Escape(c), msg, p, [])
  {
    assert Escape(c) + [] == Escape(c);
    FitsLiteral(c, [], msg, p, []);
  }

  /** A one-placeholder template, with `v` in its hole, spelled out from
      position `p` to the end of the text, is matched there capturing `v`. */
  lemma FitsOne(a: string, h: Hole, v: string, b: string, msg: string, p: nat)
    requires InClass(h, v)
    requires |b| > 0 ==> !ClassChar(h, b[0])
    requires p + |a| + |v| + |b| == |msg| && msg[p..] == a + v + b
    ensures Fits(Escape(a) + ([Group(h)] + Escape(b)), msg, p, [v])
  {
    var e := p + |a| + |v|;
    assert msg[e..] == b by {
      assert msg[e..] == msg[p..][|a| + |v|..];
    }
    FitsRun(b, msg, e);
    if |b| > 0 {
      assert msg[e] == msg[p..][|a| + |v|];
    }
    LongestBefore(h, msg, p + |a|, e);
    assert At(a + v, msg, p) by {
      assert msg[p..p + |a + v|] == msg[p..][..|a + v|];
    }
    FitsRunGroup(a, h, v, Escape(b), msg, p, []);
    assert [v] + [] == [v];
  }

  /** The same for a template with two placeholders, spelled out in full. */
  lemma FitsTwo(a: string, h1: Hole, v1: string, b: string, h2: Hole, v2: string, c: string, msg: string)
    requires InClass(h1, v1) && InClass(h2, v2)
    requires |b| > 0 && !ClassChar(h1, b[0])
    requires |c| > 0 ==> !ClassChar(h2, c[0])
    requires msg == a + v1 + (b + v2 + c)
    ensures Fits(Escape(a) + ([Group(h1)] + (Escape(b) + ([Group(h2)] + Escape(c)))), msg, 0, [v1, v2])
  {
    var r := b + v2 + c;
    var e1 := |a| + |v1|;
    assert msg[e1..] == r;
    FitsOne(b, h2, v2, c, msg, e1);
    assert msg[e1] == r[0];
    LongestBefore(h1, msg, |a|, e1);
    assert At(a + v1, msg, 0) by {
      assert msg[0..|a + v1|] == a + v1;
    }
    FitsRunGroup(a, h1, v1, Escape(b) + ([Group(h2)] + Escape(c)), msg, 0, [v2]);
    assert [v1] + [v2] == [v1, v2];
  }

  /** When only solution `w` is eligible, it wins. */
  lemma OnlyEligible(sols: seq<Solution>, message: string, w: nat)
    requires w < |sols| && Eligible(sols[w], message)
    requires forall j :: 0 <= j < |sols| && j != w ==> !Matches(sols[j], message)
    ensures IsWinner(sols, message, w)
  {
  }

  // ---------------------------------------------------------------------
  // Letters each seed pattern spells literally

  lemma PlaceholderText()
    ensures Placeholder(Service) == "{service}" && Placeholder(Value) == "{value}"
    ensures Placeholder(Target) == "{target}"
  {
  }

  lemma Seed0Letters(now: string)
    ensures Lit('p') in Tokenize(SeedSolutions(now)[0].pattern)
    ensures Lit('o') in Tokenize(SeedSolutions(now)[0].pattern)
  {
    var a, rest := " process terminated", " unexpectedly with exit code " + "{code}";
    assert SeedSolutions(now)[0].pattern == "{service}" + (a + rest);
    PlaceholderText();
    LiteralTokenAfter(Service, a, rest, 'p');
    LiteralTokenAfter(Service, a, rest, 'o');
  }

  lemma Seed1Letters(now: string)
    ensures Lit('C') in Tokenize(SeedSolutions(now)[1].pattern)
    ensures Lit('P') in Tokenize(SeedSolutions(now)[1].pattern)
  {
    var rest := "{service}" + " exceeded threshold: " + "{value}" + "%";
    assert SeedSolutions(now)[1].pattern == "CPU usage for " + rest;
    LiteralTokenFirst("CPU usage for ", rest, 'C');
    LiteralTokenFirst("CPU usage for ", rest, 'P');
  }

  lemma Seed2Letters(now: string)
    ensures Lit('M') in Tokenize(SeedSolutions(now)[2].pattern)
  {
    var rest := "{service}" + " continually increasing," + " current: " + "{value}" + "MB";
    assert SeedSolutions(now)[2].pattern == "Memory usage for " + rest;
    LiteralTokenFirst("Memory usage for ", rest, 'M');
  }

  lemma Seed3Letters(now: string)
    ensures Lit('D') in Tokenize(SeedSolutions(now)[3].pattern)
  {
    var rest := "{value}" + "%, clean up required";
    assert SeedSolutions(now)[3].pattern == "Disk usage reached " + rest;
    LiteralTokenFirst("Disk usage reached ", rest, 'D');
  }

  lemma Seed4Letters(now: string)
    ensures Lit('N') in Tokenize(SeedSolutions(now)[4].pattern)
  {
    var rest := "{service}" + " exceeds normal patterns: " + "{value}" + "MB/s";
    assert SeedSolutions(now)[4].pattern == "Network usage for " + rest;
    LiteralTokenFirst("Network usage for ", rest, 'N');
  }

  lemma Seed5Letters(now: string)
    ensures Lit('D') in Tokenize(SeedSolutions(now)[5].pattern)
    ensures Lit('b') in Tokenize(SeedSolutions(now)[5].pattern)
  {
    var rest := " in transaction " + "{txid}";
    assert SeedSolutions(now)[5].pattern == "Database deadlock detected" + rest;
    LiteralTokenFirst("Database deadlock detected", rest, 'D');
    LiteralTokenFirst("Database deadlock detected", rest, 'b');
  }

  lemma Seed6Letters(now: string)
    ensures Lit('S') in Tokenize(SeedSolutions(now)[6].pattern)
  {
    var rest := "{service}" + ": " + "{query}" + " (took " + "{value}" + "ms)";
    assert SeedSolutions(now)[6].pattern == "Slow query detected in " + rest;
    LiteralTokenFirst("Slow query detected in ", rest, 'S');
  }

  lemma Seed7Letters(now: string)
    ensures Lit('C') in Tokenize(SeedSolutions(now)[7].pattern)
    ensures Lit('n') in Tokenize(SeedSolutions(now)[7].pattern)
  {
    var rest := "{service}" + " accessing " + "{target}";
    assert SeedSolutions(now)[7].pattern == "Connection timeout when " + rest;
    LiteralTokenFirst("Connection timeout when ", rest, 'C');
    LiteralTokenFirst("Connection timeout when ", rest, 'n');
  }

  lemma Seed8Letters(now: string)
    ensures Lit('P') in Tokenize(SeedSolutions(now)[8].pattern)
    ensures Lit('i') in Tokenize(SeedSolutions(now)[8].pattern)
  {
    var rest := "{service}" + " accessing " + "{resource}";
    assert SeedSolutions(now)[8].pattern == "Permission denied for " + rest;
    LiteralTokenFirst("Permission denied for ", rest, 'P');
    LiteralTokenFirst("Permission denied for ", rest, 'i');
  }

  /** A seed with a literal the message lacks does not match it. */
  lemma MissesSeed(now: string, j: nat, c: char, message: string)
    requires j < 9 && Lit(c) in Tokenize(SeedSolutions(now)[j].pattern) && c !in message
    ensures !Matches(SeedSolutions(now)[j], message)
  {
    MissesLiteral(SeedSolutions(now)[j].pattern, c, message);
  }

  /** Seed `j` spells the letter `c` literally and the message lacks it. */
  predicate Spells(now: string, j: nat, c: char, message: string)
    requires j < 9
  {
    Lit(c) in Tokenize(SeedSolutions(now)[j].pattern) && c !in message
  }

  /** Seeds other than `w`, each spelling a letter `cs[j]` the message
      lacks, do not match it. */
  lemma OthersMiss(now: string, message: string, cs: seq<char>, w: nat)
    requires |cs| == 9
    requires w == 0 || Spells(now, 0, cs[0], message)
    requires w == 1 || Spells(now, 1, cs[1], message)
    requires w == 2 || Spells(now, 2, cs[2], message)
    requires w == 3 || Spells(now, 3, cs[3], message)
    requires w == 4 || Spells(now, 4, cs[4], message)
    requires w == 5 || Spells(now, 5, cs[5], message)
    requires w == 6 || Spells(now, 6, cs[6], message)
    requires w == 7 || Spells(now, 7, cs[7], message)
    requires w == 8 || Spells(now, 8, cs[8], message)
    ensures forall j :: 0 <= j < 9 && j != w ==> !Matches(SeedSolutions(now)[j], message)
  {
    forall j | 0 <= j < 9 && j != w ensures !Matches(SeedSolutions(now)[j], message) {
      assert j == 0 || j == 1 || j == 2 || j == 3 || j == 4 || j == 5 || j == 6 || j == 7 || j == 8;
      MissesSeed(now, j, cs[j], message);
    }
  }

  lemma AllSeedLetters(now: string)
    ensures var sols := SeedSolutions(now);
            && Lit('p') in Tokenize(sols[0].pattern) && Lit('o') in Tokenize(sols[0].pattern)
            && Lit('C') in Tokenize(sols[1].pattern) && Lit('P') in Tokenize(sols[1].pattern)
            && Lit('M') in Tokenize(sols[2].pattern)
            && Lit('D') in Tokenize(sols[3].pattern)
            && Lit('N') in Tokenize(sols[4].pattern)
            && Lit('D') in Tokenize(sols[5].pattern) && Lit('b') in Tokenize(sols[5].pattern)
            && Lit('S') in Tokenize(sols[6].pattern)
            && Lit('C') in Tokenize(sols[7].pattern) && Lit('n') in Tokenize(sols[7].pattern)
            && Lit('P') in Tokenize(sols[8].pattern) && Lit('i') in Tokenize(sols[8].pattern)
  {
    Seed0Letters(now);
    Seed1Letters(now);
    Seed2Letters(now);
    Seed3Letters(now);
    Seed4Letters(now);
    Seed5Letters(now);
    Seed6Letters(now);
    Seed7Letters(now);
    Seed8Letters(now);
  }

  // ---------------------------------------------------------------------
  // Worked example: a high-CPU alert

  const CpuMessage := "CPU usage for " + "web_server" + " exceeded threshold: " + "92.3" + "%"

  lemma CpuCaptures()
    ensures InClass(Service, "web_server") && !ClassChar(Service, ' ')
    ensures InClass(Value, "92.3") && !ClassChar(Value, '%')
  {
    assert LeadingDigits("92.3") == 2;
    assert "92.3"[3..] == "3";
  }

  lemma CpuPattern(now: string)
    ensures SeedSolutions(now)[1].pattern
            == "CPU usage for " + (Placeholder(Service) + (" exceeded threshold: " + (Placeholder(Value) + "%")))
  {
    PlaceholderText();
  }

  lemma CpuSpelled()
    ensures CpuMessage == "CPU usage for " + "web_server" + (" exceeded threshold: " + "92.3" + "%")
  {
  }

  lemma CpuResultText()
    ensures "optimize_service.sh " + "web_server" + " cpu" == "optimize_service.sh web_server cpu"
  {
  }

  /** A character in neither piece is not in their concatenation. */
  lemma NotInConcat(c: char, a: string, b: string)
    requires c !in a && c !in b
    ensures c !in a + b
  {
  }

  /** The CPU seed captures the service and the reading. */
  lemma CpuMatch(now: string)
    ensures Search(Compile(SeedSolutions(now)[1].pattern), CpuMessage) == Some(["web_server", "92.3"])
  {
    var a, b, c := "CPU usage for ", " exceeded threshold: ", "%";
    var v1, v2 := "web_server", "92.3";
    CpuPattern(now);
    CompileTwo(a, Service, b, Value, c);
    CpuCaptures();
    CpuSpelled();
    FitsTwo(a, Service, v1, b, Value, v2, c, CpuMessage);
    SearchAtStart(Escape(a) + ([Group(Service)] + (Escape(b) + ([Group(Value)] + Escape(c)))), CpuMessage, [v1, v2]);
  }

  /** Letters the message does not contain. */
  lemma CpuLacks(c: char)
    requires c in "pMDNSni"
    ensures c !in CpuMessage
  {
    assert c !in "CPU usage for ";
    assert c !in "web_server";
    assert c !in " exceeded threshold: ";
    assert c !in "92.3";
    assert c !in "%";
    NotInConcat(c, "CPU usage for ", "web_server");
    NotInConcat(c, "CPU usage for " + "web_server", " exceeded threshold: ");
    NotInConcat(c, "CPU usage for " + "web_server" + " exceeded threshold: ", "92.3");
    NotInConcat(c, "CPU usage for " + "web_server" + " exceeded threshold: " + "92.3", "%");
  }

  /** No other seed matches the CPU alert. */
  lemma CpuOnly(now: string)
    ensures forall j :: 0 <= j < 9 && j != 1 ==> !Matches(SeedSolutions(now)[j], CpuMessage)
  {
    AllSeedLetters(now);
    CpuLacks('p');
    CpuLacks('M');
    CpuLacks('D');
    CpuLacks('N');
    CpuLacks('S');
    CpuLacks('n');
    CpuLacks('i');
    OthersMiss(now, CpuMessage, ['p', 'C', 'M', 'D', 'N', 'D', 'S', 'n', 'i'], 1);
  }

  /** "CPU usage for web_server exceeded threshold: 92.3%" is answered by
      the CPU seed with "optimize_service.sh web_server cpu". */
  lemma CpuWins(now: string)
    ensures IsWinner(SeedSolutions(now), CpuMessage, 1)
  {
    CpuMatch(now);
    CpuOnly(now);
    OnlyEligible(SeedSolutions(now), CpuMessage, 1);
  }

  lemma CpuBinding(now: string)
    ensures Bind(SeedSolutions(now)[1].script, ["web_server", "92.3"]) == "optimize_service.sh web_server cpu"
  {
    PlaceholderText();
    assert SeedSolutions(now)[1].script == "optimize_service.sh " + Placeholder(Service) + " cpu";
    BindService("optimize_service.sh ", " cpu", ["web_server", "92.3"]);
    CpuResultText();
  }

  lemma CpuAlert(now: string)
    ensures Best(SeedSolutions(now), CpuMessage) == Some("optimize_service.sh web_server cpu")
  {
    CpuWins(now);
    CpuMatch(now);
    CpuBinding(now);
    BestOf(SeedSolutions(now), CpuMessage, 1);
  }

  // ---------------------------------------------------------------------
  // Worked example: a full disk

  const DiskMessage := "Disk usage reached " + "91.5" + "%, clean up required"

  lemma DiskPattern(now: string)
    ensures SeedSolutions(now)[3].pattern == "Disk usage reached " + (Placeholder(Value) + "%, clean up required")
  {
    PlaceholderText();
  }

  lemma DiskCaptures()
    ensures InClass(Value, "91.5") && !ClassChar(Value, '%')
  {
    assert LeadingDigits("91.5") == 2;
    assert "91.5"[3..] == "5";
  }

  /** The disk seed captures the reading. */
  lemma DiskMatch(now: string)
    ensures Search(Compile(SeedSolutions(now)[3].pattern), DiskMessage) == Some(["91.5"])
  {
    var a, b := "Disk usage reached ", "%, clean up required";
    DiskPattern(now);
    CompileOne(a, Value, b);
    DiskCaptures();
    assert DiskMessage[0..] == DiskMessage;
    FitsOne(a, Value, "91.5", b, DiskMessage, 0);
    SearchAtStart(Escape(a) + ([Group(Value)] + Escape(b)), DiskMessage, ["91.5"]);
  }

  /** Letters the message does not contain. */
  lemma DiskLacks(c: char)
    requires c in "oCMNbSP"
    ensures c !in DiskMessage
  {
    assert c !in "Disk usage reached ";
    assert c !in "91.5";
    assert c !in "%, clean up required";
    NotInConcat(c, "Disk usage reached ", "91.5");
    NotInConcat(c, "Disk usage reached " + "91.5", "%, clean up required");
  }

  /** No other seed matches the disk alert. */
  lemma DiskOnly(now: string)
    ensures forall j :: 0 <= j < 9 && j != 3 ==> !Matches(SeedSolutions(now)[j], DiskMessage)
  {
    AllSeedLetters(now);
    DiskLacks('o');
    DiskLacks('C');
    DiskLacks('M');
    DiskLacks('N');
    DiskLacks('b');
    DiskLacks('S');
    DiskLacks('P');
    OthersMiss(now, DiskMessage, ['o', 'C', 'M', 'D', 'N', 'b', 'S', 'C', 'P'], 3);
  }

  /** "Disk usage reached 91.5%, clean up required" is answered by the disk
      seed with its script as written: it has no placeholder to fill. */
  lemma DiskWins(now: string)
    ensures IsWinner(SeedSolutions(now), DiskMessage, 3)
  {
    DiskMatch(now);
    DiskOnly(now);
    OnlyEligible(SeedSolutions(now), DiskMessage, 3);
  }

  lemma DiskBinding(now: string)
    ensures Bind(SeedSolutions(now)[3].script, ["91.5"]) == "cleanup_disk.sh"
  {
    BindVerbatim(SeedSolutions(now)[3].script, ["91.5"]);
  }

  lemma DiskAlert(now: string)
    ensures Best(SeedSolutions(now), DiskMessage) == Some("cleanup_disk.sh")
  {
    DiskWins(now);
    DiskMatch(now);
    DiskBinding(now);
    BestOf(SeedSolutions(now), DiskMessage, 3);
  }

  // ---------------------------------------------------------------------
  // Worked example: a connection timeout

  const ConnectionMessage := "Connection timeout when " + "web_server" + " accessing " + "database"

  lemma ConnectionPattern(now: string)
    ensures SeedSolutions(now)[7].pattern
            == "Connection timeout when " + (Placeholder(Service) + (" accessing " + (Placeholder(Target) + "")))
  {
    PlaceholderText();
    assert Placeholder(Target) + "" == Placeholder(Target);
  }

  lemma ConnectionSpelled()
    ensures ConnectionMessage == "Connection timeout when " + "web_server" + (" accessing " + "database" + "")
  {
    assert "database" + "" == "database";
  }

  lemma ConnectionCaptures()
    ensures InClass(Service, "web_server") && !ClassChar(Service, ' ')
    ensures InClass(Target, "database")
  {
  }

  lemma ConnectionResultText()
    ensures "check_network.sh " + "web_server" + " " + "web_server" + "" == "check_network.sh web_server web_server"
  {
  }

  /** The connection seed captures the service and the target. */
  lemma ConnectionMatch(now: string)
    ensures Search(Compile(SeedSolutions(now)[7].pattern), ConnectionMessage) == Some(["web_server", "database"])
  {
    var a, b := "Connection timeout when ", " accessing ";
    var v1, v2 := "web_server", "database";
    ConnectionPattern(now);
    CompileTwo(a, Service, b, Target, "");
    ConnectionCaptures();
    ConnectionSpelled();
    FitsTwo(a, Service, v1, b, Target, v2, "", ConnectionMessage);
    SearchAtStart(Escape(a) + ([Group(Service)] + (Escape(b) + ([Group(Target)] + Escape("")))), ConnectionMessage, [v1, v2]);
  }

  /** Letters the message does not contain. */
  lemma ConnectionLacks(c: char)
    requires c in "pPMDNS"
    ensures c !in ConnectionMessage
  {
    assert c !in "Connection timeout when ";
    assert c !in "web_server";
    assert c !in " accessing ";
    assert c !in "database";
    NotInConcat(c, "Connection timeout when ", "web_server");
    NotInConcat(c, "Connection timeout when " + "web_server", " accessing ");
    NotInConcat(c, "Connection timeout when " + "web_server" + " accessing ", "database");
  }

  /** No other seed matches the connection alert. */
  lemma ConnectionOnly(now: string)
    ensures forall j :: 0 <= j < 9 && j != 7 ==> !Matches(SeedSolutions(now)[j], ConnectionMessage)
  {
    AllSeedLetters(now);
    ConnectionLacks('p');
    ConnectionLacks('P');
    ConnectionLacks('M');
    ConnectionLacks('D');
    ConnectionLacks('N');
    ConnectionLacks('S');
    OthersMiss(now, ConnectionMessage, ['p', 'P', 'M', 'D', 'N', 'D', 'S', 'C', 'P'], 7);
  }

  /** "Connection timeout when web_server accessing database" is answered
      with "check_network.sh web_server web_server": `{target}` receives the
      first capture, the service, not the target. */
  lemma ConnectionWins(now: string)
    ensures IsWinner(SeedSolutions(now), ConnectionMessage, 7)
  {
    ConnectionMatch(now);
    ConnectionOnly(now);
    OnlyEligible(SeedSolutions(now), ConnectionMessage, 7);
  }

  lemma ConnectionBinding(now: string)
    ensures Bind(SeedSolutions(now)[7].script, ["web_server", "database"]) == "check_network.sh web_server web_server"
  {
    PlaceholderText();
    assert SeedSolutions(now)[7].script == "check_network.sh " + Placeholder(Service) + " " + Placeholder(Target) + "";
    BindServiceThen("check_network.sh ", " ", Target, "", ["web_server", "database"]);
    ConnectionResultText();
  }

  lemma ConnectionAlert(now: string)
    ensures Best(SeedSolutions(now), ConnectionMessage) == Some("check_network.sh web_server web_server")
  {
    ConnectionWins(now);
    ConnectionMatch(now);
    ConnectionBinding(now);
    BestOf(SeedSolutions(now), ConnectionMessage, 7);
  }
}
