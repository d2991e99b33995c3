# Self-healing monitor and service-desk helpers, in Dafny

This project models two parts of an AI-driven IT support system.

**The monitoring engine** (`enhanced_self_healing_system.py`) watches the
services log. Each service writes pipe-delimited lines to it
(`timestamp|service|log_type|severity|message`). `MonitoringEngine.check_logs`
reads the latest 50 lines. Each error, warning or critical line whose message
has no incident yet becomes an incident row. The engine then looks up a
solution for it (`find_solution`) and runs that solution's script
(`apply_solution`). A solution is an `issue_pattern` template with
placeholders such as `{service}` or `{value}`, plus a `solution_script`.
`find_solution` compiles every template to a regular expression and keeps
the longest template that matches. It then binds the captured groups into
that solution's script. `resolve_unresolved_incidents` retries every
unresolved row. `request_user_input` learns a new template from an
operator's answer: it generalises the message with three substitutions.
`initialize_solutions` seeds the table with nine templates.

The two sqlite tables are fields of the class `Engine.MonitoringEngine`, held
as sequences of rows. Its methods change them the way the SQL statements do.
Each method is proved against functions of the old state (`Sweeps.Sweep`,
`Sweeps.Retried`, `Selection.Best`, `Ledger.MarkResolved`). Lemmas then state
what those functions promise:
- a sweep adds one row per fresh alert and no duplicate message;
- sweeping the same log twice adds nothing;
- a retry never unresolves a row, and retrying twice is the same as once;
- the compiled pattern is the template read in one pass, and it reads back
  to the template;
- `re.search` with the greedy, backtracking groups is sound and complete;
- the answer is the earliest of the longest matching templates;
- a learned template matches the message it came from.

The model follows the code wherever the code binds groups by position.
`{service}` takes the first group. Every other placeholder also takes the
first group, then the next, in the loop's order. So
"Connection timeout when web_server accessing database" is answered with
`check_network.sh web_server web_server`, not with `... web_server database`
(`Seeds.ConnectionAlert`).

**The service-desk MCP server** (`solarwinds_mcp_server/server.py`). The
model covers the argument and response handling around its API calls:
- id normalisation (`ensure_string_id`);
- repair of free-text enum arguments (`fuzzy_match_parameter`);
- the clean-up of a request's endpoint, query parameters and body
  (`make_api_request`);
- the time-period and page-size arguments of `search_incidents`;
- the category tree of `get_categories_structured`;
- the filtering of tasks in `search_tasks`;
- the per-category counting and sorting of `analyze_category_distribution`.

JSON values keep Python's distinctions. An int id never equals a string id.
`0` and `""` are falsy. A dict keeps insertion order, and a repeated key
keeps its first position. A `.get("id")` on a JSON `null` raises, which the
model returns as `None` for the whole call.

## Model

| member | source | states |
|---|---|---|
| LogFormat.ParseLine | enhanced_self_healing_system.py:1944-1948 | a line is kept exactly when its stripped text splits on '\|' into five parts, and then the five fields joined by '\|' give back the stripped line |
| LogFormat.ParseFormatted | enhanced_self_healing_system.py:1537 | round trip: a line written by `_write_log_entry` parses back to the same five fields |
| LogFormat.ReadLogFile | enhanced_self_healing_system.py:1536-1537 | reading back a file of appended entries whose fields hold no '\n' or '\r' with `readlines()` gives one line per entry, in order, each the written line |
| LogFormat.ReadLines | enhanced_self_healing_system.py:1935-1936 | `readlines()` in text mode reads "\r\n" and a lone '\r' as '\n' (no '\r' is left) and cuts after each '\n'; a file without '\r' is read as written (`UniversalFixed`) |
| LogFormat.UniversalTerminators | enhanced_self_healing_system.py:1935-1936 | the text read has one '\n' per line terminator of the file, whichever of "\n", "\r\n" or '\r' it is |
| LogFormat.LoneReturnEndsLine | enhanced_self_healing_system.py:1935-1936 | a lone '\r' between two lines ends the first: the file reads as two lines |
| LogFormat.LatestLines | enhanced_self_healing_system.py:1938 | the window is the last 50 lines, or all of them when there are no more than 50 |
| LogFormat.Alerts | enhanced_self_healing_system.py:1944-1952 | the entries that pass the filter number at most the lines, and each has an error, warning or critical severity |
| LogFormat.AlertsSound | enhanced_self_healing_system.py:1944-1952 | every entry that passes the filter comes from a line that parses to it with an alert severity |
| LogFormat.AlertsComplete | enhanced_self_healing_system.py:1944-1952 | every line that parses to an alert contributes its entry |
| LogFormat.AlertsSnoc | enhanced_self_healing_system.py:1944-1952 | the filter reads the lines one at a time, in order |
| Common.SplitJoin | enhanced_self_healing_system.py:1945 | splitting a join of separator-free pieces gives back the pieces |
| Common.Words | enhanced_self_healing_system.py:2081 | `str.split()` yields only non-empty runs without whitespace |
| Common.WordsBlank | enhanced_self_healing_system.py:2081 | a text of whitespace only (the empty text included) splits into no words |
| Common.WordsStep | enhanced_self_healing_system.py:2081 | leading whitespace, a word, at least one whitespace character and a rest split into that word followed by the rest's words |
| Common.WordsLast | enhanced_self_healing_system.py:2081 | leading whitespace, a last word and trailing whitespace split into that one word; with `WordsBlank` and `WordsStep` this fixes `str.split()` on every text as its maximal non-whitespace runs, in order |
| Ledger.FreshNone | enhanced_self_healing_system.py:1958-1966 | a sweep whose alerts are all already recorded inserts nothing |
| Ledger.FreshUnique | enhanced_self_healing_system.py:1958-1977 | no two inserted incidents share a message, and none repeats a message already in the table |
| Ledger.FreshCovers | enhanced_self_healing_system.py:1958-1977 | after the sweep, every alert's message is in the table, either from before or from an inserted row |
| Ledger.FreshFirst | enhanced_self_healing_system.py:1958-1977 | each inserted incident comes from the first alert of the sweep with its message |
| Ledger.MarkResolvedRow | enhanced_self_healing_system.py:2122-2125 | the `UPDATE ... WHERE id = ?` changes exactly the row with that id, and nothing when no row has it |
| Ledger.MarkResolvedKeeps | enhanced_self_healing_system.py:2122-2125 | the update keeps the numbering, the agreement of `resolved` with the stored resolution, and every row's log fields |
| Ledger.MarkResolvedOverwrites | enhanced_self_healing_system.py:2122-2125 | a second update of the same id leaves only the second resolution |
| Ledger.ParseCommand | enhanced_self_healing_system.py:2081-2083 | there is no command exactly when the script has no words, where `script_parts[0]` raises; otherwise the script name is a word |
| Ledger.CommandLine | enhanced_self_healing_system.py:2081-2094 | the script name and the space-joined arguments split back into the stored script's words |
| PatternCompiler.CompileIsTokenize | enhanced_self_healing_system.py:2019-2029 | `re.escape` followed by the nine `replace` calls gives the same pattern as one left-to-right reading that turns each placeholder into its group |
| PatternCompiler.StepsAreTokenize | enhanced_self_healing_system.py:2020-2029 | each further `replace` call adds one recognised placeholder kind to the one-pass reading |
| PatternCompiler.ReplaceStep | enhanced_self_healing_system.py:2020-2029 | one `replace` call on the escaped text is the same as recognising one more kind |
| PatternCompiler.RenderTokenize | enhanced_self_healing_system.py:2019-2029 | the compiled pattern spells its template back |
| PatternCompiler.TokenizeRender | enhanced_self_healing_system.py:2019-2029 | reading back a rendered pattern whose literals hold no '{' gives the same pattern: exactly the placeholders written become groups |
| PatternCompiler.PlaceholderPrefixUnique | enhanced_self_healing_system.py:2021-2029 | no two placeholder kinds can both start the same text, so the order of the `replace` calls cannot matter |
| PatternCompiler.Escape | enhanced_self_healing_system.py:2020 | `re.escape` turns each character into exactly one literal unit |
| HoleMatch.SearchSound | enhanced_self_healing_system.py:2031 | when `re.search` matches, each captured value is in its group's class and the template filled with them occurs in the message |
| HoleMatch.SearchComplete | enhanced_self_healing_system.py:2031 | `re.search` matches whenever the filled-in template occurs somewhere with values in their classes |
| HoleMatch.SearchFound | enhanced_self_healing_system.py:2031 | the match returned is the one at the leftmost start that matches at all |
| HoleMatch.MatchFits | enhanced_self_healing_system.py:2021-2031 | when each value is the longest text of its class at its place, the greedy, backtracking match captures exactly those values |
| HoleMatch.MatchSound | enhanced_self_healing_system.py:2031 | a match at a position captures one value per group, each in its class, and the filled-in pattern occurs there |
| HoleMatch.MatchComplete | enhanced_self_healing_system.py:2031 | if a filled-in pattern occurs at a position, the match there succeeds |
| HoleMatch.MissingLiteral | enhanced_self_healing_system.py:2031 | a pattern with a literal character the message lacks never matches |
| HoleMatch.LeadingDigits | enhanced_self_healing_system.py:2022-2023 | `\d+` takes exactly the run of digits at the front |
| Selection.WinnerExists | enhanced_self_healing_system.py:2015-2071 | some solution wins exactly when one with a non-empty template matches, and then only one wins |
| Selection.Best | enhanced_self_healing_system.py:2015-2071 | the answer is absent exactly when no solution with a non-empty template matches |
| Selection.BestOf | enhanced_self_healing_system.py:2034-2071 | the answer is the winner's script with its captures bound in |
| Selection.ScanEnd | enhanced_self_healing_system.py:2034-2038 | after the scan, the entry held is the winner: the first with the greatest template length among the matches |
| Selection.LeaderOf | enhanced_self_healing_system.py:2034-2038 | the scan's leader is strictly above every earlier score and at least every later score |
| Selection.LeaderUnique | enhanced_self_healing_system.py:2034-2038 | at most one entry leads |
| ScriptBinding.BindScript | enhanced_self_healing_system.py:2040-2069 | binding the script in place gives the script specified by `Bind` |
| ScriptBinding.FirstPresent | enhanced_self_healing_system.py:2049-2064 | the `elif` chain picks a kind whose placeholder the script holds, and picks none only when the script holds none of them |
| ScriptBinding.BindVerbatim | enhanced_self_healing_system.py:2040-2069 | a script without placeholders is returned verbatim, whatever was captured |
| ScriptBinding.BindService | enhanced_self_healing_system.py:2043-2045 | `{service}` receives the first group when there is one; without groups every placeholder stays as written |
| ScriptBinding.BindFirstGroup | enhanced_self_healing_system.py:2048-2066 | a single placeholder of any other kind takes the first group, whichever hole captured it |
| ScriptBinding.BindServiceThen | enhanced_self_healing_system.py:2043-2066 | with `{service}` and one more placeholder, both receive the first group, and the second group is never used |
| ScriptBinding.ReplaceOnce | enhanced_self_healing_system.py:2045 | `str.replace` of a placeholder met once in brace-free text replaces that one and keeps the rest |
| Learning.RuleMatchShape | enhanced_self_healing_system.py:2289-2291 | what each substitution replaces is text that its placeholder's group accepts, and holds no brace |
| Learning.PassSegs | enhanced_self_healing_system.py:2289-2291 | each `re.sub` pass turns a valid reading of the message into another valid reading of the same message, whose new cuts are of the pass's kind |
| Learning.SegsMatch | enhanced_self_healing_system.py:2019-2031 | the compiled template of a valid reading matches the message |
| Learning.LearnedPatternMatches | enhanced_self_healing_system.py:2289-2291 | the template learned from a message, once compiled by `find_solution`, matches that message |
| Learning.TxTransparent | enhanced_self_healing_system.py:2291 | the `tx-` pass never starts inside a `{value}` or `{code}` placeholder |
| Learning.ExitCodeTransparent | enhanced_self_healing_system.py:2290 | the `exit code` pass never starts inside a `{value}` placeholder |
| Seeds.SeedSolutions | enhanced_self_healing_system.py:1308-1342 | there are nine seed rows; the lemmas below state what their templates answer |
| Seeds.CpuAlert | enhanced_self_healing_system.py:1314-1315 | "CPU usage for web_server exceeded threshold: 92.3%" is answered with "optimize_service.sh web_server cpu" |
| Seeds.CpuMatch | enhanced_self_healing_system.py:1314 | the CPU template captures the service and the reading |
| Seeds.CpuOnly | enhanced_self_healing_system.py:1308-1336 | no other seed matches the CPU alert |
| Seeds.DiskAlert | enhanced_self_healing_system.py:1318-1319 | "Disk usage reached 91.5%, clean up required" is answered with "cleanup_disk.sh" |
| Seeds.DiskOnly | enhanced_self_healing_system.py:1308-1336 | no other seed matches the disk alert |
| Seeds.ConnectionAlert | enhanced_self_healing_system.py:1330-1331 | "Connection timeout when web_server accessing database" is answered with "check_network.sh web_server web_server": `{target}` receives the first group |
| Seeds.ConnectionOnly | enhanced_self_healing_system.py:1308-1336 | no other seed matches the connection alert |
| Sweeps.AttemptOutcome | enhanced_self_healing_system.py:1983-1988 | an unresolved row ends resolved exactly when a solution is found whose script exists, exits with status 0 and writes UTF-8 output; it then records that run; otherwise the row is unchanged |
| Sweeps.AttemptAgain | enhanced_self_healing_system.py:2259-2263 | a row that failed an attempt fails it again with the same solutions and world |
| Sweeps.SweepRows | enhanced_self_healing_system.py:1944-1988 | the sweep appends one row per fresh alert, in log order, numbered on, with that alert's fields; earlier rows are untouched |
| Sweeps.SweepNoDuplicates | enhanced_self_healing_system.py:1958-1977 | no added row repeats a message already in the table or added earlier in the same sweep |
| Sweeps.SweepCovers | enhanced_self_healing_system.py:1944-1977 | after the sweep, every alert among the latest lines has an incident |
| Sweeps.SweepAgain | enhanced_self_healing_system.py:1924-2002 | sweeping the same log a second time changes nothing |
| Sweeps.SweepValid | enhanced_self_healing_system.py:1970-1988 | a sweep keeps the rows numbered by position and every row's flag in step with its record |
| Sweeps.SweepCount | enhanced_self_healing_system.py:1982-1988 | the count the sweep returns is the number of resolved rows among those it added |
| Sweeps.SweptStep | enhanced_self_healing_system.py:1944-1988 | reading one more line changes nothing unless it is an alert with a new message, which is appended, attempted, and counted when resolved |
| Sweeps.RetriedRows | enhanced_self_healing_system.py:2243-2263 | a retry keeps every row's id and log fields and leaves resolved rows exactly as they were |
| Sweeps.RetriedAgain | enhanced_self_healing_system.py:2235-2269 | a second retry with the same solutions and world changes nothing |
| Sweeps.RetriedValid | enhanced_self_healing_system.py:2235-2269 | a retry keeps the numbering and the flag/record agreement |
| Engine.SeededOnce | enhanced_self_healing_system.py:1300-1305 | restates the promise of `InitializeSolutions`' `ensures` as idempotence: seeding fills an empty table, and a later start keeps the first start's rows |
| Engine.LearnedFound | enhanced_self_healing_system.py:2285-2300 | once an answer is learned for a non-empty message, `find_solution` has a solution for that message |
| Engine.EmptyNeverRuns | enhanced_self_healing_system.py:2081-2082 | an empty command never runs |
| Engine.MonitoringEngine.InitializeSolutions | enhanced_self_healing_system.py:1292-1345 | an empty `solutions` table receives the nine seeds; a non-empty one is left alone |
| Engine.MonitoringEngine.FindSolution | enhanced_self_healing_system.py:2004-2073 | the scan returns `Selection.Best`: the first of the longest matching templates' scripts with the captures bound in |
| Engine.MonitoringEngine.ApplySolution | enhanced_self_healing_system.py:2075-2139 | reports success exactly when the script exists, exits with 0 and writes stdout that decodes as UTF-8, and only then marks the row with that id resolved with the run's record; the table stays valid |
| Engine.MonitoringEngine.Resolve | enhanced_self_healing_system.py:2259-2263 | the row at the index becomes its attempt; nothing else changes |
| Engine.MonitoringEngine.Record | enhanced_self_healing_system.py:1970-1988 | a fresh alert is appended unresolved with the next id and then attempted |
| Engine.MonitoringEngine.Take | enhanced_self_healing_system.py:1944-1988 | one log line moves the table and the count one step along `Sweeps.Swept` |
| Engine.MonitoringEngine.Ingest | enhanced_self_healing_system.py:1944-1988 | the loop over the latest lines leaves the table at `Sweeps.Swept` and returns the number of added rows it resolved |
| Engine.MonitoringEngine.CheckLogs | enhanced_self_healing_system.py:1924-2002 | with no log file nothing changes and 0 is returned; otherwise the table becomes `Sweeps.Sweep` of the file read with universal newlines, and the count is the resolved rows among those added |
| Engine.MonitoringEngine.ResolveUnresolvedIncidents | enhanced_self_healing_system.py:2235-2269 | the table becomes `Sweeps.Retried`, and the returned count is exactly the increase in resolved rows |
| Engine.MonitoringEngine.RequestUserInput | enhanced_self_healing_system.py:2271-2316 | a blank answer changes nothing and fails; otherwise the generalised template is appended with the stripped answer as script, and the answer is applied to the incident |
| ServerIds.EnsureStringId | solarwinds_mcp_server/server.py:1142-1152 | `None` stays `None`; any other id becomes a prefix of its text that holds no '-' |
| ServerIds.BeforeDashWhole | solarwinds_mcp_server/server.py:1149-1150 | the text is kept whole exactly when it holds no '-' |
| ServerIds.EnsureStringIdIdempotent | solarwinds_mcp_server/server.py:1142-1152 | normalising an id that is already normalised changes nothing |
| ServerIds.NegativeIdIsEmpty | solarwinds_mcp_server/server.py:1146-1150 | a negative integer id normalises to the empty string |
| ServerIds.NaturalIdKept | solarwinds_mcp_server/server.py:1146-1152 | a non-negative integer id keeps all its digits |
| ServerFuzzy.FuzzyMatch | solarwinds_mcp_server/server.py:3376-3404 | any value returned is one of the valid values |
| ServerFuzzy.EmptyGivesNone | solarwinds_mcp_server/server.py:3376-3377 | an empty input or an empty list gives no match |
| ServerFuzzy.ExactHit | solarwinds_mcp_server/server.py:3380-3386 | a case-insensitive exact hit returns the first valid value with that lower-case form, in its own casing |
| ServerFuzzy.StemStep | solarwinds_mcp_server/server.py:3389-3394 | without an exact hit, the result is the first value, in list order, that has a word equal to, inside, or containing the input |
| ServerFuzzy.FallbackStep | solarwinds_mcp_server/server.py:3397-3404 | with neither kind of hit, the result is the valid value whose lower-case form the fallback returned, or nothing |
| ServerFuzzy.FirstStem | solarwinds_mcp_server/server.py:3389-3394 | the stem loop stops at the first value with a hit, and finds none only when no value has one |
| ServerFuzzy.WordsHit | solarwinds_mcp_server/server.py:3390-3392 | the inner loop succeeds exactly when some word passes the stem test |
| ServerFuzzy.IndexOf | solarwinds_mcp_server/server.py:3385 | `list.index` gives the first position holding the value |
| ServerRequest.NormaliseEndpoint | solarwinds_mcp_server/server.py:3121-3122 | exactly one leading '/' is dropped, and an endpoint without one is unchanged |
| ServerRequest.DropNoneSound | solarwinds_mcp_server/server.py:3125-3127 | the parameters keep exactly their entries whose value is not `None` |
| ServerRequest.DropNoneFixed | solarwinds_mcp_server/server.py:3125-3127 | parameters with no `None` value pass through unchanged |
| ServerRequest.CleanDictNoNone | solarwinds_mcp_server/server.py:3132-3140 | the cleaned body holds no `None` value at any nested dict level |
| ServerRequest.CleanDictFixed | solarwinds_mcp_server/server.py:3132-3140 | a body already free of `None` values comes back unchanged |
| ServerRequest.CleanDictIdempotent | solarwinds_mcp_server/server.py:3132-3140 | cleaning twice is cleaning once |
| ServerRequest.CleanEntriesShape | solarwinds_mcp_server/server.py:3135-3139 | at each dict level the same keys survive as in the one-level clean-up, in the same order; a kept dict value is itself cleaned and any other value, lists included, is kept as it is |
| ServerRequest.CleanDictKeepsNonDict | solarwinds_mcp_server/server.py:3133-3134 | a value that is not a dict is returned as it is |
| ServerRequest.PrepareRequest | solarwinds_mcp_server/server.py:3121-3140 | after the clean-up no query parameter and no body field at any dict level is `None`, absent arguments stay absent, and the endpoint loses a leading '/' |
| ServerSearch.NormaliseUpdatedSince | solarwinds_mcp_server/server.py:428-442 | a period is set exactly when `updated_since` is a non-empty string, and it is then the period's normal form |
| ServerSearch.TimePeriod | solarwinds_mcp_server/server.py:434-440 | the normal form holds no space and ends in 'd', 'w' or 'm' |
| ServerSearch.DigitsPeriod | solarwinds_mcp_server/server.py:430-440 | the all-digits step makes no difference to the final period |
| ServerSearch.TimePeriodIdempotent | solarwinds_mcp_server/server.py:434-440 | normalising a normalised period changes nothing |
| ServerSearch.NumberMeansDays | solarwinds_mcp_server/server.py:430-432 | a bare number `n` becomes "nd" |
| ServerSearch.RemoveSpacesAppend | solarwinds_mcp_server/server.py:436 | removing spaces works piecewise over concatenation |
| ServerSearch.RemoveSpacesFixed | solarwinds_mcp_server/server.py:436 | text without spaces is unchanged |
| ServerSearch.NatToStringValue | solarwinds_mcp_server/server.py:480 | `str(n)` reads back as `n` |
| ServerSearch.PerPage | solarwinds_mcp_server/server.py:479-480 | `per_page` is set exactly for a positive limit, and its value is `min(limit, 100)` in decimal |
| ServerTasks.SearchTasks | solarwinds_mcp_server/server.py:1595-1628 | the call raises exactly when the assignee filter is given and some task has a null assignee; otherwise it returns the tasks that pass every filter, in input order |
| ServerTasks.Filtered | solarwinds_mcp_server/server.py:1595-1628 | the filter never adds tasks |
| ServerTasks.FilteredMembers | solarwinds_mcp_server/server.py:1596-1628 | a task is reported exactly when it is an input task that passes every filter |
| ServerTasks.FilteredAppend | solarwinds_mcp_server/server.py:1596-1628 | filtering splits over concatenation, so the output keeps the input order |
| ServerTasks.NoFiltersKeepAll | solarwinds_mcp_server/server.py:1595-1628 | with no filter given, every task is reported, in order |
| ServerTasks.NoDueDateFailsDateFilter | solarwinds_mcp_server/server.py:1610-1619 | a task without a due date is never reported under a date filter |
| ServerCategories.BuildHierarchy | solarwinds_mcp_server/server.py:3766-3792 | the two loops build `Structure` of the response |
| ServerCategories.IndexCategories | solarwinds_mcp_server/server.py:3769-3778 | the first loop gives the map of categories with a truthy id, with its keys in dict order, each key once |
| ServerCategories.LinkCategories | solarwinds_mcp_server/server.py:3780-3786 | the second loop gives every category the children that name it as parent, in key order, and collects the roots in key order |
| ServerCategories.NodeMap | solarwinds_mcp_server/server.py:3770-3778 | every key is truthy, maps to a dict with that id, and starts with no children |
| ServerCategories.KeyOrderIsMapKeys | solarwinds_mcp_server/server.py:3770-3778 | the dict order lists each map key exactly once |
| ServerCategories.MapKeys | solarwinds_mcp_server/server.py:3770-3773 | an id is a key exactly when some listed category has it and it is truthy |
| ServerCategories.LastDuplicateWins | solarwinds_mcp_server/server.py:3772-3778 | an id maps to the dict of the last category listed with it |
| ServerCategories.RootsMembers | solarwinds_mcp_server/server.py:3781-3784 | an id is a root exactly when it is a key whose parent id is falsy |
| ServerCategories.ChildrenMembers | solarwinds_mcp_server/server.py:3781-3786 | an id is a child of `p` exactly when it is a key whose parent id is `p` |
| ServerCategories.Placement | solarwinds_mcp_server/server.py:3781-3786 | each category lands in exactly one place: among the roots, under its parent, or nowhere when the parent is missing |
| ServerCategories.Counts | solarwinds_mcp_server/server.py:3788-3792 | `total_count` counts every listed category, kept or not, and `root_count` is the number of roots |
| ServerDistribution.AnalyzeCategoryDistribution | solarwinds_mcp_server/server.py:1300-1364 | the call raises exactly when some incident has a null category; otherwise it returns the rows of the selected categories with their tallies, sorted by count |
| ServerDistribution.TallyCounts | solarwinds_mcp_server/server.py:1309-1334 | a category has counters exactly when some incident is under it; `count` is that number, `resolved` counts the resolved or closed ones, `open` the rest, and `high_priority` the high or critical ones |
| ServerDistribution.IgnoredIncident | solarwinds_mcp_server/server.py:1312-1314 | an incident without a truthy category id changes no counter |
| ServerDistribution.Selected | solarwinds_mcp_server/server.py:1300-1303 | the selection never adds categories |
| ServerDistribution.SelectedMembers | solarwinds_mcp_server/server.py:1300-1303 | a category is analysed exactly when it is listed and either no truthy `parent_category_id` is given or its `parent_id` equals that string (an int `parent_id` never does) |
| ServerDistribution.SelectedAppend | solarwinds_mcp_server/server.py:1300-1303 | the comprehension keeps list order: selecting from two lists in a row is selecting from each and concatenating |
| ServerDistribution.RowsOfMembers | solarwinds_mcp_server/server.py:1338-1361 | each category with a truthy id has its row, with its tally or zeros |
| ServerDistribution.RowsOfSound | solarwinds_mcp_server/server.py:1338-1361 | every row comes from a listed category with a truthy id |
| ServerDistribution.RowCountsConsistent | solarwinds_mcp_server/server.py:1309-1359 | in each row, incidents split into open and resolved, at most all are high priority, and the count is the number of incidents under the category |
| ServerDistribution.SortByCountFacts | solarwinds_mcp_server/server.py:1364 | the sort orders rows by count, most first, is a permutation, and keeps rows with equal counts in their order |
| ServerDistribution.SortDescending | solarwinds_mcp_server/server.py:1364 | the sorted rows are in non-increasing order of count |
| ServerDistribution.SortMultiset | solarwinds_mcp_server/server.py:1364 | the sorted rows are a permutation of the rows |
| ServerDistribution.SortStable | solarwinds_mcp_server/server.py:1364 | for each count, the rows with that count keep their order |
| ServerDistribution.InsertDescending | solarwinds_mcp_server/server.py:1364 | inserting a row keeps the rows in order of count |
| ServerDistribution.InsertWithCount | solarwinds_mcp_server/server.py:1364 | inserting a row puts it ahead of the rows that share its count |

## Left out

- I/O is left out: sqlite connections, file opening, `os.path.exists`, logging, `print` and `input`. The log file is a parameter (`None` when it does not exist). The operator's answer is a parameter. The existing scripts and the effect of running one are a parameter of type `World`.
- Clock readings are left out: one reading, `World.now`, stamps every row that a call writes. `initialize_solutions` takes `now` once for all nine seeds, where the source reads the clock per row.
- Ledger.Resolution: `execution_time` is a natural number, not the float that `time.time()` differences give.
- `apply_solution` also takes a `service` and a `message`, which it does not use; the model leaves them out.
- Exceptions in general are left out, apart from those modelled as an error result. The modelled ones: an `.get("id")` on a JSON null in `search_tasks` and `analyze_category_distribution`, and the blank script in `apply_solution`. A script that exits 0 with stdout that is not valid UTF-8 makes the decode raise inside the `try`; the model follows the source there: `apply_solution` returns False and leaves the row unchanged (`Outcome.utf8`).
- ServerFuzzy.FuzzyMatch: the `difflib.get_close_matches` similarity ratio is not modelled. Its result is the parameter `close`, of which the model only assumes that it is an element of the lower-cased list, as `get_close_matches` guarantees.
- `str.lower`, `str.isdigit`, `\d` and `\w` are modelled on ASCII. The model has no Unicode case mapping and no non-ASCII digits or letters.
- JSON fields of types the source does not expect are left out. For example, a non-string `due_at` or `priority`, a non-list response, or a non-string `updated_since`, which skips the string branch.
- The `limit` of `search_incidents` is an `int`. Python's `bool`, a subclass of `int`, is not modelled: `True` passes the `> 0` test, `min(True, 100)` is `True`, and `per_page` becomes "True".
- `get_categories_structured` returns an error response unchanged when `make_api_request` reports one; that path is not modelled.
- ServerCategories.Node: children are held by id. In the source they are the children's own dicts, shared with `category_map`; only root subtrees are serialised. The model does not capture that sharing.
- The HTTP client, the mock data served without an API token, and the MCP tool registration are left out. So are the other tools of `server.py`.
- `solarwinds_mcp_server/client.py`, `solarwinds_mcp_server/conversational_client.py`, `solarwinds_mcp_server/app.py` and `__main__.py` are not part of this model.
- The machine-learning anomaly model, the dashboard server, the synthetic data generator (apart from the line format of `_write_log_entry`) and the threads that run the sweeps periodically are left out.
- Ledger.CommandLine: states only that `str.split()` of the script name joined with the arguments gives the stored script's words. The line the source runs is built from `script_path` and parsed by the shell (`shell=True`). Quote removal, `;`, `|`, `$(...)`, globbing and spaces in the base directory are part of `World.run`, which is left unconstrained.
- Learning.LearnedPatternMatches: proved for messages without '{'. A '{' in a message could spell a placeholder inside the learned template.
- Engine.LearnedFound: proved for non-empty messages without '{', for the same reason.
- Sweeps.RetriedAgain: holds for one fixed `World`. When a script's outcome changes between runs, a second retry can resolve more rows.
