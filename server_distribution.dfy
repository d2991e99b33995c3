/** The counting in `analyze_category_distribution`: incidents tallied by
    category, one row per category, rows ordered by incident count. */
module ServerDistribution {
  import opened Common
  import opened ServerIds
  import opened ServerCategories

  /** The `category` field of an incident: absent, JSON null, or an object
      whose `id` may be absent or null. */
  datatype CategoryRef = NoCategory | NullCategory | CategoryObj(id: Option<JsonId>)

  /** The fields of an incident the counting reads; `None` when absent or
      null. */
  datatype Incident = Incident(category: CategoryRef, priority: Option<string>, state: Option<string>)

  /** The four counters kept per category id. */
  datatype Counts = Counts(count: nat, highPriority: nat, resolved: nat, open: nat)

  /** One result row. */
  datatype Row = Row(
    id: JsonId,
    name: Option<string>,
    parentId: Option<JsonId>,
    incidentCount: nat,
    highPriorityCount: nat,
    openCount: nat,
    resolvedCount: nat)

  /** `incident.get("category", {}).get("id")` for a non-null category. */
  function CategoryIdOf(c: CategoryRef): Option<JsonId>
    requires !c.NullCategory?
  {
    match c
    case NoCategory => None
    case CategoryObj(id) => id
  }

  /** `priority in ["High", "Critical"]`. */
  predicate HighPriority(p: Option<string>) {
    p == Some("High") || p == Some("Critical")
  }

  /** `state in ["Resolved", "Closed"]`. */
  predicate Closed(s: Option<string>) {
    s == Some("Resolved") || s == Some("Closed")
  }

  /** The category an incident is counted under, if any. */
  function CountedUnder(inc: Incident): Option<JsonId> {
    if inc.category.NullCategory? then None
    else
      var id := CategoryIdOf(inc.category);
      if TruthyField(id) then id else None
  }

  /** One incident added to its category's counters. */
  function Bump(c: Counts, inc: Incident): Counts {
    Counts(
      c.count + 1,
      c.highPriority + (if HighPriority(inc.priority) then 1 else 0),
      c.resolved + (if Closed(inc.state) then 1 else 0),
      c.open + (if Closed(inc.state) then 0 else 1))
  }

  /** `category_counts` after the incidents `incs`. */
  function Tally(incs: seq<Incident>): map<JsonId, Counts>
    decreases |incs|
  {
    if |incs| == 0 then map[]
    else
      var m := Tally(incs[..|incs| - 1]);
      var inc := incs[|incs| - 1];
      match CountedUnder(inc)
      case None => m
      case Some(k) => m[k := Bump(if k in m then m[k] else Counts(0, 0, 0, 0), inc)]
  }

  /** Number of incidents counted under `k`; `high` and `closed` narrow it
      to high-priority and to resolved incidents. */
  function NumUnder(incs: seq<Incident>, k: JsonId, high: bool, closed: bool): nat
    decreases |incs|
  {
    if |incs| == 0 then 0
    else
      var inc := incs[|incs| - 1];
      NumUnder(incs[..|incs| - 1], k, high, closed)
        + (if CountedUnder(inc) == Some(k) && (high ==> HighPriority(inc.priority))
             && (closed ==> Closed(inc.state)) then 1 else 0)
  }

  /** The counters of each category, in terms of the incidents: `count`
      is the number of incidents under it, `resolved` of those resolved or
      closed, `open` of the rest, `high_priority` of the high or critical
      ones; a category with no incident has no entry. */
  lemma {:induction false} TallyCounts(incs: seq<Incident>, k: JsonId)
    ensures k in Tally(incs) <==> NumUnder(incs, k, false, false) > 0
    ensures k in Tally(incs) ==>
      && Tally(incs)[k].count == NumUnder(incs, k, false, false)
      && Tally(incs)[k].resolved == NumUnder(incs, k, false, true)
      && Tally(incs)[k].highPriority == NumUnder(incs, k, true, false)
      && Tally(incs)[k].count == Tally(incs)[k].open + Tally(incs)[k].resolved
      && Tally(incs)[k].highPriority <= Tally(incs)[k].count
    decreases |incs|
  {
    if |incs| > 0 {
      TallyCounts(incs[..|incs| - 1], k);
      NarrowedAtMost(incs[..|incs| - 1], k, false, true);
      NarrowedAtMost(incs[..|incs| - 1], k, true, false);
    }
  }

  lemma {:induction false} NarrowedAtMost(incs: seq<Incident>, k: JsonId, high: bool, closed: bool)
    ensures NumUnder(incs, k, high, closed) <= NumUnder(incs, k, false, false)
    decreases |incs|
  {
    if |incs| > 0 {
      NarrowedAtMost(incs[..|incs| - 1], k, high, closed);
    }
  }

  /** An incident without a truthy category id changes no counter. */
  lemma IgnoredIncident(incs: seq<Incident>, inc: Incident)
    requires CountedUnder(inc).None?
    ensures Tally(incs + [inc]) == Tally(incs)
  {
    assert (incs + [inc])[..|incs|] == incs;
  }

  /** The categories analysed: all, or those whose `parent_id` equals a
      truthy `parent_category_id`. */
  function Selected(cats: seq<RawCategory>, parent: Option<string>): (r: seq<RawCategory>)
    ensures |r| <= |cats|
    decreases |cats|
  {
    if parent.None? || parent.value == "" then cats
    else if |cats| == 0 then []
    else
      var c := cats[|cats| - 1];
      Selected(cats[..|cats| - 1], parent) + (if c.parentId == Some(StrId(parent.value)) then [c] else [])
  }

  /** The test of the comprehension: no truthy parent id given, or the
      category's `parent_id` equals it (an int never equals a string). */
  predicate Admitted(c: RawCategory, parent: Option<string>) {
    parent.None? || parent.value == "" || c.parentId == Some(StrId(parent.value))
  }

  /** A category is analysed exactly when it is listed and passes the test. */
  lemma {:induction false} SelectedMembers(cats: seq<RawCategory>, parent: Option<string>, c: RawCategory)
    ensures c in Selected(cats, parent) <==> c in cats && Admitted(c, parent)
    decreases |cats|
  {
    if !(parent.None? || parent.value == "") && |cats| > 0 {
      var init := cats[..|cats| - 1];
      var last := cats[|cats| - 1];
      SelectedMembers(init, parent, c);
      assert cats == init + [last];
      assert c in cats <==> c in init || c == last;
    }
  }

  /** The selection keeps list order: selecting from two lists in a row is
      selecting from each and concatenating. */
  lemma {:induction false} SelectedAppend(a: seq<RawCategory>, b: seq<RawCategory>, parent: Option<string>)
    ensures Selected(a + b, parent) == Selected(a, parent) + Selected(b, parent)
    decreases |b|
  {
    if !(parent.None? || parent.value == "") {
      if |b| == 0 {
        assert a + b == a;
      } else {
        var init := b[..|b| - 1];
        var last := b[|b| - 1];
        assert (a + b)[..|a + b| - 1] == a + init;
        assert (a + b)[|a + b| - 1] == last;
        SelectedAppend(a, init, parent);
      }
    }
  }

  /** The row of a category with an id, zeros when it has no incidents. */
  function RowOf(c: RawCategory, tally: map<JsonId, Counts>): Row
    requires c.id.Some?
  {
    var k := c.id.value;
    var n := if k in tally then tally[k] else Counts(0, 0, 0, 0);
    Row(k, NameOf(c.name), c.parentId, n.count, n.highPriority, n.open, n.resolved)
  }

  /** The rows before sorting: one per category with a truthy id, in list
      order. */
  function RowsOf(cats: seq<RawCategory>, tally: map<JsonId, Counts>): (r: seq<Row>)
    ensures |r| <= |cats|
    decreases |cats|
  {
    if |cats| == 0 then []
    else
      var c := cats[|cats| - 1];
      RowsOf(cats[..|cats| - 1], tally) + (if Kept(c) then [RowOf(c, tally)] else [])
  }

  /** `results.sort(key=lambda x: x["incident_count"], reverse=True)`:
      Python's sort is stable, also in reverse, so rows with equal counts
      keep their order. */
  function SortByCount(rows: seq<Row>): (r: seq<Row>)
    ensures |r| == |rows|
    decreases |rows|
  {
    if |rows| == 0 then [] else Insert(rows[0], SortByCount(rows[1..]))
  }

  /** Places `x` before the first row whose count is not larger. */
  function Insert(x: Row, s: seq<Row>): (r: seq<Row>)
    ensures |r| == |s| + 1
    decreases |s|
  {
    if |s| == 0 then [x]
    else if s[0].incidentCount <= x.incidentCount then [x] + s
    else [s[0]] + Insert(x, s[1..])
  }

  /** The whole analysis after the two API calls: `None` when an incident
      with a null category makes `.get("id")` raise, otherwise the rows,
      most incidents first. */
  method AnalyzeCategoryDistribution(categories: seq<RawCategory>, parent: Option<string>, incidents: seq<Incident>)
    returns (r: Option<seq<Row>>)
    ensures r.None? <==> exists i :: 0 <= i < |incidents| && incidents[i].category.NullCategory?
    ensures r.Some? ==> r.value == SortByCount(RowsOf(Selected(categories, parent), Tally(incidents)))
  {
    var cats := Selected(categories, parent);
    var counts: map<JsonId, Counts> := map[];
    for i := 0 to |incidents|
      invariant counts == Tally(incidents[..i])
      invariant forall j :: 0 <= j < i ==> !incidents[j].category.NullCategory?
    {
      var incident := incidents[i];
      assert incidents[..i + 1][..i] == incidents[..i];
      if incident.category.NullCategory? {
        return None;
      }
      var categoryId := CategoryIdOf(incident.category);
      if !TruthyField(categoryId) {
        continue;
      }
      var k := categoryId.value;
      if k !in counts {
        counts := counts[k := Counts(0, 0, 0, 0)];
      }
      var c := counts[k];
      c := c.(count := c.count + 1);
      if HighPriority(incident.priority) {
        c := c.(highPriority := c.highPriority + 1);
      }
      if Closed(incident.state) {
        c := c.(resolved := c.resolved + 1);
      } else {
        c := c.(open := c.open + 1);
      }
      counts := counts[k := c];
    }
    assert incidents[..|incidents|] == incidents;

    var results: seq<Row> := [];
    for j := 0 to |cats|
      invariant results == RowsOf(cats[..j], counts)
    {
      var category := cats[j];
      assert cats[..j + 1][..j] == cats[..j];
      if TruthyField(category.id) {
        results := results + [RowOf(category, counts)];
      }
    }
    assert cats[..|cats|] == cats;
    r := Some(SortByCount(results));
  }

  /** Each category with a truthy id has its row, and the row's counters
      are its tally, or zeros. */
  lemma {:induction false} RowsOfMembers(cats: seq<RawCategory>, tally: map<JsonId, Counts>, i: nat)
    requires i < |cats| && Kept(cats[i])
    ensures RowOf(cats[i], tally) in RowsOf(cats, tally)
    decreases |cats|
  {
    if i < |cats| - 1 {
      RowsOfMembers(cats[..|cats| - 1], tally, i);
      assert cats[..|cats| - 1][i] == cats[i];
    }
  }

  /** Every row comes from a listed category with a truthy id. */
  lemma {:induction false} RowsOfSound(cats: seq<RawCategory>, tally: map<JsonId, Counts>, row: Row)
    requires row in RowsOf(cats, tally)
    ensures exists i :: 0 <= i < |cats| && Kept(cats[i]) && row == RowOf(cats[i], tally)
    decreases |cats|
  {
    var init := cats[..|cats| - 1];
    if row in RowsOf(init, tally) {
      RowsOfSound(init, tally, row);
      var i :| 0 <= i < |init| && Kept(init[i]) && row == RowOf(init[i], tally);
      assert cats[i] == init[i];
    }
  }

  /** Each row's counters agree with each other: incidents split into open
      and resolved, and no more are high priority than there are. */
  lemma {:induction false} RowCountsConsistent(cats: seq<RawCategory>, incs: seq<Incident>, row: Row)
    requires row in RowsOf(cats, Tally(incs))
    ensures row.incidentCount == row.openCount + row.resolvedCount
    ensures row.highPriorityCount <= row.incidentCount
    ensures row.incidentCount == NumUnder(incs, row.id, false, false)
  {
    RowsOfSound(cats, Tally(incs), row);
    TallyCounts(incs, row.id);
  }

  /** Rows in non-increasing order of incident count. */
  predicate Descending(s: seq<Row>) {
    forall i, j :: 0 <= i < j < |s| ==> s[i].incidentCount >= s[j].incidentCount
  }

  /** The rows with count `c`, in order. */
  function WithCount(s: seq<Row>, c: nat): seq<Row>
    decreases |s|
  {
    if |s| == 0 then []
    else (if s[0].incidentCount == c then [s[0]] else []) + WithCount(s[1..], c)
  }

  lemma {:induction false} InsertMultiset(x: Row, s: seq<Row>)
    ensures multiset(Insert(x, s)) == multiset(s) + multiset{x}
    decreases |s|
  {
    if |s| > 0 && s[0].incidentCount > x.incidentCount {
      InsertMultiset(x, s[1..]);
      assert s == [s[0]] + s[1..];
    }
  }

  lemma {:induction false} InsertBounded(x: Row, s: seq<Row>, b: nat)
    requires x.incidentCount <= b
    requires forall i :: 0 <= i < |s| ==> s[i].incidentCount <= b
    ensures forall i :: 0 <= i < |Insert(x, s)| ==> Insert(x, s)[i].incidentCount <= b
  {
    InsertMultiset(x, s);
    forall i | 0 <= i < |Insert(x, s)| ensures Insert(x, s)[i].incidentCount <= b {
      var y := Insert(x, s)[i];
      assert y in multiset(s) + multiset{x};
      if y != x {
        assert y in s;
      }
    }
  }

  lemma {:induction false} InsertDescending(x: Row, s: seq<Row>)
    requires Descending(s)
    ensures Descending(Insert(x, s))
    decreases |s|
  {
    if |s| > 0 && s[0].incidentCount > x.incidentCount {
      var t := s[1..];
      InsertDescending(x, t);
      InsertBounded(x, t, s[0].incidentCount);
      var r := Insert(x, s);
      assert r == [s[0]] + Insert(x, t);
      forall i, j | 0 <= i < j < |r| ensures r[i].incidentCount >= r[j].incidentCount {
        assert r[j] == Insert(x, t)[j - 1];
        if i > 0 {
          assert r[i] == Insert(x, t)[i - 1];
        }
      }
    }
  }

  lemma {:induction false} InsertWithCount(x: Row, s: seq<Row>, c: nat)
    ensures WithCount(Insert(x, s), c) == (if x.incidentCount == c then [x] else []) + WithCount(s, c)
    decreases |s|
  {
    if |s| > 0 {
      var t := s[1..];
      WithCountCons(s[0], t, c);
      if s[0].incidentCount > x.incidentCount {
        InsertWithCount(x, t, c);
        WithCountCons(s[0], Insert(x, t), c);
        SwapFront(if s[0].incidentCount == c then [s[0]] else [], if x.incidentCount == c then [x] else [],
          WithCount(t, c));
      } else {
        WithCountCons(x, s, c);
      }
    }
  }

  lemma WithCountCons(y: Row, s: seq<Row>, c: nat)
    ensures WithCount([y] + s, c) == (if y.incidentCount == c then [y] else []) + WithCount(s, c)
  {
    assert ([y] + s)[1..] == s;
  }

  /** Two pieces of which one is empty commute in front of a third. */
  lemma SwapFront(a: seq<Row>, b: seq<Row>, rest: seq<Row>)
    requires a == [] || b == []
    ensures a + (b + rest) == b + (a + rest)
  {
  }

  /** The sort orders the rows by count, most first, keeps every row, and
      keeps the relative order of rows with equal counts. */
  lemma SortByCountFacts(rows: seq<Row>)
    ensures Descending(SortByCount(rows))
    ensures multiset(SortByCount(rows)) == multiset(rows)
    ensures forall c: nat :: WithCount(SortByCount(rows), c) == WithCount(rows, c)
  {
    SortDescending(rows);
    SortMultiset(rows);
    forall c: nat ensures WithCount(SortByCount(rows), c) == WithCount(rows, c) {
      SortStable(rows, c);
    }
  }

  lemma {:induction false} SortDescending(rows: seq<Row>)
    ensures Descending(SortByCount(rows))
    decreases |rows|
  {
    if |rows| > 0 {
      SortDescending(rows[1..]);
      InsertDescending(rows[0], SortByCount(rows[1..]));
    }
  }

  lemma {:induction false} SortMultiset(rows: seq<Row>)
    ensures multiset(SortByCount(rows)) == multiset(rows)
    decreases |rows|
  {
    if |rows| > 0 {
      SortMultiset(rows[1..]);
      InsertMultiset(rows[0], SortByCount(rows[1..]));
      assert rows == [rows[0]] + rows[1..];
    }
  }

  lemma {:induction false} SortStable(rows: seq<Row>, c: nat)
    ensures WithCount(SortByCount(rows), c) == WithCount(rows, c)
    decreases |rows|
  {
    if |rows| > 0 {
      SortStable(rows[1..], c);
      InsertWithCount(rows[0], SortByCount(rows[1..]), c);
      WithCountCons(rows[0], rows[1..], c);
      assert rows == [rows[0]] + rows[1..];
    }
  }
}
