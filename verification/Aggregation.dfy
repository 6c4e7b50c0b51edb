/**
  Daily aggregates derived from an append-only operational table
  (backend/app/analytics/aggregation.py), in the generic form of the leads domain:
  one row per (day, source) that holds the number of leads created.
*/
module Aggregation {
  import opened Wrappers

  /** One operational row: the UTC day of `created_at` and the nullable dimension. */
  datatype Lead = Lead(day: int, source: Option<string>)

  /** The unique key of the daily table. */
  datatype Key = Key(day: int, source: string)
  type Table = map<Key, nat>

  /** `today` is the UTC date, `leads` the source of truth, `table` the derived rows. */
  datatype Db = Db(today: int, leads: seq<Lead>, table: Table)

  /** `coalesce(source, "")` */
  function KeyOf(l: Lead): Key {
    Key(l.day, if l.source.None? then "" else l.source.value)
  }

  function Count(leads: seq<Lead>, k: Key): nat {
    if leads == [] then 0
    else Count(leads[..|leads| - 1], k) + if KeyOf(leads[|leads| - 1]) == k then 1 else 0
  }

  /** The group-by of the operational table over the days `lo..hi`. */
  function Exact(leads: seq<Lead>, lo: int, hi: int): Table {
    if leads == [] then map[]
    else
      var last, rest := leads[|leads| - 1], Exact(leads[..|leads| - 1], lo, hi);
      if lo <= last.day <= hi then rest[KeyOf(last) := Count(leads, KeyOf(last))] else rest
  }

  lemma {:induction false} CountIsPositive(leads: seq<Lead>, k: Key)
    ensures Count(leads, k) > 0 <==> exists l :: l in leads && KeyOf(l) == k
    decreases |leads|
  {
    if leads != [] {
      var last, rest := leads[|leads| - 1], leads[..|leads| - 1];
      assert leads == rest + [last];
      CountIsPositive(rest, k);
    }
  }

  lemma {:induction false} ExactRows(leads: seq<Lead>, lo: int, hi: int, k: Key)
    ensures k in Exact(leads, lo, hi) <==> lo <= k.day <= hi && Count(leads, k) > 0
    ensures k in Exact(leads, lo, hi) ==> Exact(leads, lo, hi)[k] == Count(leads, k)
    decreases |leads|
  {
    if leads != [] {
      ExactRows(leads[..|leads| - 1], lo, hi, k);
    }
  }

  // --------------------------------------------------- the group-by in terms of leads

  /** A lead belongs to a row by its day and its source, where no source counts as the empty one. */
  predicate InRow(l: Lead, day: int, source: string) {
    l.day == day && (l.source == Some(source) || (l.source == None && source == ""))
  }

  lemma {:induction false} CountIsNumberOfLeads(leads: seq<Lead>, day: int, source: string)
    ensures Count(leads, Key(day, source)) == |set i | 0 <= i < |leads| && InRow(leads[i], day, source)|
    decreases |leads|
  {
    var n := |leads|;
    var all := set i | 0 <= i < n && InRow(leads[i], day, source);
    if n == 0 {
      assert all == {};
    } else {
      var rest := leads[..n - 1];
      var before := set i | 0 <= i < n - 1 && InRow(rest[i], day, source);
      CountIsNumberOfLeads(rest, day, source);
      assert all == before + if InRow(leads[n - 1], day, source) then {n - 1} else {};
      assert KeyOf(leads[n - 1]) == Key(day, source) <==> InRow(leads[n - 1], day, source);
    }
  }

  /** A row for each day and source that some lead has, holding the number of those leads. */
  lemma RowsAreLeads(leads: seq<Lead>, lo: int, hi: int, day: int, source: string)
    ensures Key(day, source) in Exact(leads, lo, hi)
       <==> lo <= day <= hi && exists l :: l in leads && InRow(l, day, source)
    ensures Key(day, source) in Exact(leads, lo, hi) ==>
      Exact(leads, lo, hi)[Key(day, source)] == |set i | 0 <= i < |leads| && InRow(leads[i], day, source)|
  {
    ExactRows(leads, lo, hi, Key(day, source));
    CountIsNumberOfLeads(leads, day, source);
    CountIsPositive(leads, Key(day, source));
    if l :| l in leads && InRow(l, day, source) {
      assert KeyOf(l) == Key(day, source);
    }
    if l :| l in leads && KeyOf(l) == Key(day, source) {
      assert InRow(l, day, source);
    }
  }

  /** The sources of a day's leads, no source counting as the empty one. */
  function SourcesOn(leads: seq<Lead>, day: int): set<string> {
    set l | l in leads && l.day == day :: l.source.GetOr("")
  }

  lemma SourcesOfMore(leads: seq<Lead>, last: Lead, day: int)
    ensures SourcesOn(leads + [last], day)
         == SourcesOn(leads, day) + if last.day == day then {last.source.GetOr("")} else {}
  {
  }

  lemma SourceIsCounted(leads: seq<Lead>, l: Lead)
    ensures l.source.GetOr("") in SourcesOn(leads, l.day) <==> Count(leads, KeyOf(l)) > 0
  {
    CountIsPositive(leads, KeyOf(l));
    assert forall k :: KeyOf(k) == KeyOf(l) <==> k.day == l.day && k.source.GetOr("") == l.source.GetOr("");
  }

  lemma SizeOfMore(s: set<string>, x: string)
    ensures |s + {x}| == |s| + if x in s then 0 else 1
  {
    assert x in s ==> s + {x} == s;
  }

  /** A day adds as many rows as its leads have different sources. */
  lemma {:induction false} GroupCountIsSources(leads: seq<Lead>, day: int)
    ensures GroupCount(leads, day) == |SourcesOn(leads, day)|
    decreases |leads|
  {
    if leads != [] {
      var last, rest := leads[|leads| - 1], leads[..|leads| - 1];
      assert leads == rest + [last];
      GroupCountIsSources(rest, day);
      SourcesOfMore(rest, last, day);
      SourceIsCounted(rest, last);
      SizeOfMore(SourcesOn(rest, day), last.source.GetOr(""));
    }
  }

  lemma ExactSplit(leads: seq<Lead>, lo: int, mid: int, hi: int)
    requires lo <= mid <= hi + 1
    ensures Exact(leads, lo, hi) == Exact(leads, lo, mid - 1) + Exact(leads, mid, hi)
  {
    var whole, parts := Exact(leads, lo, hi), Exact(leads, lo, mid - 1) + Exact(leads, mid, hi);
    forall k: Key ensures (k in whole <==> k in parts) && (k in whole ==> whole[k] == parts[k]) {
      ExactRows(leads, lo, hi, k);
      ExactRows(leads, lo, mid - 1, k);
      ExactRows(leads, mid, hi, k);
    }
  }

  lemma ExactSizes(leads: seq<Lead>, lo: int, mid: int, hi: int)
    requires lo <= mid <= hi + 1
    ensures |Exact(leads, lo, hi)| == |Exact(leads, lo, mid - 1)| + |Exact(leads, mid, hi)|
  {
    ExactSplit(leads, lo, mid, hi);
    var a, b := Exact(leads, lo, mid - 1), Exact(leads, mid, hi);
    forall k ensures !(k in a && k in b) {
      ExactRows(leads, lo, mid - 1, k);
      ExactRows(leads, mid, hi, k);
    }
    assert (a + b).Keys == a.Keys + b.Keys && a.Keys !! b.Keys;
  }

  lemma ExactOfNoDays(leads: seq<Lead>, lo: int, hi: int)
    requires hi < lo
    ensures Exact(leads, lo, hi) == map[]
  {
  }

  function Groups(leads: seq<Lead>, day: int): Table {
    Exact(leads, day, day)
  }

  /** How many rows the group-by of a day has. */
  function GroupCount(leads: seq<Lead>, day: int): nat {
    if leads == [] then 0
    else
      var last, rest := leads[|leads| - 1], leads[..|leads| - 1];
      GroupCount(rest, day) + if last.day == day && Count(rest, KeyOf(last)) == 0 then 1 else 0
  }

  lemma {:induction false} GroupCountIsSize(leads: seq<Lead>, day: int)
    ensures GroupCount(leads, day) == |Groups(leads, day)|
    decreases |leads|
  {
    if leads != [] {
      var last, rest := leads[|leads| - 1], leads[..|leads| - 1];
      GroupCountIsSize(rest, day);
      ExactRows(rest, day, day, KeyOf(last));
    }
  }

  // ------------------------------------------------------------ what to refresh

  function MinDay(leads: seq<Lead>): (d: int)
    requires leads != []
    ensures exists l :: l in leads && l.day == d
    ensures forall l :: l in leads ==> d <= l.day
  {
    if |leads| == 1 then leads[0].day
    else
      var d := MinDay(leads[1..]);
      assert leads == [leads[0]] + leads[1..];
      assert exists l :: l in leads[1..] && l.day == d;
      if leads[0].day < d then leads[0].day else d
  }

  /** `_covered_range`: the earliest operational day, or yesterday without any row. */
  function FirstDay(db: Db): int {
    if db.leads == [] then db.today - 1 else MinDay(db.leads)
  }

  /** Yesterday, or the provisional first day when operations began today. */
  function LastDay(db: Db): int {
    if db.today - 1 < FirstDay(db) then FirstDay(db) else db.today - 1
  }

  ghost function LatestDay(t: Table): (d: int)
    requires t != map[]
    ensures exists k :: k in t && k.day == d
    ensures forall k :: k in t ==> k.day <= d
  {
    var k :| k in t;
    var rest := t - {k};
    assert forall j :: j in t <==> j == k || j in rest;
    if rest == map[] then k.day
    else
      var d := LatestDay(rest);
      assert exists j :: j in rest && j.day == d;
      if d < k.day then k.day else d
  }

  /** The last aggregated day is refreshed again: a one-day overlap. */
  ghost function StartDay(db: Db): int {
    if db.table == map[] then FirstDay(db) else LatestDay(db.table)
  }

  /** The first day a refresh does not reach; `count` adds up rows, not days. */
  function StopDay(leads: seq<Lead>, day: int, last: int, count: nat, maxDays: int): (stop: int)
    ensures day <= stop && (day <= last + 1 ==> stop <= last + 1)
    decreases last - day
  {
    if day <= last && count < maxDays then StopDay(leads, day + 1, last, count + GroupCount(leads, day), maxDays)
    else day
  }

  lemma StopDayNext(leads: seq<Lead>, day: int, last: int, count: nat, maxDays: int)
    requires day <= last && count < maxDays
    ensures StopDay(leads, day, last, count, maxDays)
         == StopDay(leads, day + 1, last, count + GroupCount(leads, day), maxDays)
    ensures day < StopDay(leads, day, last, count, maxDays)
  {
  }

  /** The rows that a run over the days from `lo` up to but excluding `stop` upserts. */
  ghost function RowsWritten(leads: seq<Lead>, lo: int, stop: int): nat
    decreases stop - lo
  {
    if stop <= lo then 0 else RowsWritten(leads, lo, stop - 1) + GroupCount(leads, stop - 1)
  }

  /** The covered range: from the earliest lead to yesterday, or the provisional first day alone. */
  lemma CoveredRange(db: Db)
    ensures db.leads == [] ==> FirstDay(db) == LastDay(db) == db.today - 1
    ensures db.leads != [] ==> exists l :: l in db.leads && l.day == FirstDay(db)
    ensures forall l :: l in db.leads ==> FirstDay(db) <= l.day
    ensures db.leads != [] ==> LastDay(db) == if FirstDay(db) < db.today then db.today - 1 else FirstDay(db)
  {
    if db.leads != [] {
      var d := MinDay(db.leads);
      assert exists l :: l in db.leads && l.day == d;
    }
  }

  /**
    The loop stops after the first day with which `maxDays` rows are reached, or at the end of
    the covered range.
  */
  lemma {:induction false} StopsWithTheRows(leads: seq<Lead>, day: int, last: int, count: nat, maxDays: int)
    requires day <= last + 1
    ensures var stop := StopDay(leads, day, last, count, maxDays);
      && day <= stop <= last + 1
      && (stop == last + 1 || count + RowsWritten(leads, day, stop) >= maxDays)
      && forall d :: day <= d < stop ==> count + RowsWritten(leads, day, d) < maxDays
    decreases last - day
  {
    if day <= last && count < maxDays {
      var next, stop := count + GroupCount(leads, day), StopDay(leads, day, last, count, maxDays);
      StopsWithTheRows(leads, day + 1, last, next, maxDays);
      StopDayNext(leads, day, last, count, maxDays);
      forall d | day < d <= stop
        ensures RowsWritten(leads, day, d) == GroupCount(leads, day) + RowsWritten(leads, day + 1, d)
      {
        RowsWrittenSplit(leads, day, d);
      }
    }
  }

  lemma {:induction false} RowsWrittenSplit(leads: seq<Lead>, day: int, stop: int)
    requires day < stop
    ensures RowsWritten(leads, day, stop) == GroupCount(leads, day) + RowsWritten(leads, day + 1, stop)
    decreases stop - day
  {
    if day + 1 < stop {
      RowsWrittenSplit(leads, day, stop - 1);
    } else {
      assert RowsWritten(leads, day, day) == 0;
    }
  }

  ghost function RefreshStop(db: Db, maxDays: int): int {
    StopDay(db.leads, StartDay(db), LastDay(db), 0, maxDays)
  }

  /** The count in a bookkeeping row is the number of rows of the group-by over the days written. */
  lemma {:induction false} RowsWrittenIsSize(leads: seq<Lead>, lo: int, stop: int)
    ensures RowsWritten(leads, lo, stop) == |Exact(leads, lo, stop - 1)|
    decreases stop - lo
  {
    if stop <= lo {
      ExactOfNoDays(leads, lo, stop - 1);
    } else {
      RowsWrittenIsSize(leads, lo, stop - 1);
      GroupCountIsSize(leads, stop - 1);
      ExactSizes(leads, lo, stop - 1, stop - 1);
    }
  }

  // ---------------------------------------------------------------- what a run writes

  /** Every row of `t'` is one of `t` or one of the fresh rows `g`; no row disappears. */
  ghost predicate PartlyWritten(t: Table, t': Table, g: Table) {
    && (forall k :: k in t ==> k in t')
    && (forall k :: k in t' ==> (k in t && t'[k] == t[k]) || (k in g && t'[k] == g[k]))
  }

  /** One day's group-by, upserted. */
  ghost function DayWritten(db: Db, day: int): Db {
    db.(table := db.table + Groups(db.leads, day))
  }

  /** The days from `lo` up to but excluding `stop`, one after the other. */
  ghost function Written(db: Db, lo: int, stop: int): Db
    decreases stop - lo
  {
    if stop <= lo then db else DayWritten(Written(db, lo, stop - 1), stop - 1)
  }

  /** A day's run that raised after some of its upserts, which were committed. */
  ghost predicate InterruptedOn(db: Db, db': Db, day: int) {
    && db'.today == db.today && db'.leads == db.leads
    && PartlyWritten(db.table, db'.table, Groups(db.leads, day))
  }

  ghost predicate Interrupted(db: Db, db': Db, lo: int, stop: int) {
    exists f :: lo <= f < stop && InterruptedOn(Written(db, lo, f), db', f)
  }

  /** Day by day or all at once, the same rows are written. */
  lemma {:induction false} WrittenIsExact(db: Db, lo: int, stop: int)
    ensures Written(db, lo, stop) == db.(table := db.table + Exact(db.leads, lo, stop - 1))
    decreases stop - lo
  {
    if stop <= lo {
      ExactOfNoDays(db.leads, lo, stop - 1);
    } else {
      WrittenIsExact(db, lo, stop - 1);
      ExactSplit(db.leads, lo, stop - 1, stop - 1);
      assert db.table + Exact(db.leads, lo, stop - 2) + Exact(db.leads, stop - 1, stop - 1)
          == db.table + Exact(db.leads, lo, stop - 1);
    }
  }

  /** A completed `refresh_incremental`. */
  ghost function Refreshed(db: Db, maxDays: int): Db {
    if StartDay(db) > LastDay(db) then db else Written(db, StartDay(db), RefreshStop(db, maxDays))
  }

  ghost predicate RefreshStep(db: Db, db': Db, maxDays: int) {
    || db' == Refreshed(db, maxDays)
    || (StartDay(db) <= LastDay(db) && Interrupted(db, db', StartDay(db), RefreshStop(db, maxDays)))
  }

  ghost predicate RebuildStep(db: Db, db': Db, dayStart: int, dayEnd: int)
    requires dayStart <= dayEnd
  {
    db' == Written(db, dayStart, dayEnd + 1) || Interrupted(db, db', dayStart, dayEnd + 1)
  }

  // --------------------------------------------------------------------- the service

  datatype Outcome = UpToDate | Completed(rows: nat) | Failed | InvalidRange

  /** The bookkeeping row of a run that has ended. */
  datatype RunRow = RunRow(dayStart: int, dayEnd: int, status: Outcome)

  /** What a refresh of a table adds to the bookkeeping. */
  ghost function RefreshRows(db: Db, outcome: Outcome): seq<RunRow> {
    if outcome.UpToDate? then [] else [RunRow(StartDay(db), LastDay(db), outcome)]
  }

  function RebuildRows(dayStart: int, dayEnd: int, outcome: Outcome): seq<RunRow> {
    if outcome.InvalidRange? then [] else [RunRow(dayStart, dayEnd, outcome)]
  }

  function Spend(fault: Option<nat>): Option<nat> {
    if fault.Some? && fault.value > 0 then Some(fault.value - 1) else fault
  }

  class AggregationService {
    var today: int
    var leads: seq<Lead>
    var table: Table
    var runs: seq<RunRow>

    constructor (today: int, leads: seq<Lead>)
      ensures Abs() == Db(today, leads, map[]) && runs == []
    {
      this.today, this.leads, table, runs := today, leads, map[], [];
    }

    ghost function Abs(): Db
      reads this
    {
      Db(today, leads, table)
    }

    /** `max(day)` of the daily table. */
    method LastAggregatedDay() returns (d: Option<int>)
      ensures d.None? <==> table == map[]
      ensures d.Some? ==> d.value == LatestDay(table)
    {
      d := None;
      var rest := table.Keys;
      while rest != {}
        invariant rest <= table.Keys
        invariant d.None? <==> rest == table.Keys
        invariant d.Some? ==> (exists k :: k in table && k.day == d.value)
        invariant d.Some? ==> forall k :: k in table && k !in rest ==> k.day <= d.value
        decreases rest
      {
        var k :| k in rest;
        rest := rest - {k};
        if d.None? || d.value < k.day {
          d := Some(k.day);
        }
      }
    }

    /** The rows of the group-by, in whatever order the database returns them. */
    method GroupKeys(day: int) returns (rows: seq<Key>)
      ensures |rows| == |Groups(leads, day)|
      ensures forall k :: k in rows <==> k in Groups(leads, day)
    {
      rows := [];
      var rest := Groups(leads, day).Keys;
      while rest != {}
        invariant rest <= Groups(leads, day).Keys && |rows| + |rest| == |Groups(leads, day).Keys|
        invariant forall k :: k in Groups(leads, day) <==> k in rest || k in rows
        decreases rest
      {
        var k :| k in rest;
        rest := rest - {k};
        rows := rows + [k];
      }
    }

    method Upsert(k: Key, created: nat) returns (upserted: nat)
      modifies `table
      ensures table == old(table)[k := created] && upserted == 1
    {
      table := table[k := created];
      upserted := 1;
    }

    /** Writes the rows one by one; `fault` counts the statements that succeed before one raises. */
    method UpsertAll(g: Table, rows: seq<Key>, fault: Option<nat>) returns (upserted: nat, left: Option<nat>, ok: bool)
      requires forall k :: k in rows <==> k in g
      modifies `table
      ensures ok ==> table == old(table) + g && upserted == |rows|
      ensures !ok ==> PartlyWritten(old(table), table, g)
    {
      upserted, left, ok := 0, fault, true;
      while upserted < |rows|
        invariant 0 <= upserted <= |rows|
        invariant forall k :: k in table <==> k in old(table) || k in rows[..upserted]
        invariant forall k :: k in table ==> table[k] == if k in rows[..upserted] then g[k] else old(table)[k]
      {
        if left == Some(0) {
          ok := false;
          return;
        }
        left := Spend(left);
        assert rows[..upserted + 1] == rows[..upserted] + [rows[upserted]];
        var n := Upsert(rows[upserted], g[rows[upserted]]);
        upserted := upserted + n;
      }
      assert rows[..upserted] == rows;
    }

    method AggregateLeads(day: int, fault: Option<nat>) returns (upserted: nat, left: Option<nat>, ok: bool)
      modifies `table
      ensures ok ==> Abs() == DayWritten(old(Abs()), day) && upserted == GroupCount(leads, day)
      ensures !ok ==> InterruptedOn(old(Abs()), Abs(), day)
    {
      if fault == Some(0) {
        return 0, fault, false;
      }
      var rows := GroupKeys(day);
      GroupCountIsSize(leads, day);
      upserted, left, ok := UpsertAll(Groups(leads, day), rows, Spend(fault));
    }

    /** The loop of `refresh_incremental`. */
    method RefreshDays(startDay: int, lastDay: int, maxDays: int, fault: Option<nat>) returns (count: nat, ok: bool)
      requires startDay <= lastDay
      modifies `table
      ensures var stop := StopDay(leads, startDay, lastDay, 0, maxDays);
        if ok then Abs() == Written(old(Abs()), startDay, stop) else Interrupted(old(Abs()), Abs(), startDay, stop)
      ensures ok ==> count == RowsWritten(leads, startDay, StopDay(leads, startDay, lastDay, 0, maxDays))
    {
      count, ok := 0, true;
      var day, left := startDay, fault;
      ghost var stop := StopDay(leads, startDay, lastDay, 0, maxDays);
      while day <= lastDay && count < maxDays
        invariant startDay <= day <= stop == StopDay(leads, day, lastDay, count, maxDays)
        invariant Abs() == Written(old(Abs()), startDay, day)
        invariant count == RowsWritten(leads, startDay, day)
        decreases lastDay - day
      {
        var upserted;
        upserted, left, ok := AggregateLeads(day, left);
        if !ok {
          return;
        }
        count, day := count + upserted, day + 1;
      }
    }

    method RefreshIncremental(maxDays: int, fault: Option<nat>) returns (outcome: Outcome)
      modifies `table, `runs
      ensures RefreshStep(old(Abs()), Abs(), maxDays)
      ensures outcome.UpToDate? <==> old(StartDay(Abs()) > LastDay(Abs()))
      ensures !outcome.Failed? ==> Abs() == Refreshed(old(Abs()), maxDays)
      ensures outcome.Completed? ==>
        outcome.rows == RowsWritten(leads, old(StartDay(Abs())), old(RefreshStop(Abs(), maxDays)))
      ensures runs == old(runs) + RefreshRows(old(Abs()), outcome)
    {
      var db := Db(today, leads, table);
      var lastDone := LastAggregatedDay();
      var startDay := if lastDone.Some? then lastDone.value else FirstDay(db);
      if startDay > LastDay(db) {
        return UpToDate;
      }
      var count, ok := RefreshDays(startDay, LastDay(db), maxDays, fault);
      outcome := if ok then Completed(count) else Failed;
      runs := runs + [RunRow(startDay, LastDay(db), outcome)];
    }

    method RebuildRange(dayStart: int, dayEnd: int, fault: Option<nat>) returns (outcome: Outcome)
      modifies `table, `runs
      ensures outcome.InvalidRange? <==> dayEnd < dayStart
      ensures !outcome.UpToDate? && (outcome.InvalidRange? ==> Abs() == old(Abs()))
      ensures dayStart <= dayEnd ==> RebuildStep(old(Abs()), Abs(), dayStart, dayEnd)
      ensures outcome.Completed? ==>
        Abs() == Written(old(Abs()), dayStart, dayEnd + 1) && outcome.rows == RowsWritten(leads, dayStart, dayEnd + 1)
      ensures runs == old(runs) + RebuildRows(dayStart, dayEnd, outcome)
    {
      if dayEnd < dayStart {
        return InvalidRange;
      }
      outcome := RebuildDays(dayStart, dayEnd, fault);
      runs := runs + [RunRow(dayStart, dayEnd, outcome)];
    }

    /** The loop of `rebuild_range`. */
    method RebuildDays(dayStart: int, dayEnd: int, fault: Option<nat>) returns (outcome: Outcome)
      requires dayStart <= dayEnd
      modifies `table
      ensures outcome.Completed? || outcome.Failed?
      ensures RebuildStep(old(Abs()), Abs(), dayStart, dayEnd)
      ensures outcome.Completed? ==>
        Abs() == Written(old(Abs()), dayStart, dayEnd + 1) && outcome.rows == RowsWritten(leads, dayStart, dayEnd + 1)
    {
      var day, count: nat, left := dayStart, 0, fault;
      while day <= dayEnd
        invariant dayStart <= day <= dayEnd + 1
        invariant Abs() == Written(old(Abs()), dayStart, day)
        invariant count == RowsWritten(leads, dayStart, day)
        decreases dayEnd - day
      {
        var upserted, rest, ok := AggregateLeads(day, left);
        if !ok {
          return Failed;
        }
        count, left, day := count + upserted, rest, day + 1;
      }
      outcome := Completed(count);
    }
  }

  // ------------------------------------------------------------------- several tables

  /** What `RebuildRange` promises about one table. */
  ghost predicate RebuildEnds(db: Db, db': Db, outcome: Outcome, dayStart: int, dayEnd: int)
    requires dayStart <= dayEnd
  {
    RebuildStep(db, db', dayStart, dayEnd) && (outcome.Failed? || db' == Written(db, dayStart, dayEnd + 1))
  }

  /** The tables were run one after the other; the first failure ended the loop. */
  predicate EndsAtFailure(outcomes: seq<Outcome>, n: nat) {
    && |outcomes| <= n
    && (forall j :: 0 <= j < |outcomes| - 1 ==> !outcomes[j].Failed?)
    && (|outcomes| < n ==> outcomes != [] && outcomes[|outcomes| - 1].Failed?)
  }

  ghost predicate Distinct(tables: seq<AggregationService>) {
    forall i, j :: 0 <= i < j < |tables| ==> tables[i] != tables[j]
  }

  /** The loop of `refresh_incremental` over the tables of the chosen domains. */
  method RefreshTables(tables: seq<AggregationService>, maxDays: int, faults: seq<Option<nat>>)
    returns (outcomes: seq<Outcome>)
    requires Distinct(tables) && |faults| == |tables|
    modifies (set t | t in tables)`table, (set t | t in tables)`runs
    ensures EndsAtFailure(outcomes, |tables|)
    ensures forall j :: 0 <= j < |outcomes| && !outcomes[j].Failed? ==>
      tables[j].Abs() == Refreshed(old(tables[j].Abs()), maxDays)
    ensures forall j :: 0 <= j < |outcomes| && outcomes[j].Failed? ==>
      RefreshStep(old(tables[j].Abs()), tables[j].Abs(), maxDays)
    ensures forall j :: 0 <= j < |outcomes| ==>
      tables[j].runs == old(tables[j].runs) + RefreshRows(old(tables[j].Abs()), outcomes[j])
    ensures forall j :: |outcomes| <= j < |tables| ==>
      tables[j].Abs() == old(tables[j].Abs()) && tables[j].runs == old(tables[j].runs)
  {
    hide RefreshStep, Refreshed, RefreshRows, StartDay;
    outcomes := [];
    while |outcomes| < |tables|
      invariant |outcomes| <= |tables| && forall j :: 0 <= j < |outcomes| ==> !outcomes[j].Failed?
      invariant forall j :: 0 <= j < |outcomes| ==> tables[j].Abs() == Refreshed(old(tables[j].Abs()), maxDays)
      invariant forall j :: 0 <= j < |outcomes| ==>
        tables[j].runs == old(tables[j].runs) + RefreshRows(old(tables[j].Abs()), outcomes[j])
      invariant forall j :: |outcomes| <= j < |tables| ==>
        tables[j].Abs() == old(tables[j].Abs()) && tables[j].runs == old(tables[j].runs)
    {
      var i := |outcomes|;
      var outcome := tables[i].RefreshIncremental(maxDays, faults[i]);
      outcomes := outcomes + [outcome];
      if outcome.Failed? {
        return;
      }
    }
  }

  /** The loop of `rebuild_range` over the tables; the range is checked before it. */
  method RebuildTables(tables: seq<AggregationService>, dayStart: int, dayEnd: int, faults: seq<Option<nat>>)
    returns (outcomes: seq<Outcome>)
    requires Distinct(tables) && |faults| == |tables|
    modifies (set t | t in tables)`table, (set t | t in tables)`runs
    ensures if dayEnd < dayStart then outcomes == [InvalidRange] else EndsAtFailure(outcomes, |tables|)
    ensures dayStart <= dayEnd ==> forall j :: 0 <= j < |outcomes| ==>
      RebuildEnds(old(tables[j].Abs()), tables[j].Abs(), outcomes[j], dayStart, dayEnd)
    ensures dayStart <= dayEnd ==> forall j :: 0 <= j < |outcomes| ==>
      tables[j].runs == old(tables[j].runs) + RebuildRows(dayStart, dayEnd, outcomes[j])
    ensures forall j :: 0 <= j < |tables| && (dayEnd < dayStart || |outcomes| <= j) ==>
      tables[j].Abs() == old(tables[j].Abs()) && tables[j].runs == old(tables[j].runs)
  {
    if dayEnd < dayStart {
      return [InvalidRange];
    }
    hide RebuildStep, RebuildRows;
    outcomes := [];
    while |outcomes| < |tables|
      invariant |outcomes| <= |tables| && forall j :: 0 <= j < |outcomes| ==> !outcomes[j].Failed?
      invariant forall j :: 0 <= j < |outcomes| ==>
        RebuildEnds(old(tables[j].Abs()), tables[j].Abs(), outcomes[j], dayStart, dayEnd)
      invariant forall j :: 0 <= j < |outcomes| ==>
        tables[j].runs == old(tables[j].runs) + RebuildRows(dayStart, dayEnd, outcomes[j])
      invariant forall j :: |outcomes| <= j < |tables| ==>
        tables[j].Abs() == old(tables[j].Abs()) && tables[j].runs == old(tables[j].runs)
    {
      var i := |outcomes|;
      var outcome := tables[i].RebuildRange(dayStart, dayEnd, faults[i]);
      assert RebuildEnds(old(tables[i].Abs()), tables[i].Abs(), outcome, dayStart, dayEnd);
      outcomes := outcomes + [outcome];
      if outcome.Failed? {
        return;
      }
    }
  }
}
