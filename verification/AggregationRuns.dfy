/**
  What every history of inserts, clock ticks, refreshes and rebuilds keeps, and what
  the aggregate tables can therefore be trusted for.
*/
module AggregationRuns {
  import opened Aggregation

  ghost predicate Agrees(leads: seq<Lead>, t: Table, k: Key) {
    (k in t <==> Count(leads, k) > 0) && (k in t ==> t[k] == Count(leads, k))
  }

  /** The days before `d` hold exactly what a group-by of the source gives. */
  ghost predicate Settled(leads: seq<Lead>, t: Table, d: int) {
    forall k: Key :: k.day < d ==> Agrees(leads, t, k)
  }

  /** No row lies in the future and no row counts more leads than there are. */
  ghost predicate Sound(db: Db) {
    && (forall l :: l in db.leads ==> l.day <= db.today)
    && (forall k :: k in db.table ==> 0 < db.table[k] <= Count(db.leads, k))
  }

  /** Every day strictly before the newest aggregated day is settled. */
  ghost predicate Prefix(db: Db) {
    forall m :: m in db.table ==> Settled(db.leads, db.table, m.day)
  }

  // ------------------------------------------------------------------- the steps

  ghost predicate Insert(db: Db, db': Db) {
    exists l: Lead :: l.day == db.today && db' == db.(leads := db.leads + [l])
  }

  ghost predicate Tick(db: Db, db': Db) {
    db.today <= db'.today && db' == db.(today := db'.today)
  }

  /** A rebuild that starts no later than a refresh would. */
  ghost predicate GuardedRebuild(db: Db, db': Db) {
    exists a, b :: a <= b && a <= StartDay(db) && RebuildStep(db, db', a, b)
  }

  ghost predicate AnyRebuild(db: Db, db': Db) {
    exists a, b :: a <= b && RebuildStep(db, db', a, b)
  }

  ghost predicate Refresh(db: Db, db': Db) {
    exists maxDays :: RefreshStep(db, db', maxDays)
  }

  ghost predicate Step(db: Db, db': Db) {
    Insert(db, db') || Tick(db, db') || Refresh(db, db') || GuardedRebuild(db, db')
  }

  ghost predicate History(run: seq<Db>) {
    && run != [] && run[0].table == map[] && Sound(run[0])
    && forall i :: 0 <= i < |run| - 1 ==> Step(run[i], run[i + 1])
  }

  // ------------------------------------------------------- writing days of the table

  lemma WrittenRow(db: Db, lo: int, stop: int, k: Key)
    ensures Written(db, lo, stop).leads == db.leads && Written(db, lo, stop).today == db.today
    ensures var t := Written(db, lo, stop).table;
      && (k in t <==> k in db.table || (lo <= k.day < stop && Count(db.leads, k) > 0))
      && (k in t ==> t[k] == if lo <= k.day < stop && Count(db.leads, k) > 0 then Count(db.leads, k) else db.table[k])
  {
    WrittenIsExact(db, lo, stop);
    ExactRows(db.leads, lo, stop - 1, k);
  }

  lemma CountOfFuture(db: Db, k: Key)
    requires Sound(db) && Count(db.leads, k) > 0
    ensures k.day <= db.today
  {
    CountIsPositive(db.leads, k);
  }

  lemma WrittenKeepsSound(db: Db, lo: int, stop: int)
    requires Sound(db)
    ensures Sound(Written(db, lo, stop))
  {
    var db' := Written(db, lo, stop);
    WrittenRow(db, lo, stop, Key(lo, ""));
    forall k | k in db'.table ensures 0 < db'.table[k] <= Count(db'.leads, k) {
      WrittenRow(db, lo, stop, k);
    }
  }

  lemma InterruptedKeepsSound(db: Db, db': Db, day: int)
    requires Sound(db) && InterruptedOn(db, db', day)
    ensures Sound(db')
  {
    forall k | k in db'.table ensures 0 < db'.table[k] <= Count(db'.leads, k) {
      ExactRows(db.leads, day, day, k);
    }
  }

  /** The table's frontier: settled below it, and no row beyond it. */
  ghost predicate Frontier(db: Db, d: int) {
    Settled(db.leads, db.table, d) && forall k :: k in db.table ==> k.day <= d
  }

  lemma StartDayIsFrontier(db: Db)
    requires Sound(db) && Prefix(db)
    ensures Frontier(db, StartDay(db))
  {
    if db.table == map[] {
      forall k: Key | k.day < FirstDay(db) ensures Agrees(db.leads, db.table, k) {
        CountIsPositive(db.leads, k);
      }
    } else {
      var m :| m in db.table && m.day == LatestDay(db.table);
      assert Settled(db.leads, db.table, m.day);
    }
  }

  lemma WrittenMovesFrontier(db: Db, d: int, lo: int, stop: int)
    requires Sound(db) && Frontier(db, d) && lo <= d && lo <= stop
    ensures Frontier(Written(db, lo, stop), if stop <= d then d else stop)
  {
    var db' := Written(db, lo, stop);
    WrittenRow(db, lo, stop, Key(lo, ""));
    var d' := if stop <= d then d else stop;
    forall k: Key | k.day < d' ensures Agrees(db'.leads, db'.table, k) {
      WrittenRow(db, lo, stop, k);
      assert k.day < d ==> Agrees(db.leads, db.table, k);
    }
    forall k | k in db'.table ensures k.day <= d' {
      WrittenRow(db, lo, stop, k);
    }
  }

  lemma InterruptedMovesFrontier(db: Db, db': Db, d: int, day: int)
    requires Frontier(db, d) && day <= d && InterruptedOn(db, db', day)
    ensures Frontier(db', d)
  {
    forall k: Key | k.day < d ensures Agrees(db'.leads, db'.table, k) {
      ExactRows(db.leads, day, day, k);
      assert Agrees(db.leads, db.table, k);
    }
    forall k | k in db'.table ensures k.day <= d {
      ExactRows(db.leads, day, day, k);
    }
  }

  /** Any run that starts at or before the frontier keeps both invariants, finished or not. */
  lemma RunFromFrontierKeepsInvariants(db: Db, db': Db, lo: int, stop: int)
    requires Sound(db) && Prefix(db) && lo <= StartDay(db) && lo <= stop
    requires db' == Written(db, lo, stop) || Interrupted(db, db', lo, stop)
    ensures Sound(db') && Prefix(db')
  {
    var d := StartDay(db);
    StartDayIsFrontier(db);
    if db' == Written(db, lo, stop) {
      WrittenKeepsSound(db, lo, stop);
      WrittenMovesFrontier(db, d, lo, stop);
    } else {
      var f :| lo <= f < stop && InterruptedOn(Written(db, lo, f), db', f);
      WrittenKeepsSound(db, lo, f);
      WrittenMovesFrontier(db, d, lo, f);
      InterruptedKeepsSound(Written(db, lo, f), db', f);
      InterruptedMovesFrontier(Written(db, lo, f), db', if f <= d then d else f, f);
    }
  }

  lemma InsertedCount(leads: seq<Lead>, l: Lead, k: Key)
    ensures Count(leads + [l], k) == Count(leads, k) + if k == KeyOf(l) then 1 else 0
  {
  }

  lemma InsertKeepsSound(db: Db, db': Db)
    requires Sound(db) && Insert(db, db')
    ensures Sound(db')
  {
  }

  lemma InsertKeepsInvariants(db: Db, db': Db)
    requires Sound(db) && Prefix(db) && Insert(db, db')
    ensures Sound(db') && Prefix(db')
  {
    InsertKeepsSound(db, db');
    var l: Lead :| l.day == db.today && db' == db.(leads := db.leads + [l]);
    forall m, k: Key | m in db.table && k.day < m.day ensures Agrees(db'.leads, db'.table, k) {
      InsertedCount(db.leads, l, k);
      CountOfFuture(db, m);
      assert Agrees(db.leads, db.table, k);
    }
  }

  lemma StepKeepsInvariants(db: Db, db': Db)
    requires Sound(db) && Prefix(db) && Step(db, db')
    ensures Sound(db') && Prefix(db')
  {
    if Insert(db, db') {
      InsertKeepsInvariants(db, db');
    } else if Tick(db, db') {
    } else if Refresh(db, db') {
      var maxDays :| RefreshStep(db, db', maxDays);
      if StartDay(db) <= LastDay(db) {
        RunFromFrontierKeepsInvariants(db, db', StartDay(db), RefreshStop(db, maxDays));
      }
    } else {
      var a, b :| a <= b && a <= StartDay(db) && RebuildStep(db, db', a, b);
      RunFromFrontierKeepsInvariants(db, db', a, b + 1);
    }
  }

  /**
    After any interleaving of inserts, ticks, completed and interrupted refreshes and
    guarded rebuilds, only the newest aggregated day can differ from the source.
  */
  lemma {:induction false} EveryHistoryIsSettled(run: seq<Db>, i: nat)
    requires History(run) && i < |run|
    ensures Sound(run[i]) && Prefix(run[i])
    decreases i
  {
    if i > 0 {
      EveryHistoryIsSettled(run, i - 1);
      StepKeepsInvariants(run[i - 1], run[i]);
    }
  }

  // ------------------------------------------------- incremental refresh and batch

  /** `rebuild_range` over the covered days on an empty table. */
  ghost function Batch(db: Db): Table {
    Written(db.(table := map[]), FirstDay(db), LastDay(db) + 1).table
  }

  lemma CountBeforeFirstDay(db: Db, k: Key)
    requires Count(db.leads, k) > 0
    ensures FirstDay(db) <= k.day
  {
    CountIsPositive(db.leads, k);
  }

  lemma RowOfBatch(db: Db, k: Key)
    ensures k in Batch(db) <==> Count(db.leads, k) > 0 && k.day <= LastDay(db)
    ensures k in Batch(db) ==> Batch(db)[k] == Count(db.leads, k)
  {
    WrittenRow(db.(table := map[]), FirstDay(db), LastDay(db) + 1, k);
    if Count(db.leads, k) > 0 {
      CountBeforeFirstDay(db, k);
    }
  }

  ghost predicate NoLeadsIn(leads: seq<Lead>, lo: int, hi: int) {
    forall l :: l in leads ==> !(lo <= l.day <= hi)
  }

  lemma RowOfReachedRefresh(db: Db, stop: int, k: Key)
    requires Sound(db) && Prefix(db) && StartDay(db) < stop <= LastDay(db) + 1
    requires NoLeadsIn(db.leads, stop, LastDay(db))
    ensures var t := Written(db, StartDay(db), stop).table;
      && (k in t <==> Count(db.leads, k) > 0 && k.day <= LastDay(db))
      && (k in t ==> t[k] == Count(db.leads, k))
  {
    StartDayIsFrontier(db);
    WrittenRow(db, StartDay(db), stop, k);
    CountIsPositive(db.leads, k);
    assert k.day < StartDay(db) ==> Agrees(db.leads, db.table, k);
  }

  /** A completed refresh that left no lead of the covered days out leaves what a batch rebuild gives. */
  lemma IncrementalEqualsBatch(db: Db, maxDays: int)
    requires Sound(db) && Prefix(db)
    requires StartDay(db) < RefreshStop(db, maxDays) <= LastDay(db) + 1
    requires NoLeadsIn(db.leads, RefreshStop(db, maxDays), LastDay(db))
    ensures Refreshed(db, maxDays).table == Batch(db)
  {
    var t, u := Written(db, StartDay(db), RefreshStop(db, maxDays)).table, Batch(db);
    forall k: Key ensures (k in t <==> k in u) && (k in t ==> t[k] == u[k]) {
      RowOfReachedRefresh(db, RefreshStop(db, maxDays), k);
      RowOfBatch(db, k);
    }
    assert t == u;
  }

  lemma WritingSettledDays(db: Db, lo: int, stop: int)
    requires Settled(db.leads, db.table, stop)
    ensures Written(db, lo, stop) == db
  {
    WrittenRow(db, lo, stop, Key(lo, ""));
    var t := Written(db, lo, stop).table;
    forall k: Key ensures (k in t <==> k in db.table) && (k in t ==> t[k] == db.table[k]) {
      WrittenRow(db, lo, stop, k);
      assert k.day < stop ==> Agrees(db.leads, db.table, k);
    }
  }

  lemma WritingSettledDaysChangesNothing(db: Db, db': Db, lo: int, stop: int)
    requires Settled(db.leads, db.table, stop)
    requires db' == Written(db, lo, stop) || Interrupted(db, db', lo, stop)
    ensures db' == db
  {
    if db' == Written(db, lo, stop) {
      WritingSettledDays(db, lo, stop);
    } else {
      var f :| lo <= f < stop && InterruptedOn(Written(db, lo, f), db', f);
      WritingSettledDays(db, lo, f);
      forall k | k in db'.table ensures k in db.table && db'.table[k] == db.table[k] {
        ExactRows(db.leads, f, f, k);
        assert k.day == f ==> Agrees(db.leads, db.table, k);
      }
      assert db'.table == db.table;
    }
  }

  /** The covered days are all settled and nothing else is in the table. */
  ghost predicate CaughtUp(db: Db) {
    db.table == Batch(db)
  }

  lemma CaughtUpIsSettled(db: Db)
    requires CaughtUp(db)
    ensures Settled(db.leads, db.table, LastDay(db) + 1)
  {
    forall k: Key | k.day < LastDay(db) + 1 ensures Agrees(db.leads, db.table, k) {
      RowOfBatch(db, k);
    }
  }

  /** Caught up means that every complete day is settled. */
  lemma CaughtUpCoversYesterday(db: Db)
    requires CaughtUp(db)
    ensures Settled(db.leads, db.table, db.today)
  {
    CaughtUpIsSettled(db);
  }

  /** The day in progress is left to the live layer, except as the provisional first day. */
  lemma RefreshLeavesTodayAlone(db: Db, db': Db, maxDays: int, k: Key)
    requires RefreshStep(db, db', maxDays) && FirstDay(db) < db.today <= k.day
    ensures (k in db'.table <==> k in db.table) && (k in db'.table ==> db'.table[k] == db.table[k])
  {
    var s := StartDay(db);
    if s <= LastDay(db) {
      if db' == Written(db, s, RefreshStop(db, maxDays)) {
        WrittenRow(db, s, RefreshStop(db, maxDays), k);
      } else {
        var f :| s <= f < RefreshStop(db, maxDays) && InterruptedOn(Written(db, s, f), db', f);
        WrittenRow(db, s, f, k);
        ExactRows(db.leads, f, f, k);
      }
    }
  }

  /** Refreshing again without new rows on the same day changes nothing, even if interrupted. */
  lemma RefreshAgainChangesNothing(db: Db, db': Db, maxDays: int)
    requires CaughtUp(db) && RefreshStep(db, db', maxDays)
    ensures db' == db
  {
    CaughtUpIsSettled(db);
    if StartDay(db) <= LastDay(db) {
      assert RefreshStop(db, maxDays) <= LastDay(db) + 1;
      WritingSettledDaysChangesNothing(db, db', StartDay(db), RefreshStop(db, maxDays));
    }
  }

  lemma {:induction false} StopIsLocal(leads: seq<Lead>, more: seq<Lead>, day: int, last: int, count: nat, maxDays: int)
    requires forall d :: d <= last ==> Groups(more, d) == Groups(leads, d)
    ensures StopDay(more, day, last, count, maxDays) == StopDay(leads, day, last, count, maxDays)
    decreases last - day
  {
    if day <= last && count < maxDays {
      GroupCountIsSize(leads, day);
      GroupCountIsSize(more, day);
      StopIsLocal(leads, more, day + 1, last, count + GroupCount(leads, day), maxDays);
    }
  }

  lemma {:induction false} WritingIsLocal(db: Db, db': Db, lo: int, stop: int)
    requires db'.table == db.table
    requires forall d :: d < stop ==> Groups(db'.leads, d) == Groups(db.leads, d)
    ensures Written(db', lo, stop) == db'.(table := Written(db, lo, stop).table)
    decreases stop - lo
  {
    if lo < stop {
      WritingIsLocal(db, db', lo, stop - 1);
      WrittenRow(db, lo, stop - 1, Key(lo, ""));
    }
  }

  lemma {:induction false} WrittenInTwo(db: Db, lo: int, f: int, stop: int)
    requires lo <= f <= stop
    ensures Written(Written(db, lo, f), f, stop) == Written(db, lo, stop)
    decreases stop - f
  {
    if f < stop {
      WrittenInTwo(db, lo, f, stop - 1);
    }
  }

  /** A lead that arrives before a refresh of the complete days may as well arrive after it. */
  lemma RefreshCommutesWithInserts(db: Db, db': Db, maxDays: int)
    requires Sound(db) && db.leads != [] && FirstDay(db) < db.today && Insert(db, db')
    ensures Refreshed(db', maxDays) == Refreshed(db, maxDays).(leads := db'.leads)
  {
    InsertKeepsCover(db, db');
    StopIsLocal(db.leads, db'.leads, StartDay(db), LastDay(db), 0, maxDays);
    if StartDay(db) <= LastDay(db) {
      WritingIsLocal(db, db', StartDay(db), RefreshStop(db, maxDays));
      WrittenRow(db, StartDay(db), RefreshStop(db, maxDays), Key(0, ""));
    }
  }

  lemma {:induction false} GroupsOfNewerLeads(leads: seq<Lead>, more: seq<Lead>, day: int)
    requires forall l :: l in more ==> l.day > day
    ensures Groups(leads + more, day) == Groups(leads, day) && GroupCount(leads + more, day) == GroupCount(leads, day)
    decreases |more|
  {
    if more == [] {
      assert leads + more == leads;
    } else {
      var before, last := more[..|more| - 1], more[|more| - 1];
      assert last in more && leads + more == (leads + before) + [last];
      assert (leads + more)[..|leads + more| - 1] == leads + before;
      GroupsOfNewerLeads(leads, before, day);
    }
  }

  /**
    Leads that arrive, and days that begin, between two days of a refresh change neither where
    it stops nor what it writes: day `f` and the rest may as well be written before them.
  */
  lemma ArrivalsDuringRefresh(db: Db, mid: Db, more: seq<Lead>, f: int, maxDays: int)
    requires db.leads != [] && FirstDay(db) < db.today
    requires StartDay(db) <= LastDay(db) && StartDay(db) <= f <= RefreshStop(db, maxDays)
    requires forall l :: l in more ==> l.day >= db.today
    requires mid == Written(db, StartDay(db), f).(leads := db.leads + more, today := mid.today)
    ensures StopDay(mid.leads, StartDay(db), LastDay(db), 0, maxDays) == RefreshStop(db, maxDays)
    ensures Written(mid, f, RefreshStop(db, maxDays))
         == Refreshed(db, maxDays).(leads := mid.leads, today := mid.today)
  {
    var s, stop := StartDay(db), RefreshStop(db, maxDays);
    forall d | d <= LastDay(db) ensures Groups(mid.leads, d) == Groups(db.leads, d) {
      GroupsOfNewerLeads(db.leads, more, d);
    }
    StopIsLocal(db.leads, mid.leads, s, LastDay(db), 0, maxDays);
    WrittenRow(db, s, f, Key(0, ""));
    WritingIsLocal(Written(db, s, f), mid, f, stop);
    WrittenInTwo(db, s, f, stop);
  }

  // --------------------------------------------------------- progress and stalling

  lemma CountedDayHasARow(leads: seq<Lead>, day: int) returns (k: Key)
    requires GroupCount(leads, day) > 0
    ensures k.day == day && Count(leads, k) > 0
  {
    GroupCountIsSize(leads, day);
    k :| k in Groups(leads, day);
    ExactRows(leads, day, day, k);
  }

  lemma {:induction false} StoppingShortMetARow(leads: seq<Lead>, day: int, last: int, count: nat, maxDays: int)
    returns (k: Key)
    requires count < maxDays && StopDay(leads, day, last, count, maxDays) <= last
    ensures day <= k.day < StopDay(leads, day, last, count, maxDays) && Count(leads, k) > 0
    decreases last - day
  {
    if GroupCount(leads, day) == 0 {
      k := StoppingShortMetARow(leads, day + 1, last, count, maxDays);
    } else {
      k := CountedDayHasARow(leads, day);
    }
  }

  lemma CrowdedDayStops(leads: seq<Lead>, day: int, last: int, maxDays: int)
    requires GroupCount(leads, day) >= maxDays
    ensures StopDay(leads, day, last, 0, maxDays) <= day + 1
  {
  }

  /** Some row is written on a day after the first one, before the refresh stops. */
  lemma ShortRefreshMeetsARow(db: Db, maxDays: int) returns (k: Key)
    requires StartDay(db) <= LastDay(db) && RefreshStop(db, maxDays) <= LastDay(db)
    requires GroupCount(db.leads, StartDay(db)) < maxDays
    ensures k in Refreshed(db, maxDays).table && k.day > StartDay(db)
  {
    var leads, s, last := db.leads, StartDay(db), LastDay(db);
    StopDayNext(leads, s, last, 0, maxDays);
    k := StoppingShortMetARow(leads, s + 1, last, GroupCount(leads, s), maxDays);
    WrittenRow(db, s, StopDay(leads, s, last, 0, maxDays), k);
  }

  lemma CrowdedRefreshStays(db: Db, maxDays: int, k: Key)
    requires db.table != map[] && GroupCount(db.leads, StartDay(db)) >= maxDays
    requires k in Refreshed(db, maxDays).table
    ensures k.day <= StartDay(db)
  {
    CrowdedDayStops(db.leads, StartDay(db), LastDay(db), maxDays);
    WrittenRow(db, StartDay(db), RefreshStop(db, maxDays), k);
  }

  /**
    A completed refresh of a non-empty table that stops short of the last day gets
    further exactly when the newest day has fewer groups than `maxDays`.
  */
  lemma ProgressIff(db: Db, maxDays: int)
    requires Sound(db) && db.table != map[]
    requires StartDay(db) <= LastDay(db) && RefreshStop(db, maxDays) <= LastDay(db)
    ensures Refreshed(db, maxDays).table != map[]
    ensures StartDay(Refreshed(db, maxDays)) > StartDay(db) <==> GroupCount(db.leads, StartDay(db)) < maxDays
    ensures StartDay(Refreshed(db, maxDays)) >= StartDay(db)
  {
    var newest :| newest in db.table && newest.day == StartDay(db);
    WrittenRow(db, StartDay(db), RefreshStop(db, maxDays), newest);
    if GroupCount(db.leads, StartDay(db)) < maxDays {
      var k := ShortRefreshMeetsARow(db, maxDays);
    } else {
      var k :| k in Refreshed(db, maxDays).table && k.day == LatestDay(Refreshed(db, maxDays).table);
      CrowdedRefreshStays(db, maxDays, k);
    }
  }

  lemma RefreshKeepsCover(db: Db, maxDays: int)
    requires Sound(db) && Prefix(db)
    ensures Sound(Refreshed(db, maxDays)) && Prefix(Refreshed(db, maxDays))
    ensures FirstDay(Refreshed(db, maxDays)) == FirstDay(db) && LastDay(Refreshed(db, maxDays)) == LastDay(db)
    ensures Refreshed(db, maxDays).today == db.today && Refreshed(db, maxDays).leads == db.leads
    ensures Batch(Refreshed(db, maxDays)) == Batch(db)
  {
    if StartDay(db) <= LastDay(db) {
      RunFromFrontierKeepsInvariants(db, Refreshed(db, maxDays), StartDay(db), RefreshStop(db, maxDays));
      WrittenRow(db, StartDay(db), RefreshStop(db, maxDays), Key(0, ""));
    }
  }

  /** A crowded day from the newest aggregated one on, with leads of covered days behind it. */
  ghost predicate Barrier(db: Db, day: int, maxDays: int) {
    && StartDay(db) <= day && GroupCount(db.leads, day) >= maxDays
    && exists l :: l in db.leads && day < l.day <= LastDay(db)
  }

  ghost predicate Passable(db: Db, maxDays: int) {
    maxDays > 0 && forall d :: !Barrier(db, d, maxDays)
  }

  lemma ShortRefreshAdvances(db: Db, maxDays: int)
    requires Sound(db) && Prefix(db) && StartDay(db) <= LastDay(db)
    requires GroupCount(db.leads, StartDay(db)) < maxDays && RefreshStop(db, maxDays) <= LastDay(db)
    ensures StartDay(db) < StartDay(Refreshed(db, maxDays)) <= LastDay(db)
  {
    var k := ShortRefreshMeetsARow(db, maxDays);
    var t := Refreshed(db, maxDays).table;
    var newest :| newest in t && newest.day == LatestDay(t);
    WrittenRow(db, StartDay(db), RefreshStop(db, maxDays), newest);
    StartDayIsFrontier(db);
  }

  lemma RefreshReachesOrAdvances(db: Db, maxDays: int)
    requires Sound(db) && Prefix(db) && StartDay(db) <= LastDay(db) && Passable(db, maxDays)
    ensures CaughtUp(Refreshed(db, maxDays)) || StartDay(db) < StartDay(Refreshed(db, maxDays)) <= LastDay(db)
  {
    var s, stop := StartDay(db), RefreshStop(db, maxDays);
    StopDayNext(db.leads, s, LastDay(db), 0, maxDays);
    if NoLeadsIn(db.leads, stop, LastDay(db)) {
      RefreshKeepsCover(db, maxDays);
      IncrementalEqualsBatch(db, maxDays);
    } else {
      var l :| l in db.leads && stop <= l.day <= LastDay(db);
      assert !Barrier(db, s, maxDays);
      ShortRefreshAdvances(db, maxDays);
    }
  }

  lemma RefreshNeverGoesBack(db: Db, maxDays: int)
    ensures StartDay(db) <= StartDay(Refreshed(db, maxDays))
  {
    var s, stop, db' := StartDay(db), RefreshStop(db, maxDays), Refreshed(db, maxDays);
    WrittenRow(db, s, stop, Key(0, ""));
    if s <= LastDay(db) && db.table != map[] {
      var top :| top in db.table && top.day == s;
      WrittenRow(db, s, stop, top);
    } else if s <= LastDay(db) && db'.table != map[] {
      var newest :| newest in db'.table && newest.day == LatestDay(db'.table);
      WrittenRow(db, s, stop, newest);
    }
  }

  lemma StaysPassable(db: Db, db': Db, maxDays: int)
    requires Passable(db, maxDays)
    requires db'.leads == db.leads && LastDay(db') == LastDay(db) && StartDay(db) <= StartDay(db')
    ensures Passable(db', maxDays)
  {
    forall d ensures !Barrier(db', d, maxDays) {
      assert !Barrier(db, d, maxDays);
    }
  }

  /** One day's work: leads arrive, and refreshes complete or fail part-way. */
  ghost predicate DaysWork(run: seq<Db>, maxDays: int) {
    run != [] && forall i :: 0 <= i < |run| - 1 ==>
      Insert(run[i], run[i + 1]) || RefreshStep(run[i], run[i + 1], maxDays)
  }

  /** How many of the first `i` steps are completed refreshes. */
  ghost function Completions(run: seq<Db>, i: nat, maxDays: int): nat
    requires i < |run|
  {
    if i == 0 then 0
    else Completions(run, i - 1, maxDays) + if run[i] == Refreshed(run[i - 1], maxDays) then 1 else 0
  }

  /** The earliest operational day is complete, and the covered range is that of `origin`. */
  ghost predicate Underway(db: Db, origin: Db, maxDays: int) {
    && Sound(db) && Prefix(db) && Passable(db, maxDays)
    && db.leads != [] && FirstDay(db) < db.today && LastDay(db) == LastDay(origin)
  }

  ghost predicate OnTheWay(db: Db, origin: Db, steps: nat) {
    || CaughtUp(db)
    || StartDay(origin) + steps <= StartDay(db) <= LastDay(db)
  }

  lemma InsertKeepsCover(db: Db, db': Db)
    requires Sound(db) && db.leads != [] && Insert(db, db')
    ensures FirstDay(db') == FirstDay(db) && LastDay(db') == LastDay(db) && StartDay(db') == StartDay(db)
    ensures forall d :: d < db.today ==> Groups(db'.leads, d) == Groups(db.leads, d)
    ensures forall d :: d < db.today ==> GroupCount(db'.leads, d) == GroupCount(db.leads, d)
  {
    assert db'.leads[..|db.leads|] == db.leads;
  }

  lemma BatchRowAfterInsert(db: Db, db': Db, l: Lead, k: Key)
    requires l.day == db.today && db' == db.(leads := db.leads + [l])
    requires LastDay(db') == LastDay(db) < db.today
    ensures k in Batch(db') <==> k in Batch(db)
    ensures k in Batch(db) ==> Batch(db')[k] == Batch(db)[k]
  {
    InsertedCount(db.leads, l, k);
    RowOfBatch(db, k);
    RowOfBatch(db', k);
  }

  lemma InsertKeepsCaughtUp(db: Db, db': Db)
    requires Sound(db) && db.leads != [] && FirstDay(db) < db.today && CaughtUp(db) && Insert(db, db')
    ensures CaughtUp(db')
  {
    InsertKeepsCover(db, db');
    var l: Lead :| l.day == db.today && db' == db.(leads := db.leads + [l]);
    var t, u := Batch(db), Batch(db');
    forall k: Key ensures (k in t <==> k in u) && (k in t ==> t[k] == u[k]) {
      BatchRowAfterInsert(db, db', l, k);
    }
    assert t == u;
  }

  lemma InsertStaysPassable(db: Db, db': Db, maxDays: int)
    requires Sound(db) && db.leads != [] && FirstDay(db) < db.today && Insert(db, db') && Passable(db, maxDays)
    ensures Passable(db', maxDays)
  {
    InsertKeepsCover(db, db');
    forall d ensures !Barrier(db', d, maxDays) {
      assert !Barrier(db, d, maxDays);
    }
  }

  lemma InsertOnTheWay(db: Db, db': Db, origin: Db, steps: nat, maxDays: int)
    requires Underway(db, origin, maxDays) && OnTheWay(db, origin, steps) && Insert(db, db')
    ensures Underway(db', origin, maxDays) && OnTheWay(db', origin, steps)
  {
    InsertKeepsInvariants(db, db');
    InsertKeepsCover(db, db');
    InsertStaysPassable(db, db', maxDays);
    if CaughtUp(db) {
      InsertKeepsCaughtUp(db, db');
    }
  }

  /** An interrupted run takes no row away, and adds rows of its own days only. */
  lemma InterruptedRow(db: Db, db': Db, lo: int, stop: int, k: Key)
    requires Interrupted(db, db', lo, stop)
    ensures db'.leads == db.leads && db'.today == db.today
    ensures k in db.table ==> k in db'.table
    ensures k in db'.table ==> k in db.table || (lo <= k.day < stop && Count(db.leads, k) > 0)
  {
    var f :| lo <= f < stop && InterruptedOn(Written(db, lo, f), db', f);
    WrittenRow(db, lo, f, k);
    ExactRows(db.leads, f, f, k);
  }

  lemma InterruptedRefreshStays(db: Db, db': Db, stop: int)
    requires StartDay(db) <= LastDay(db) && stop <= LastDay(db) + 1
    requires Interrupted(db, db', StartDay(db), stop)
    ensures StartDay(db) <= StartDay(db') <= LastDay(db)
  {
    InterruptedRow(db, db', StartDay(db), stop, Key(0, ""));
    if db'.table != map[] {
      var newest :| newest in db'.table && newest.day == LatestDay(db'.table);
      InterruptedRow(db, db', StartDay(db), stop, newest);
    }
    if db.table != map[] {
      var top :| top in db.table && top.day == LatestDay(db.table);
      InterruptedRow(db, db', StartDay(db), stop, top);
    }
  }

  lemma CompletedOnTheWay(db: Db, origin: Db, steps: nat, maxDays: int)
    requires Underway(db, origin, maxDays) && OnTheWay(db, origin, steps) && !CaughtUp(db)
    ensures Underway(Refreshed(db, maxDays), origin, maxDays)
    ensures OnTheWay(Refreshed(db, maxDays), origin, steps + 1)
  {
    RefreshKeepsCover(db, maxDays);
    RefreshNeverGoesBack(db, maxDays);
    StaysPassable(db, Refreshed(db, maxDays), maxDays);
    RefreshReachesOrAdvances(db, maxDays);
  }

  lemma InterruptedOnTheWay(db: Db, db': Db, origin: Db, steps: nat, maxDays: int)
    requires Underway(db, origin, maxDays) && OnTheWay(db, origin, steps) && !CaughtUp(db)
    requires Interrupted(db, db', StartDay(db), RefreshStop(db, maxDays))
    ensures Underway(db', origin, maxDays) && OnTheWay(db', origin, steps)
  {
    RunFromFrontierKeepsInvariants(db, db', StartDay(db), RefreshStop(db, maxDays));
    InterruptedRow(db, db', StartDay(db), RefreshStop(db, maxDays), Key(0, ""));
    InterruptedRefreshStays(db, db', RefreshStop(db, maxDays));
    StaysPassable(db, db', maxDays);
  }

  lemma RefreshOnTheWay(db: Db, db': Db, origin: Db, steps: nat, maxDays: int)
    requires Underway(db, origin, maxDays) && OnTheWay(db, origin, steps) && RefreshStep(db, db', maxDays)
    ensures Underway(db', origin, maxDays)
    ensures OnTheWay(db', origin, steps + if db' == Refreshed(db, maxDays) then 1 else 0)
  {
    if CaughtUp(db) {
      RefreshAgainChangesNothing(db, db', maxDays);
    } else if db' == Refreshed(db, maxDays) {
      CompletedOnTheWay(db, origin, steps, maxDays);
    } else {
      InterruptedOnTheWay(db, db', origin, steps, maxDays);
    }
  }

  lemma RefreshStaysSound(db: Db, db': Db, maxDays: int)
    requires Sound(db) && Prefix(db) && RefreshStep(db, db', maxDays)
    ensures Sound(db') && Prefix(db')
  {
    StepKeepsInvariants(db, db');
  }

  lemma {:induction false} WorkIsOnTheWay(run: seq<Db>, i: nat, maxDays: int)
    requires DaysWork(run, maxDays) && i < |run|
    requires Underway(run[0], run[0], maxDays) && StartDay(run[0]) <= LastDay(run[0])
    ensures Underway(run[i], run[0], maxDays) && OnTheWay(run[i], run[0], Completions(run, i, maxDays))
    decreases i
  {
    if i > 0 {
      WorkIsOnTheWay(run, i - 1, maxDays);
      var steps := Completions(run, i - 1, maxDays);
      if RefreshStep(run[i - 1], run[i], maxDays) {
        RefreshOnTheWay(run[i - 1], run[i], run[0], steps, maxDays);
      } else {
        InsertOnTheWay(run[i - 1], run[i], run[0], steps, maxDays);
      }
    }
  }

  // ------------------------------------------------------------ what a barrier blocks

  lemma {:induction false} StopsAtCrowdedDay(leads: seq<Lead>, day: int, last: int, count: nat, maxDays: int,
                                             crowded: int)
    requires day <= crowded && GroupCount(leads, crowded) >= maxDays
    ensures StopDay(leads, day, last, count, maxDays) <= crowded + 1
    decreases crowded - day
  {
    if day <= last && count < maxDays {
      StopDayNext(leads, day, last, count, maxDays);
      if day < crowded {
        StopsAtCrowdedDay(leads, day + 1, last, count + GroupCount(leads, day), maxDays, crowded);
      }
    }
  }

  /** A refresh of either outcome takes no row away and adds none behind the barrier. */
  lemma RefreshStaysBefore(db: Db, db': Db, day: int, maxDays: int, k: Key)
    requires StartDay(db) <= day && GroupCount(db.leads, day) >= maxDays && RefreshStep(db, db', maxDays)
    ensures db'.leads == db.leads && db'.today == db.today
    ensures k in db.table ==> k in db'.table
    ensures k in db'.table && k !in db.table ==> k.day <= day
  {
    var s, stop := StartDay(db), RefreshStop(db, maxDays);
    StopsAtCrowdedDay(db.leads, s, LastDay(db), 0, maxDays, day);
    if s <= LastDay(db) {
      if db' == Refreshed(db, maxDays) {
        WrittenRow(db, s, stop, k);
      } else {
        InterruptedRow(db, db', s, stop, k);
      }
    }
  }

  lemma RefreshKeepsBarrier(db: Db, db': Db, day: int, maxDays: int)
    requires Barrier(db, day, maxDays) && RefreshStep(db, db', maxDays)
    ensures Barrier(db', day, maxDays)
  {
    RefreshStaysBefore(db, db', day, maxDays, Key(0, ""));
    if db'.table != map[] {
      var newest :| newest in db'.table && newest.day == LatestDay(db'.table);
      RefreshStaysBefore(db, db', day, maxDays, newest);
    } else if db.table != map[] {
      var k :| k in db.table;
      RefreshStaysBefore(db, db', day, maxDays, k);
    }
  }

  lemma InsertKeepsBarrier(db: Db, db': Db, day: int, maxDays: int)
    requires Sound(db) && Barrier(db, day, maxDays) && Insert(db, db')
    ensures Barrier(db', day, maxDays)
  {
    InsertKeepsCover(db, db');
    var l :| l in db.leads && day < l.day <= LastDay(db);
    assert l in db'.leads && l.day <= db.today;
  }

  lemma BehindABarrierIsMissing(db: Db, day: int, maxDays: int)
    requires Barrier(db, day, maxDays)
    ensures !CaughtUp(db)
  {
    var l :| l in db.leads && day < l.day <= LastDay(db);
    CountIsPositive(db.leads, KeyOf(l));
    RowOfBatch(db, KeyOf(l));
    assert KeyOf(l) !in db.table;
  }

  ghost predicate Service(run: seq<Db>, maxDays: int) {
    run != [] && forall i :: 0 <= i < |run| - 1 ==>
      Insert(run[i], run[i + 1]) || Tick(run[i], run[i + 1]) || RefreshStep(run[i], run[i + 1], maxDays)
  }

  /** No refresh gets past a barrier, whatever arrives and however many days begin. */
  lemma {:induction false} BarrierStays(run: seq<Db>, i: nat, day: int, maxDays: int)
    requires Service(run, maxDays) && i < |run| && Sound(run[0]) && Barrier(run[0], day, maxDays)
    ensures Sound(run[i]) && Barrier(run[i], day, maxDays) && !CaughtUp(run[i])
    decreases i
  {
    if i > 0 {
      BarrierStays(run, i - 1, day, maxDays);
      if Insert(run[i - 1], run[i]) {
        InsertKeepsSound(run[i - 1], run[i]);
        InsertKeepsBarrier(run[i - 1], run[i], day, maxDays);
      } else if RefreshStep(run[i - 1], run[i], maxDays) {
        RefreshKeepsSound(run[i - 1], run[i], maxDays);
        RefreshKeepsBarrier(run[i - 1], run[i], day, maxDays);
      }
    }
    BehindABarrierIsMissing(run[i], day, maxDays);
  }

  /**
    Once there were as many completed refreshes as days to cover, the table has caught up with
    the complete days, whatever arrived or failed in between, exactly if no day from the newest
    aggregated one on has `maxDays` groups or more and covered leads behind it.
  */
  lemma RefreshesCatchUpIff(run: seq<Db>, i: nat, maxDays: int)
    requires DaysWork(run, maxDays) && i < |run| && maxDays > 0
    requires Sound(run[0]) && Prefix(run[0]) && run[0].leads != [] && FirstDay(run[0]) < run[0].today
    requires StartDay(run[0]) <= LastDay(run[0])
    requires Completions(run, i, maxDays) > LastDay(run[0]) - StartDay(run[0])
    ensures CaughtUp(run[i]) <==> forall d :: !Barrier(run[0], d, maxDays)
  {
    if d :| Barrier(run[0], d, maxDays) {
      BarrierStays(run, i, d, maxDays);
    } else {
      WorkIsOnTheWay(run, i, maxDays);
    }
  }

  /** Before the first complete day a single completed refresh catches up with the provisional one. */
  lemma ProvisionalDayCatchesUp(db: Db, maxDays: int)
    requires Sound(db) && Prefix(db) && maxDays > 0
    requires StartDay(db) == LastDay(db)
    ensures CaughtUp(Refreshed(db, maxDays))
  {
    RefreshKeepsCover(db, maxDays);
    IncrementalEqualsBatch(db, maxDays);
  }

  /** Also the very first refresh, on the first day of operations, writes the day in progress. */
  lemma FirstDayIsWritten(db: Db, maxDays: int, k: Key)
    requires Sound(db) && db.table == map[] && db.leads != [] && maxDays > 0
    requires forall l :: l in db.leads ==> l.day == db.today
    ensures Agrees(db.leads, Refreshed(db, maxDays).table, k)
  {
    CoveredRange(db);
    ProvisionalDayCatchesUp(db, maxDays);
    RefreshKeepsCover(db, maxDays);
    RowOfBatch(db, k);
    CountIsPositive(db.leads, k);
  }

  // ----------------------------------------------------------------------- stalling

  /** The newest aggregated day is `day`, others follow, and `day` has too many groups. */
  ghost predicate Stuck(db: Db, day: int, maxDays: int) {
    && Sound(db) && Prefix(db)
    && db.table != map[] && LatestDay(db.table) == day && day < LastDay(db)
    && GroupCount(db.leads, day) >= maxDays
  }

  lemma RowNeedsALead(db: Db)
    requires Sound(db) && db.table != map[]
    ensures db.leads != []
  {
    var k :| k in db.table;
    CountIsPositive(db.leads, k);
  }

  lemma InsertStaysStuck(db: Db, db': Db, day: int, maxDays: int)
    requires Stuck(db, day, maxDays) && Insert(db, db')
    ensures Stuck(db', day, maxDays)
  {
    RowNeedsALead(db);
    InsertKeepsInvariants(db, db');
    InsertKeepsCover(db, db');
    var first :| first in db.leads && first.day == FirstDay(db);
    assert LastDay(db) <= db.today;
  }

  lemma TickStaysStuck(db: Db, db': Db, day: int, maxDays: int)
    requires Stuck(db, day, maxDays) && Tick(db, db')
    ensures Stuck(db', day, maxDays)
  {
    RowNeedsALead(db);
  }

  /** A refresh writes the crowded day once more and stops, or fails on it. */
  lemma RefreshStaysStuck(db: Db, db': Db, day: int, maxDays: int)
    requires Stuck(db, day, maxDays) && RefreshStep(db, db', maxDays)
    ensures Stuck(db', day, maxDays)
  {
    CrowdedDayStops(db.leads, day, LastDay(db), maxDays);
    RefreshStaysSound(db, db', maxDays);
    if db' == Refreshed(db, maxDays) {
      RefreshKeepsCover(db, maxDays);
      ProgressIff(db, maxDays);
    } else {
      CrowdedDayInterrupted(db, db', day, RefreshStop(db, maxDays));
    }
  }

  lemma CrowdedDayInterrupted(db: Db, db': Db, day: int, stop: int)
    requires db.table != map[] && LatestDay(db.table) == day && stop <= day + 1 && Interrupted(db, db', day, stop)
    ensures db'.leads == db.leads && db'.today == db.today && db'.table != map[] && LatestDay(db'.table) == day
  {
    var top :| top in db.table && top.day == day;
    InterruptedRow(db, db', day, stop, top);
    var newest :| newest in db'.table && newest.day == LatestDay(db'.table);
    InterruptedRow(db, db', day, stop, newest);
  }

  /**
    A newest day with `maxDays` groups or more is the newest for ever, however many days and
    leads follow and however often the refresh runs.
  */
  lemma {:induction false} CrowdedDayStallsForEver(run: seq<Db>, i: nat, day: int, maxDays: int)
    requires Service(run, maxDays) && i < |run| && Stuck(run[0], day, maxDays)
    ensures Stuck(run[i], day, maxDays)
    decreases i
  {
    if i > 0 {
      CrowdedDayStallsForEver(run, i - 1, day, maxDays);
      if Insert(run[i - 1], run[i]) {
        InsertStaysStuck(run[i - 1], run[i], day, maxDays);
      } else if Tick(run[i - 1], run[i]) {
        TickStaysStuck(run[i - 1], run[i], day, maxDays);
      } else {
        RefreshStaysStuck(run[i - 1], run[i], day, maxDays);
      }
    }
  }

  /** The very first refresh gets stuck when the first day is crowded and others follow it. */
  lemma CrowdedFirstDayGetsStuck(db: Db, maxDays: int)
    requires Sound(db) && db.table == map[] && db.leads != [] && maxDays > 0
    requires FirstDay(db) < LastDay(db) && GroupCount(db.leads, FirstDay(db)) >= maxDays
    ensures Stuck(Refreshed(db, maxDays), FirstDay(db), maxDays)
  {
    var first, db' := FirstDay(db), Refreshed(db, maxDays);
    RefreshKeepsCover(db, maxDays);
    CrowdedDayStops(db.leads, first, LastDay(db), maxDays);
    var k := CountedDayHasARow(db.leads, first);
    WrittenRow(db, first, RefreshStop(db, maxDays), k);
    var newest :| newest in db'.table && newest.day == LatestDay(db'.table);
    WrittenRow(db, first, RefreshStop(db, maxDays), newest);
  }

  // -------------------------------------------------------------- unguarded rebuilds

  /** No lead of the days `a..b` is newer than the newest aggregated day. */
  ghost predicate NothingNewer(db: Db, a: int, b: int) {
    forall l :: l in db.leads && a <= l.day <= b ==> exists k :: k in db.table && l.day <= k.day
  }

  /** The rebuild brings a row of a day after all that the table had. */
  ghost predicate AddsNewerDay(db: Db, db': Db) {
    exists m :: m in db'.table && forall n :: n in db.table ==> n.day < m.day
  }

  /** What a rebuild, finished or not, leaves at a key. */
  lemma RebuiltRow(db: Db, db': Db, a: int, b: int, k: Key)
    requires a <= b && RebuildStep(db, db', a, b)
    ensures db'.leads == db.leads
    ensures k in db.table ==> k in db'.table
    ensures k in db'.table ==>
      || (k in db.table && db'.table[k] == db.table[k])
      || (a <= k.day <= b && Count(db.leads, k) > 0 && db'.table[k] == Count(db.leads, k))
  {
    if db' == Written(db, a, b + 1) {
      WrittenRow(db, a, b + 1, k);
    } else {
      var f :| a <= f < b + 1 && InterruptedOn(Written(db, a, f), db', f);
      WrittenRow(db, a, f, k);
      ExactRows(db.leads, f, f, k);
    }
  }

  lemma RebuildKeepsAgreement(db: Db, db': Db, a: int, b: int, k: Key)
    requires a <= b && RebuildStep(db, db', a, b)
    ensures Agrees(db.leads, db.table, k) ==> Agrees(db'.leads, db'.table, k)
    ensures k.day < a && Agrees(db'.leads, db'.table, k) ==> Agrees(db.leads, db.table, k)
  {
    RebuiltRow(db, db', a, b, k);
  }

  lemma NewerDayNeedsNoGap(db: Db, db': Db, a: int, b: int)
    requires a <= b && RebuildStep(db, db', a, b) && Prefix(db') && AddsNewerDay(db, db')
    ensures Settled(db.leads, db.table, a)
  {
    var m :| m in db'.table && forall n :: n in db.table ==> n.day < m.day;
    RebuiltRow(db, db', a, b, m);
    assert Settled(db'.leads, db'.table, m.day);
    forall k: Key | k.day < a ensures Agrees(db.leads, db.table, k) {
      assert Agrees(db'.leads, db'.table, k);
      RebuildKeepsAgreement(db, db', a, b, k);
    }
  }

  lemma NoNewerDayKeepsPrefix(db: Db, db': Db, a: int, b: int)
    requires a <= b && Prefix(db) && RebuildStep(db, db', a, b) && !AddsNewerDay(db, db')
    ensures Prefix(db')
  {
    forall m, k: Key | m in db'.table && k.day < m.day ensures Agrees(db'.leads, db'.table, k) {
      var n :| n in db.table && n.day >= m.day;
      assert Settled(db.leads, db.table, n.day);
      assert Agrees(db.leads, db.table, k);
      RebuildKeepsAgreement(db, db', a, b, k);
    }
  }

  /** How far a rebuild got: up to `f`, where it stopped or raised. */
  lemma RebuildReached(db: Db, db': Db, a: int, b: int) returns (f: int)
    requires a <= b && RebuildStep(db, db', a, b)
    ensures db' == Written(db, a, f) || InterruptedOn(Written(db, a, f), db', f)
  {
    if db' == Written(db, a, b + 1) {
      f := b + 1;
    } else {
      f :| a <= f < b + 1 && InterruptedOn(Written(db, a, f), db', f);
    }
  }

  lemma RebuiltDays(db: Db, db': Db, a: int, f: int, k: Key)
    requires Sound(db) && (db' == Written(db, a, f) || InterruptedOn(Written(db, a, f), db', f))
    ensures a <= k.day < f ==> Agrees(db'.leads, db'.table, k)
    ensures k.day > f ==> (k in db'.table <==> k in db.table)
  {
    WrittenRow(db, a, f, k);
    ExactRows(db.leads, f, f, k);
  }

  lemma NoGapKeepsPrefix(db: Db, db': Db, a: int, b: int)
    requires Sound(db) && Prefix(db) && a <= b && RebuildStep(db, db', a, b) && Settled(db.leads, db.table, a)
    ensures Prefix(db')
  {
    var f := RebuildReached(db, db', a, b);
    forall m, k: Key | m in db'.table && k.day < m.day ensures Agrees(db'.leads, db'.table, k) {
      RebuildKeepsAgreement(db, db', a, b, k);
      RebuiltDays(db, db', a, f, k);
      if k.day < a {
        assert Agrees(db.leads, db.table, k);
      } else if k.day >= f {
        RebuiltDays(db, db', a, f, m);
        assert Settled(db.leads, db.table, m.day);
        assert Agrees(db.leads, db.table, k);
      }
    }
  }

  lemma NewerDayHasANewerLead(db: Db, a: int, b: int)
    requires AddsNewerDay(db, Written(db, a, b + 1))
    ensures !NothingNewer(db, a, b)
  {
    var db' := Written(db, a, b + 1);
    var m :| m in db'.table && forall n :: n in db.table ==> n.day < m.day;
    WrittenRow(db, a, b + 1, m);
    CountIsPositive(db.leads, m);
  }

  lemma NewerLeadAddsANewerDay(db: Db, a: int, b: int)
    requires !NothingNewer(db, a, b)
    ensures AddsNewerDay(db, Written(db, a, b + 1))
  {
    var l :| l in db.leads && a <= l.day <= b && forall k :: k in db.table ==> k.day < l.day;
    CountIsPositive(db.leads, KeyOf(l));
    WrittenRow(db, a, b + 1, KeyOf(l));
    assert KeyOf(l) in Written(db, a, b + 1).table;
  }

  /**
    A rebuild, finished or not, keeps the invariant exactly if it added no newer day or left
    no gap before its range; a finished one adds a newer day exactly if a lead has one.
  */
  lemma RebuildKeepsPrefixIff(db: Db, db': Db, a: int, b: int)
    requires Sound(db) && Prefix(db) && a <= b && RebuildStep(db, db', a, b)
    ensures Prefix(db') <==> !AddsNewerDay(db, db') || Settled(db.leads, db.table, a)
    ensures db' == Written(db, a, b + 1) ==>
      (Prefix(db') <==> NothingNewer(db, a, b) || Settled(db.leads, db.table, a))
  {
    if !AddsNewerDay(db, db') {
      NoNewerDayKeepsPrefix(db, db', a, b);
    } else {
      if Prefix(db') {
        NewerDayNeedsNoGap(db, db', a, b);
      }
      if Settled(db.leads, db.table, a) {
        NoGapKeepsPrefix(db, db', a, b);
      }
    }
    if NothingNewer(db, a, b) {
      if AddsNewerDay(db, Written(db, a, b + 1)) {
        NewerDayHasANewerLead(db, a, b);
      }
    } else {
      NewerLeadAddsANewerDay(db, a, b);
    }
  }

  /** Refreshes never repair a day before the newest one, so a gap left by a rebuild stays. */
  lemma {:induction false} OldDaysAreFrozen(run: seq<Db>, i: nat, k: Key)
    requires i < |run| && run[0].table != map[] && k.day < LatestDay(run[0].table)
    requires forall j :: 0 <= j < |run| - 1 ==>
      Insert(run[j], run[j + 1]) || Tick(run[j], run[j + 1]) || Refresh(run[j], run[j + 1])
    ensures run[i].table != map[] && k.day < LatestDay(run[i].table)
    ensures k in run[i].table <==> k in run[0].table
    ensures k in run[i].table ==> run[i].table[k] == run[0].table[k]
    decreases i
  {
    if i > 0 {
      OldDaysAreFrozen(run, i - 1, k);
      var db, db' := run[i - 1], run[i];
      if Refresh(db, db') {
        var maxDays :| RefreshStep(db, db', maxDays);
        RefreshFreezesOldDays(db, db', maxDays, k);
      }
    }
  }

  lemma RefreshFreezesOldDays(db: Db, db': Db, maxDays: int, k: Key)
    requires RefreshStep(db, db', maxDays) && db.table != map[] && k.day < LatestDay(db.table)
    ensures db'.table != map[] && k.day < LatestDay(db'.table)
    ensures k in db'.table <==> k in db.table
    ensures k in db'.table ==> db'.table[k] == db.table[k]
  {
    var s := StartDay(db);
    var newest :| newest in db.table && newest.day == s;
    if db' == Written(db, s, RefreshStop(db, maxDays)) {
      WrittenRow(db, s, RefreshStop(db, maxDays), k);
      WrittenRow(db, s, RefreshStop(db, maxDays), newest);
    } else if s <= LastDay(db) {
      var f :| s <= f < RefreshStop(db, maxDays) && InterruptedOn(Written(db, s, f), db', f);
      WrittenRow(db, s, f, k);
      WrittenRow(db, s, f, newest);
      ExactRows(db.leads, f, f, k);
    }
  }

  /**
    The default rebuild of thirty days on a fresh table: an older lead is missing, and
    lies before the newest day, where by `OldDaysAreFrozen` no refresh ever writes it.
  */
  lemma FreshRebuildLosesHistory(db: Db, a: int, b: int, missed: Lead, seen: Lead)
    requires Sound(db) && db.table == map[]
    requires missed in db.leads && seen in db.leads && missed.day < a <= seen.day <= b
    ensures var t := Written(db, a, b + 1).table;
      t != map[] && KeyOf(missed) !in t && KeyOf(missed).day < LatestDay(t)
    ensures !Prefix(Written(db, a, b + 1))
  {
    var db' := Written(db, a, b + 1);
    CountIsPositive(db.leads, KeyOf(missed));
    CountIsPositive(db.leads, KeyOf(seen));
    WrittenRow(db, a, b + 1, KeyOf(missed));
    WrittenRow(db, a, b + 1, KeyOf(seen));
    assert !Agrees(db'.leads, db'.table, KeyOf(missed));
    assert !Settled(db'.leads, db'.table, KeyOf(seen).day);
  }

  // ---------------------------------------------------------------- the diagnostic

  ghost function Sum(t: Table): nat {
    if t == map[] then 0
    else
      var k :| k in t;
      t[k] + Sum(t - {k})
  }

  ghost function EarliestDay(t: Table): (d: int)
    requires t != map[]
    ensures exists k :: k in t && k.day == d
    ensures forall k :: k in t ==> d <= k.day
  {
    var k :| k in t;
    var rest := t - {k};
    assert forall j :: j in t <==> j == k || j in rest;
    if rest == map[] then k.day
    else
      var d := EarliestDay(rest);
      assert exists j :: j in rest && j.day == d;
      if k.day < d then k.day else d
  }

  /** The live count of rows created on the days `lo..hi`. */
  function Live(leads: seq<Lead>, lo: int, hi: int): nat {
    if leads == [] then 0
    else Live(leads[..|leads| - 1], lo, hi) + if lo <= leads[|leads| - 1].day <= hi then 1 else 0
  }

  /** Check 6 of `run_diagnostics`; without aggregate rows it reports nothing. */
  ghost predicate DiagnosticOk(db: Db) {
    db.table == map[] || Sum(db.table) == Live(db.leads, EarliestDay(db.table), LatestDay(db.table))
  }

  lemma {:induction false} SumTakesOut(t: Table, k: Key)
    requires k in t
    ensures Sum(t) == t[k] + Sum(t - {k})
    decreases |t|
  {
    var j :| j in t && Sum(t) == t[j] + Sum(t - {j});
    if j != k {
      SumTakesOut(t - {j}, k);
      SumTakesOut(t - {k}, j);
      assert t - {j} - {k} == t - {k} - {j};
    }
  }

  lemma SumOfUpdate(t: Table, k: Key, v: nat)
    ensures Sum(t[k := v]) == v + Sum(t - {k})
  {
    SumTakesOut(t[k := v], k);
    assert t[k := v] - {k} == t - {k};
  }

  lemma {:induction false} SumOfExact(leads: seq<Lead>, lo: int, hi: int)
    ensures Sum(Exact(leads, lo, hi)) == Live(leads, lo, hi)
    decreases |leads|
  {
    if leads != [] {
      var last, rest := leads[|leads| - 1], leads[..|leads| - 1];
      var t, k := Exact(rest, lo, hi), KeyOf(last);
      SumOfExact(rest, lo, hi);
      if lo <= last.day <= hi {
        ExactRows(rest, lo, hi, k);
        SumOfUpdate(t, k, Count(leads, k));
        if k in t {
          SumTakesOut(t, k);
        } else {
          assert t - {k} == t;
        }
      }
    }
  }

  lemma {:induction false} SumComparesTables(t: Table, u: Table)
    requires forall k :: k in t ==> k in u && t[k] <= u[k]
    requires forall k :: k in u ==> u[k] > 0
    ensures Sum(t) <= Sum(u)
    ensures Sum(t) == Sum(u) ==> t == u
    decreases |u|
  {
    if u == map[] {
      assert t == map[];
    } else {
      var k :| k in u;
      SumTakesOut(u, k);
      SumComparesTables(t - {k}, u - {k});
      if k in t {
        SumTakesOut(t, k);
        RestoreKey(t, k);
        RestoreKey(u, k);
      } else {
        assert t - {k} == t;
      }
    }
  }

  lemma RestoreKey(t: Table, k: Key)
    requires k in t
    ensures (t - {k})[k := t[k]] == t
  {
  }

  /**
    In every state that inserts, ticks, refreshes and rebuilds of any range can reach,
    the totals match exactly when every day between the first and the last aggregated
    one holds the group-by of the source: errors can never cancel out.
  */
  lemma DiagnosticIsExact(db: Db)
    requires Sound(db) && db.table != map[]
    ensures DiagnosticOk(db) <==> db.table == Exact(db.leads, EarliestDay(db.table), LatestDay(db.table))
  {
    var lo, hi := EarliestDay(db.table), LatestDay(db.table);
    var u := Exact(db.leads, lo, hi);
    forall k | k in db.table ensures k in u && db.table[k] <= u[k] {
      ExactRows(db.leads, lo, hi, k);
    }
    forall k | k in u ensures u[k] > 0 {
      ExactRows(db.leads, lo, hi, k);
    }
    SumOfExact(db.leads, lo, hi);
    SumComparesTables(db.table, u);
  }

  lemma SettledTableIsExact(db: Db, lo: int, hi: int)
    requires Settled(db.leads, db.table, hi + 1) && forall k :: k in db.table ==> lo <= k.day <= hi
    ensures db.table == Exact(db.leads, lo, hi)
  {
    var u := Exact(db.leads, lo, hi);
    forall k: Key ensures (k in db.table <==> k in u) && (k in u ==> db.table[k] == u[k]) {
      ExactRows(db.leads, lo, hi, k);
      assert k.day < hi + 1 ==> Agrees(db.leads, db.table, k);
    }
  }

  /** Once caught up, the check is passed. */
  lemma CaughtUpPassesDiagnostic(db: Db)
    requires Sound(db) && CaughtUp(db)
    ensures DiagnosticOk(db)
  {
    if db.table != map[] {
      var lo, hi := EarliestDay(db.table), LatestDay(db.table);
      var newest :| newest in db.table && newest.day == hi;
      RowOfBatch(db, newest);
      CaughtUpIsSettled(db);
      SettledTableIsExact(db, lo, hi);
      DiagnosticIsExact(db);
    }
  }

  /** Soundness survives any rebuild, guarded or not. */
  lemma AnyRebuildKeepsSound(db: Db, db': Db, a: int, b: int)
    requires Sound(db) && a <= b && RebuildStep(db, db', a, b)
    ensures Sound(db')
  {
    if db' == Written(db, a, b + 1) {
      WrittenKeepsSound(db, a, b + 1);
    } else {
      var f :| a <= f < b + 1 && InterruptedOn(Written(db, a, f), db', f);
      WrittenKeepsSound(db, a, f);
      InterruptedKeepsSound(Written(db, a, f), db', f);
    }
  }

  ghost predicate AnyStep(db: Db, db': Db) {
    Insert(db, db') || Tick(db, db') || Refresh(db, db') || AnyRebuild(db, db')
  }

  lemma AnyStepKeepsSound(db: Db, db': Db)
    requires Sound(db) && AnyStep(db, db')
    ensures Sound(db')
  {
    if Insert(db, db') {
      InsertKeepsSound(db, db');
    } else if Refresh(db, db') {
      var maxDays :| RefreshStep(db, db', maxDays);
      RefreshKeepsSound(db, db', maxDays);
    } else if AnyRebuild(db, db') {
      var a, b :| a <= b && RebuildStep(db, db', a, b);
      AnyRebuildKeepsSound(db, db', a, b);
    }
  }

  /** The states of every history, with rebuilds of any range mixed in, are sound. */
  lemma {:induction false} AnyHistoryIsSound(run: seq<Db>, i: nat)
    requires i < |run| && run[0].table == map[] && Sound(run[0])
    requires forall j :: 0 <= j < |run| - 1 ==> AnyStep(run[j], run[j + 1])
    ensures Sound(run[i])
    decreases i
  {
    if i > 0 {
      AnyHistoryIsSound(run, i - 1);
      AnyStepKeepsSound(run[i - 1], run[i]);
    }
  }

  lemma RefreshKeepsSound(db: Db, db': Db, maxDays: int)
    requires Sound(db) && RefreshStep(db, db', maxDays)
    ensures Sound(db')
  {
    var s := StartDay(db);
    if s <= LastDay(db) {
      if db' == Written(db, s, RefreshStop(db, maxDays)) {
        WrittenKeepsSound(db, s, RefreshStop(db, maxDays));
      } else {
        var f :| s <= f < RefreshStop(db, maxDays) && InterruptedOn(Written(db, s, f), db', f);
        WrittenKeepsSound(db, s, f);
        InterruptedKeepsSound(Written(db, s, f), db', f);
      }
    }
  }

  lemma ExactTableIsSettled(db: Db, lo: int, hi: int)
    requires Settled(db.leads, db.table, hi) && db.table == Exact(db.leads, lo, hi) && lo <= hi
    ensures Settled(db.leads, db.table, hi + 1)
  {
    forall k: Key | k.day < hi + 1 ensures Agrees(db.leads, db.table, k) {
      ExactRows(db.leads, lo, hi, k);
      assert k.day < hi ==> Agrees(db.leads, db.table, k);
    }
  }

  lemma DiagnosticJudges(db: Db)
    requires Sound(db) && Prefix(db) && db.table != map[]
    ensures DiagnosticOk(db) <==> Settled(db.leads, db.table, LatestDay(db.table) + 1)
  {
    var lo, hi := EarliestDay(db.table), LatestDay(db.table);
    StartDayIsFrontier(db);
    DiagnosticIsExact(db);
    if db.table == Exact(db.leads, lo, hi) {
      ExactTableIsSettled(db, lo, hi);
    }
    if Settled(db.leads, db.table, hi + 1) {
      SettledTableIsExact(db, lo, hi);
    }
  }

  /** In a history the diagnostic reports ok exactly when the newest day is complete. */
  lemma DiagnosticJudgesTheNewestDay(run: seq<Db>, i: nat)
    requires History(run) && i < |run| && run[i].table != map[]
    ensures DiagnosticOk(run[i]) <==> Settled(run[i].leads, run[i].table, LatestDay(run[i].table) + 1)
  {
    EveryHistoryIsSettled(run, i);
    DiagnosticJudges(run[i]);
  }
}
