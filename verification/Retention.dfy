/**
  Grandfather-father-son retention of backup artifacts
  (backend/app/services/backup.py).  The manifest is append-only and keeps the
  entries of files that were pruned long ago, so every prune decides again about
  artifacts that no longer exist.
*/
module Retention {
  import opened FiniteSets

  /** Microseconds in a day; every instant below counts microseconds since the epoch. */
  const DAY := 86_400_000_000

  datatype Backend = Database | Files | Config

  /**
    One manifest line.  `path == ""` stands for a missing or empty path.  `key` is
    the rank of the text `started_at` in string order; when that text `parses`, it is
    the instant itself, because all texts written are UTC ISO instants of one shape.
  */
  datatype Entry = Entry(completed: bool, path: string, backend: Backend, key: int, parses: bool)

  /** The arguments of one prune and the clock it reads. */
  datatype Policy = Policy(now: int, daily: int, weekly: int, monthly: int)

  /** Number of the ISO 8601 week of an instant; day 0 of the epoch was a Thursday. */
  function WeekOf(instant: int): int {
    (instant / DAY + 3) / 7
  }

  /** Week `w` runs from a Monday, such as day 4 (5 January 1970) for `w == 1`, for seven days. */
  lemma WeekStartsOnMonday(instant: int, w: int)
    ensures WeekOf(instant) == w <==> (7 * w - 3) * DAY <= instant < (7 * w + 4) * DAY
  {
    var day := instant / DAY;
    assert day * DAY <= instant < (day + 1) * DAY;
    assert WeekOf(instant) == w <==> 7 * w <= day + 3 < 7 * w + 7;
  }

  /** The oldest instant whose `age_days` is at most `7 * keep_weekly`. */
  function Cutoff(p: Policy): int {
    p.now - 7 * p.weekly * DAY
  }

  /** `age_days <= 7 * keep_weekly` */
  predicate Young(e: Entry, p: Policy) {
    e.key >= Cutoff(p)
  }

  // ------------------------------------------------------------------ the slots

  datatype Slots = Slots(budget: int, weeks: set<int>, months: set<int>)

  function FreshSlots(p: Policy): Slots {
    Slots(p.daily, {}, {})
  }

  datatype Verdict = Unparsed | Daily | Weekly | Monthly | Rejected

  /** What the loop body decides about `e`.  Months are numbered by any labelling. */
  function Judge(s: Slots, e: Entry, p: Policy, month: int -> int): Verdict {
    if !e.parses then Unparsed
    else if s.budget > 0 then Daily
    else if Young(e, p) && WeekOf(e.key) !in s.weeks then Weekly
    else if month(e.key) !in s.months && |s.months| < p.monthly then Monthly
    else Rejected
  }

  function Charge(s: Slots, e: Entry, p: Policy, month: int -> int): Slots {
    match Judge(s, e, p, month)
    case Unparsed => s
    case Daily => s.(budget := s.budget - 1)
    case Weekly => s.(weeks := s.weeks + {WeekOf(e.key)})
    case Monthly => s.(months := s.months + {month(e.key)})
    case Rejected => s
  }

  function ChargeAll(s: Slots, es: seq<Entry>, p: Policy, month: int -> int): Slots
    decreases |es|
  {
    if es == [] then s else ChargeAll(Charge(s, es[0], p, month), es[1..], p, month)
  }

  /** The verdict on entry `i` when `es` is processed from its front with fresh slots. */
  function VerdictAt(es: seq<Entry>, i: nat, p: Policy, month: int -> int): Verdict
    requires i < |es|
  {
    Judge(ChargeAll(FreshSlots(p), es[..i], p, month), es[i], p, month)
  }

  predicate KeptAt(es: seq<Entry>, i: nat, p: Policy, month: int -> int)
    requires i < |es|
  {
    !VerdictAt(es, i, p, month).Rejected?
  }

  /** The set `kept`: entries are decided one by one, but kept by path. */
  function KeptPaths(es: seq<Entry>, p: Policy, month: int -> int): set<string> {
    set i | 0 <= i < |es| && KeptAt(es, i, p, month) :: es[i].path
  }

  lemma {:induction false} ChargeAllSplit(s: Slots, a: seq<Entry>, b: seq<Entry>, p: Policy, month: int -> int)
    ensures ChargeAll(s, a + b, p, month) == ChargeAll(ChargeAll(s, a, p, month), b, p, month)
    decreases |a|
  {
    if a == [] {
      assert a + b == b;
    } else {
      assert (a + b)[1..] == a[1..] + b;
      ChargeAllSplit(Charge(s, a[0], p, month), a[1..], b, p, month);
    }
  }

  lemma ChargeNext(es: seq<Entry>, i: nat, p: Policy, month: int -> int)
    requires i < |es|
    ensures ChargeAll(FreshSlots(p), es[..i + 1], p, month)
         == Charge(ChargeAll(FreshSlots(p), es[..i], p, month), es[i], p, month)
  {
    assert es[..i + 1] == es[..i] + [es[i]];
    ChargeAllSplit(FreshSlots(p), es[..i], [es[i]], p, month);
  }

  // ------------------------------------------------- entries.sort(reverse=True)

  ghost predicate NewestFirst(es: seq<Entry>) {
    forall i, j :: 0 <= i < j < |es| ==> es[i].key >= es[j].key
  }

  /** `e` stood before all of `es` in the manifest, so it stays before its equals. */
  function InsertStable(e: Entry, es: seq<Entry>): seq<Entry> {
    if es == [] || es[0].key <= e.key then [e] + es else [es[0]] + InsertStable(e, es[1..])
  }

  function SortNewestFirst(es: seq<Entry>): seq<Entry> {
    if es == [] then [] else InsertStable(es[0], SortNewestFirst(es[1..]))
  }

  lemma {:induction false} InsertPermutes(e: Entry, es: seq<Entry>)
    ensures multiset(InsertStable(e, es)) == multiset{e} + multiset(es)
    decreases |es|
  {
    if es != [] && es[0].key > e.key {
      InsertPermutes(e, es[1..]);
      assert es == [es[0]] + es[1..];
    }
  }

  lemma {:induction false} SortPermutes(es: seq<Entry>)
    ensures multiset(SortNewestFirst(es)) == multiset(es)
    decreases |es|
  {
    if es != [] {
      SortPermutes(es[1..]);
      InsertPermutes(es[0], SortNewestFirst(es[1..]));
      assert es == [es[0]] + es[1..];
    }
  }

  lemma {:induction false} InsertKeepsOrder(e: Entry, es: seq<Entry>)
    requires NewestFirst(es)
    ensures NewestFirst(InsertStable(e, es))
    decreases |es|
  {
    if es != [] && es[0].key > e.key {
      InsertKeepsOrder(e, es[1..]);
      InsertPermutes(e, es[1..]);
      var r := InsertStable(e, es[1..]);
      forall j | 0 <= j < |r| ensures es[0].key >= r[j].key {
        assert r[j] in multiset(r);
        assert r[j] == e || r[j] in es[1..];
      }
    }
  }

  lemma {:induction false} SortIsNewestFirst(es: seq<Entry>)
    ensures NewestFirst(SortNewestFirst(es))
    decreases |es|
  {
    if es != [] {
      SortIsNewestFirst(es[1..]);
      InsertKeepsOrder(es[0], SortNewestFirst(es[1..]));
    }
  }

  function WithKey(es: seq<Entry>, key: int): seq<Entry> {
    if es == [] then [] else (if es[0].key == key then [es[0]] else []) + WithKey(es[1..], key)
  }

  lemma WithKeyOfCons(e: Entry, es: seq<Entry>, key: int)
    ensures WithKey([e] + es, key) == (if e.key == key then [e] else []) + WithKey(es, key)
  {
  }

  lemma {:induction false} InsertIsStable(e: Entry, es: seq<Entry>, key: int)
    ensures WithKey(InsertStable(e, es), key) == (if e.key == key then [e] else []) + WithKey(es, key)
    decreases |es|
  {
    if es == [] || es[0].key <= e.key {
      WithKeyOfCons(e, es, key);
    } else {
      InsertIsStable(e, es[1..], key);
      WithKeyOfCons(es[0], InsertStable(e, es[1..]), key);
    }
  }

  /** Lines with one timestamp keep their manifest order, as Python's reversed sort does. */
  lemma {:induction false} SortIsStable(es: seq<Entry>, key: int)
    ensures WithKey(SortNewestFirst(es), key) == WithKey(es, key)
    decreases |es|
  {
    if es != [] {
      SortIsStable(es[1..], key);
      InsertIsStable(es[0], SortNewestFirst(es[1..]), key);
    }
  }

  lemma {:induction false} InsertAbove(a: Entry, x: seq<Entry>, z: seq<Entry>)
    requires z == [] || z[0].key <= a.key
    ensures InsertStable(a, x + z) == InsertStable(a, x) + z
    decreases |x|
  {
    if x == [] {
      assert x + z == z;
    } else {
      assert (x + z)[1..] == x[1..] + z;
      InsertAbove(a, x[1..], z);
    }
  }

  lemma {:induction false} InsertBelow(a: Entry, x: seq<Entry>, z: seq<Entry>)
    requires forall b :: b in x ==> b.key > a.key
    ensures InsertStable(a, x + z) == x + InsertStable(a, z)
    decreases |x|
  {
    if x == [] {
      assert x + z == z;
    } else {
      assert (x + z)[1..] == x[1..] + z;
      InsertBelow(a, x[1..], z);
    }
  }

  lemma InsertBeside(a: Entry, x: seq<Entry>, e: Entry, y: seq<Entry>) returns (x': seq<Entry>, y': seq<Entry>)
    requires (forall b :: b in x ==> b.key >= e.key) && (forall b :: b in y ==> b.key < e.key)
    ensures InsertStable(a, x + y) == x' + y' && InsertStable(a, x + ([e] + y)) == x' + ([e] + y')
    ensures (forall b :: b in x' ==> b.key >= e.key) && (forall b :: b in y' ==> b.key < e.key)
  {
    InsertPermutes(a, x);
    InsertPermutes(a, y);
    if a.key >= e.key {
      x', y' := InsertStable(a, x), y;
      InsertAbove(a, x, y);
      InsertAbove(a, x, [e] + y);
      assert forall b :: b in x' ==> b in multiset(x');
    } else {
      x', y' := x, InsertStable(a, y);
      InsertBelow(a, x, y);
      InsertBelow(a, x, [e] + y);
      assert forall b :: b in y' ==> b in multiset(y');
    }
  }

  /** A line appended to the manifest is put in its place, behind its equals, and moves no other. */
  lemma {:induction false} SortOfAppended(es: seq<Entry>, e: Entry) returns (x: seq<Entry>, y: seq<Entry>)
    ensures SortNewestFirst(es) == x + y && SortNewestFirst(es + [e]) == x + ([e] + y)
    ensures (forall b :: b in x ==> b.key >= e.key) && (forall b :: b in y ==> b.key < e.key)
    decreases |es|
  {
    if es == [] {
      x, y := [], [];
      assert es + [e] == [e] && [e][1..] == [];
    } else {
      x, y := SortOfAppended(es[1..], e);
      assert (es + [e])[1..] == es[1..] + [e];
      x, y := InsertBeside(es[0], x, e, y);
    }
  }

  // ----------------------------------------------- two prunes at different times

  /** A prune whose limits are no looser; `weekly` may even grow as long as the cutoff does not go back. */
  predicate Tightens(later: Policy, earlier: Policy) {
    Cutoff(later) >= Cutoff(earlier) && later.daily <= earlier.daily && later.monthly <= earlier.monthly
  }

  /** How the slots of two prunes compare in front of entries dated `top` or before. */
  ghost predicate MoreUsed(later: Slots, earlier: Slots, p: Policy, top: int) {
    later.budget <= earlier.budget
    && (earlier.weeks <= later.weeks || Cutoff(p) > top)
    && (earlier.months <= later.months || |later.months| >= p.monthly)
  }

  lemma YoungLaterIsYoungEarlier(e: Entry, later: Policy, earlier: Policy)
    requires Tightens(later, earlier) && Young(e, later)
    ensures Young(e, earlier)
  {
  }

  lemma RejectedLater(s2: Slots, s1: Slots, e: Entry, p2: Policy, p1: Policy, month: int -> int)
    requires Tightens(p2, p1) && MoreUsed(s2, s1, p2, e.key) && Judge(s1, e, p1, month).Rejected?
    ensures Judge(s2, e, p2, month).Rejected?
  {
    if Young(e, p2) {
      YoungLaterIsYoungEarlier(e, p2, p1);
    }
    if s1.months <= s2.months {
      SubsetSize(s1.months, s2.months);
    }
  }

  lemma MonthSlotSpent(s2: Slots, s1: Slots, e: Entry, p2: Policy, p1: Policy, month: int -> int)
    requires Tightens(p2, p1) && MoreUsed(s2, s1, p2, e.key) && Judge(s1, e, p1, month).Monthly?
    ensures month(e.key) in Charge(s2, e, p2, month).months || |s2.months| >= p2.monthly
  {
    if Young(e, p2) {
      YoungLaterIsYoungEarlier(e, p2, p1);
    }
  }

  lemma MonthsOnlyGrow(s: Slots, e: Entry, p: Policy, month: int -> int)
    ensures s.months <= Charge(s, e, p, month).months && |s.months| <= |Charge(s, e, p, month).months|
  {
    SubsetSize(s.months, Charge(s, e, p, month).months);
  }

  lemma WeeksStayUsed(s2: Slots, s1: Slots, e: Entry, p2: Policy, p1: Policy, month: int -> int)
    requires Tightens(p2, p1) && MoreUsed(s2, s1, p2, e.key)
    ensures var t2, t1 := Charge(s2, e, p2, month), Charge(s1, e, p1, month);
      t2.budget <= t1.budget && (t1.weeks <= t2.weeks || Cutoff(p2) > e.key)
  {
  }

  lemma MoreUsedStep(s2: Slots, s1: Slots, e: Entry, p2: Policy, p1: Policy, month: int -> int)
    requires Tightens(p2, p1) && MoreUsed(s2, s1, p2, e.key)
    ensures MoreUsed(Charge(s2, e, p2, month), Charge(s1, e, p1, month), p2, e.key)
  {
    WeeksStayUsed(s2, s1, e, p2, p1, month);
    MonthsOnlyGrow(s2, e, p2, month);
    if Judge(s1, e, p1, month).Monthly? {
      MonthSlotSpent(s2, s1, e, p2, p1, month);
    }
  }

  lemma {:induction false} MoreUsedAll(s2: Slots, s1: Slots, es: seq<Entry>, i: nat, p2: Policy, p1: Policy,
                                       month: int -> int, top: int)
    requires Tightens(p2, p1) && MoreUsed(s2, s1, p2, top)
    requires NewestFirst(es) && (es != [] ==> es[0].key <= top)
    requires i < |es|
    ensures MoreUsed(ChargeAll(s2, es[..i], p2, month), ChargeAll(s1, es[..i], p1, month), p2, es[i].key)
    decreases |es|
  {
    if i > 0 {
      MoreUsedStep(s2, s1, es[0], p2, p1, month);
      assert es[..i][1..] == es[1..][..i - 1];
      MoreUsedAll(Charge(s2, es[0], p2, month), Charge(s1, es[0], p1, month), es[1..], i - 1, p2, p1, month, es[0].key);
    }
  }

  /** Behind slots that are more used, a later prune keeps nothing that the earlier one rejects. */
  lemma KeptBehindMoreUsed(s2: Slots, s1: Slots, es: seq<Entry>, i: nat, later: Policy, earlier: Policy,
                           month: int -> int)
    requires NewestFirst(es) && Tightens(later, earlier)
    requires i < |es| && MoreUsed(s2, s1, later, es[0].key)
    requires !Judge(ChargeAll(s2, es[..i], later, month), es[i], later, month).Rejected?
    ensures !Judge(ChargeAll(s1, es[..i], earlier, month), es[i], earlier, month).Rejected?
  {
    MoreUsedAll(s2, s1, es, i, later, earlier, month, es[0].key);
    var t2, t1 := ChargeAll(s2, es[..i], later, month), ChargeAll(s1, es[..i], earlier, month);
    if Judge(t1, es[i], earlier, month).Rejected? {
      RejectedLater(t2, t1, es[i], later, earlier, month);
    }
  }

  lemma KeptBehind(x: seq<Entry>, es: seq<Entry>, i: nat, p: Policy, month: int -> int)
    requires i < |es|
    ensures KeptAt(x + es, |x| + i, p, month)
       <==> !Judge(ChargeAll(ChargeAll(FreshSlots(p), x, p, month), es[..i], p, month), es[i], p, month).Rejected?
  {
    assert (x + es)[..|x| + i] == x + es[..i];
    ChargeAllSplit(FreshSlots(p), x, es[..i], p, month);
  }

  /**
    Retention never wants back what it rejected: an old entry that a later prune of
    an extended list keeps was kept by every earlier prune with limits at least as wide.
  */
  lemma KeptLaterWasKeptEarlier(newer: seq<Entry>, older: seq<Entry>, i: nat, later: Policy, earlier: Policy,
                                month: int -> int)
    requires NewestFirst(older) && Tightens(later, earlier)
    requires i < |older| && KeptAt(newer + older, |newer| + i, later, month)
    ensures KeptAt(older, i, earlier, month)
  {
    KeptBehind(newer, older, i, later, month);
    ChargeAllLowersBudget(FreshSlots(later), newer, later, month);
    KeptBehindMoreUsed(ChargeAll(FreshSlots(later), newer, later, month), FreshSlots(earlier), older, i,
                       later, earlier, month);
  }

  lemma MoreUsedAfter(x: seq<Entry>, e: Entry, y: seq<Entry>, later: Policy, earlier: Policy, month: int -> int)
    requires NewestFirst(x + y) && Tightens(later, earlier) && y != []
    ensures MoreUsed(ChargeAll(FreshSlots(later), x + [e], later, month),
                     ChargeAll(FreshSlots(earlier), x, earlier, month), later, y[0].key)
  {
    assert (x + y)[..|x|] == x && (x + y)[|x|] == y[0];
    MoreUsedAll(FreshSlots(later), FreshSlots(earlier), x + y, |x|, later, earlier, month, (x + y)[0].key);
    ChargeAllSplit(FreshSlots(later), x, [e], later, month);
  }

  /** The same when an entry of any date came in between: nothing else is kept on its account. */
  lemma InsertionOnlyCosts(x: seq<Entry>, e: Entry, y: seq<Entry>, i: nat, later: Policy, earlier: Policy,
                           month: int -> int)
    requires NewestFirst(x + y) && Tightens(later, earlier) && i < |x + y|
    requires KeptAt(x + ([e] + y), if i < |x| then i else i + 1, later, month)
    ensures KeptAt(x + y, i, earlier, month)
  {
    if i < |x| {
      assert (x + ([e] + y))[..i] == (x + y)[..i];
      KeptBehindMoreUsed(FreshSlots(later), FreshSlots(earlier), x + y, i, later, earlier, month);
    } else {
      assert x + ([e] + y) == (x + [e]) + y;
      KeptBehind(x + [e], y, i - |x|, later, month);
      MoreUsedAfter(x, e, y, later, earlier, month);
      forall a, b | 0 <= a < b < |y| ensures y[a].key >= y[b].key {
        assert y[a] == (x + y)[|x| + a] && y[b] == (x + y)[|x| + b];
      }
      KeptBehindMoreUsed(ChargeAll(FreshSlots(later), x + [e], later, month),
                         ChargeAll(FreshSlots(earlier), x, earlier, month), y, i - |x|, later, earlier, month);
      KeptBehind(x, y, i - |x|, earlier, month);
    }
  }

  lemma {:induction false} ChargeAllLowersBudget(s: Slots, es: seq<Entry>, p: Policy, month: int -> int)
    ensures ChargeAll(s, es, p, month).budget <= s.budget
    decreases |es|
  {
    if es != [] {
      ChargeAllLowersBudget(Charge(s, es[0], p, month), es[1..], p, month);
    }
  }

  // ----------------------------------------------------- which entries are kept

  /** How many of the first `i` entries carry a readable timestamp. */
  function ParsedBefore(es: seq<Entry>, i: nat): nat
    requires i <= |es|
  {
    if i == 0 then 0 else ParsedBefore(es, i - 1) + if es[i - 1].parses then 1 else 0
  }

  /** Not among the newest `daily` readable entries. */
  predicate Elder(es: seq<Entry>, i: nat, p: Policy)
    requires i < |es|
  {
    es[i].parses && ParsedBefore(es, i) >= p.daily
  }

  /** The newest elder of its week, and inside the age limit. */
  predicate WeekLeader(es: seq<Entry>, i: nat, p: Policy)
    requires i < |es|
  {
    Elder(es, i, p) && Young(es[i], p)
    && forall j :: 0 <= j < i && Elder(es, j, p) && Young(es[j], p) ==> WeekOf(es[j].key) != WeekOf(es[i].key)
  }

  /** What daily and weekly retention leave over. */
  predicate Remaining(es: seq<Entry>, i: nat, p: Policy)
    requires i < |es|
  {
    Elder(es, i, p) && !WeekLeader(es, i, p)
  }

  function RemainingMonths(es: seq<Entry>, i: nat, p: Policy, month: int -> int): set<int>
    requires i <= |es|
  {
    set j | 0 <= j < i && Remaining(es, j, p) :: month(es[j].key)
  }

  predicate MonthLeader(es: seq<Entry>, i: nat, p: Policy, month: int -> int)
    requires i < |es|
  {
    Remaining(es, i, p) && month(es[i].key) !in RemainingMonths(es, i, p, month)
    && |RemainingMonths(es, i, p, month)| < p.monthly
  }

  function YoungElderWeeks(es: seq<Entry>, i: nat, p: Policy): set<int>
    requires i <= |es|
  {
    set j | 0 <= j < i && Elder(es, j, p) && Young(es[j], p) :: WeekOf(es[j].key)
  }

  ghost predicate BudgetTells(s: Slots, es: seq<Entry>, i: nat, p: Policy)
    requires i <= |es|
  {
    s.budget == if p.daily <= ParsedBefore(es, i) then (if p.daily <= 0 then p.daily else 0)
                else p.daily - ParsedBefore(es, i)
  }

  /** The month set holds the remaining months seen so far, until it is full. */
  ghost predicate MonthsTell(s: Slots, months: set<int>, p: Policy) {
    s.months <= months && (s.months == months || |s.months| >= p.monthly)
  }

  ghost predicate SlotsTell(s: Slots, es: seq<Entry>, i: nat, p: Policy, month: int -> int)
    requires i <= |es|
  {
    && BudgetTells(s, es, i, p)
    && s.weeks == YoungElderWeeks(es, i, p)
    && MonthsTell(s, RemainingMonths(es, i, p, month), p)
  }

  lemma SlotsTellVerdict(s: Slots, es: seq<Entry>, i: nat, p: Policy, month: int -> int)
    requires i < |es| && SlotsTell(s, es, i, p, month)
    ensures Judge(s, es[i], p, month).Daily? <==> es[i].parses && !Elder(es, i, p)
    ensures Judge(s, es[i], p, month).Weekly? <==> WeekLeader(es, i, p)
    ensures Judge(s, es[i], p, month).Monthly? <==> MonthLeader(es, i, p, month)
  {
    SubsetSize(s.months, RemainingMonths(es, i, p, month));
  }

  lemma RemainingMonthsNext(es: seq<Entry>, i: nat, p: Policy, month: int -> int)
    requires i < |es|
    ensures RemainingMonths(es, i + 1, p, month)
         == RemainingMonths(es, i, p, month) + if Remaining(es, i, p) then {month(es[i].key)} else {}
  {
  }

  lemma YoungElderWeeksNext(es: seq<Entry>, i: nat, p: Policy)
    requires i < |es|
    ensures YoungElderWeeks(es, i + 1, p)
         == YoungElderWeeks(es, i, p) + if Elder(es, i, p) && Young(es[i], p) then {WeekOf(es[i].key)} else {}
  {
  }

  lemma MonthsTellNext(s: Slots, e: Entry, months: set<int>, p: Policy, month: int -> int)
    requires MonthsTell(s, months, p)
    requires Judge(s, e, p, month).Monthly? || Judge(s, e, p, month).Rejected?
    ensures MonthsTell(Charge(s, e, p, month), months + {month(e.key)}, p)
  {
    if Judge(s, e, p, month).Monthly? {
      assert |s.months + {month(e.key)}| == |s.months| + 1;
    }
  }

  lemma WeeksTellNext(s: Slots, es: seq<Entry>, i: nat, p: Policy, month: int -> int)
    requires i < |es| && BudgetTells(s, es, i, p) && s.weeks == YoungElderWeeks(es, i, p)
    ensures BudgetTells(Charge(s, es[i], p, month), es, i + 1, p)
    ensures Charge(s, es[i], p, month).weeks == YoungElderWeeks(es, i + 1, p)
  {
    YoungElderWeeksNext(es, i, p);
  }

  lemma RemainingTellsNext(s: Slots, es: seq<Entry>, i: nat, p: Policy, month: int -> int)
    requires i < |es| && SlotsTell(s, es, i, p, month)
    ensures MonthsTell(Charge(s, es[i], p, month), RemainingMonths(es, i + 1, p, month), p)
  {
    SlotsTellVerdict(s, es, i, p, month);
    RemainingMonthsNext(es, i, p, month);
    if Remaining(es, i, p) {
      MonthsTellNext(s, es[i], RemainingMonths(es, i, p, month), p, month);
    }
  }

  lemma SlotsTellNext(s: Slots, es: seq<Entry>, i: nat, p: Policy, month: int -> int)
    requires i < |es| && SlotsTell(s, es, i, p, month)
    ensures SlotsTell(Charge(s, es[i], p, month), es, i + 1, p, month)
  {
    WeeksTellNext(s, es, i, p, month);
    RemainingTellsNext(s, es, i, p, month);
  }

  lemma {:induction false} SlotsAlwaysTell(es: seq<Entry>, i: nat, p: Policy, month: int -> int)
    requires i <= |es|
    ensures SlotsTell(ChargeAll(FreshSlots(p), es[..i], p, month), es, i, p, month)
    decreases i
  {
    if i > 0 {
      SlotsAlwaysTell(es, i - 1, p, month);
      ChargeNext(es, i - 1, p, month);
      SlotsTellNext(ChargeAll(FreshSlots(p), es[..i - 1], p, month), es, i - 1, p, month);
    }
  }

  /** The running sets and the budget compute exactly these exemplars. */
  lemma ExemplarsAreKept(es: seq<Entry>, i: nat, p: Policy, month: int -> int)
    requires i < |es|
    ensures VerdictAt(es, i, p, month).Unparsed? <==> !es[i].parses
    ensures VerdictAt(es, i, p, month).Daily? <==> es[i].parses && ParsedBefore(es, i) < p.daily
    ensures VerdictAt(es, i, p, month).Weekly? <==> WeekLeader(es, i, p)
    ensures VerdictAt(es, i, p, month).Monthly? <==> MonthLeader(es, i, p, month)
  {
    SlotsAlwaysTell(es, i, p, month);
    SlotsTellVerdict(ChargeAll(FreshSlots(p), es[..i], p, month), es, i, p, month);
  }

  /**
    Told by dates alone: the newest entry of its week past the daily budget is kept as a weekly
    copy exactly while it is at most `7 * keep_weekly` days old, that instant included.
  */
  lemma WeeklyCopyIff(es: seq<Entry>, i: nat, p: Policy, month: int -> int)
    requires NewestFirst(es) && i < |es|
    ensures VerdictAt(es, i, p, month).Weekly? <==>
      && es[i].parses && ParsedBefore(es, i) >= p.daily
      && p.now - es[i].key <= 7 * p.weekly * 86_400_000_000
      && forall j :: 0 <= j < i && es[j].parses && ParsedBefore(es, j) >= p.daily ==>
           WeekOf(es[j].key) != WeekOf(es[i].key)
  {
    ExemplarsAreKept(es, i, p, month);
    assert forall j :: 0 <= j < i && Elder(es, j, p) && Young(es[i], p) ==> Young(es[j], p);
  }

  /** `daily` artifacts of this instant, and one from each multiple of seven days before it. */
  function WeekApart(now: int, daily: nat, weekly: nat): seq<Entry> {
    seq(daily, _ => Entry(true, "today", Files, now, true))
    + seq(weekly + 1, j => Entry(true, "old", Files, now - 7 * j * DAY, true))
  }

  /** All `weekly + 1` weekly copies that the window can hold are kept, the last one on its edge. */
  lemma EveryWeeklyCopyIsKept(now: int, daily: nat, weekly: nat, monthly: int, j: nat, month: int -> int)
    requires j <= weekly
    ensures VerdictAt(WeekApart(now, daily, weekly), daily + j, Policy(now, daily, weekly, monthly), month).Weekly?
  {
    var es, p := WeekApart(now, daily, weekly), Policy(now, daily, weekly, monthly);
    assert forall a :: 0 <= a < |es| ==> es[a].key == if a < daily then now else now - 7 * (a - daily) * DAY;
    forall a | 0 <= a <= daily + j ensures ParsedBefore(es, a) == a {
      AllReadable(es, a);
    }
    forall a | daily <= a < daily + j ensures WeekOf(es[a].key) != WeekOf(es[daily + j].key) {
      assert es[a].key == es[daily + j].key + 7 * (daily + j - a) * DAY;
    }
    WeeklyCopyIff(es, daily + j, p, month);
  }

  ghost predicate Monotone(month: int -> int) {
    forall a, b :: a <= b ==> month(a) <= month(b)
  }

  /**
    With calendar months the monthly exemplars are the newest remaining entries of
    the `monthly` newest months that have a remaining entry at all.
  */
  lemma NewestMonthsAreKept(es: seq<Entry>, i: nat, p: Policy, month: int -> int)
    requires NewestFirst(es) && Monotone(month) && i < |es|
    ensures MonthLeader(es, i, p, month) <==>
            && Remaining(es, i, p)
            && (forall j :: 0 <= j < i && Remaining(es, j, p) ==> month(es[j].key) != month(es[i].key))
            && |set m | m in RemainingMonths(es, |es|, p, month) && m > month(es[i].key)| < p.monthly
  {
    if Remaining(es, i, p) && month(es[i].key) !in RemainingMonths(es, i, p, month) {
      var above := set m | m in RemainingMonths(es, |es|, p, month) && m > month(es[i].key);
      forall m | m in above ensures m in RemainingMonths(es, i, p, month) {
        var j :| 0 <= j < |es| && Remaining(es, j, p) && month(es[j].key) == m;
      }
      assert above == RemainingMonths(es, i, p, month);
    }
  }

  // -------------------------------------------------------------- the size bound

  function Max0(x: int): int {
    if x < 0 then 0 else x
  }

  ghost function KeptReadable(es: seq<Entry>, n: nat, p: Policy, month: int -> int): set<int>
    requires n <= |es|
  {
    set i | 0 <= i < n && es[i].parses && KeptAt(es, i, p, month)
  }

  ghost predicate Paid(s: Slots, kept: nat, p: Policy) {
    && kept == p.daily - s.budget + |s.weeks| + |s.months|
    && p.daily - s.budget <= Max0(p.daily)
    && |s.months| <= Max0(p.monthly)
  }

  lemma PaidStep(s: Slots, kept: nat, e: Entry, p: Policy, month: int -> int)
    requires Paid(s, kept, p)
    ensures Paid(Charge(s, e, p, month), kept + if e.parses && !Judge(s, e, p, month).Rejected? then 1 else 0, p)
  {
  }

  lemma KeptReadableNext(es: seq<Entry>, n: nat, p: Policy, month: int -> int)
    requires n < |es|
    ensures |KeptReadable(es, n + 1, p, month)|
         == |KeptReadable(es, n, p, month)| + if es[n].parses && KeptAt(es, n, p, month) then 1 else 0
  {
    var before := KeptReadable(es, n, p, month);
    assert KeptReadable(es, n + 1, p, month)
        == if es[n].parses && KeptAt(es, n, p, month) then before + {n} else before;
  }

  lemma {:induction false} KeptReadableIsPaid(es: seq<Entry>, n: nat, p: Policy, month: int -> int)
    requires n <= |es|
    ensures Paid(ChargeAll(FreshSlots(p), es[..n], p, month), |KeptReadable(es, n, p, month)|, p)
    decreases n
  {
    if n == 0 {
      assert KeptReadable(es, 0, p, month) == {};
    } else {
      var s, kept := ChargeAll(FreshSlots(p), es[..n - 1], p, month), |KeptReadable(es, n - 1, p, month)|;
      KeptReadableIsPaid(es, n - 1, p, month);
      PaidStep(s, kept, es[n - 1], p, month);
      ChargeNext(es, n - 1, p, month);
      KeptReadableNext(es, n - 1, p, month);
    }
  }

  lemma YoungElderWeeksFit(es: seq<Entry>, p: Policy)
    requires forall j :: 0 <= j < |es| && es[j].parses ==> es[j].key <= p.now
    ensures YoungElderWeeks(es, |es|, p) <= Interval(WeekOf(p.now) - p.weekly, WeekOf(p.now))
  {
  }

  lemma BackFromSize(weeks: set<int>, last: int, k: int)
    requires weeks <= Interval(last - k, last)
    ensures |weeks| <= Max0(k + 1)
  {
    SubsetSize(weeks, Interval(last - k, last));
    IntervalSize(last - k, last);
  }

  lemma YoungElderWeeksAreFew(es: seq<Entry>, p: Policy)
    requires forall j :: 0 <= j < |es| && es[j].parses ==> es[j].key <= p.now
    ensures |YoungElderWeeks(es, |es|, p)| <= Max0(p.weekly + 1)
  {
    YoungElderWeeksFit(es, p);
    BackFromSize(YoungElderWeeks(es, |es|, p), WeekOf(p.now), p.weekly);
  }

  /**
    A prune keeps at most `daily + (weekly + 1) + monthly` readable entries, because a
    closed window of `weekly` weeks meets at most one calendar week more.
  */
  lemma KeptSizeBound(es: seq<Entry>, p: Policy, month: int -> int)
    requires forall j :: 0 <= j < |es| && es[j].parses ==> es[j].key <= p.now
    ensures |KeptReadable(es, |es|, p, month)| <= Max0(p.daily) + Max0(p.weekly + 1) + Max0(p.monthly)
  {
    YoungElderWeeksAreFew(es, p);
    KeptReadableIsPaid(es, |es|, p, month);
    SlotsAlwaysTell(es, |es|, p, month);
  }

  // ---------------------------------------------- one budget for all three kinds

  /**
    Daily, weekly and monthly slots are shared by the database, files and config
    artifacts of a cycle.  Past the daily budget the third entry in a row of one week
    and month is always rejected.
  */
  lemma ThirdOfAWeekIsRejected(es: seq<Entry>, i: nat, p: Policy, month: int -> int)
    requires NewestFirst(es) && 2 <= i < |es|
    requires Elder(es, i - 2, p) && es[i - 1].parses && es[i].parses
    requires WeekOf(es[i - 2].key) == WeekOf(es[i - 1].key) == WeekOf(es[i].key)
    requires month(es[i - 2].key) == month(es[i - 1].key) == month(es[i].key)
    ensures !KeptAt(es, i, p, month)
  {
    ExemplarsAreKept(es, i, p, month);
    assert Elder(es, i - 1, p) && Elder(es, i, p);
    assert Young(es[i], p) ==> Young(es[i - 2], p);
    assert !WeekLeader(es, i, p);
    assert Young(es[i - 1], p) ==> Young(es[i - 2], p);
    assert Remaining(es, i - 1, p);
  }

  /**
    In front of every database dump stand the files and config artifacts of its cycle, which
    were written after it in the same week and month.
  */
  ghost predicate Scheduled(es: seq<Entry>, month: int -> int) {
    forall i: nat {:trigger OpensCycle(es, i, month)} ::
      i < |es| && es[i].backend.Database? ==> OpensCycle(es, i, month)
  }

  ghost predicate OpensCycle(es: seq<Entry>, i: nat, month: int -> int)
    requires i < |es|
  {
    && i >= 2 && es[i].parses && es[i - 1].parses && es[i - 2].parses
    && es[i - 1].backend.Files? && es[i - 2].backend.Config?
    && WeekOf(es[i - 2].key) == WeekOf(es[i - 1].key) == WeekOf(es[i].key)
    && month(es[i - 2].key) == month(es[i - 1].key) == month(es[i].key)
  }

  lemma ReadableInFront(es: seq<Entry>, i: nat)
    requires 2 <= i < |es| && es[i - 1].parses && es[i - 2].parses
    ensures ParsedBefore(es, i) == ParsedBefore(es, i - 1) + 1 == ParsedBefore(es, i - 2) + 2
  {
  }

  lemma FirstElderHasNoneBefore(es: seq<Entry>, i: nat, j: nat, p: Policy)
    requires j < i < |es| && ParsedBefore(es, i) <= Max0(p.daily)
    ensures !Elder(es, j, p)
    decreases i
  {
    if j < i - 1 {
      FirstElderHasNoneBefore(es, i - 1, j, p);
    }
  }

  /** The newest entry past the budget is kept as a weekly copy if it is young, else as a monthly one. */
  lemma FirstElderIsKeptIff(es: seq<Entry>, i: nat, p: Policy, month: int -> int)
    requires i < |es| && es[i].parses && ParsedBefore(es, i) == Max0(p.daily)
    ensures KeptAt(es, i, p, month) <==> Young(es[i], p) || p.monthly > 0
    ensures Elder(es, i, p) && (WeekLeader(es, i, p) <==> Young(es[i], p))
    ensures RemainingMonths(es, i, p, month) == {}
  {
    ExemplarsAreKept(es, i, p, month);
    forall j | 0 <= j < i ensures !Elder(es, j, p) {
      FirstElderHasNoneBefore(es, i, j, p);
    }
    assert RemainingMonths(es, i, p, month) == {};
  }

  /** The next one of the same week and month needs the monthly slot that a young predecessor left. */
  lemma SecondElderIsKeptIff(es: seq<Entry>, i: nat, p: Policy, month: int -> int)
    requires NewestFirst(es) && 1 <= i < |es| && es[i - 1].parses && es[i].parses
    requires WeekOf(es[i - 1].key) == WeekOf(es[i].key) && month(es[i - 1].key) == month(es[i].key)
    requires ParsedBefore(es, i - 1) == Max0(p.daily)
    ensures KeptAt(es, i, p, month) <==> Young(es[i - 1], p) && p.monthly > 0
  {
    ExemplarsAreKept(es, i, p, month);
    FirstElderIsKeptIff(es, i - 1, p, month);
    RemainingMonthsNext(es, i - 1, p, month);
    assert Elder(es, i, p) && (Young(es[i], p) ==> Young(es[i - 1], p));
    assert !WeekLeader(es, i, p);
  }

  /**
    When a dump of the scheduled cycle survives: within the daily budget, as the very next
    entry, or as the one after that behind a young files artifact.
  */
  lemma ScheduledDumpIsKeptIff(es: seq<Entry>, i: nat, p: Policy, month: int -> int)
    requires NewestFirst(es) && Scheduled(es, month) && i < |es| && es[i].backend.Database?
    ensures KeptAt(es, i, p, month) <==>
      || ParsedBefore(es, i) < p.daily
      || (ParsedBefore(es, i) == Max0(p.daily) && (Young(es[i], p) || p.monthly > 0))
      || (ParsedBefore(es, i) == Max0(p.daily) + 1 && Young(es[i - 1], p) && p.monthly > 0)
  {
    assert OpensCycle(es, i, month);
    ReadableInFront(es, i);
    if ParsedBefore(es, i) < p.daily {
      ExemplarsAreKept(es, i, p, month);
    } else if ParsedBefore(es, i) == Max0(p.daily) {
      FirstElderIsKeptIff(es, i, p, month);
    } else if ParsedBefore(es, i) == Max0(p.daily) + 1 {
      SecondElderIsKeptIff(es, i, p, month);
    } else {
      ThirdOfAWeekIsRejected(es, i, p, month);
    }
  }

  lemma {:induction false} ParsedBeforeGrows(es: seq<Entry>, i: nat, j: nat)
    requires i <= j <= |es|
    ensures ParsedBefore(es, i) <= ParsedBefore(es, j)
    decreases j
  {
    if i < j {
      ParsedBeforeGrows(es, i, j - 1);
    }
  }

  /** So beyond the daily budget at most one dump exists, where 8 weekly and 6 monthly ones are promised. */
  lemma AtMostOneDumpOutlivesTheBudget(es: seq<Entry>, i: nat, j: nat, p: Policy, month: int -> int)
    requires NewestFirst(es) && Scheduled(es, month) && i < j < |es|
    requires es[i].backend.Database? && es[j].backend.Database? && ParsedBefore(es, i) >= p.daily
    ensures !KeptAt(es, j, p, month)
  {
    assert OpensCycle(es, j, month);
    assert OpensCycle(es, i, month);
    assert i != j - 1 && i != j - 2;
    ParsedBeforeGrows(es, i + 1, j - 2);
    ReadableInFront(es, j);
    ScheduledDumpIsKeptIff(es, j, p, month);
  }

  /** The artifacts of daily cycles up to `day`, counted from the newest, with any paths. */
  function Artifact(day: int, i: nat, paths: int -> string): Entry {
    var key := (day - i / 3) * DAY + 2 - i % 3;
    Entry(true, paths(key), if i % 3 == 0 then Config else if i % 3 == 1 then Files else Database, key, true)
  }

  /** The newest `n` daily cycles, newest entry first. */
  function Cycles(day: int, n: nat, paths: int -> string): seq<Entry> {
    seq(3 * n, i requires 0 <= i < 3 * n => Artifact(day, i, paths))
  }

  /** A labelling of instants by month does not change within a day. */
  ghost predicate ByDay(month: int -> int) {
    forall a, b :: a / DAY == b / DAY ==> month(a) == month(b)
  }

  lemma ArtifactOnDay(day: int, i: nat, paths: int -> string)
    ensures Artifact(day, i, paths).key / DAY == day - i / 3
  {
    var d := day - i / 3;
    assert (d * DAY) / DAY == (d * DAY + 1) / DAY == (d * DAY + 2) / DAY == d;
  }

  lemma CycleIsOneDay(day: int, n: nat, paths: int -> string, i: nat, month: int -> int)
    requires ByDay(month) && i < 3 * n && i % 3 == 2
    ensures OpensCycle(Cycles(day, n, paths), i, month)
  {
    ArtifactOnDay(day, i, paths);
    ArtifactOnDay(day, i - 1, paths);
    ArtifactOnDay(day, i - 2, paths);
    assert (i - 1) / 3 == (i - 2) / 3 == i / 3;
  }

  lemma ArtifactsGetOlder(day: int, i: nat, j: nat, paths: int -> string)
    requires i < j
    ensures Artifact(day, i, paths).key > Artifact(day, j, paths).key
  {
    assert i / 3 < j / 3 || (i / 3 == j / 3 && i % 3 < j % 3);
  }

  lemma CyclesAreScheduled(day: int, n: nat, paths: int -> string, month: int -> int)
    requires ByDay(month)
    ensures NewestFirst(Cycles(day, n, paths)) && Scheduled(Cycles(day, n, paths), month)
  {
    var es := Cycles(day, n, paths);
    forall i, j | 0 <= i < j < |es| ensures es[i].key >= es[j].key {
      ArtifactsGetOlder(day, i, j, paths);
    }
    forall i: nat | i < |es| && es[i].backend.Database? ensures OpensCycle(es, i, month) {
      assert i % 3 == 2;
      CycleIsOneDay(day, n, paths, i, month);
    }
  }

  lemma {:induction false} AllReadable(es: seq<Entry>, i: nat)
    requires i <= |es| && forall j :: 0 <= j < i ==> es[j].parses
    ensures ParsedBefore(es, i) == i
    decreases i
  {
    if i > 0 {
      AllReadable(es, i - 1);
    }
  }

  lemma CyclesAreReadable(day: int, n: nat, i: nat, paths: int -> string)
    requires i <= 3 * n
    ensures ParsedBefore(Cycles(day, n, paths), i) == i
  {
    AllReadable(Cycles(day, n, paths), i);
  }

  /** With the shipped limits any number of daily cycles keeps exactly the five newest dumps. */
  lemma FiveDumpsAreKept(day: int, n: nat, k: nat, now: int, paths: int -> string, month: int -> int)
    requires ByDay(month) && k < n
    ensures Cycles(day, n, paths)[3 * k + 2].backend.Database?
    ensures KeptAt(Cycles(day, n, paths), 3 * k + 2, Policy(now, 14, 8, 6), month) <==> k < 5
  {
    var es, i := Cycles(day, n, paths), 3 * k + 2;
    assert es[i].backend.Database?;
    CyclesAreScheduled(day, n, paths, month);
    CyclesAreReadable(day, n, i, paths);
    ScheduledDumpIsKeptIff(es, i, Policy(now, 14, 8, 6), month);
    assert i < 15 <==> k < 5;
  }

  // ------------------------------------------------------- manifest and directory

  /** The manifest and the files that exist below the backup root, by relative path. */
  datatype Store = Store(manifest: seq<Entry>, files: set<string>)

  predicate Eligible(e: Entry) {
    e.completed && e.path != ""
  }

  function EligibleOf(es: seq<Entry>): seq<Entry> {
    if es == [] then [] else (if Eligible(es[0]) then [es[0]] else []) + EligibleOf(es[1..])
  }

  /** What `prune_backups` iterates over. */
  function Candidates(manifest: seq<Entry>): seq<Entry> {
    SortNewestFirst(EligibleOf(manifest))
  }

  lemma {:induction false} EligibleLines(es: seq<Entry>, e: Entry)
    ensures multiset(EligibleOf(es))[e] == if e.completed && e.path != "" then multiset(es)[e] else 0
    decreases |es|
  {
    if es != [] {
      EligibleLines(es[1..], e);
      assert es == [es[0]] + es[1..];
    }
  }

  /** Only completed lines with a path are looked at, each as often as it was appended. */
  lemma CandidatesAreCompleted(manifest: seq<Entry>, e: Entry)
    ensures multiset(Candidates(manifest))[e] == if e.completed && e.path != "" then multiset(manifest)[e] else 0
  {
    EligibleLines(manifest, e);
    SortPermutes(EligibleOf(manifest));
  }

  function PathsOf(es: seq<Entry>): set<string> {
    set i | 0 <= i < |es| :: es[i].path
  }

  function KeptBy(manifest: seq<Entry>, p: Policy, month: int -> int): set<string> {
    KeptPaths(Candidates(manifest), p, month)
  }

  /** `refused` holds the paths outside the backup root and those the system will not unlink. */
  function PrunedBy(s: Store, p: Policy, refused: set<string>, month: int -> int): set<string> {
    (PathsOf(Candidates(s.manifest)) - KeptBy(s.manifest, p, month) - refused) * s.files
  }

  /** A backup whose line could not be appended is not `logged`: its file stays unknown to retention. */
  datatype Operation = Backup(entry: Entry, logged: bool) | Prune(policy: Policy, refused: set<string>)

  function Apply(s: Store, op: Operation, month: int -> int): Store {
    match op
    case Backup(e, logged) =>
      Store(if logged then s.manifest + [e] else s.manifest, if Eligible(e) then s.files + {e.path} else s.files)
    case Prune(p, refused) => s.(files := s.files - PrunedBy(s, p, refused, month))
  }

  class BackupService {
    const month: int -> int
    var manifest: seq<Entry>
    var files: set<string>

    constructor (month: int -> int)
      ensures this.month == month && Abs() == Store([], {})
    {
      this.month, manifest, files := month, [], {};
    }

    ghost function Abs(): Store
      reads this
    {
      Store(manifest, files)
    }

    /** One backup run: the artifact is written, then its manifest line is appended, unless that fails. */
    method RunBackup(e: Entry, logged: bool)
      modifies this
      ensures Abs() == Apply(old(Abs()), Backup(e, logged), month)
    {
      if Eligible(e) {
        files := files + {e.path};
      }
      if logged {
        manifest := manifest + [e];
      }
    }

    method PruneBackups(p: Policy, refused: set<string>) returns (removed: seq<string>)
      modifies this
      ensures Abs() == Apply(old(Abs()), Prune(p, refused), month)
      ensures (set path | path in removed) == PrunedBy(old(Abs()), p, refused, month)
      ensures forall i, j :: 0 <= i < j < |removed| ==> removed[i] != removed[j]
    {
      var entries := Candidates(manifest);
      var kept := SelectKept(entries, p);
      removed := [];
      var i := 0;
      ghost var before := files;
      while i < |entries|
        invariant 0 <= i <= |entries| && manifest == old(manifest)
        invariant (set path | path in removed) == (PathsOf(entries[..i]) - kept - refused) * before
        invariant files == before - (set path | path in removed)
        invariant forall a, b :: 0 <= a < b < |removed| ==> removed[a] != removed[b]
      {
        var rel := entries[i].path;
        assert PathsOf(entries[..i + 1]) == PathsOf(entries[..i]) + {rel} by {
          assert entries[..i + 1] == entries[..i] + [entries[i]];
        }
        assert rel in files <==> rel in before && rel !in (set path | path in removed);
        if rel !in kept && rel !in refused && rel in files {
          ghost var was := removed;
          files := files - {rel};
          removed := removed + [rel];
          assert (set path | path in removed) == (set path | path in was) + {rel};
        }
        i := i + 1;
      }
      assert entries[..i] == entries;
    }

    /** The slot loop of `prune_backups`. */
    method SelectKept(entries: seq<Entry>, p: Policy) returns (kept: set<string>)
      ensures kept == KeptPaths(entries, p, month)
    {
      kept := {};
      var seenWeeks: set<int>, seenMonths: set<int>, dailyBudget := {}, {}, p.daily;
      var i := 0;
      while i < |entries|
        invariant 0 <= i <= |entries|
        invariant Slots(dailyBudget, seenWeeks, seenMonths) == ChargeAll(FreshSlots(p), entries[..i], p, month)
        invariant kept == set j | 0 <= j < i && KeptAt(entries, j, p, month) :: entries[j].path
      {
        var e := entries[i];
        ChargeNext(entries, i, p, month);
        ghost var was := kept;
        if !e.parses {
          kept := kept + {e.path};
        } else if dailyBudget > 0 {
          kept := kept + {e.path};
          dailyBudget := dailyBudget - 1;
        } else {
          var week, monthLabel := WeekOf(e.key), month(e.key);
          if Young(e, p) && week !in seenWeeks {
            seenWeeks := seenWeeks + {week};
            kept := kept + {e.path};
          } else if monthLabel !in seenMonths && |seenMonths| < p.monthly {
            seenMonths := seenMonths + {monthLabel};
            kept := kept + {e.path};
          }
        }
        assert kept == if KeptAt(entries, i, p, month) then was + {e.path} else was;
        i := i + 1;
      }
    }
  }

  // ------------------------------------------------------------- whole histories

  ghost predicate TightensAll(p: Policy, past: seq<Policy>) {
    forall q :: q in past ==> Tightens(p, q)
  }

  /** A prune no looser than any of the `past` ones keeps no artifact that is gone. */
  ghost predicate Backed(s: Store, past: seq<Policy>, month: int -> int) {
    forall p: Policy :: TightensAll(p, past) ==> KeptBy(s.manifest, p, month) <= s.files
  }

  function Run(s: Store, ops: seq<Operation>, month: int -> int): Store
    decreases |ops|
  {
    if ops == [] then s else Run(Apply(s, ops[0], month), ops[1..], month)
  }

  /** The clocks and limits of the prunes in a history. */
  function PrunesOf(ops: seq<Operation>): seq<Policy> {
    if ops == [] then [] else (if ops[0].Prune? then [ops[0].policy] else []) + PrunesOf(ops[1..])
  }

  lemma {:induction false} EligibleOfSplit(a: seq<Entry>, b: seq<Entry>)
    ensures EligibleOf(a + b) == EligibleOf(a) + EligibleOf(b)
    decreases |a|
  {
    if a == [] {
      assert a + b == b;
    } else {
      EligibleOfSplit(a[1..], b);
      assert (a + b)[1..] == a[1..] + b;
      var first := if Eligible(a[0]) then [a[0]] else [];
      assert first + (EligibleOf(a[1..]) + EligibleOf(b)) == (first + EligibleOf(a[1..])) + EligibleOf(b);
    }
  }

  lemma KeptPathWitness(es: seq<Entry>, p: Policy, month: int -> int, path: string) returns (i: nat)
    requires path in KeptPaths(es, p, month)
    ensures i < |es| && KeptAt(es, i, p, month) && es[i].path == path
  {
    i :| 0 <= i < |es| && KeptAt(es, i, p, month) && es[i].path == path;
  }

  lemma KeptPathOfInserted(x: seq<Entry>, e: Entry, y: seq<Entry>, later: Policy, earlier: Policy,
                           month: int -> int, path: string)
    requires NewestFirst(x + y) && Tightens(later, earlier)
    requires path in KeptPaths(x + ([e] + y), later, month)
    ensures path in KeptPaths(x + y, earlier, month) || path == e.path
  {
    var i := KeptPathWitness(x + ([e] + y), later, month, path);
    if i != |x| {
      var at := if i < |x| then i else i - 1;
      assert (x + y)[at] == (x + ([e] + y))[i];
      InsertionOnlyCosts(x, e, y, at, later, earlier, month);
    }
  }

  lemma KeptPathOfAppended(manifest: seq<Entry>, e: Entry, p: Policy, month: int -> int, path: string)
    requires path in KeptBy(manifest + [e], p, month)
    ensures path in KeptBy(manifest, p, month) || (Eligible(e) && path == e.path)
  {
    EligibleOfSplit(manifest, [e]);
    if Eligible(e) {
      assert EligibleOf([e]) == [e];
      var x, y := SortOfAppended(EligibleOf(manifest), e);
      SortIsNewestFirst(EligibleOf(manifest));
      KeptPathOfInserted(x, e, y, p, p, month, path);
    } else {
      assert EligibleOf([e]) == [] && EligibleOf(manifest) + [] == EligibleOf(manifest);
    }
  }

  lemma KeptPathOfTighter(es: seq<Entry>, later: Policy, earlier: Policy, month: int -> int, path: string)
    requires NewestFirst(es) && Tightens(later, earlier) && path in KeptPaths(es, later, month)
    ensures path in KeptPaths(es, earlier, month)
  {
    var i := KeptPathWitness(es, later, month, path);
    KeptBehindMoreUsed(FreshSlots(later), FreshSlots(earlier), es, i, later, earlier, month);
    assert KeptAt(es, i, earlier, month);
  }

  /** The manifest form of `KeptLaterWasKeptEarlier`; paths may repeat and lines may carry any date. */
  lemma {:induction false} KeptPathsOnlyShrink(manifest: seq<Entry>, appended: seq<Entry>, later: Policy,
                                               earlier: Policy, month: int -> int, path: string)
    requires Tightens(later, earlier)
    requires path in KeptBy(manifest + appended, later, month)
    ensures path in KeptBy(manifest, earlier, month) || exists e :: e in appended && Eligible(e) && e.path == path
    decreases |appended|
  {
    if appended == [] {
      assert manifest + [] == manifest;
      SortIsNewestFirst(EligibleOf(manifest));
      KeptPathOfTighter(Candidates(manifest), later, earlier, month, path);
    } else {
      var before, last := appended[..|appended| - 1], appended[|appended| - 1];
      assert manifest + appended == (manifest + before) + [last];
      KeptPathOfAppended(manifest + before, last, later, month, path);
      if path in KeptBy(manifest + before, later, month) {
        KeptPathsOnlyShrink(manifest, before, later, earlier, month, path);
      }
    }
  }

  lemma BackupKeepsBacked(s: Store, e: Entry, logged: bool, past: seq<Policy>, month: int -> int)
    requires Backed(s, past, month)
    ensures Backed(Apply(s, Backup(e, logged), month), past, month)
  {
    var s' := Apply(s, Backup(e, logged), month);
    forall p: Policy, path | TightensAll(p, past) && path in KeptBy(s'.manifest, p, month) ensures path in s'.files {
      if logged {
        KeptPathOfAppended(s.manifest, e, p, month, path);
      }
    }
  }

  lemma PruneKeepsBacked(s: Store, now: Policy, refused: set<string>, past: seq<Policy>, month: int -> int)
    requires Backed(s, past, month)
    ensures Backed(Apply(s, Prune(now, refused), month), past + [now], month)
  {
    var s' := Apply(s, Prune(now, refused), month);
    forall p: Policy, path | TightensAll(p, past + [now]) && path in KeptBy(s'.manifest, p, month)
      ensures path in s'.files
    {
      assert now in past + [now] && TightensAll(p, past);
      SortIsNewestFirst(EligibleOf(s.manifest));
      KeptPathOfTighter(Candidates(s.manifest), p, now, month, path);
    }
  }

  /**
    A file is deleted exactly if it can be, some line records it, and every candidate line that
    does is rejected; everything else, and the manifest, stays.
  */
  lemma PruneDeletesIff(s: Store, p: Policy, refused: set<string>, month: int -> int, path: string)
    ensures var es, s' := Candidates(s.manifest), Apply(s, Prune(p, refused), month);
      && s'.manifest == s.manifest && s'.files <= s.files
      && (path in s.files && path !in s'.files <==>
          && path in s.files && path !in refused && (exists i :: 0 <= i < |es| && es[i].path == path)
          && forall i :: 0 <= i < |es| && es[i].path == path ==> VerdictAt(es, i, p, month).Rejected?)
  {
    var es := Candidates(s.manifest);
    if i :| 0 <= i < |es| && es[i].path == path && !VerdictAt(es, i, p, month).Rejected? {
      assert KeptAt(es, i, p, month) && path in KeptBy(s.manifest, p, month);
    }
    if i :| 0 <= i < |es| && es[i].path == path {
      assert path in PathsOf(es);
    }
    if path in KeptBy(s.manifest, p, month) {
      var i := KeptPathWitness(es, p, month, path);
    }
  }

  /** A second prune with the same clock, limits and manifest deletes only files that the first could not. */
  lemma PruneAgainRetriesRefused(s: Store, p: Policy, first: set<string>, second: set<string>, month: int -> int)
    ensures PrunedBy(Apply(s, Prune(p, first), month), p, second, month) == PrunedBy(s, p, second, month) * first
    ensures first <= second ==> PrunedBy(Apply(s, Prune(p, first), month), p, second, month) == {}
  {
  }

  lemma {:induction false} HistoryKeepsBacked(s: Store, ops: seq<Operation>, past: seq<Policy>, month: int -> int)
    requires Backed(s, past, month)
    ensures Backed(Run(s, ops, month), past + PrunesOf(ops), month)
    decreases |ops|
  {
    if ops == [] {
      assert past + [] == past;
    } else {
      match ops[0] {
        case Backup(e, logged) =>
          BackupKeepsBacked(s, e, logged, past, month);
          HistoryKeepsBacked(Apply(s, ops[0], month), ops[1..], past, month);
          assert [] + PrunesOf(ops[1..]) == PrunesOf(ops[1..]);
        case Prune(p, refused) =>
          PruneKeepsBacked(s, p, refused, past, month);
          HistoryKeepsBacked(Apply(s, ops[0], month), ops[1..], past + [p], month);
          assert past + [p] + PrunesOf(ops[1..]) == past + ([p] + PrunesOf(ops[1..]));
      }
    }
  }

  /**
    After any history of backups and prunes, no slot of a prune that is no looser than the
    earlier ones is held by a file that retention deleted.
  */
  lemma SlotsStayBacked(ops: seq<Operation>, p: Policy, month: int -> int)
    requires forall q :: q in PrunesOf(ops) ==> Tightens(p, q)
    ensures var s := Run(Store([], {}), ops, month); KeptBy(s.manifest, p, month) <= s.files
  {
    HistoryKeepsBacked(Store([], {}), ops, [], month);
    assert [] + PrunesOf(ops) == PrunesOf(ops);
    assert TightensAll(p, PrunesOf(ops));
  }
}
