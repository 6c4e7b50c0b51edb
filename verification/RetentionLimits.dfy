/**
  Which changes of the retention limits can make a prune want back a file that an earlier
  one deleted: exactly those that loosen something.
*/
module RetentionLimits {
  import opened FiniteSets
  import opened Retention

  /** The range of the settings (backend/app/core/config.py). */
  predicate Configured(p: Policy) {
    p.daily >= 1 && p.weekly >= 1 && p.monthly >= 1
  }

  /** After a prune on a store without gaps, a prune with the `later` policy keeps only existing files. */
  ghost predicate NeverWantsBack(later: Policy, earlier: Policy, month: int -> int) {
    forall s: Store :: PathsOf(Candidates(s.manifest)) <= s.files ==>
      KeptBy(s.manifest, later, month) <= Apply(s, Prune(earlier, {}), month).files
  }

  lemma TighterNeverWantsBack(later: Policy, earlier: Policy, month: int -> int)
    requires Tightens(later, earlier)
    ensures NeverWantsBack(later, earlier, month)
  {
    forall s: Store, path | PathsOf(Candidates(s.manifest)) <= s.files && path in KeptBy(s.manifest, later, month)
      ensures path in Apply(s, Prune(earlier, {}), month).files
    {
      var es := Candidates(s.manifest);
      SortIsNewestFirst(EligibleOf(s.manifest));
      KeptPathOfTighter(es, later, earlier, month, path);
      var i := KeptPathWitness(es, later, month, path);
      assert es[i].path in PathsOf(es);
    }
  }

  // ---------------------------------------------------------- stores built from dates

  function Name(j: nat): string {
    seq(j + 1, _ => 'a')
  }

  lemma NameTells(i: nat, j: nat)
    requires Name(i) == Name(j)
    ensures i == j
  {
    assert |Name(i)| == |Name(j)|;
  }

  /** Completed artifacts with these dates and different paths. */
  function Lines(keys: seq<int>): seq<Entry> {
    seq(|keys|, j requires 0 <= j < |keys| => Entry(true, Name(j), Files, keys[j], true))
  }

  function StoreOf(keys: seq<int>): Store {
    Store(Lines(keys), PathsOf(Lines(keys)))
  }

  lemma {:induction false} AllAreCandidates(es: seq<Entry>)
    requires NewestFirst(es) && forall i :: 0 <= i < |es| ==> Eligible(es[i])
    ensures Candidates(es) == es && EligibleOf(es) == es
    decreases |es|
  {
    if es != [] {
      var rest := es[1..];
      assert forall i :: 0 <= i < |rest| ==> rest[i] == es[i + 1];
      AllAreCandidates(rest);
      assert EligibleOf(es) == [es[0]] + rest == es;
      assert SortNewestFirst(es) == InsertStable(es[0], rest);
    }
  }

  ghost predicate WantsBackFrom(keys: seq<int>, later: Policy, earlier: Policy, month: int -> int) {
    var s := StoreOf(keys);
    && PathsOf(Candidates(s.manifest)) <= s.files
    && !(KeptBy(s.manifest, later, month) <= Apply(s, Prune(earlier, {}), month).files)
  }

  /** An entry that only the later prune keeps is one whose file it wants back. */
  lemma EntryIsWantedBack(keys: seq<int>, i: nat, later: Policy, earlier: Policy, month: int -> int)
    requires i < |keys| && forall a, b :: 0 <= a < b < |keys| ==> keys[a] >= keys[b]
    requires KeptAt(Lines(keys), i, later, month) && !KeptAt(Lines(keys), i, earlier, month)
    ensures WantsBackFrom(keys, later, earlier, month)
  {
    var es, s := Lines(keys), StoreOf(keys);
    AllAreCandidates(es);
    assert es[i].path == Name(i) && Name(i) in PathsOf(es);
    assert Name(i) in KeptBy(s.manifest, later, month);
    if Name(i) in KeptBy(s.manifest, earlier, month) {
      var j := KeptPathWitness(es, earlier, month, Name(i));
      NameTells(i, j);
      assert false;
    }
    assert Name(i) in PrunedBy(s, earlier, {}, month);
  }

  lemma LinesAreReadable(keys: seq<int>, i: nat)
    requires i <= |keys|
    ensures ParsedBefore(Lines(keys), i) == i
  {
    AllReadable(Lines(keys), i);
  }

  // -------------------------------------------------------------- the three witnesses

  /** Older than the weekly copies of both policies. */
  function Old(p: Policy, q: Policy): int {
    (if Cutoff(p) <= Cutoff(q) then Cutoff(p) else Cutoff(q)) - 1
  }

  /** Old artifacts of one instant: one more of them is kept for every further daily copy. */
  lemma MoreDailyWantsBack(later: Policy, earlier: Policy, month: int -> int)
    requires Configured(later) && Configured(earlier) && later.daily > earlier.daily
    ensures WantsBackFrom(seq(earlier.daily + 2, _ => Old(later, earlier)), later, earlier, month)
  {
    var d := earlier.daily;
    var keys := seq(d + 2, _ => Old(later, earlier));
    var es := Lines(keys);
    LinesAreReadable(keys, d);
    LinesAreReadable(keys, d + 1);
    SecondElderIsKeptIff(es, d + 1, earlier, month);
    if later.daily == d + 1 {
      FirstElderIsKeptIff(es, d + 1, later, month);
    } else {
      ExemplarsAreKept(es, d + 1, later, month);
    }
    EntryIsWantedBack(keys, d + 1, later, earlier, month);
  }

  /** Months of 31 days, the first of which starts at `origin`. */
  const MONTH := 31 * DAY

  function MonthsFrom(origin: int): int -> int {
    k => (k - origin) / MONTH
  }

  lemma MonthsFromAreMonotone(origin: int)
    ensures Monotone(MonthsFrom(origin))
  {
  }

  /** The last artifact is too old for the earlier prune, and lies a week behind the others. */
  function Straggler(earlier: Policy): seq<int> {
    seq(Max0(earlier.daily) + 2, _ => Cutoff(earlier) - 1 + 7 * DAY) + [Cutoff(earlier) - 1]
  }

  lemma StragglerMonths(earlier: Policy, j: nat)
    requires Configured(earlier) && j < earlier.daily + 3
    ensures MonthsFrom(Cutoff(earlier) - 1)(Lines(Straggler(earlier))[j].key) == 0
  {
  }

  /** The last but one takes the month of the last, because its week is taken. */
  lemma StragglerHasNoMonth(earlier: Policy)
    requires Configured(earlier)
    ensures Remaining(Lines(Straggler(earlier)), earlier.daily + 1, earlier)
    ensures 0 in RemainingMonths(Lines(Straggler(earlier)), earlier.daily + 2, earlier, MonthsFrom(Cutoff(earlier) - 1))
  {
    var d, es := earlier.daily, Lines(Straggler(earlier));
    LinesAreReadable(Straggler(earlier), d);
    LinesAreReadable(Straggler(earlier), d + 1);
    assert Elder(es, d, earlier) && Young(es[d], earlier) && es[d].key == es[d + 1].key;
    assert Elder(es, d + 1, earlier);
    StragglerMonths(earlier, d + 1);
  }

  lemma StragglerIsRejected(earlier: Policy)
    requires Configured(earlier)
    ensures !KeptAt(Lines(Straggler(earlier)), earlier.daily + 2, earlier, MonthsFrom(Cutoff(earlier) - 1))
  {
    var d := earlier.daily;
    LinesAreReadable(Straggler(earlier), d + 2);
    StragglerHasNoMonth(earlier);
    StragglerMonths(earlier, d + 2);
    ExemplarsAreKept(Lines(Straggler(earlier)), d + 2, earlier, MonthsFrom(Cutoff(earlier) - 1));
  }

  lemma StragglerIsKept(later: Policy, earlier: Policy, month: int -> int)
    requires Configured(later) && Configured(earlier)
    requires later.daily <= earlier.daily && Cutoff(later) < Cutoff(earlier)
    ensures KeptAt(Lines(Straggler(earlier)), earlier.daily + 2, later, month)
  {
    var d := earlier.daily;
    var es := Lines(Straggler(earlier));
    LinesAreReadable(Straggler(earlier), d + 2);
    forall j | 0 <= j < d + 2 ensures WeekOf(es[j].key) != WeekOf(es[d + 2].key) {
      assert es[j].key == es[d + 2].key + 7 * DAY;
    }
    ExemplarsAreKept(es, d + 2, later, month);
  }

  lemma EarlierCutoffWantsBack(later: Policy, earlier: Policy)
    requires Configured(later) && Configured(earlier)
    requires later.daily <= earlier.daily && Cutoff(later) < Cutoff(earlier)
    ensures WantsBackFrom(Straggler(earlier), later, earlier, MonthsFrom(Cutoff(earlier) - 1))
  {
    StragglerIsRejected(earlier);
    StragglerIsKept(later, earlier, MonthsFrom(Cutoff(earlier) - 1));
    EntryIsWantedBack(Straggler(earlier), earlier.daily + 2, later, earlier, MonthsFrom(Cutoff(earlier) - 1));
  }

  /** `d` artifacts of month `top`, and one of each of the months from `top` back to `top - m`. */
  function Monthlies(top: int, d: nat, m: nat): seq<int> {
    seq(d, _ => top * MONTH) + seq(m + 1, j => (top - j) * MONTH)
  }

  lemma MonthliesAt(top: int, d: nat, m: nat, j: nat)
    requires j < d + m + 1
    ensures MonthsFrom(0)(Lines(Monthlies(top, d, m))[j].key) == if j < d then top else top - (j - d)
  {
    var n := if j < d then top else top - (j - d);
    assert Lines(Monthlies(top, d, m))[j].key == n * MONTH;
  }

  lemma MonthliesAreOld(top: int, d: nat, m: nat, j: nat, p: Policy)
    requires j < d + m + 1 && top * MONTH < Cutoff(p)
    ensures !Young(Lines(Monthlies(top, d, m))[j], p)
  {
    assert Lines(Monthlies(top, d, m))[j].key == (if j < d then top else top - (j - d)) * MONTH;
  }

  lemma MonthliesRemain(top: int, d: nat, m: nat, j: nat, p: Policy)
    requires j < d + m + 1 && top * MONTH < Cutoff(p) && p.daily <= d
    ensures Remaining(Lines(Monthlies(top, d, m)), j, p) <==> j >= p.daily
  {
    LinesAreReadable(Monthlies(top, d, m), j);
    MonthliesAreOld(top, d, m, j, p);
  }

  lemma MonthBeforeTheLast(top: int, d: nat, m: nat, p: Policy, n: int)
    requires m >= 1 && top * MONTH < Cutoff(p) && p.daily <= d
    ensures n in RemainingMonths(Lines(Monthlies(top, d, m)), d + m, p, MonthsFrom(0)) <==> top - m < n <= top
  {
    var es, month := Lines(Monthlies(top, d, m)), MonthsFrom(0);
    if n in RemainingMonths(es, d + m, p, month) {
      var j :| 0 <= j < d + m && Remaining(es, j, p) && month(es[j].key) == n;
      MonthliesAt(top, d, m, j);
    }
    if top - m < n <= top {
      MonthliesRemain(top, d, m, d + (top - n), p);
      MonthliesAt(top, d, m, d + (top - n));
    }
  }

  lemma MonthsBeforeTheLast(top: int, d: nat, m: nat, p: Policy)
    requires m >= 1 && top * MONTH < Cutoff(p) && p.daily <= d
    ensures |RemainingMonths(Lines(Monthlies(top, d, m)), d + m, p, MonthsFrom(0))| == m
  {
    var months := RemainingMonths(Lines(Monthlies(top, d, m)), d + m, p, MonthsFrom(0));
    forall n ensures n in months <==> top - m < n <= top {
      MonthBeforeTheLast(top, d, m, p, n);
    }
    SizeOfRange(months, top - m + 1, top);
  }

  lemma RemainingIsKeptIff(es: seq<Entry>, i: nat, p: Policy, month: int -> int)
    requires i < |es| && Remaining(es, i, p)
    ensures KeptAt(es, i, p, month)
       <==> month(es[i].key) !in RemainingMonths(es, i, p, month) && |RemainingMonths(es, i, p, month)| < p.monthly
  {
    ExemplarsAreKept(es, i, p, month);
  }

  /** The last of them is kept exactly by a prune with more than `m` monthly copies. */
  lemma LastMonthIsKeptIff(top: int, d: nat, m: nat, p: Policy)
    requires m >= 1 && top * MONTH < Cutoff(p) && p.daily <= d
    ensures KeptAt(Lines(Monthlies(top, d, m)), d + m, p, MonthsFrom(0)) <==> m < p.monthly
  {
    MonthliesRemain(top, d, m, d + m, p);
    MonthliesAt(top, d, m, d + m);
    MonthBeforeTheLast(top, d, m, p, top - m);
    MonthsBeforeTheLast(top, d, m, p);
    RemainingIsKeptIff(Lines(Monthlies(top, d, m)), d + m, p, MonthsFrom(0));
  }

  lemma MoreMonthlyWantsBack(later: Policy, earlier: Policy) returns (keys: seq<int>)
    requires Configured(later) && Configured(earlier)
    requires later.daily <= earlier.daily && later.monthly > earlier.monthly
    ensures WantsBackFrom(keys, later, earlier, MonthsFrom(0))
  {
    var d, m, top := earlier.daily, earlier.monthly, Old(later, earlier) / MONTH;
    assert top * MONTH <= Old(later, earlier);
    LastMonthIsKeptIff(top, d, m, later);
    LastMonthIsKeptIff(top, d, m, earlier);
    keys := Monthlies(top, d, m);
    EntryIsWantedBack(keys, d + m, later, earlier, MonthsFrom(0));
  }

  // -------------------------------------------------------------- the exact condition

  lemma WantingBackIsPossible(keys: seq<int>, later: Policy, earlier: Policy, month: int -> int)
    requires WantsBackFrom(keys, later, earlier, month)
    ensures !NeverWantsBack(later, earlier, month)
  {
    var s := StoreOf(keys);
    assert PathsOf(Candidates(s.manifest)) <= s.files;
  }

  lemma LooserWantsBack(later: Policy, earlier: Policy) returns (keys: seq<int>, origin: int)
    requires Configured(later) && Configured(earlier) && !Tightens(later, earlier)
    ensures WantsBackFrom(keys, later, earlier, MonthsFrom(origin))
  {
    if later.daily > earlier.daily {
      keys, origin := seq(earlier.daily + 2, _ => Old(later, earlier)), 0;
      MoreDailyWantsBack(later, earlier, MonthsFrom(origin));
    } else if Cutoff(later) < Cutoff(earlier) {
      keys, origin := Straggler(earlier), Cutoff(earlier) - 1;
      EarlierCutoffWantsBack(later, earlier);
    } else {
      origin := 0;
      keys := MoreMonthlyWantsBack(later, earlier);
    }
  }

  /**
    Among the limits that can be configured, a prune never wants back what an earlier one
    deleted exactly if none of its limits is looser and its cutoff does not lie further back.
  */
  lemma NothingIsWantedBackIff(later: Policy, earlier: Policy)
    requires Configured(later) && Configured(earlier)
    ensures (forall month: int -> int :: Monotone(month) ==> NeverWantsBack(later, earlier, month))
       <==> Tightens(later, earlier)
  {
    if Tightens(later, earlier) {
      forall month: int -> int ensures NeverWantsBack(later, earlier, month) {
        TighterNeverWantsBack(later, earlier, month);
      }
    } else {
      var keys, origin := LooserWantsBack(later, earlier);
      WantingBackIsPossible(keys, later, earlier, MonthsFrom(origin));
      MonthsFromAreMonotone(origin);
    }
  }

  /** Sixteen old artifacts of one instant: after the shipped limits, 15 daily copies want one back. */
  lemma LooserLimitsWantBack(now: int, month: int -> int)
    ensures var s := StoreOf(seq(16, _ => now - 56 * DAY - 1));
      && KeptBy(s.manifest, Policy(now, 14, 8, 6), month) <= s.files
      && !(KeptBy(s.manifest, Policy(now, 15, 8, 6), month)
           <= Apply(s, Prune(Policy(now, 14, 8, 6), {}), month).files)
  {
    var p, q := Policy(now, 14, 8, 6), Policy(now, 15, 8, 6);
    var keys := seq(16, _ => now - 56 * DAY - 1);
    MoreDailyWantsBack(q, p, month);
    assert keys == seq(p.daily + 2, _ => Old(q, p));
    forall path | path in KeptBy(StoreOf(keys).manifest, p, month) ensures path in StoreOf(keys).files {
      var es := Candidates(StoreOf(keys).manifest);
      var i := KeptPathWitness(es, p, month, path);
      assert es[i].path in PathsOf(es);
    }
  }
}
