/**
  The allowlisted analytics filters (backend/app/analytics/core/filters.py): cleaning of
  raw parameters, and the canonical payload that reports store and read back.
*/
module Filters {
  import opened Text
  import opened Wrappers

  datatype Error = UnknownFilter | BadValue

  const MAX_VALUES := 25
  const MAX_LENGTH := 300

  /** The accepted keys, and those of them whose values must be UUIDs. */
  datatype Allowlist = Allowlist(keys: seq<string>, uuidKeys: set<string>)

  const FILTERS := Allowlist(
    ["source", "scraper", "scraper_version", "lead_status", "lead_category",
     "industry", "city", "state", "country", "tags", "campaign_id", "channel",
     "sending_account_id", "provider", "conversation_status", "conversation_priority",
     "assigned_user_id", "assigned_team_id", "workflow_id", "execution_status",
     "source_type", "campaign_status"],
    {"campaign_id", "sending_account_id", "assigned_user_id", "assigned_team_id", "workflow_id"})

  const PERIOD := "period"

  /** What the results below ask of an allowlist. */
  ghost predicate Proper(a: Allowlist) {
    PERIOD !in a.keys
  }

  lemma ShippedAllowlistIsProper()
    ensures Proper(FILTERS)
  {
  }

  /** An allowlist together with the texts on which `uuid.UUID` does not raise. */
  datatype Rules = Rules(list: Allowlist, isUuid: string -> bool)

  /** A raw parameter: absent, one comma-separated text, or a list of texts. */
  datatype Raw = Null | Text(text: string) | List(values: seq<string>)

  function Chunks(raw: Raw): seq<string> {
    var all := match raw case Null => [] case Text(text) => Split(text, ',') case List(values) => values;
    if |all| <= 2 * MAX_VALUES then all else all[..2 * MAX_VALUES]
  }

  function Trimmed(chunk: string): string {
    Strip(chunk, IsSpace)
  }

  /** A value within the length limit and, where UUIDs are expected, one that parses. */
  predicate Valid(key: string, value: string, rules: Rules) {
    |value| <= MAX_LENGTH && (key in rules.list.uuidKeys ==> rules.isUuid(value))
  }

  /** The values that `_clean_list` still adds to `values` from the remaining chunks. */
  function Collect(key: string, chunks: seq<string>, values: seq<string>, rules: Rules): Result<seq<string>, Error> {
    if chunks == [] then Ok(values)
    else
      var value := Trimmed(chunks[0]);
      if value == "" || value in values then Collect(key, chunks[1..], values, rules)
      else if !Valid(key, value, rules) then Err(BadValue)
      else if |values| + 1 >= MAX_VALUES then Ok(values + [value])
      else Collect(key, chunks[1..], values + [value], rules)
  }

  function Clean(key: string, raw: Raw, rules: Rules): Result<seq<string>, Error> {
    Collect(key, Chunks(raw), [], rules)
  }

  method CleanList(key: string, raw: Raw, rules: Rules) returns (r: Result<seq<string>, Error>)
    ensures r == Clean(key, raw, rules)
  {
    var chunks := Chunks(raw);
    var values: seq<string> := [];
    var i := 0;
    while i < |chunks|
      invariant 0 <= i <= |chunks|
      invariant Collect(key, chunks[i..], values, rules) == Clean(key, raw, rules)
    {
      assert chunks[i..][1..] == chunks[i + 1..];
      var value := Trimmed(chunks[i]);
      if value != "" && value !in values {
        if !Valid(key, value, rules) {
          return Err(BadValue);
        }
        values := values + [value];
        if |values| >= MAX_VALUES {
          return Ok(values);
        }
      }
      i := i + 1;
    }
    r := Ok(values);
  }

  // --------------------------------------------------------- what cleaning computes

  /** The non-empty trimmed chunks without repetition, in order of first occurrence. */
  function Distinct(chunks: seq<string>, seen: seq<string>): seq<string> {
    if chunks == [] then []
    else
      var value := Trimmed(chunks[0]);
      if value == "" || value in seen then Distinct(chunks[1..], seen)
      else [value] + Distinct(chunks[1..], seen + [value])
  }

  function First(xs: seq<string>, n: nat): seq<string> {
    if |xs| <= n then xs else xs[..n]
  }

  predicate AllValid(key: string, values: seq<string>, rules: Rules) {
    forall value :: value in values ==> Valid(key, value, rules)
  }

  lemma FirstOfCons(key: string, x: string, rest: seq<string>, n: nat, rules: Rules)
    requires n >= 1
    ensures First([x] + rest, n) == [x] + First(rest, n - 1)
    ensures AllValid(key, First([x] + rest, n), rules)
       <==> Valid(key, x, rules) && AllValid(key, First(rest, n - 1), rules)
  {
  }

  /** The outcome when `more` is what remains to be added to `values`. */
  function Judged(key: string, values: seq<string>, more: seq<string>, rules: Rules): Result<seq<string>, Error> {
    if AllValid(key, more, rules) then Ok(values + more) else Err(BadValue)
  }

  lemma JudgedCons(key: string, values: seq<string>, x: string, rest: seq<string>, n: nat, rules: Rules)
    requires n >= 1
    ensures Judged(key, values, First([x] + rest, n), rules)
         == if Valid(key, x, rules) then Judged(key, values + [x], First(rest, n - 1), rules) else Err(BadValue)
  {
    FirstOfCons(key, x, rest, n, rules);
    assert values + ([x] + First(rest, n - 1)) == values + [x] + First(rest, n - 1);
  }

  lemma {:induction false} CollectTakesFirst(key: string, chunks: seq<string>, values: seq<string>, rules: Rules)
    requires |values| < MAX_VALUES
    ensures Collect(key, chunks, values, rules)
         == Judged(key, values, First(Distinct(chunks, values), MAX_VALUES - |values|), rules)
    decreases |chunks|
  {
    if chunks == [] {
      assert values + [] == values;
    } else {
      var value := Trimmed(chunks[0]);
      if value == "" || value in values {
        CollectTakesFirst(key, chunks[1..], values, rules);
      } else {
        var rest, n := Distinct(chunks[1..], values + [value]), MAX_VALUES - |values|;
        JudgedCons(key, values, value, rest, n, rules);
        if n == 1 {
          assert First(rest, 0) == [] && values + [value] + [] == values + [value];
        } else {
          CollectTakesFirst(key, chunks[1..], values + [value], rules);
        }
      }
    }
  }

  /**
    A cleaned list holds the first twenty-five distinct values of the first fifty chunks;
    it is refused exactly when one of those is too long or not a UUID where one is due.
  */
  lemma CleanTakesFirstDistinct(key: string, raw: Raw, rules: Rules)
    ensures var values := First(Distinct(Chunks(raw), []), MAX_VALUES);
      Clean(key, raw, rules) == if AllValid(key, values, rules) then Ok(values) else Err(BadValue)
  {
    CollectTakesFirst(key, Chunks(raw), [], rules);
    assert [] + First(Distinct(Chunks(raw), []), MAX_VALUES) == First(Distinct(Chunks(raw), []), MAX_VALUES);
  }

  ghost predicate NoRepeats(xs: seq<string>) {
    forall i, j :: 0 <= i < j < |xs| ==> xs[i] != xs[j]
  }

  /** `xs` comes out of `ys` by leaving elements out. */
  predicate Subsequence(xs: seq<string>, ys: seq<string>) {
    xs == [] || (ys != [] && (if xs[0] == ys[0] then Subsequence(xs[1..], ys[1..]) else Subsequence(xs, ys[1..])))
  }

  function AllTrimmed(chunks: seq<string>): seq<string> {
    seq(|chunks|, i requires 0 <= i < |chunks| => Trimmed(chunks[i]))
  }

  lemma {:induction false} DistinctIsDistinct(chunks: seq<string>, seen: seq<string>)
    ensures var r := Distinct(chunks, seen);
      && NoRepeats(r) && (forall v :: v in r ==> v != "" && v !in seen && Trimmed(v) == v)
      && Subsequence(r, AllTrimmed(chunks))
    decreases |chunks|
  {
    if chunks != [] {
      var value := Trimmed(chunks[0]);
      StripTwice(chunks[0], IsSpace);
      assert AllTrimmed(chunks)[1..] == AllTrimmed(chunks[1..]);
      if value == "" || value in seen {
        DistinctIsDistinct(chunks[1..], seen);
        SubsequenceOfMore(Distinct(chunks[1..], seen), value, AllTrimmed(chunks[1..]));
        assert AllTrimmed(chunks) == [value] + AllTrimmed(chunks[1..]);
      } else {
        DistinctIsDistinct(chunks[1..], seen + [value]);
        var rest := Distinct(chunks[1..], seen + [value]);
        assert ([value] + rest)[1..] == rest;
        assert value in seen + [value];
      }
    }
  }

  lemma {:induction false} SubsequenceOfMore(xs: seq<string>, y: string, ys: seq<string>)
    requires Subsequence(xs, ys)
    ensures Subsequence(xs, [y] + ys)
    decreases |ys|, 1
  {
    assert ([y] + ys)[1..] == ys;
    if xs != [] && xs[0] == y {
      SubsequenceOfTail(xs, ys);
    }
  }

  lemma {:induction false} SubsequenceOfTail(xs: seq<string>, ys: seq<string>)
    requires Subsequence(xs, ys) && xs != []
    ensures Subsequence(xs[1..], ys)
    decreases |ys|, 0
  {
    if xs[0] == ys[0] {
      assert ys == [ys[0]] + ys[1..];
      SubsequenceOfMore(xs[1..], ys[0], ys[1..]);
    } else {
      SubsequenceOfTail(xs, ys[1..]);
      assert ys == [ys[0]] + ys[1..];
      SubsequenceOfMore(xs[1..], ys[0], ys[1..]);
    }
  }

  lemma {:induction false} PrefixIsSubsequence(xs: seq<string>, n: nat, ys: seq<string>)
    requires Subsequence(xs, ys) && n <= |xs|
    ensures Subsequence(xs[..n], ys)
    decreases |ys|
  {
    if n > 0 {
      if xs[0] == ys[0] {
        PrefixIsSubsequence(xs[1..], n - 1, ys[1..]);
        assert xs[..n][1..] == xs[1..][..n - 1];
      } else {
        PrefixIsSubsequence(xs, n, ys[1..]);
      }
    }
  }

  /** What a cleaned list always is. */
  ghost predicate Canonical(key: string, values: seq<string>, rules: Rules) {
    && NoRepeats(values) && |values| <= MAX_VALUES && AllValid(key, values, rules)
    && forall v :: v in values ==> v != "" && Trimmed(v) == v
  }

  lemma CleanIsCanonical(key: string, raw: Raw, rules: Rules)
    requires Clean(key, raw, rules).Ok?
    ensures Canonical(key, Clean(key, raw, rules).value, rules)
    ensures Subsequence(Clean(key, raw, rules).value, AllTrimmed(Chunks(raw)))
  {
    CleanTakesFirstDistinct(key, raw, rules);
    var all := Distinct(Chunks(raw), []);
    DistinctIsDistinct(Chunks(raw), []);
    if |all| > MAX_VALUES {
      PrefixIsSubsequence(all, MAX_VALUES, AllTrimmed(Chunks(raw)));
      assert forall v :: v in all[..MAX_VALUES] ==> v in all;
    }
  }

  // ------------------------------------------------------- cleaning in terms of values

  /** One comma-separated text is cleaned like the list of its parts, and an absent parameter is empty. */
  lemma TextIsItsParts(key: string, xs: seq<string>, rules: Rules)
    requires xs != [] && forall x :: x in xs ==> ',' !in x
    ensures Clean(key, Text(Join(xs, ',')), rules) == Clean(key, List(xs), rules)
    ensures Clean(key, Null, rules) == Ok([])
  {
    SplitOfJoined(xs, ',');
  }

  /** Only the first fifty parts are looked at, and at most twenty-five values are taken. */
  lemma OnlyFiftyPartsCount(key: string, xs: seq<string>, rules: Rules)
    ensures |xs| > 50 ==> Clean(key, List(xs), rules) == Clean(key, List(xs[..50]), rules)
    ensures |xs| <= 50 ==> Clean(key, List(xs), rules) == Judged(key, [], First(Distinct(xs, []), 25), rules)
  {
    if |xs| > 50 {
      assert Chunks(List(xs)) == xs[..50] == Chunks(List(xs[..50]));
    } else {
      assert Chunks(List(xs)) == xs;
      CollectTakesFirst(key, xs, [], rules);
    }
  }

  /** A further part adds its value at the end, unless it is blank or was there already. */
  lemma {:induction false} DistinctOfMore(xs: seq<string>, x: string, seen: seq<string>)
    ensures Distinct([], seen) == []
    ensures Distinct(xs + [x], seen)
         == Distinct(xs, seen)
            + if Trimmed(x) == "" || Trimmed(x) in seen + Distinct(xs, seen) then [] else [Trimmed(x)]
    decreases |xs|
  {
    if xs == [] {
      assert xs + [x] == [x] && [x][1..] == [];
      assert Distinct([x][1..], seen + [Trimmed(x)]) == [];
    } else {
      assert (xs + [x])[1..] == xs[1..] + [x];
      var value := Trimmed(xs[0]);
      if value == "" || value in seen {
        DistinctOfMore(xs[1..], x, seen);
      } else {
        var rest := Distinct(xs[1..], seen + [value]);
        DistinctOfMore(xs[1..], x, seen + [value]);
        assert seen + [value] + rest == seen + ([value] + rest);
        var added := if Trimmed(x) == "" || Trimmed(x) in seen + [value] + rest then [] else [Trimmed(x)];
        assert [value] + (rest + added) == [value] + rest + added;
      }
    }
  }

  /** One value, with white space around it: taken up to 300 characters, and as a UUID where one is due. */
  lemma CleanOfOne(key: string, before: string, value: string, after: string, rules: Rules)
    requires forall c :: c in before || c in after ==> IsSpace(c)
    requires value != "" && !IsSpace(value[0]) && !IsSpace(value[|value| - 1])
    ensures Clean(key, List([before + value + after]), rules)
         == if |value| <= 300 && (key in rules.list.uuidKeys ==> rules.isUuid(value))
            then Ok([value]) else Err(BadValue)
  {
    var x := before + value + after;
    StripOfPadded(before, value, after, IsSpace);
    CleanTakesFirstDistinct(key, List([x]), rules);
    assert Chunks(List([x])) == [x] && Trimmed(x) == value;
    DistinctOfMore([], x, []);
    assert [] + [x] == [x] && Distinct([x], []) == [] + [value] == [value];
  }

  // -------------------------------------------------------------- the filter object

  /** The frozen dataclass: a key outside `values` holds the empty list. */
  datatype AnalyticsFilters<P> = AnalyticsFilters(period: Option<P>, values: map<string, seq<string>>)

  function WithoutPeriod<P>(f: AnalyticsFilters<P>): AnalyticsFilters<P> {
    f.(period := None)
  }

  datatype PayloadEntry<P> = Values(values: seq<string>) | Period(period: P)
  type Payload<P> = map<string, PayloadEntry<P>>

  function ToPayload<P>(f: AnalyticsFilters<P>, list: Allowlist): Payload<P> {
    var lists := map key | key in f.values && key in list.keys && f.values[key] != [] :: Values(Sorted(f.values[key]));
    if f.period.None? then lists else lists[PERIOD := Period(f.period.value)]
  }

  method BuildPayload<P>(f: AnalyticsFilters<P>, list: Allowlist) returns (out: Payload<P>)
    ensures out == ToPayload(f, list)
  {
    out := map[];
    var i := 0;
    while i < |list.keys|
      invariant 0 <= i <= |list.keys|
      invariant forall key :: key in out <==> key in list.keys[..i] && key in f.values && f.values[key] != []
      invariant forall key :: key in out ==> out[key] == Values(Sorted(f.values[key]))
    {
      var key := list.keys[i];
      assert list.keys[..i + 1] == list.keys[..i] + [key];
      if key in f.values && f.values[key] != [] {
        out := out[key := Values(Sorted(f.values[key]))];
      }
      i := i + 1;
    }
    assert list.keys[..i] == list.keys;
    if f.period.Some? {
      out := out[PERIOD := Period(f.period.value)];
    }
  }

  predicate KnownKeys(params: map<string, Raw>, list: Allowlist) {
    forall key :: key in params ==> key in list.keys
  }

  /** The non-empty cleaned lists. */
  function CleanValues(params: map<string, Raw>, rules: Rules): map<string, seq<string>> {
    map key | key in params && Clean(key, params[key], rules).Ok? && Clean(key, params[key], rules).value != []
      :: Clean(key, params[key], rules).value
  }

  function FromParams<P>(params: map<string, Raw>, period: Option<P>, rules: Rules)
    : Result<AnalyticsFilters<P>, Error>
  {
    if !KnownKeys(params, rules.list) then Err(UnknownFilter)
    else if exists key :: key in params && Clean(key, params[key], rules).Err? then Err(BadValue)
    else Ok(AnalyticsFilters(period, CleanValues(params, rules)))
  }

  method FiltersFromParams<P>(params: map<string, Raw>, period: Option<P>, rules: Rules)
    returns (r: Result<AnalyticsFilters<P>, Error>)
    ensures r == FromParams(params, period, rules)
  {
    if !KnownKeys(params, rules.list) {
      return Err(UnknownFilter);
    }
    var kwargs, ok := CleanAll(params, rules);
    r := if ok then Ok(AnalyticsFilters(period, kwargs)) else Err(BadValue);
  }

  /** The loop over the items of the parameter dict, in any order. */
  method CleanAll(params: map<string, Raw>, rules: Rules) returns (kwargs: map<string, seq<string>>, ok: bool)
    ensures ok <==> forall key :: key in params ==> Clean(key, params[key], rules).Ok?
    ensures ok ==> kwargs == CleanValues(params, rules)
  {
    kwargs, ok := map[], true;
    var rest := params.Keys;
    while rest != {}
      invariant rest <= params.Keys
      invariant forall key :: key in params && key !in rest ==> Clean(key, params[key], rules).Ok?
      invariant forall key :: key in kwargs <==> key in CleanValues(params, rules) && key !in rest
      invariant forall key :: key in kwargs ==> kwargs[key] == CleanValues(params, rules)[key]
      decreases rest
    {
      var key :| key in rest;
      var cleaned := CleanList(key, params[key], rules);
      if cleaned.Err? {
        ok := false;
        return;
      }
      rest := rest - {key};
      if cleaned.value != [] {
        kwargs := kwargs[key := cleaned.value];
      }
    }
  }

  /**
    A stored payload read back as parameters: lists stay lists, and the value under the key of a
    period is never looked at.
  */
  function AsParams<P>(payload: Payload<P>): map<string, Raw> {
    map key | key in payload :: match payload[key] case Values(values) => List(values) case Period(_) => Null
  }

  /** Unknown keys are refused first, then unclean values; else each non-empty cleaned list is set. */
  lemma FromParamsOutcome<P>(params: map<string, Raw>, period: Option<P>, rules: Rules, key: string)
    ensures FromParams(params, period, rules) == Err(UnknownFilter)
       <==> exists k :: k in params && k !in rules.list.keys
    ensures FromParams(params, period, rules) == Err(BadValue) <==>
      && (forall k :: k in params ==> k in rules.list.keys)
      && exists k :: k in params && Clean(k, params[k], rules) == Err(BadValue)
    ensures FromParams(params, period, rules).Ok? ==>
      var f := FromParams(params, period, rules).value;
      && f.period == period
      && (key in f.values <==> key in params && Clean(key, params[key], rules) != Ok([]))
      && (key in f.values ==> Ok(f.values[key]) == Clean(key, params[key], rules))
  {
    forall k | k in params ensures Clean(k, params[k], rules).Ok? || Clean(k, params[k], rules) == Err(BadValue) {
      CleanTakesFirstDistinct(k, params[k], rules);
    }
  }

  /** A payload holds the allowed non-empty lists in ascending order, and the period if there is one. */
  lemma PayloadHolds<P>(f: AnalyticsFilters<P>, list: Allowlist, key: string)
    requires "period" !in list.keys
    ensures var out := ToPayload(f, list);
      && (key != "period" ==> (key in out <==> key in list.keys && key in f.values && f.values[key] != []))
      && (key != "period" && key in out ==>
            out[key].Values? && Ascending(out[key].values) && multiset(out[key].values) == multiset(f.values[key]))
      && ("period" in out <==> f.period.Some?)
      && (f.period.Some? ==> out["period"] == Period(f.period.value))
  {
    if key in f.values {
      SortedPermutes(f.values[key]);
      SortedAscends(f.values[key]);
    }
  }

  // ------------------------------------------------------------------ the round trip

  lemma {:induction false} CollectOfCanonical(key: string, chunks: seq<string>, values: seq<string>, rules: Rules)
    requires Canonical(key, values + chunks, rules)
    ensures Collect(key, chunks, values, rules) == Ok(values + chunks)
    decreases |chunks|
  {
    if chunks == [] {
      assert values + chunks == values;
    } else {
      var v := chunks[0];
      assert (values + chunks)[|values|] == v;
      assert v in values + chunks;
      forall i | 0 <= i < |values| ensures values[i] != v {
        assert (values + chunks)[i] == values[i];
      }
      assert values + [v] + chunks[1..] == values + chunks;
      if |values| + 1 >= MAX_VALUES {
        assert chunks == [v];
      } else {
        CollectOfCanonical(key, chunks[1..], values + [v], rules);
      }
    }
  }

  lemma PermutationIsCanonical(key: string, xs: seq<string>, ys: seq<string>, rules: Rules)
    requires Canonical(key, xs, rules) && multiset(ys) == multiset(xs)
    ensures Canonical(key, ys, rules)
  {
    assert |ys| == |multiset(ys)| == |multiset(xs)| == |xs|;
    forall v | v in ys ensures v in xs {
      assert v in multiset(ys);
    }
    forall v ensures multiset(xs)[v] <= 1 {
      CountOfNoRepeats(xs, v);
    }
    RepeatsCount(ys);
  }

  lemma {:induction false} CountOfNoRepeats(xs: seq<string>, v: string)
    requires NoRepeats(xs)
    ensures multiset(xs)[v] <= 1
    decreases |xs|
  {
    if xs != [] {
      assert xs == [xs[0]] + xs[1..];
      CountOfNoRepeats(xs[1..], v);
      if v == xs[0] {
        assert v !in xs[1..];
      }
    }
  }

  lemma TwiceCounts(xs: seq<string>, i: nat, j: nat)
    requires i < j < |xs| && xs[i] == xs[j]
    ensures multiset(xs)[xs[i]] >= 2
  {
    assert xs == xs[..j] + [xs[j]] + xs[j + 1..];
    assert xs[i] in xs[..j];
    assert multiset(xs) == multiset(xs[..j]) + multiset{xs[j]} + multiset(xs[j + 1..]);
  }

  lemma RepeatsCount(xs: seq<string>)
    requires forall v :: multiset(xs)[v] <= 1
    ensures NoRepeats(xs)
  {
    forall i, j | 0 <= i < j < |xs| ensures xs[i] != xs[j] {
      if xs[i] == xs[j] {
        TwiceCounts(xs, i, j);
      }
    }
  }

  /** A sorted cleaned list cleans to itself. */
  lemma CleanOfSorted(key: string, values: seq<string>, rules: Rules)
    requires Canonical(key, values, rules)
    ensures Clean(key, List(Sorted(values)), rules) == Ok(Sorted(values))
  {
    SortedPermutes(values);
    PermutationIsCanonical(key, values, Sorted(values), rules);
    assert [] + Sorted(values) == Sorted(values);
    CollectOfCanonical(key, Sorted(values), [], rules);
  }

  ghost predicate AllCanonical<P>(f: AnalyticsFilters<P>, rules: Rules) {
    forall key :: key in f.values ==>
      key in rules.list.keys && f.values[key] != [] && Canonical(key, f.values[key], rules)
  }

  lemma AcceptedIsCanonical<P>(params: map<string, Raw>, period: Option<P>, rules: Rules)
    requires FromParams(params, period, rules).Ok?
    ensures AllCanonical(FromParams(params, period, rules).value, rules)
  {
    var f := FromParams(params, period, rules).value;
    forall key | key in f.values
      ensures key in rules.list.keys && f.values[key] != [] && Canonical(key, f.values[key], rules)
    {
      CleanIsCanonical(key, params[key], rules);
    }
  }

  /** The filters that come back: the same lists, sorted. */
  function SortedFilters<P>(f: AnalyticsFilters<P>): AnalyticsFilters<P> {
    AnalyticsFilters(None, map key | key in f.values :: Sorted(f.values[key]))
  }

  lemma SortedIsEmptyIff(xs: seq<string>)
    ensures Sorted(xs) == [] <==> xs == []
  {
  }

  lemma PayloadParams<P>(f: AnalyticsFilters<P>, rules: Rules)
    requires AllCanonical(f, rules) && f.period.None?
    ensures AsParams(ToPayload(f, rules.list)) == map key | key in f.values :: List(Sorted(f.values[key]))
  {
  }

  lemma ReadBack<P>(f: AnalyticsFilters<P>, rules: Rules)
    requires AllCanonical(f, rules) && f.period.None?
    ensures FromParams<P>(AsParams(ToPayload(f, rules.list)), None, rules) == Ok(SortedFilters(f))
  {
    PayloadParams(f, rules);
    var params := AsParams(ToPayload(f, rules.list));
    forall key | key in params
      ensures Clean(key, params[key], rules) == Ok(Sorted(f.values[key])) && Sorted(f.values[key]) != []
    {
      CleanOfSorted(key, f.values[key], rules);
      SortedIsEmptyIff(f.values[key]);
    }
    FromCleanParams<P>(params, None, SortedFilters(f).values, rules);
  }

  lemma FromCleanParams<P>(params: map<string, Raw>, period: Option<P>, values: map<string, seq<string>>, rules: Rules)
    requires KnownKeys(params, rules.list) && params.Keys == values.Keys
    requires forall key :: key in params ==> Clean(key, params[key], rules) == Ok(values[key]) && values[key] != []
    ensures FromParams(params, period, rules) == Ok(AnalyticsFilters(period, values))
  {
    assert CleanValues(params, rules) == values;
  }

  lemma PayloadOfSorted<P>(f: AnalyticsFilters<P>, rules: Rules)
    requires AllCanonical(f, rules) && f.period.None?
    ensures ToPayload(SortedFilters(f), rules.list) == ToPayload(f, rules.list)
  {
    var p, q := ToPayload(SortedFilters(f), rules.list), ToPayload(f, rules.list);
    forall key: string ensures (key in p <==> key in q) && (key in p ==> p[key] == q[key]) {
      if key in f.values {
        SortedTwice(f.values[key]);
        SortedIsEmptyIff(f.values[key]);
      }
    }
  }

  /**
    Every accepted parameter map has a payload that is accepted again and yields itself,
    so stored reports and cache keys do not depend on how often they were read back.
  */
  lemma CanonicalRoundTrip<P>(params: map<string, Raw>, period: Option<P>, rules: Rules)
    requires FromParams(params, period, rules).Ok?
    ensures var payload := ToPayload(WithoutPeriod(FromParams(params, period, rules).value), rules.list);
      var again := FromParams<P>(AsParams(payload), None, rules);
      again.Ok? && ToPayload(again.value, rules.list) == payload
  {
    AcceptedIsCanonical(params, period, rules);
    var f := WithoutPeriod(FromParams(params, period, rules).value);
    ReadBack(f, rules);
    PayloadOfSorted(f, rules);
  }

  /** With its period the payload is refused: `period` is not an allowed key. */
  lemma PayloadReadsBackIff<P>(params: map<string, Raw>, period: Option<P>, again: Option<P>, rules: Rules)
    requires Proper(rules.list) && FromParams(params, period, rules).Ok?
    ensures var payload := ToPayload(FromParams(params, period, rules).value, rules.list);
      FromParams(AsParams(payload), again, rules).Ok? <==> period.None?
  {
    var f := FromParams(params, period, rules).value;
    AcceptedIsCanonical(params, period, rules);
    if period.None? {
      ReadBack(f, rules);
    } else {
      assert PERIOD in AsParams(ToPayload(f, rules.list));
    }
  }
}
