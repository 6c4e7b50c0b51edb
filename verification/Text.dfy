/** The string operations of Python that several components rely on. */
module Text {

  /** `s.split(sep)` */
  function Split(s: string, sep: char): (components: seq<string>)
    ensures |components| >= 1
  {
    if s == "" then [""]
    else
      var rest := Split(s[1..], sep);
      if s[0] == sep then [""] + rest else [[s[0]] + rest[0]] + rest[1..]
  }

  /** `sep.join(xs)` */
  function Join(xs: seq<string>, sep: char): string {
    if xs == [] then "" else if |xs| == 1 then xs[0] else xs[0] + [sep] + Join(xs[1..], sep)
  }

  lemma {:induction false} SplitOfLead(a: string, b: string, sep: char)
    requires sep !in a
    ensures Split(a + [sep] + b, sep) == [a] + Split(b, sep)
    decreases |a|
  {
    if a == "" {
      assert ("" + [sep] + b)[1..] == b;
    } else {
      assert (a + [sep] + b)[1..] == a[1..] + [sep] + b;
      SplitOfLead(a[1..], b, sep);
      assert [a[0]] + a[1..] == a;
    }
  }

  lemma {:induction false} SplitOfWhole(a: string, sep: char)
    requires sep !in a
    ensures Split(a, sep) == [a]
    decreases |a|
  {
    if a != "" {
      SplitOfWhole(a[1..], sep);
      assert [a[0]] + a[1..] == a;
    }
  }

  /** Splitting takes apart what joining put together, down to the empty text. */
  lemma {:induction false} SplitOfJoined(xs: seq<string>, sep: char)
    requires xs != [] && forall x :: x in xs ==> sep !in x
    ensures Split(Join(xs, sep), sep) == xs
    decreases |xs|
  {
    assert xs == [xs[0]] + xs[1..];
    if |xs| == 1 {
      SplitOfWhole(xs[0], sep);
    } else {
      SplitOfLead(xs[0], Join(xs[1..], sep), sep);
      SplitOfJoined(xs[1..], sep);
    }
  }

  /** The characters that `str.strip()` removes. */
  predicate IsSpace(c: char) {
    || c in {' ', '\U{85}', '\U{A0}', '\U{1680}', '\U{2028}', '\U{2029}', '\U{202F}', '\U{205F}', '\U{3000}'}
    || '\U{9}' <= c <= '\U{D}' || '\U{1C}' <= c <= '\U{1F}' || '\U{2000}' <= c <= '\U{200A}'
  }

  function LeftStrip(s: string, drop: char -> bool): string {
    if s != "" && drop(s[0]) then LeftStrip(s[1..], drop) else s
  }

  function RightStrip(s: string, drop: char -> bool): string {
    if s != "" && drop(s[|s| - 1]) then RightStrip(s[..|s| - 1], drop) else s
  }

  function Strip(s: string, drop: char -> bool): string {
    RightStrip(LeftStrip(s, drop), drop)
  }

  lemma {:induction false} RightStripSelects(s: string, drop: char -> bool)
    ensures RightStrip(s, drop) <= s
    ensures RightStrip(s, drop) != "" ==> !drop(RightStrip(s, drop)[|RightStrip(s, drop)| - 1])
    decreases |s|
  {
    if s != "" && drop(s[|s| - 1]) {
      RightStripSelects(s[..|s| - 1], drop);
    }
  }

  lemma {:induction false} LeftStripSelects(s: string, drop: char -> bool)
    ensures forall c :: c in LeftStrip(s, drop) ==> c in s
    decreases |s|
  {
    if s != "" && drop(s[0]) {
      LeftStripSelects(s[1..], drop);
    }
  }

  /** A stripped text starts and ends with characters that stay, so stripping again changes nothing. */
  lemma StripTwice(s: string, drop: char -> bool)
    ensures Strip(Strip(s, drop), drop) == Strip(s, drop)
  {
    var left := LeftStrip(s, drop);
    LeftStripStarts(s, drop);
    RightStripSelects(left, drop);
  }

  lemma {:induction false} LeftStripStarts(s: string, drop: char -> bool)
    ensures LeftStrip(s, drop) != "" ==> !drop(LeftStrip(s, drop)[0])
    decreases |s|
  {
    if s != "" && drop(s[0]) {
      LeftStripStarts(s[1..], drop);
    }
  }

  lemma {:induction false} RightStripEndsAt(a: string, b: string, drop: char -> bool)
    requires a == "" || !drop(a[|a| - 1])
    requires forall c :: c in b ==> drop(c)
    ensures RightStrip(a + b, drop) == a
    decreases |b|
  {
    if b == "" {
      assert a + b == a;
    } else {
      assert b[|b| - 1] in b && (a + b)[..|a + b| - 1] == a + b[..|b| - 1];
      RightStripEndsAt(a, b[..|b| - 1], drop);
    }
  }

  lemma {:induction false} RightStripRest(s: string, drop: char -> bool) returns (rest: string)
    ensures s == RightStrip(s, drop) + rest && forall c :: c in rest ==> drop(c)
    decreases |s|
  {
    rest := "";
    if s != "" && drop(s[|s| - 1]) {
      rest := RightStripRest(s[..|s| - 1], drop);
      rest := rest + [s[|s| - 1]];
    }
  }

  lemma {:induction false} LeftStripOfPadded(a: string, b: string, drop: char -> bool)
    requires (forall c :: c in a ==> drop(c)) && (b == "" || !drop(b[0]))
    ensures LeftStrip(a + b, drop) == b
    decreases |a|
  {
    if a == "" {
      assert a + b == b;
    } else {
      assert (a + b)[1..] == a[1..] + b;
      LeftStripOfPadded(a[1..], b, drop);
    }
  }

  /** What is stripped are exactly the droppable ends. */
  lemma StripOfPadded(a: string, s: string, b: string, drop: char -> bool)
    requires forall c :: c in a || c in b ==> drop(c)
    requires s != "" && !drop(s[0]) && !drop(s[|s| - 1])
    ensures Strip(a + s + b, drop) == s
  {
    assert a + s + b == a + (s + b) && (s + b)[0] == s[0];
    LeftStripOfPadded(a, s + b, drop);
    RightStripEndsAt(s, b, drop);
  }

  // ------------------------------------------------------------ the order of strings

  /** `a <= b`, by code points from the front. */
  predicate Leq(a: string, b: string) {
    a == "" || (b != "" && (a[0] < b[0] || (a[0] == b[0] && Leq(a[1..], b[1..]))))
  }

  /** At the first difference the smaller character decides; without one the shorter text comes first. */
  lemma {:induction false} LeqIff(a: string, b: string)
    ensures Leq(a, b) <==> a <= b || exists k ::
      0 <= k < |a| && k < |b| && a[..k] == b[..k] && a[k] < b[k]
    decreases |a|
  {
    if a != "" && b != "" {
      var x, y := a[1..], b[1..];
      if a[0] == b[0] {
        LeqIff(x, y);
        if k :| 0 <= k < |x| && k < |y| && x[..k] == y[..k] && x[k] < y[k] {
          assert a[..k + 1] == [a[0]] + x[..k] && b[..k + 1] == [b[0]] + y[..k];
          assert a[k + 1] < b[k + 1];
        }
        if k :| 0 <= k < |a| && k < |b| && a[..k] == b[..k] && a[k] < b[k] {
          assert x[..k - 1] == a[..k][1..] && y[..k - 1] == b[..k][1..];
          assert x[k - 1] < y[k - 1];
        }
      } else if a[0] < b[0] {
        assert a[..0] == b[..0];
      } else if k :| 0 <= k < |a| && k < |b| && a[..k] == b[..k] && a[k] < b[k] {
        assert k > 0 ==> a[..k][0] == b[..k][0];
      }
    }
  }

  lemma {:induction false} LeqIsTotal(a: string, b: string)
    ensures Leq(a, b) || Leq(b, a)
    decreases |a|
  {
    if a != "" && b != "" && a[0] == b[0] {
      LeqIsTotal(a[1..], b[1..]);
    }
  }

  function InsertSorted(x: string, xs: seq<string>): seq<string> {
    if xs == [] || Leq(x, xs[0]) then [x] + xs else [xs[0]] + InsertSorted(x, xs[1..])
  }

  /** `sorted(xs)` */
  function Sorted(xs: seq<string>): seq<string> {
    if xs == [] then [] else InsertSorted(xs[0], Sorted(xs[1..]))
  }

  ghost predicate Ascending(xs: seq<string>) {
    forall i :: 0 < i < |xs| ==> Leq(xs[i - 1], xs[i])
  }

  lemma {:induction false} InsertPermutes(x: string, xs: seq<string>)
    ensures multiset(InsertSorted(x, xs)) == multiset{x} + multiset(xs)
    decreases |xs|
  {
    if xs != [] && !Leq(x, xs[0]) {
      InsertPermutes(x, xs[1..]);
      assert xs == [xs[0]] + xs[1..];
    }
  }

  lemma {:induction false} SortedPermutes(xs: seq<string>)
    ensures multiset(Sorted(xs)) == multiset(xs)
    decreases |xs|
  {
    if xs != [] {
      SortedPermutes(xs[1..]);
      InsertPermutes(xs[0], Sorted(xs[1..]));
      assert xs == [xs[0]] + xs[1..];
    }
  }

  lemma {:induction false} InsertAscends(x: string, xs: seq<string>)
    requires Ascending(xs)
    ensures Ascending(InsertSorted(x, xs))
    decreases |xs|
  {
    if xs != [] && !Leq(x, xs[0]) {
      InsertAscends(x, xs[1..]);
      LeqIsTotal(x, xs[0]);
    }
  }

  lemma {:induction false} SortedAscends(xs: seq<string>)
    ensures Ascending(Sorted(xs))
    decreases |xs|
  {
    if xs != [] {
      SortedAscends(xs[1..]);
      InsertAscends(xs[0], Sorted(xs[1..]));
    }
  }

  lemma {:induction false} AscendingIsSorted(xs: seq<string>)
    requires Ascending(xs)
    ensures Sorted(xs) == xs
    decreases |xs|
  {
    if xs != [] {
      AscendingIsSorted(xs[1..]);
      assert xs == [xs[0]] + xs[1..];
    }
  }

  lemma SortedTwice(xs: seq<string>)
    ensures Sorted(Sorted(xs)) == Sorted(xs)
  {
    SortedAscends(xs);
    AscendingIsSorted(Sorted(xs));
  }
}
