/** Masking of secret values before anything is logged (backend/app/core/logging.py). */
module Redaction {

  /**
    A structured log value.  A dict is the sequence of its entries in insertion order, and
    everything that is neither a dict, a list nor a tuple is a leaf.
  */
  datatype Value = Leaf(text: string) | List(items: seq<Value>) | Tuple(items: seq<Value>) | Dict(entries: seq<Entry>)
  datatype Entry = Entry(key: string, value: Value)

  const MASK := Leaf("***REDACTED***")

  /** `str(k).lower() in SECRET_KEYS`, for any way to lower a text and any key list. */
  datatype Secrets = Secrets(lower: string -> string, keys: set<string>)

  predicate IsSecret(key: string, s: Secrets) {
    s.lower(key) in s.keys
  }

  function Redact(v: Value, s: Secrets): Value
    decreases v, 0
  {
    match v
    case Leaf(_) => v
    case List(items) => List(RedactAll(items, s))
    case Tuple(items) => List(RedactAll(items, s))
    case Dict(entries) => Dict(RedactEntries(entries, s))
  }

  function RedactAll(vs: seq<Value>, s: Secrets): seq<Value>
    decreases vs, 1
  {
    if vs == [] then [] else [Redact(vs[0], s)] + RedactAll(vs[1..], s)
  }

  function RedactEntries(es: seq<Entry>, s: Secrets): seq<Entry>
    decreases es, 1
  {
    if es == [] then []
    else
      [Entry(es[0].key, if IsSecret(es[0].key, s) then MASK else Redact(es[0].value, s))] + RedactEntries(es[1..], s)
  }

  /** Entry by entry: the key stays, and the value is masked exactly if the lowered key is listed. */
  lemma {:induction false} EntryIsMaskedIff(es: seq<Entry>, s: Secrets, i: nat)
    requires i < |es|
    ensures |RedactEntries(es, s)| == |es|
    ensures RedactEntries(es, s)[i] == Entry(es[i].key,
      if s.lower(es[i].key) in s.keys then Leaf("***REDACTED***") else Redact(es[i].value, s))
    decreases |es|
  {
    if |es| > 1 {
      EntryIsMaskedIff(es[1..], s, if i > 0 then i - 1 else 0);
    }
  }

  /** Keys that are lowered to the same text are masked alike. */
  lemma CaseDoesNotMatter(a: string, b: string, v: Value, s: Secrets)
    requires s.lower(a) == s.lower(b)
    ensures exists w :: Redact(Dict([Entry(a, v)]), s) == Dict([Entry(a, w)])
                     && Redact(Dict([Entry(b, v)]), s) == Dict([Entry(b, w)])
  {
    EntryIsMaskedIff([Entry(a, v)], s, 0);
    EntryIsMaskedIff([Entry(b, v)], s, 0);
    var w := if s.lower(a) in s.keys then MASK else Redact(v, s);
    assert RedactEntries([Entry(a, v)], s) == [Entry(a, w)] && RedactEntries([Entry(b, v)], s) == [Entry(b, w)];
  }

  /** A value without tuples and secrets, at any depth, is logged as it is. */
  predicate Harmless(v: Value, s: Secrets)
    decreases v, 0
  {
    match v
    case Leaf(_) => true
    case List(items) => forall i :: 0 <= i < |items| ==> Harmless(items[i], s)
    case Tuple(_) => false
    case Dict(entries) =>
      forall i :: 0 <= i < |entries| ==> s.lower(entries[i].key) !in s.keys && Harmless(entries[i].value, s)
  }

  lemma {:induction false} HarmlessStays(v: Value, s: Secrets)
    requires Harmless(v, s)
    ensures Redact(v, s) == v
    decreases v, 0
  {
    match v {
      case Leaf(_) =>
      case List(items) => HarmlessItemsStay(items, s);
      case Dict(entries) => HarmlessEntriesStay(entries, s);
    }
  }

  lemma {:induction false} HarmlessItemsStay(vs: seq<Value>, s: Secrets)
    requires forall i :: 0 <= i < |vs| ==> Harmless(vs[i], s)
    ensures RedactAll(vs, s) == vs
    decreases vs, 1
  {
    if vs != [] {
      HarmlessStays(vs[0], s);
      assert forall i :: 0 <= i < |vs[1..]| ==> vs[1..][i] == vs[i + 1];
      HarmlessItemsStay(vs[1..], s);
    }
  }

  lemma {:induction false} HarmlessEntriesStay(es: seq<Entry>, s: Secrets)
    requires forall i :: 0 <= i < |es| ==> s.lower(es[i].key) !in s.keys && Harmless(es[i].value, s)
    ensures RedactEntries(es, s) == es
    decreases es, 1
  {
    if es != [] {
      HarmlessStays(es[0].value, s);
      assert forall i :: 0 <= i < |es[1..]| ==> es[1..][i] == es[i + 1];
      HarmlessEntriesStay(es[1..], s);
    }
  }

  // ------------------------------------------------------------ what a log can tell

  /** Two values that differ at most beneath secret keys and in list against tuple. */
  predicate Same(a: Value, b: Value, s: Secrets)
    decreases a, 0
  {
    match a
    case Leaf(_) => a == b
    case List(items) => (b.List? || b.Tuple?) && SameAll(items, b.items, s)
    case Tuple(items) => (b.List? || b.Tuple?) && SameAll(items, b.items, s)
    case Dict(entries) => b.Dict? && SameEntries(entries, b.entries, s)
  }

  predicate SameAll(xs: seq<Value>, ys: seq<Value>, s: Secrets)
    decreases xs, 1
  {
    |xs| == |ys| && (xs == [] || (Same(xs[0], ys[0], s) && SameAll(xs[1..], ys[1..], s)))
  }

  predicate SameEntries(xs: seq<Entry>, ys: seq<Entry>, s: Secrets)
    decreases xs, 1
  {
    |xs| == |ys| && (xs == [] ||
      (xs[0].key == ys[0].key && (IsSecret(xs[0].key, s) || Same(xs[0].value, ys[0].value, s))
       && SameEntries(xs[1..], ys[1..], s)))
  }

  /**
    Redaction hides what is beneath secret keys, at any depth, and nothing else: two values
    redact to equal values exactly when they are the same but for secrets.
  */
  lemma {:induction false} RedactHidesExactlySecrets(a: Value, b: Value, s: Secrets)
    ensures Redact(a, s) == Redact(b, s) <==> Same(a, b, s)
    decreases a, 0
  {
    match a {
      case Leaf(_) =>
      case List(items) =>
        if b.List? || b.Tuple? {
          RedactAllHidesExactlySecrets(items, b.items, s);
        }
      case Tuple(items) =>
        if b.List? || b.Tuple? {
          RedactAllHidesExactlySecrets(items, b.items, s);
        }
      case Dict(entries) =>
        if b.Dict? {
          RedactEntriesHidesExactlySecrets(entries, b.entries, s);
        }
    }
  }

  lemma {:induction false} RedactAllHidesExactlySecrets(xs: seq<Value>, ys: seq<Value>, s: Secrets)
    ensures RedactAll(xs, s) == RedactAll(ys, s) <==> SameAll(xs, ys, s)
    decreases xs, 1
  {
    if xs != [] && ys != [] {
      RedactHidesExactlySecrets(xs[0], ys[0], s);
      RedactAllHidesExactlySecrets(xs[1..], ys[1..], s);
      ConsEqual(Redact(xs[0], s), RedactAll(xs[1..], s), Redact(ys[0], s), RedactAll(ys[1..], s));
    }
  }

  lemma {:induction false} RedactEntriesHidesExactlySecrets(xs: seq<Entry>, ys: seq<Entry>, s: Secrets)
    ensures RedactEntries(xs, s) == RedactEntries(ys, s) <==> SameEntries(xs, ys, s)
    decreases xs, 1
  {
    if xs != [] && ys != [] {
      RedactHidesExactlySecrets(xs[0].value, ys[0].value, s);
      RedactEntriesHidesExactlySecrets(xs[1..], ys[1..], s);
      var x, y := RedactEntries(xs, s)[0], RedactEntries(ys, s)[0];
      ConsEqual(x, RedactEntries(xs[1..], s), y, RedactEntries(ys[1..], s));
    }
  }

  lemma ConsEqual<T>(x: T, xs: seq<T>, y: T, ys: seq<T>)
    ensures [x] + xs == [y] + ys <==> x == y && xs == ys
  {
    if [x] + xs == [y] + ys {
      assert ([x] + xs)[0] == ([y] + ys)[0];
      assert ([x] + xs)[1..] == ([y] + ys)[1..];
      assert ([x] + xs)[1..] == xs && ([y] + ys)[1..] == ys;
    }
  }

  /** Redacting what is redacted already changes nothing. */
  lemma {:induction false} RedactTwice(v: Value, s: Secrets)
    ensures Redact(Redact(v, s), s) == Redact(v, s)
    decreases v, 0
  {
    match v {
      case Leaf(_) =>
      case List(items) => RedactAllTwice(items, s);
      case Tuple(items) => RedactAllTwice(items, s);
      case Dict(entries) => RedactEntriesTwice(entries, s);
    }
  }

  lemma {:induction false} RedactAllTwice(vs: seq<Value>, s: Secrets)
    ensures RedactAll(RedactAll(vs, s), s) == RedactAll(vs, s)
    decreases vs, 1
  {
    if vs != [] {
      RedactTwice(vs[0], s);
      RedactAllTwice(vs[1..], s);
      assert RedactAll(vs, s)[1..] == RedactAll(vs[1..], s);
    }
  }

  lemma {:induction false} RedactEntriesTwice(es: seq<Entry>, s: Secrets)
    ensures RedactEntries(RedactEntries(es, s), s) == RedactEntries(es, s)
    decreases es, 1
  {
    if es != [] {
      RedactTwice(es[0].value, s);
      RedactEntriesTwice(es[1..], s);
      assert RedactEntries(es, s)[1..] == RedactEntries(es[1..], s);
    }
  }

  /** No value survives beneath a secret key, however deep. */
  predicate Clean(v: Value, s: Secrets)
    decreases v, 0
  {
    match v
    case Leaf(_) => true
    case List(items) => CleanAll(items, s)
    case Tuple(items) => CleanAll(items, s)
    case Dict(entries) => CleanEntries(entries, s)
  }

  predicate CleanAll(vs: seq<Value>, s: Secrets)
    decreases vs, 1
  {
    vs == [] || (Clean(vs[0], s) && CleanAll(vs[1..], s))
  }

  predicate CleanEntries(es: seq<Entry>, s: Secrets)
    decreases es, 1
  {
    es == []
    || ((if IsSecret(es[0].key, s) then es[0].value == MASK else Clean(es[0].value, s)) && CleanEntries(es[1..], s))
  }

  lemma {:induction false} RedactedIsClean(v: Value, s: Secrets)
    ensures Clean(Redact(v, s), s)
    decreases v, 0
  {
    match v {
      case Leaf(_) =>
      case List(items) => RedactedAllAreClean(items, s);
      case Tuple(items) => RedactedAllAreClean(items, s);
      case Dict(entries) => RedactedEntriesAreClean(entries, s);
    }
  }

  lemma {:induction false} RedactedAllAreClean(vs: seq<Value>, s: Secrets)
    ensures CleanAll(RedactAll(vs, s), s)
    decreases vs, 1
  {
    if vs != [] {
      RedactedIsClean(vs[0], s);
      RedactedAllAreClean(vs[1..], s);
      assert RedactAll(vs, s)[1..] == RedactAll(vs[1..], s);
    }
  }

  lemma {:induction false} RedactedEntriesAreClean(es: seq<Entry>, s: Secrets)
    ensures CleanEntries(RedactEntries(es, s), s)
    decreases es, 1
  {
    if es != [] {
      RedactedIsClean(es[0].value, s);
      RedactedEntriesAreClean(es[1..], s);
      assert RedactEntries(es, s)[1..] == RedactEntries(es[1..], s);
    }
  }
}
