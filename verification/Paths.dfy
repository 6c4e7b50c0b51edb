/**
  Storage keys and safe file names (backend/app/core/path_safety.py) and the keys that
  `LocalStorage.generate_key` builds from them (backend/app/services/storage.py), with the
  path parsing of Python 3.12 on POSIX.
*/
module Paths {
  import opened Text
  import opened Wrappers

  /** Why a key is denied. */
  datatype Reason = EmptyKey | InvalidKey | AbsolutePath | BadSeparator | Traversal

  // --------------------------------------------------------------------- strings

  /** `".." in s` */
  predicate HasDotDot(s: string) {
    |s| >= 2 && ((s[0] == '.' && s[1] == '.') || HasDotDot(s[1..]))
  }

  predicate IsLetter(c: char) {
    'A' <= c <= 'Z' || 'a' <= c <= 'z'
  }

  predicate IsDigit(c: char) {
    '0' <= c <= '9'
  }

  // ------------------------------------------------------------------ pure paths

  /** `PurePosixPath(key).parts` of a relative key: empty and `.` components vanish. */
  function Parts(components: seq<string>): seq<string> {
    if components == [] then []
    else (if components[0] == "" || components[0] == "." then [] else [components[0]]) + Parts(components[1..])
  }

  function PartsOf(key: string): seq<string> {
    Parts(Split(key, '/'))
  }

  /** Resolution of a path without symbolic links: `..` takes back the last component. */
  function Normalise(parts: seq<string>): seq<string> {
    if parts == [] then []
    else
      var before, last := Normalise(parts[..|parts| - 1]), parts[|parts| - 1];
      if last == "." || last == "" then before
      else if last == ".." then (if before == [] then [] else before[..|before| - 1])
      else before + [last]
  }

  predicate Forbidden(segment: string) {
    segment == ".." || segment == "." || HasDotDot(segment)
  }

  predicate DriveLike(key: string) {
    |key| >= 2 && IsLetter(key[0]) && key[1] == ':'
  }

  /** `validate_storage_key` with any way to resolve a path; `root` is resolved already. */
  function Validate(key: string, root: seq<string>, resolve: seq<string> -> seq<string>): Result<seq<string>, Reason> {
    if key == "" then Err(EmptyKey)
    else if '\0' in key then Err(InvalidKey)
    else if key[0] == '/' || key[0] == '\\' || DriveLike(key) then Err(AbsolutePath)
    else if '\\' in key then Err(BadSeparator)
    else if exists segment :: segment in PartsOf(key) && Forbidden(segment) then Err(Traversal)
    else
      var candidate := resolve(root + PartsOf(key));
      if root <= candidate then Ok(candidate) else Err(Traversal)
  }

  // ----------------------------------------------------------------- containment

  /** A remark on links: whatever `resolve` does, the last test of the function keeps the key under the root. */
  lemma AcceptedKeyIsContained(key: string, root: seq<string>, resolve: seq<string> -> seq<string>)
    requires Validate(key, root, resolve).Ok?
    ensures root <= Validate(key, root, resolve).value
  {
  }

  ghost predicate Plain(parts: seq<string>) {
    forall part :: part in parts ==> part != "" && part != "." && part != ".."
  }

  lemma {:induction false} PlainIsNormal(parts: seq<string>)
    requires Plain(parts)
    ensures Normalise(parts) == parts
    decreases |parts|
  {
    if parts != [] {
      var before, last := parts[..|parts| - 1], parts[|parts| - 1];
      assert last in parts && parts == before + [last];
      assert forall part :: part in before ==> part in parts;
      PlainIsNormal(before);
    }
  }

  lemma {:induction false} PartsAreProper(components: seq<string>)
    ensures "" !in Parts(components) && "." !in Parts(components)
    decreases |components|
  {
    if components != [] {
      PartsAreProper(components[1..]);
    }
  }

  ghost predicate SomeDotDot(components: seq<string>) {
    exists part :: part in components && HasDotDot(part)
  }

  lemma {:induction false} PartsKeepDotDot(components: seq<string>)
    ensures SomeDotDot(Parts(components)) <==> SomeDotDot(components)
    decreases |components|
  {
    if components != [] {
      var first, rest := components[0], components[1..];
      PartsKeepDotDot(rest);
      assert components == [first] + rest;
      assert SomeDotDot(components) <==> HasDotDot(first) || SomeDotDot(rest);
      var kept := if first == "" || first == "." then [] else [first];
      assert SomeDotDot(kept + Parts(rest)) <==> SomeDotDot(kept) || SomeDotDot(Parts(rest));
      assert SomeDotDot(kept) <==> HasDotDot(first) by {
        if HasDotDot(first) {
          assert first in kept;
        }
      }
    }
  }

  lemma {:induction false} SplitKeepsDotDot(s: string)
    ensures SomeDotDot(Split(s, '/')) <==> HasDotDot(s)
    decreases |s|
  {
    if s == "" {
      assert Split(s, '/') == [""];
    } else {
      var rest := Split(s[1..], '/');
      SplitKeepsDotDot(s[1..]);
      assert rest == [rest[0]] + rest[1..];
      assert SomeDotDot(rest) <==> HasDotDot(rest[0]) || SomeDotDot(rest[1..]);
      if s[0] == '/' {
        assert SomeDotDot([""] + rest) <==> SomeDotDot(rest);
      } else {
        var first := [s[0]] + rest[0];
        assert first[1..] == rest[0];
        assert SomeDotDot([first] + rest[1..]) <==> HasDotDot(first) || SomeDotDot(rest[1..]);
        assert |s| >= 2 && s[1] == '.' <==> |rest[0]| >= 1 && rest[0][0] == '.';
      }
    }
  }

  /** The segment loop rejects exactly the keys with two dots in a row; its `.` case never fires. */
  lemma SegmentsForbiddenIff(key: string)
    ensures (exists segment :: segment in PartsOf(key) && Forbidden(segment)) <==> HasDotDot(key)
    ensures "." !in PartsOf(key)
  {
    PartsAreProper(Split(key, '/'));
    PartsKeepDotDot(Split(key, '/'));
    SplitKeepsDotDot(key);
    forall segment | segment in PartsOf(key) ensures Forbidden(segment) <==> HasDotDot(segment) {
      assert HasDotDot("..");
    }
  }

  /** The keys that are accepted, told by their characters. */
  predicate GoodKey(key: string) {
    && key != "" && '\0' !in key && '\\' !in key
    && key[0] != '/' && !DriveLike(key) && !HasDotDot(key)
  }

  lemma {:induction false} HasDotDotIff(s: string)
    ensures HasDotDot(s) <==> exists i :: 0 <= i < |s| - 1 && s[i] == '.' && s[i + 1] == '.'
    decreases |s|
  {
    if |s| >= 2 {
      HasDotDotIff(s[1..]);
      if i :| 0 <= i < |s| - 1 && s[i] == '.' && s[i + 1] == '.' {
        assert i > 0 ==> s[1..][i - 1] == '.' && s[1..][i] == '.';
      }
      if i :| 0 <= i < |s[1..]| - 1 && s[1..][i] == '.' && s[1..][i + 1] == '.' {
        assert s[i + 1] == '.' && s[i + 1 + 1] == '.';
      }
    }
  }

  /** What a key is refused for: no name, a NUL, a backslash, a root, a drive letter, two dots in a row. */
  lemma KeyIsRefusedIff(key: string, root: seq<string>)
    requires Plain(root)
    ensures Validate(key, root, Normalise).Err? <==>
      || key == "" || '\0' in key || '\\' in key || key[0] == '/'
      || (|key| >= 2 && ('A' <= key[0] <= 'Z' || 'a' <= key[0] <= 'z') && key[1] == ':')
      || exists i :: 0 <= i < |key| - 1 && key[i] == '.' && key[i + 1] == '.'
  {
    ValidateIff(key, root);
    HasDotDotIff(key);
  }

  /** A key made of components names those of them that are neither empty nor a single dot. */
  lemma {:induction false} PartsOfMore(components: seq<string>, last: string)
    requires forall c :: c in components + [last] ==> '/' !in c
    ensures PartsOf(Join(components + [last], '/'))
         == Parts(components) + if last == "" || last == "." then [] else [last]
    decreases |components|
  {
    SplitOfJoined(components + [last], '/');
    PartsSnoc(components, last);
  }

  lemma {:induction false} PartsSnoc(components: seq<string>, last: string)
    ensures Parts(components + [last]) == Parts(components) + if last == "" || last == "." then [] else [last]
    decreases |components|
  {
    if components == [] {
      assert components + [last] == [last] && [last][1..] == [];
    } else {
      assert (components + [last])[1..] == components[1..] + [last];
      PartsSnoc(components[1..], last);
    }
  }

  /**
    Without symbolic links the segment checks alone decide: a good key resolves to its own
    components under the root, so the final containment test never fires.
  */
  lemma ValidateIff(key: string, root: seq<string>)
    requires Plain(root)
    ensures GoodKey(key) ==> Validate(key, root, Normalise) == Ok(root + PartsOf(key))
    ensures !GoodKey(key) ==> Validate(key, root, Normalise).Err?
  {
    if GoodKey(key) {
      SegmentsForbiddenIff(key);
      PartsAreProper(Split(key, '/'));
      assert Plain(PartsOf(key)) by {
        assert HasDotDot("..");
        assert Forbidden("..");
      }
      PlainIsNormal(root + PartsOf(key));
    } else {
      SegmentsForbiddenIff(key);
    }
  }

  /** The keys that name the root itself: the good ones of empty and one-dot components, such as `.` and `./.`. */
  lemma KeyIsTheRootIff(key: string, root: seq<string>)
    requires Plain(root)
    ensures Validate(key, root, Normalise) == Ok(root) <==> GoodKey(key) && PartsOf(key) == []
  {
    ValidateIff(key, root);
    assert root + [] == root;
  }

  lemma DotKeyIsTheRoot(root: seq<string>)
    requires Plain(root)
    ensures Validate(".", root, Normalise) == Ok(root)
  {
    assert Split(".", '/') == ["."];
    assert PartsOf(".") == [];
    KeyIsTheRootIff(".", root);
  }

  // ------------------------------------------------------------------ safe names

  function OrElse(s: string, other: string): string {
    if s == "" then other else s
  }

  /** `Path(name).name` */
  function FinalName(name: string): string {
    var parts := PartsOf(name);
    if parts == [] then "" else parts[|parts| - 1]
  }

  /** `s.rfind(".")` */
  function LastDot(s: string): (i: int)
    ensures -1 <= i < |s|
    ensures i >= 0 ==> s[i] == '.'
    ensures forall j :: i < j < |s| ==> s[j] != '.'
  {
    if s == "" then -1 else if s[|s| - 1] == '.' then |s| - 1 else LastDot(s[..|s| - 1])
  }

  function Stem(name: string): string {
    if 0 < LastDot(name) < |name| - 1 then name[..LastDot(name)] else name
  }

  function Suffix(name: string): string {
    if 0 < LastDot(name) < |name| - 1 then name[LastDot(name)..] else ""
  }

  predicate NameChar(c: char) {
    IsLetter(c) || IsDigit(c) || c in {'.', '_', '-'}
  }

  function DropBad(s: string): (rest: string)
    ensures |rest| <= |s|
  {
    if s != "" && !NameChar(s[0]) then DropBad(s[1..]) else s
  }

  /** Every run of other characters becomes one underscore. */
  function Sanitise(s: string): string
    decreases |s|
  {
    if s == "" then ""
    else if NameChar(s[0]) then [s[0]] + Sanitise(s[1..])
    else "_" + Sanitise(DropBad(s[1..]))
  }

  function Truncate(s: string, n: nat): string {
    if |s| <= n then s else s[..n]
  }

  /** The characters that `.strip("._")` removes. */
  predicate DotOrUnderscore(c: char) {
    c in {'.', '_'}
  }

  /** The sanitised and cut stem, and the suffix that is cut but not sanitised. */
  function SafeStem(filename: string, maxLength: nat): string {
    var name := FinalName(Strip(OrElse(filename, "file"), IsSpace));
    Truncate(OrElse(Strip(Sanitise(Stem(name)), DotOrUnderscore), "file"), maxLength)
  }

  function SafeSuffix(filename: string): string {
    Truncate(Suffix(FinalName(Strip(OrElse(filename, "file"), IsSpace))), 16)
  }

  function SafeFilename(filename: string, maxLength: nat := 120): string {
    SafeStem(filename, maxLength) + SafeSuffix(filename)
  }

  /** The part of a generated key before the safe name. */
  function KeyPrefix(year: string, month: string, unique: string): string {
    year + "/" + month + "/" + unique + "_"
  }

  /** The date as YYYY/MM, the hexadecimal UUID and the safe name. */
  function GenerateKey(year: string, month: string, unique: string, filename: string): string {
    KeyPrefix(year, month, unique) + SafeFilename(filename)
  }

  ghost predicate Digits(s: string) {
    forall c :: c in s ==> IsDigit(c)
  }

  ghost predicate Hexadecimal(s: string) {
    forall c :: c in s ==> IsDigit(c) || 'a' <= c <= 'f'
  }

  // -------------------------------------------------------------- generated keys

  lemma {:induction false} SanitisedChars(s: string)
    ensures forall c :: c in Sanitise(s) ==> NameChar(c)
    decreases |s|
  {
    if s != "" {
      if NameChar(s[0]) {
        SanitisedChars(s[1..]);
      } else {
        SanitisedChars(DropBad(s[1..]));
      }
    }
  }

  /** The stem is safe by its characters; only a cut one can end with a dot. */
  lemma SafeStemChars(filename: string, maxLength: nat)
    requires maxLength >= 4
    ensures SafeStem(filename, maxLength) != ""
    ensures forall c :: c in SafeStem(filename, maxLength) ==> NameChar(c)
    ensures |SafeStem(filename, maxLength)| < maxLength ==>
      SafeStem(filename, maxLength)[|SafeStem(filename, maxLength)| - 1] != '.'
  {
    var clean := Sanitise(Stem(FinalName(Strip(OrElse(filename, "file"), IsSpace))));
    SanitisedChars(Stem(FinalName(Strip(OrElse(filename, "file"), IsSpace))));
    LeftStripSelects(clean, DotOrUnderscore);
    RightStripSelects(LeftStrip(clean, DotOrUnderscore), DotOrUnderscore);
  }

  /** The suffix is empty or a dot followed by characters other than dots. */
  lemma SafeSuffixShape(filename: string)
    ensures var x := SafeSuffix(filename);
      x == "" || (x[0] == '.' && forall i :: 1 <= i < |x| ==> x[i] != '.')
  {
  }

  lemma {:induction false} NoDotsNoDotDot(s: string)
    requires forall i :: 1 <= i < |s| ==> s[i] != '.'
    ensures !HasDotDot(s)
    decreases |s|
  {
    if |s| >= 2 {
      NoDotsNoDotDot(s[1..]);
    }
  }

  lemma {:induction false} DotDotOfJoin(a: string, x: string)
    requires a != ""
    ensures HasDotDot(a + x)
       <==> HasDotDot(a) || HasDotDot(x) || (x != "" && a[|a| - 1] == '.' && x[0] == '.')
    decreases |a|
  {
    if |a| == 1 {
      assert (a + x)[1..] == x;
    } else {
      assert (a + x)[1..] == a[1..] + x;
      DotDotOfJoin(a[1..], x);
    }
  }

  /** What the clean-up of a stem takes off its ends: all but letters, digits and hyphens. */
  predicate Outer(c: char) {
    !IsLetter(c) && !IsDigit(c) && c != '-'
  }

  /** The stem of the client's file name without such characters at its ends. */
  function Core(filename: string): string {
    Strip(Stem(FinalName(Strip(OrElse(filename, "file"), IsSpace))), Outer)
  }

  lemma {:induction false} DropBadKeepsDotDot(s: string)
    ensures HasDotDot(DropBad(s)) <==> HasDotDot(s)
    decreases |s|
  {
    if s != "" && !NameChar(s[0]) {
      DropBadKeepsDotDot(s[1..]);
    }
  }

  /** Sanitising neither brings two dots together nor takes them apart. */
  lemma {:induction false} SanitiseKeepsDotDot(s: string)
    ensures HasDotDot(Sanitise(s)) <==> HasDotDot(s)
    decreases |s|
  {
    if s != "" {
      if NameChar(s[0]) {
        SanitiseKeepsDotDot(s[1..]);
        assert Sanitise(s)[1..] == Sanitise(s[1..]);
      } else {
        SanitiseKeepsDotDot(DropBad(s[1..]));
        DropBadKeepsDotDot(s[1..]);
        assert Sanitise(s)[1..] == Sanitise(DropBad(s[1..]));
      }
    }
  }

  lemma {:induction false} DropBadThenStrip(s: string)
    ensures LeftStrip(DropBad(s), Outer) == LeftStrip(s, Outer)
    decreases |s|
  {
    if s != "" && !NameChar(s[0]) {
      DropBadThenStrip(s[1..]);
    }
  }

  lemma {:induction false} LeftStripOfSanitised(s: string)
    ensures LeftStrip(Sanitise(s), DotOrUnderscore) == Sanitise(LeftStrip(s, Outer))
    decreases |s|
  {
    if s != "" {
      if NameChar(s[0]) {
        assert Sanitise(s)[1..] == Sanitise(s[1..]);
        LeftStripOfSanitised(s[1..]);
      } else {
        assert Sanitise(s)[1..] == Sanitise(DropBad(s[1..]));
        LeftStripOfSanitised(DropBad(s[1..]));
        DropBadThenStrip(s[1..]);
      }
    }
  }

  lemma {:induction false} DropBadOfJoin(a: string, b: string)
    requires a != "" && NameChar(a[|a| - 1])
    ensures DropBad(a + b) == DropBad(a) + b && DropBad(a) != "" && DropBad(a)[|DropBad(a)| - 1] == a[|a| - 1]
    decreases |a|
  {
    if !NameChar(a[0]) {
      assert (a + b)[1..] == a[1..] + b;
      DropBadOfJoin(a[1..], b);
    }
  }

  lemma {:induction false} SanitiseOfJoin(a: string, b: string)
    requires a == "" || NameChar(a[|a| - 1])
    ensures Sanitise(a + b) == Sanitise(a) + Sanitise(b)
    decreases |a|
  {
    if a == "" {
      assert a + b == b;
    } else {
      var rest := a[1..];
      assert (a + b)[1..] == rest + b;
      if NameChar(a[0]) {
        SanitiseOfJoin(rest, b);
        assert Sanitise(a + b) == [a[0]] + (Sanitise(rest) + Sanitise(b));
      } else {
        DropBadOfJoin(rest, b);
        SanitiseOfJoin(DropBad(rest), b);
        assert Sanitise(a + b) == "_" + (Sanitise(DropBad(rest)) + Sanitise(b));
      }
    }
  }

  lemma {:induction false} SanitiseKeepsEnd(a: string)
    requires a != "" && NameChar(a[|a| - 1])
    ensures Sanitise(a) != "" && Sanitise(a)[|Sanitise(a)| - 1] == a[|a| - 1]
    decreases |a|
  {
    var rest := a[1..];
    if !NameChar(a[0]) {
      DropBadOfJoin(rest, "");
      SanitiseKeepsEnd(DropBad(rest));
    } else if rest != "" {
      SanitiseKeepsEnd(rest);
    }
  }

  lemma {:induction false} SanitiseOfOuter(s: string)
    requires forall c :: c in s ==> Outer(c)
    ensures forall c :: c in Sanitise(s) ==> DotOrUnderscore(c)
    decreases |s|
  {
    if s != "" {
      assert s[0] in s;
      if NameChar(s[0]) {
        SanitiseOfOuter(s[1..]);
      } else {
        DropBadSelects(s[1..]);
        SanitiseOfOuter(DropBad(s[1..]));
      }
    }
  }

  lemma {:induction false} DropBadSelects(s: string)
    ensures forall c :: c in DropBad(s) ==> c in s
    decreases |s|
  {
    if s != "" && !NameChar(s[0]) {
      DropBadSelects(s[1..]);
    }
  }

  /** Stripping after sanitising is sanitising after stripping more. */
  lemma StripOfSanitised(s: string)
    ensures Strip(Sanitise(s), DotOrUnderscore) == Sanitise(Strip(s, Outer))
  {
    LeftStripOfSanitised(s);
    var left := LeftStrip(s, Outer);
    var core := RightStrip(left, Outer);
    var rest := RightStripRest(left, Outer);
    RightStripSelects(left, Outer);
    SanitiseOfJoin(core, rest);
    if core != "" {
      SanitiseKeepsEnd(core);
    }
    SanitiseOfOuter(rest);
    RightStripEndsAt(Sanitise(core), Sanitise(rest), DotOrUnderscore);
  }

  /** The stem by the core of the name; an uncut one does not end with a dot. */
  lemma SafeStemOfCore(filename: string)
    ensures SafeStem(filename, 120) == Truncate(OrElse(Sanitise(Core(filename)), "file"), 120)
    ensures HasDotDot(Sanitise(Core(filename))) <==> HasDotDot(Core(filename))
    ensures var clean := Sanitise(Core(filename)); clean != "" ==> clean[|clean| - 1] != '.'
  {
    var stem := Stem(FinalName(Strip(OrElse(filename, "file"), IsSpace)));
    StripOfSanitised(stem);
    RightStripSelects(LeftStrip(Sanitise(stem), DotOrUnderscore), DotOrUnderscore);
    SanitiseKeepsDotDot(Core(filename));
  }

  /** What the cut stem has to do with two dots in a row, told by the core. */
  predicate KeepableStem(core: string, suffix: string) {
    var clean := Sanitise(core);
    if |clean| <= 120 then !HasDotDot(core)
    else !HasDotDot(clean[..120]) && (suffix == "" || clean[119] != '.')
  }

  /**
    Which file names give a key that validation accepts: no backslash or NUL in the first 16
    characters of the extension, no two dots in a row inside the name, and no dot where a
    long name is cut.
  */
  predicate KeepableName(filename: string) {
    && '\\' !in SafeSuffix(filename) && '\0' !in SafeSuffix(filename)
    && KeepableStem(Core(filename), SafeSuffix(filename))
  }

  lemma StemIsKeepable(filename: string)
    ensures var stem, suffix := SafeStem(filename, 120), SafeSuffix(filename);
      (!HasDotDot(stem) && (suffix == "" || stem[|stem| - 1] != '.')) <==> KeepableStem(Core(filename), suffix)
  {
    SafeStemOfCore(filename);
    var clean := Sanitise(Core(filename));
    if clean == "" {
      NoDotsNoDotDot("file");
    } else if |clean| <= 120 {
      assert SafeStem(filename, 120) == clean;
    } else {
      assert SafeStem(filename, 120) == clean[..120];
    }
  }

  /** No two dots in a row, no backslash and no NUL. */
  predicate Tame(s: string) {
    !HasDotDot(s) && '\\' !in s && '\0' !in s
  }

  lemma JoinIsTameIff(stem: string, suffix: string)
    requires stem != "" && forall c :: c in stem ==> NameChar(c)
    requires suffix == "" || (suffix[0] == '.' && forall i :: 1 <= i < |suffix| ==> suffix[i] != '.')
    ensures Tame(stem + suffix)
       <==> (!HasDotDot(stem) && (suffix == "" || stem[|stem| - 1] != '.') && '\\' !in suffix && '\0' !in suffix)
  {
    NoDotsNoDotDot(suffix);
    DotDotOfJoin(stem, suffix);
    assert !NameChar('\\') && !NameChar('\0');
  }

  lemma SafeFilenameIsKeepable(filename: string)
    ensures Tame(SafeFilename(filename)) <==> KeepableName(filename)
  {
    StemIsKeepable(filename);
    SafeStemChars(filename, 120);
    SafeSuffixShape(filename);
    JoinIsTameIff(SafeStem(filename, 120), SafeSuffix(filename));
  }

  lemma TamePrefix(prefix: string, safe: string)
    requires |prefix| >= 2 && IsDigit(prefix[0])
    requires forall c :: c in prefix ==> c != '.' && c != '\\' && c != '\0'
    ensures GoodKey(prefix + safe) <==> Tame(safe)
  {
    assert prefix[|prefix| - 1] in prefix;
    forall i | 1 <= i < |prefix| ensures prefix[i] != '.' {
      assert prefix[i] in prefix;
    }
    NoDotsNoDotDot(prefix);
    DotDotOfJoin(prefix, safe);
    assert (prefix + safe)[0] == prefix[0];
  }

  lemma KeyPrefixIsTame(year: string, month: string, unique: string, c: char)
    requires Digits(year) && Digits(month) && Hexadecimal(unique)
    requires c in KeyPrefix(year, month, unique)
    ensures c != '.' && c != '\\' && c != '\0'
  {
  }

  /**
    A generated key is accepted exactly for the keepable names: two dots inside the
    sanitised stem, a stem cut off at a dot, or a stray character of the unsanitised suffix
    make the platform refuse its own key.
  */
  lemma GeneratedKeyIsAcceptedIff(year: string, month: string, unique: string, filename: string, root: seq<string>)
    requires |year| == 4 && Digits(year) && |month| == 2 && Digits(month) && Hexadecimal(unique) && Plain(root)
    ensures Validate(GenerateKey(year, month, unique, filename), root, Normalise).Ok? <==> KeepableName(filename)
  {
    var prefix := KeyPrefix(year, month, unique);
    forall c | c in prefix ensures c != '.' && c != '\\' && c != '\0' {
      KeyPrefixIsTame(year, month, unique, c);
    }
    assert prefix[0] == year[0] && year[0] in year;
    TamePrefix(prefix, SafeFilename(filename));
    SafeFilenameIsKeepable(filename);
    ValidateIff(GenerateKey(year, month, unique, filename), root);
  }

  /** A name whose extension is a backslash: the platform refuses the key it generates. */
  lemma BackslashExtensionIsRefused(year: string, month: string, unique: string, root: seq<string>)
    requires |year| == 4 && Digits(year) && |month| == 2 && Digits(month) && Hexadecimal(unique) && Plain(root)
    ensures Validate(GenerateKey(year, month, unique, ['a', '.', '\\']), root, Normalise).Err?
  {
    var name := ['a', '.', '\\'];
    StripKeeps(name, IsSpace);
    SplitOfWhole(name, '/');
    PartsOfOne(name);
    assert FinalName(name) == name && Suffix(name) == ['.', '\\'];
    GeneratedKeyIsAcceptedIff(year, month, unique, name, root);
  }

  // ------------------------------------------------------------- what a name becomes

  /** The last dot that is neither the first nor the last character separates stem and extension. */
  lemma StemAndSuffixIff(a: string, b: string)
    ensures a != "" && b != "" && '.' !in b ==> Stem(a + "." + b) == a && Suffix(a + "." + b) == "." + b
    ensures '.' !in b ==> Stem(b) == b && Suffix(b) == "" && Stem("." + b) == "." + b && Suffix("." + b) == ""
    ensures Stem(a + ".") == a + "." && Suffix(a + ".") == ""
  {
    if '.' !in b {
      LastDotIs("", b);
      LastDotIs(a, b);
      assert "" + "." + b == "." + b;
      assert forall i :: 0 <= i < |b| ==> b[i] in b;
      if a != "" && b != "" {
        assert (a + "." + b)[..|a|] == a && (a + "." + b)[|a|..] == "." + b;
      }
    }
    LastDotIs(a, "");
    assert a + "." + "" == a + ".";
  }

  lemma {:induction false} LastDotIs(a: string, b: string)
    requires '.' !in b
    ensures LastDot(a + "." + b) == |a|
    decreases |b|
  {
    var s := a + "." + b;
    if b == "" {
      assert s[|s| - 1] == '.';
    } else {
      assert s[|s| - 1] == b[|b| - 1] && b[|b| - 1] in b;
      assert s[..|s| - 1] == a + "." + b[..|b| - 1];
      LastDotIs(a, b[..|b| - 1]);
    }
  }

  lemma {:induction false} DropBadOfRun(bad: string, rest: string)
    requires (forall c :: c in bad ==> !NameChar(c)) && (rest == "" || NameChar(rest[0]))
    ensures DropBad(bad + rest) == rest
    decreases |bad|
  {
    if bad == "" {
      assert bad + rest == rest;
    } else {
      assert (bad + rest)[1..] == bad[1..] + rest;
      DropBadOfRun(bad[1..], rest);
    }
  }

  /** Each run of characters other than letters, digits, dots, underscores and hyphens becomes one underscore. */
  lemma RunBecomesUnderscore(a: string, bad: string, rest: string)
    requires a == "" || NameChar(a[|a| - 1])
    requires bad != "" && (forall c :: c in bad ==> !NameChar(c)) && (rest == "" || NameChar(rest[0]))
    ensures Sanitise(a + (bad + rest)) == Sanitise(a) + "_" + Sanitise(rest)
  {
    SanitiseOfJoin(a, bad + rest);
    SanitiseOfRun(bad, rest);
    assert Sanitise(a) + ("_" + Sanitise(rest)) == Sanitise(a) + "_" + Sanitise(rest);
  }

  lemma SanitiseOfRun(bad: string, rest: string)
    requires bad != "" && (forall c :: c in bad ==> !NameChar(c)) && (rest == "" || NameChar(rest[0]))
    ensures Sanitise(bad + rest) == "_" + Sanitise(rest)
  {
    assert bad[0] in bad && (bad + rest)[1..] == bad[1..] + rest;
    DropBadOfRun(bad[1..], rest);
  }

  /** The parts of a stored name: the cleaned core or "file", cut to 120, and the extension, cut to 16. */
  lemma SafeNameIs(filename: string)
    ensures var clean := Sanitise(Core(filename));
      SafeStem(filename, 120) == if clean == "" then "file" else if |clean| <= 120 then clean else clean[..120]
    ensures var ext := Suffix(FinalName(Strip(if filename == "" then "file" else filename, IsSpace)));
      SafeSuffix(filename) == if |ext| <= 16 then ext else ext[..16]
    ensures SafeFilename(filename) == SafeStem(filename, 120) + SafeSuffix(filename)
  {
    SafeStemOfCore(filename);
  }

  /** A name behind a directory part is stored as the name alone. */
  lemma DirectoriesAreDropped(dir: string, name: string)
    requires dir != "" && !IsSpace(dir[0])
    requires '/' !in name && name != "" && name != "." && !IsSpace(name[0]) && !IsSpace(name[|name| - 1])
    ensures FinalName(dir + "/" + name) == name
    ensures SafeFilename(dir + "/" + name) == SafeFilename(name)
  {
    LastOfSplit(dir, name);
    var path := dir + "/" + name;
    assert path[0] == dir[0] && path[|path| - 1] == name[|name| - 1];
    StripKeeps(path, IsSpace);
    StripKeeps(name, IsSpace);
    SplitOfWhole(name, '/');
    PartsOfOne(name);
  }

  lemma {:induction false} LastOfSplit(dir: string, name: string)
    requires '/' !in name && name != "" && name != "."
    ensures var components := Split(dir + "/" + name, '/');
      var parts := Parts(components); parts != [] && parts[|parts| - 1] == name
    decreases |dir|
  {
    var components := SplitEndsWith(dir, name);
    PartsSnoc(components, name);
  }

  lemma {:induction false} SplitEndsWith(dir: string, name: string) returns (before: seq<string>)
    requires '/' !in name
    ensures Split(dir + "/" + name, '/') == before + [name] && before != []
    decreases |dir|
  {
    if dir == "" {
      SplitOfLead("", name, '/');
      SplitOfWhole(name, '/');
      before := [""];
      assert "" + "/" + name == "" + ['/'] + name;
    } else {
      assert (dir + "/" + name)[1..] == dir[1..] + "/" + name;
      before := SplitEndsWith(dir[1..], name);
      var rest := before + [name];
      before := if dir[0] == '/' then [""] + before else [[dir[0]] + before[0]] + before[1..];
      assert Split(dir + "/" + name, '/') == before + [name];
    }
  }

  // --------------------------------------------------------- names that need no change

  lemma {:induction false} SanitiseKeepsNameChars(s: string)
    requires forall c :: c in s ==> NameChar(c)
    ensures Sanitise(s) == s
    decreases |s|
  {
    if s != "" {
      assert s[0] in s;
      SanitiseKeepsNameChars(s[1..]);
      assert [s[0]] + s[1..] == s;
    }
  }

  lemma StripKeeps(s: string, drop: char -> bool)
    requires s == "" || (!drop(s[0]) && !drop(s[|s| - 1]))
    ensures Strip(s, drop) == s
  {
  }

  lemma NameCharsAreTame(c: char)
    requires NameChar(c)
    ensures !IsSpace(c) && c != '/'
  {
  }

  lemma FinalNameOfSafe(name: string)
    requires name != "" && name != "." && forall c :: c in name ==> NameChar(c)
    ensures FinalName(Strip(OrElse(name, "file"), IsSpace)) == name
  {
    NameCharsAreTame(name[0]);
    NameCharsAreTame(name[|name| - 1]);
    forall c | c in name ensures c != '/' {
      NameCharsAreTame(c);
    }
    StripKeeps(name, IsSpace);
    SplitOfWhole(name, '/');
    PartsOfOne(name);
  }

  lemma CleanStemStays(stem: string)
    requires stem != "" && |stem| <= 120 && forall c :: c in stem ==> NameChar(c)
    requires stem[0] !in {'.', '_'} && stem[|stem| - 1] !in {'.', '_'}
    ensures Truncate(OrElse(Strip(Sanitise(stem), DotOrUnderscore), "file"), 120) == stem
  {
    SanitiseKeepsNameChars(stem);
    StripKeeps(stem, DotOrUnderscore);
  }

  lemma StemAndSuffix(name: string)
    requires name != ""
    ensures Stem(name) != "" && Stem(name)[0] == name[0] && Stem(name) + Suffix(name) == name
  {
  }

  lemma SafePartsOfSafe(name: string)
    requires name != "" && name[0] != '.' && forall c :: c in name ==> NameChar(c)
    requires var stem := Stem(name);
      |stem| <= 120 && stem != "" && stem[0] !in {'.', '_'} && stem[|stem| - 1] !in {'.', '_'}
    requires |Suffix(name)| <= 16
    ensures SafeStem(name, 120) == Stem(name) && SafeSuffix(name) == Suffix(name)
  {
    FinalNameOfSafe(name);
    CleanStemStays(Stem(name));
  }

  /** A name that is already safe is stored under exactly that name. */
  lemma SafeNameIsUnchanged(name: string)
    requires name != "" && forall c :: c in name ==> NameChar(c)
    requires var stem := Stem(name); stem != "" ==>
      |stem| <= 120 && stem[0] !in {'.', '_'} && stem[|stem| - 1] !in {'.', '_'}
    requires |Suffix(name)| <= 16
    ensures SafeFilename(name) == name
  {
    StemAndSuffix(name);
    SafePartsOfSafe(name);
  }

  lemma PartsOfOne(name: string)
    requires name != "" && name != "."
    ensures Parts([name]) == [name]
  {
  }

  // ------------------------------------------------------ where a generated key lies

  lemma {:induction false} ComponentsHaveNoSlash(s: string)
    ensures forall i :: 0 <= i < |Split(s, '/')| ==> '/' !in Split(s, '/')[i]
    decreases |s|
  {
    if s != "" {
      ComponentsHaveNoSlash(s[1..]);
    }
  }

  lemma {:induction false} PartsAreComponents(components: seq<string>)
    ensures forall part :: part in Parts(components) ==> part in components
    decreases |components|
  {
    if components != [] {
      PartsAreComponents(components[1..]);
    }
  }

  lemma SafeFilenameHasNoSlash(filename: string)
    ensures '/' !in SafeFilename(filename)
  {
    var raw := Strip(OrElse(filename, "file"), IsSpace);
    var name := FinalName(raw);
    ComponentsHaveNoSlash(raw);
    PartsAreComponents(Split(raw, '/'));
    assert '/' !in name by {
      if PartsOf(raw) != [] {
        assert name in PartsOf(raw);
      }
    }
    SafeStemChars(filename, 120);
    assert forall c :: c in SafeSuffix(filename) ==> c in name;
    assert !NameChar('/');
  }

  lemma KeyHasThreeParts(year: string, month: string, unique: string, safe: string)
    requires |year| == 4 && Digits(year) && |month| == 2 && Digits(month) && Hexadecimal(unique) && '/' !in safe
    ensures PartsOf(KeyPrefix(year, month, unique) + safe) == [year, month, unique + "_" + safe]
  {
    var leaf := unique + "_" + safe;
    assert forall c :: c in leaf ==> c in unique || c == '_' || c in safe;
    assert leaf[|unique|] == '_' && month[0] in month;
    ThreeComponents(year, month, leaf);
    assert KeyPrefix(year, month, unique) + safe == year + "/" + (month + "/" + leaf);
  }

  /** An accepted key names a file directly inside the directory of its year and month. */
  lemma GeneratedKeyIsInItsMonth(year: string, month: string, unique: string, filename: string, root: seq<string>)
    requires |year| == 4 && Digits(year) && |month| == 2 && Digits(month) && Hexadecimal(unique) && Plain(root)
    ensures Validate(GenerateKey(year, month, unique, filename), root, Normalise).Ok? ==>
      Validate(GenerateKey(year, month, unique, filename), root, Normalise).value
        == root + [year, month, unique + "_" + SafeFilename(filename)]
  {
    ValidateIff(GenerateKey(year, month, unique, filename), root);
    SafeFilenameHasNoSlash(filename);
    KeyHasThreeParts(year, month, unique, SafeFilename(filename));
  }

  lemma {:induction false} PartsOfPlain(components: seq<string>)
    requires Plain(components)
    ensures Parts(components) == components
    decreases |components|
  {
    if components != [] {
      assert components[0] in components;
      assert forall c :: c in components[1..] ==> c in components;
      PartsOfPlain(components[1..]);
      assert components == [components[0]] + components[1..];
    }
  }

  lemma ThreeComponents(a: string, b: string, c: string)
    requires '/' !in a && '/' !in b && '/' !in c && Plain([a, b, c])
    ensures PartsOf(a + "/" + (b + "/" + c)) == [a, b, c]
  {
    SplitOfLead(a, b + "/" + c, '/');
    SplitOfLead(b, c, '/');
    SplitOfWhole(c, '/');
    assert [a] + ([b] + [c]) == [a, b, c];
    PartsOfPlain([a, b, c]);
  }
}
