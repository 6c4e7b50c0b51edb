/**
  The process-local sliding-window limiter in front of the login endpoints
  (backend/app/core/ratelimit.py).  Instants are seconds of a clock that never runs
  backwards, taken as real numbers.
*/
module RateLimit {

  datatype Config = Config(maxEvents: int, perSeconds: real)

  /** One call of `check`: the key and the clock it reads. */
  datatype Call = Call(key: string, now: real)

  type Windows = map<string, seq<real>>

  function WindowOf(ws: Windows, key: string): seq<real> {
    if key in ws then ws[key] else []
  }

  /** Events popped from the left while they are older than `cutoff`. */
  function Popped(window: seq<real>, cutoff: real): seq<real> {
    if window != [] && window[0] < cutoff then Popped(window[1..], cutoff) else window
  }

  /** The effect of one call: a window with room takes the event, a full one refuses it. */
  function Allows(ws: Windows, c: Call, cfg: Config): bool {
    |Popped(WindowOf(ws, c.key), c.now - cfg.perSeconds)| < cfg.maxEvents
  }

  function Checked(ws: Windows, c: Call, cfg: Config): Windows {
    var window := Popped(WindowOf(ws, c.key), c.now - cfg.perSeconds);
    ws[c.key := if Allows(ws, c, cfg) then window + [c.now] else window]
  }

  /** The deques after the first `n` calls of a history. */
  function WindowsAfter(calls: seq<Call>, n: nat, cfg: Config): Windows
    requires n <= |calls|
  {
    if n == 0 then map[] else Checked(WindowsAfter(calls, n - 1, cfg), calls[n - 1], cfg)
  }

  lemma {:induction false} WindowsOfPrefix(calls: seq<Call>, more: seq<Call>, n: nat, cfg: Config)
    requires n <= |calls|
    ensures WindowsAfter(calls + more, n, cfg) == WindowsAfter(calls, n, cfg)
    decreases n
  {
    if n > 0 {
      WindowsOfPrefix(calls, more, n - 1, cfg);
    }
  }

  /** The answer given to call `i` of the history. */
  predicate Allowed(calls: seq<Call>, i: nat, cfg: Config)
    requires i < |calls|
  {
    Allows(WindowsAfter(calls, i, cfg), calls[i], cfg)
  }

  ghost predicate Ordered(calls: seq<Call>) {
    forall i, j :: 0 <= i < j < |calls| ==> calls[i].now <= calls[j].now
  }

  lemma OneMoreCall(calls: seq<Call>, c: Call, cfg: Config)
    requires Ordered(calls) && forall d :: d in calls ==> d.now <= c.now
    ensures Ordered(calls + [c])
    ensures WindowsAfter(calls + [c], |calls| + 1, cfg) == Checked(WindowsAfter(calls, |calls|, cfg), c, cfg)
    ensures Allowed(calls + [c], |calls|, cfg) == Allows(WindowsAfter(calls, |calls|, cfg), c, cfg)
  {
    WindowsOfPrefix(calls, [c], |calls|, cfg);
  }

  class SlidingWindowRateLimiter {
    const cfg: Config
    var events: Windows
    ghost var calls: seq<Call>

    ghost predicate Valid()
      reads this
    {
      Ordered(calls) && events == WindowsAfter(calls, |calls|, cfg)
    }

    constructor (cfg: Config)
      ensures Valid() && this.cfg == cfg && calls == []
    {
      this.cfg, events, calls := cfg, map[], [];
    }

    method Check(key: string, now: real) returns (allowed: bool)
      requires Valid() && forall c :: c in calls ==> c.now <= now
      modifies this
      ensures Valid() && calls == old(calls) + [Call(key, now)]
      ensures allowed == Allowed(calls, |calls| - 1, cfg)
    {
      var window := PopExpired(WindowOf(events, key), now - cfg.perSeconds);
      ghost var c := Call(key, now);
      OneMoreCall(calls, c, cfg);
      allowed := |window| < cfg.maxEvents;
      if allowed {
        window := window + [now];
      }
      events := events[key := window];
      calls := calls + [c];
    }

    /** The loop that discards events older than the window. */
    static method PopExpired(window: seq<real>, cutoff: real) returns (kept: seq<real>)
      ensures kept == Popped(window, cutoff)
    {
      kept := window;
      while kept != [] && kept[0] < cutoff
        invariant Popped(kept, cutoff) == Popped(window, cutoff)
        decreases |kept|
      {
        kept := kept[1..];
      }
    }

    method RetryAfterSeconds(key: string, now: real) returns (r: real)
      requires Valid()
      ensures r == RetryAfter(WindowsAfter(calls, |calls|, cfg), key, now, cfg)
    {
      var window := WindowOf(events, key);
      if window == [] {
        return 0.0;
      }
      var rest := cfg.perSeconds - (now - window[0]);
      r := if rest > 0.0 then rest else 0.0;
    }

    method Reset()
      modifies this
      ensures Valid() && calls == []
    {
      events, calls := map[], [];
    }
  }

  function RetryAfter(ws: Windows, key: string, now: real, cfg: Config): real {
    var window := WindowOf(ws, key);
    if window == [] then 0.0
    else if cfg.perSeconds - (now - window[0]) > 0.0 then cfg.perSeconds - (now - window[0])
    else 0.0
  }

  // ------------------------------------------------------ the window and the history

  /** The instants, not before `from`, at which the first `n` calls allowed `key`. */
  function GrantsSince(calls: seq<Call>, n: nat, key: string, from: real, cfg: Config): seq<real>
    requires n <= |calls|
  {
    if n == 0 then []
    else
      GrantsSince(calls, n - 1, key, from, cfg)
      + if calls[n - 1].key == key && calls[n - 1].now >= from && Allowed(calls, n - 1, cfg)
        then [calls[n - 1].now] else []
  }

  lemma {:induction false} PoppedTwice(window: seq<real>, c0: real, c: real)
    requires c0 <= c
    ensures Popped(Popped(window, c0), c) == Popped(window, c)
    decreases |window|
  {
    if window != [] && window[0] < c0 {
      PoppedTwice(window[1..], c0, c);
    }
  }

  lemma {:induction false} PoppedAppend(window: seq<real>, now: real, c: real)
    requires forall t :: t in window ==> t <= now
    ensures Popped(window + [now], c) == Popped(window, c) + if now >= c then [now] else []
    decreases |window|
  {
    if window == [] {
      assert window + [now] == [now];
    } else if window[0] < c {
      assert (window + [now])[1..] == window[1..] + [now];
      assert forall t :: t in window[1..] ==> t in window;
      PoppedAppend(window[1..], now, c);
    } else {
      assert window[0] in window;
    }
  }

  lemma {:induction false} PoppedSelects(window: seq<real>, c: real)
    ensures |Popped(window, c)| <= |window|
    ensures forall t :: t in Popped(window, c) ==> t in window
    ensures Popped(window, c) != [] ==> Popped(window, c)[0] >= c
    ensures Popped(window, c) == window <==> |Popped(window, c)| == |window|
    decreases |window|
  {
    if window != [] && window[0] < c {
      PoppedSelects(window[1..], c);
    }
  }

  /** The deque of `key` after the first `n` calls. */
  function WindowAt(calls: seq<Call>, n: nat, key: string, cfg: Config): seq<real>
    requires n <= |calls|
  {
    WindowOf(WindowsAfter(calls, n, cfg), key)
  }

  lemma WindowNext(calls: seq<Call>, n: nat, key: string, cfg: Config)
    requires n < |calls|
    ensures var kept := Popped(WindowAt(calls, n, key, cfg), calls[n].now - cfg.perSeconds);
      WindowAt(calls, n + 1, key, cfg) ==
        if calls[n].key != key then WindowAt(calls, n, key, cfg)
        else if Allowed(calls, n, cfg) then kept + [calls[n].now]
        else kept
    ensures var kept := Popped(WindowAt(calls, n, key, cfg), calls[n].now - cfg.perSeconds);
      calls[n].key == key ==> (Allowed(calls, n, cfg) <==> |kept| < cfg.maxEvents)
  {
  }

  lemma {:induction false} WindowFits(calls: seq<Call>, n: nat, key: string, cfg: Config)
    requires n <= |calls|
    ensures WindowAt(calls, n, key, cfg) == [] || |WindowAt(calls, n, key, cfg)| <= cfg.maxEvents
    decreases n
  {
    if n > 0 {
      WindowFits(calls, n - 1, key, cfg);
      WindowNext(calls, n - 1, key, cfg);
      PoppedSelects(WindowAt(calls, n - 1, key, cfg), calls[n - 1].now - cfg.perSeconds);
    }
  }

  lemma {:induction false} WindowIsPast(calls: seq<Call>, n: nat, key: string, now: real, cfg: Config)
    requires n <= |calls| && forall i :: 0 <= i < n ==> calls[i].now <= now
    ensures forall t :: t in WindowAt(calls, n, key, cfg) ==> t <= now
    decreases n
  {
    if n > 0 {
      WindowIsPast(calls, n - 1, key, now, cfg);
      WindowNext(calls, n - 1, key, cfg);
      PoppedSelects(WindowAt(calls, n - 1, key, cfg), calls[n - 1].now - cfg.perSeconds);
    }
  }

  lemma PoppedThenAppended(window: seq<real>, c0: real, now: real, c: real)
    requires c0 <= c && forall t :: t in window ==> t <= now
    ensures Popped(Popped(window, c0), c) == Popped(window, c)
    ensures Popped(Popped(window, c0) + [now], c) == Popped(window, c) + if now >= c then [now] else []
  {
    PoppedSelects(window, c0);
    PoppedTwice(window, c0, c);
    PoppedAppend(Popped(window, c0), now, c);
  }

  lemma OwnCallGrants(calls: seq<Call>, n: nat, c: real, cfg: Config)
    requires n < |calls| && c >= calls[n].now - cfg.perSeconds
    requires forall i :: 0 <= i < n ==> calls[i].now <= calls[n].now
    requires Popped(WindowAt(calls, n, calls[n].key, cfg), c) == GrantsSince(calls, n, calls[n].key, c, cfg)
    ensures Popped(WindowAt(calls, n + 1, calls[n].key, cfg), c) == GrantsSince(calls, n + 1, calls[n].key, c, cfg)
  {
    var key := calls[n].key;
    WindowNext(calls, n, key, cfg);
    WindowIsPast(calls, n, key, calls[n].now, cfg);
    PoppedThenAppended(WindowAt(calls, n, key, cfg), calls[n].now - cfg.perSeconds, calls[n].now, c);
  }

  /** The deque refines the history: popped up to any later cutoff it holds exactly the grants since. */
  lemma {:induction false} WindowHoldsGrants(calls: seq<Call>, n: nat, key: string, c: real, cfg: Config)
    requires Ordered(calls) && n <= |calls|
    requires forall i :: 0 <= i < n ==> c >= calls[i].now - cfg.perSeconds
    ensures Popped(WindowAt(calls, n, key, cfg), c) == GrantsSince(calls, n, key, c, cfg)
    decreases n
  {
    if n > 0 {
      WindowHoldsGrants(calls, n - 1, key, c, cfg);
      if calls[n - 1].key == key {
        OwnCallGrants(calls, n - 1, c, cfg);
      } else {
        WindowNext(calls, n - 1, key, cfg);
      }
    }
  }

  /** A call is allowed exactly when fewer than `maxEvents` were allowed in the closed window before it. */
  lemma AllowedIffRoom(calls: seq<Call>, i: nat, cfg: Config)
    requires Ordered(calls) && i < |calls|
    ensures Allowed(calls, i, cfg)
       <==> |GrantsSince(calls, i, calls[i].key, calls[i].now - cfg.perSeconds, cfg)| < cfg.maxEvents
  {
    var cutoff := calls[i].now - cfg.perSeconds;
    forall j | 0 <= j < i ensures cutoff >= calls[j].now - cfg.perSeconds {
      assert calls[j].now <= calls[i].now;
    }
    WindowNext(calls, i, calls[i].key, cfg);
    WindowHoldsGrants(calls, i, calls[i].key, cutoff, cfg);
  }

  // ---------------------------------------------------------------- the sliding bound

  /** How many of the first `n` calls allowed `key` at an instant of `lo..hi`. */
  function GrantsBetween(calls: seq<Call>, n: nat, key: string, lo: real, hi: real, cfg: Config): nat
    requires n <= |calls|
  {
    if n == 0 then 0
    else
      GrantsBetween(calls, n - 1, key, lo, hi, cfg)
      + if calls[n - 1].key == key && lo <= calls[n - 1].now <= hi && Allowed(calls, n - 1, cfg) then 1 else 0
  }

  lemma {:induction false} BetweenIsSince(calls: seq<Call>, n: nat, key: string, lo: real, hi: real, from: real,
                                          cfg: Config)
    requires n <= |calls| && from <= lo
    ensures GrantsBetween(calls, n, key, lo, hi, cfg) <= |GrantsSince(calls, n, key, from, cfg)|
    decreases n
  {
    if n > 0 {
      BetweenIsSince(calls, n - 1, key, lo, hi, from, cfg);
    }
  }

  /** No closed interval of length `perSeconds` ever holds more than `maxEvents` allowed calls of a key. */
  lemma {:induction false} SlidingWindowBound(calls: seq<Call>, n: nat, key: string, lo: real, cfg: Config)
    requires Ordered(calls) && n <= |calls|
    ensures GrantsBetween(calls, n, key, lo, lo + cfg.perSeconds, cfg) <= if cfg.maxEvents < 0 then 0 else cfg.maxEvents
    decreases n
  {
    if n > 0 {
      var c := calls[n - 1];
      if c.key == key && lo <= c.now <= lo + cfg.perSeconds && Allowed(calls, n - 1, cfg) {
        AllowedIffRoom(calls, n - 1, cfg);
        BetweenIsSince(calls, n - 1, key, lo, lo + cfg.perSeconds, c.now - cfg.perSeconds, cfg);
      } else {
        SlidingWindowBound(calls, n - 1, key, lo, cfg);
      }
    }
  }

  // ------------------------------------------------------------------ the retry hint

  /** While calls of `key` are denied its full window does not change. */
  lemma {:induction false} DeniedKeepsWindow(calls: seq<Call>, m: nat, n: nat, key: string, cfg: Config)
    requires m <= n <= |calls| && |WindowAt(calls, m, key, cfg)| == cfg.maxEvents
    requires forall j :: m <= j < n && calls[j].key == key ==> !Allowed(calls, j, cfg)
    ensures WindowAt(calls, n, key, cfg) == WindowAt(calls, m, key, cfg)
    decreases n
  {
    if m < n {
      DeniedKeepsWindow(calls, m, n - 1, key, cfg);
      WindowNext(calls, n - 1, key, cfg);
      PoppedSelects(WindowAt(calls, n - 1, key, cfg), calls[n - 1].now - cfg.perSeconds);
    }
  }

  lemma DenialFillsWindow(calls: seq<Call>, d: nat, cfg: Config)
    requires d < |calls| && cfg.maxEvents >= 1 && !Allowed(calls, d, cfg)
    ensures var window := WindowAt(calls, d + 1, calls[d].key, cfg);
      |window| == cfg.maxEvents && window[0] >= calls[d].now - cfg.perSeconds
  {
    var key := calls[d].key;
    WindowFits(calls, d, key, cfg);
    WindowNext(calls, d, key, cfg);
    PoppedSelects(WindowAt(calls, d, key, cfg), calls[d].now - cfg.perSeconds);
  }

  /**
    Call `d` was denied and no call of its key was allowed before call `i`: then call `i`
    is allowed exactly when it comes strictly after the instant the hint names.
  */
  lemma RetryAfterIsExact(calls: seq<Call>, d: nat, i: nat, cfg: Config)
    requires Ordered(calls) && d < i < |calls| && cfg.maxEvents >= 1
    requires calls[i].key == calls[d].key && !Allowed(calls, d, cfg)
    requires forall j :: d < j < i && calls[j].key == calls[d].key ==> !Allowed(calls, j, cfg)
    ensures var hint := RetryAfter(WindowsAfter(calls, d + 1, cfg), calls[d].key, calls[d].now, cfg);
      Allowed(calls, i, cfg) <==> calls[i].now > calls[d].now + hint
  {
    var key := calls[d].key;
    DenialFillsWindow(calls, d, cfg);
    DeniedKeepsWindow(calls, d + 1, i, key, cfg);
    WindowNext(calls, i, key, cfg);
    PoppedSelects(WindowAt(calls, i, key, cfg), calls[i].now - cfg.perSeconds);
  }

  /**
    At any later instant the hint is the time until the oldest event leaves that was granted
    within the window of the key's last call, and zero without one.
  */
  lemma HintNamesOldestGrant(calls: seq<Call>, d: nat, n: nat, now: real, cfg: Config)
    requires Ordered(calls) && d < n <= |calls| && now >= calls[d].now
    requires forall j :: d < j < n ==> calls[j].key != calls[d].key
    ensures var grants := GrantsSince(calls, d + 1, calls[d].key, calls[d].now - cfg.perSeconds, cfg);
      RetryAfter(WindowsAfter(calls, n, cfg), calls[d].key, now, cfg)
        == if grants == [] || grants[0] + cfg.perSeconds <= now then 0.0 else grants[0] + cfg.perSeconds - now
  {
    var key, cutoff := calls[d].key, calls[d].now - cfg.perSeconds;
    forall i | 0 <= i < d + 1 ensures cutoff >= calls[i].now - cfg.perSeconds {
      assert calls[i].now <= calls[d].now;
    }
    WindowHoldsGrants(calls, d + 1, key, cutoff, cfg);
    OthersLeaveWindow(calls, d + 1, n, key, cfg);
    if cfg.perSeconds >= 0.0 {
      WindowIsPopped(calls, d, cfg);
    } else {
      // every event has left such a window at once
      WindowIsPast(calls, d + 1, key, calls[d].now, cfg);
      AllExpire(WindowAt(calls, d + 1, key, cfg), calls[d].now, cutoff);
    }
  }

  lemma {:induction false} AllExpire(window: seq<real>, now: real, c: real)
    requires now < c && forall t :: t in window ==> t <= now
    ensures Popped(window, c) == [] && (window != [] ==> window[0] <= now)
    decreases |window|
  {
    if window != [] {
      assert window[0] in window && forall t :: t in window[1..] ==> t in window;
      AllExpire(window[1..], now, c);
    }
  }

  lemma WindowIsPopped(calls: seq<Call>, d: nat, cfg: Config)
    requires d < |calls| && cfg.perSeconds >= 0.0
    ensures Popped(WindowAt(calls, d + 1, calls[d].key, cfg), calls[d].now - cfg.perSeconds)
         == WindowAt(calls, d + 1, calls[d].key, cfg)
  {
    WindowNext(calls, d, calls[d].key, cfg);
    PoppedSelects(WindowAt(calls, d, calls[d].key, cfg), calls[d].now - cfg.perSeconds);
  }

  lemma {:induction false} OthersLeaveWindow(calls: seq<Call>, m: nat, n: nat, key: string, cfg: Config)
    requires m <= n <= |calls| && forall j :: m <= j < n ==> calls[j].key != key
    ensures WindowAt(calls, n, key, cfg) == WindowAt(calls, m, key, cfg)
    decreases n
  {
    if m < n {
      OthersLeaveWindow(calls, m, n - 1, key, cfg);
      WindowNext(calls, n - 1, key, cfg);
    }
  }

  /** With a limit of zero the hint is no wait at all, yet every call is denied. */
  lemma ZeroLimitNeverAllows(calls: seq<Call>, i: nat, now: real, cfg: Config)
    requires i < |calls| && cfg.maxEvents <= 0
    ensures !Allowed(calls, i, cfg)
    ensures RetryAfter(WindowsAfter(calls, i + 1, cfg), calls[i].key, now, cfg) == 0.0
  {
    WindowFits(calls, i + 1, calls[i].key, cfg);
  }
}
