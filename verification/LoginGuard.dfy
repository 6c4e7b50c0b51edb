/**
  Account lockout (backend/app/services/login_guard.py) as the two login endpoints drive
  it (backend/app/api/v1/auth.py, backend/app/ui/__init__.py).  Both count a wrong
  password before they look at the lock, so failures keep counting while it holds.
*/
module LoginGuard {
  import opened Wrappers

  /** `maxFailed <= 0` disables lockout; `lockout` is the lock's length in clock units. */
  datatype Config = Config(maxFailed: int, lockout: int)

  datatype Account = Account(failed: int, lockedUntil: Option<int>)

  const FRESH := Account(0, None)

  predicate IsLocked(a: Account, now: int) {
    a.lockedUntil.Some? && now < a.lockedUntil.value
  }

  function Failed(a: Account, now: int, cfg: Config): Account {
    if cfg.maxFailed <= 0 then a
    else if a.failed + 1 >= cfg.maxFailed then Account(0, Some(now + cfg.lockout))
    else a.(failed := a.failed + 1)
  }

  /** One login: whether the password is right and the clock at that moment. */
  datatype Attempt = Attempt(at: int, correct: bool)

  predicate Accepts(a: Account, x: Attempt) {
    x.correct && !IsLocked(a, x.at)
  }

  function Attempted(a: Account, x: Attempt, cfg: Config): Account {
    if !x.correct then Failed(a, x.at, cfg)
    else if IsLocked(a, x.at) then a
    else FRESH
  }

  class User {
    var failedLoginAttempts: int
    var lockedUntil: Option<int>

    constructor ()
      ensures Abs() == FRESH
    {
      failedLoginAttempts, lockedUntil := 0, None;
    }

    ghost function Abs(): Account
      reads this
    {
      Account(failedLoginAttempts, lockedUntil)
    }

    method RegisterFailure(now: int, cfg: Config)
      modifies this
      ensures Abs() == Failed(old(Abs()), now, cfg)
    {
      if cfg.maxFailed <= 0 {
        return;
      }
      failedLoginAttempts := failedLoginAttempts + 1;
      if failedLoginAttempts >= cfg.maxFailed {
        lockedUntil := Some(now + cfg.lockout);
        failedLoginAttempts := 0;
      }
    }

    method RegisterSuccess()
      modifies this
      ensures Abs() == FRESH
    {
      if failedLoginAttempts != 0 || lockedUntil.Some? {
        failedLoginAttempts := 0;
        lockedUntil := None;
      }
    }

    /** The password step of both login endpoints. */
    method Login(x: Attempt, cfg: Config) returns (accepted: bool)
      modifies this
      ensures Abs() == Attempted(old(Abs()), x, cfg)
      ensures accepted == Accepts(old(Abs()), x)
    {
      if !x.correct {
        RegisterFailure(x.at, cfg);
        return false;
      }
      if IsLocked(Account(failedLoginAttempts, lockedUntil), x.at) {
        return false;
      }
      RegisterSuccess();
      accepted := true;
    }
  }

  // -------------------------------------------------------------- whole histories

  /** The account after the first `n` attempts, starting fresh. */
  function After(xs: seq<Attempt>, n: nat, cfg: Config): Account
    requires n <= |xs|
  {
    if n == 0 then FRESH else Attempted(After(xs, n - 1, cfg), xs[n - 1], cfg)
  }

  ghost predicate Ordered(xs: seq<Attempt>) {
    forall i, j :: 0 <= i < j < |xs| ==> xs[i].at <= xs[j].at
  }

  /** Attempt `i` could have let its sender in: the account was not locked. */
  predicate Live(xs: seq<Attempt>, i: nat, cfg: Config)
    requires i < |xs|
  {
    !IsLocked(After(xs, i, cfg), xs[i].at)
  }

  predicate AcceptedAt(xs: seq<Attempt>, i: nat, cfg: Config)
    requires i < |xs|
  {
    Accepts(After(xs, i, cfg), xs[i])
  }

  /** The instants of the wrong passwords since the last accepted login. */
  function Failures(xs: seq<Attempt>, n: nat, cfg: Config): seq<int>
    requires n <= |xs|
  {
    if n == 0 then []
    else if !xs[n - 1].correct then Failures(xs, n - 1, cfg) + [xs[n - 1].at]
    else if AcceptedAt(xs, n - 1, cfg) then []
    else Failures(xs, n - 1, cfg)
  }

  /** The counter and the lock that a list of failures amounts to. */
  function Summary(failures: seq<int>, cfg: Config): Account
    requires cfg.maxFailed >= 1
  {
    var full := |failures| - |failures| % cfg.maxFailed;
    Account(|failures| % cfg.maxFailed, if full == 0 then None else Some(failures[full - 1] + cfg.lockout))
  }

  lemma ModOfNext(n: nat, m: int)
    requires m >= 1
    ensures (n + 1) % m == if n % m + 1 == m then 0 else n % m + 1
  {
    var q, r := n / m, n % m;
    if r + 1 == m {
      assert n + 1 == (q + 1) * m;
      ModOfSum(q + 1, 0, m);
    } else {
      assert n + 1 == q * m + (r + 1);
      ModOfSum(q, r + 1, m);
    }
  }

  lemma ModOfSum(q: int, r: int, m: int)
    requires 0 <= r < m
    ensures (q * m + r) % m == r
  {
    var x := q * m + r;
    var k := x / m - q;
    assert x == (x / m) * m + x % m;
    assert k * m == (x / m) * m - q * m;
    MultipleIsFar(k, m);
  }

  lemma MultipleIsFar(k: int, m: int)
    requires m >= 1
    ensures k >= 1 ==> k * m >= m
    ensures k <= -1 ==> k * m <= -m
  {
  }

  lemma OneMoreFailure(failures: seq<int>, now: int, cfg: Config)
    requires cfg.maxFailed >= 1
    ensures Summary(failures + [now], cfg) == Failed(Summary(failures, cfg), now, cfg)
  {
    ModOfNext(|failures|, cfg.maxFailed);
    var more := failures + [now];
    assert |more| == |failures| + 1;
    var full := |more| - |more| % cfg.maxFailed;
    if |failures| % cfg.maxFailed + 1 < cfg.maxFailed {
      assert full == |failures| - |failures| % cfg.maxFailed;
      assert full > 0 ==> more[full - 1] == failures[full - 1];
    } else {
      assert full == |more| && more[full - 1] == now;
    }
  }

  /**
    In every reachable state the counter is the number of failures since the last
    accepted login modulo the threshold, and the lock was set by the failure that
    last completed a full threshold.
  */
  lemma {:induction false} AccountIsSummary(xs: seq<Attempt>, n: nat, cfg: Config)
    requires n <= |xs| && cfg.maxFailed >= 1
    ensures After(xs, n, cfg) == Summary(Failures(xs, n, cfg), cfg)
    ensures 0 <= After(xs, n, cfg).failed < cfg.maxFailed
    decreases n
  {
    if n > 0 {
      AccountIsSummary(xs, n - 1, cfg);
      if !xs[n - 1].correct {
        OneMoreFailure(Failures(xs, n - 1, cfg), xs[n - 1].at, cfg);
      }
    }
  }

  /** A right password is accepted unless the last full threshold of failures is younger than the lockout. */
  lemma LoginAcceptedIff(xs: seq<Attempt>, i: nat, cfg: Config)
    requires i < |xs| && cfg.maxFailed >= 1
    ensures var failures := Failures(xs, i, cfg);
      var full := |failures| - |failures| % cfg.maxFailed;
      AcceptedAt(xs, i, cfg) <==> xs[i].correct && (full == 0 || xs[i].at >= failures[full - 1] + cfg.lockout)
  {
    AccountIsSummary(xs, i, cfg);
  }

  lemma {:induction false} OnlyWrong(xs: seq<Attempt>, n: nat, cfg: Config)
    requires n <= |xs| && forall i :: 0 <= i < n ==> xs[i] == Attempt(0, false)
    ensures |Failures(xs, n, cfg)| == n && forall i :: 0 <= i < n ==> Failures(xs, n, cfg)[i] == 0
    decreases n
  {
    if n > 0 {
      OnlyWrong(xs, n - 1, cfg);
    }
  }

  /**
    A right password during a lock resets nothing: after `m` wrong ones, at least a full
    threshold, both the lock and the count of the failures beyond it survive.
  */
  lemma RightPasswordDuringLockResetsNothing(m: nat, at: int, cfg: Config)
    requires m >= cfg.maxFailed >= 1 && 0 <= at < cfg.lockout
    ensures var xs := seq(m, i => Attempt(0, false)) + [Attempt(at, true)];
      && After(xs, m + 1, cfg) == Account(m % cfg.maxFailed, Some(cfg.lockout))
      && After(xs, m + 1, cfg) != FRESH
  {
    var xs := seq(m, i => Attempt(0, false)) + [Attempt(at, true)];
    OnlyWrong(xs, m, cfg);
    AccountIsSummary(xs, m, cfg);
    FullThreshold(m, cfg.maxFailed);
  }

  lemma FullThreshold(m: nat, threshold: int)
    requires m >= threshold >= 1
    ensures 0 < m - m % threshold <= m
  {
  }

  lemma {:induction false} DisabledNeverLocks(xs: seq<Attempt>, n: nat, cfg: Config)
    requires n <= |xs| && cfg.maxFailed <= 0
    ensures After(xs, n, cfg) == FRESH
    decreases n
  {
    if n > 0 {
      DisabledNeverLocks(xs, n - 1, cfg);
    }
  }

  // ---------------------------------------------------------------- the rate bound

  /** Wrong passwords among the first `n` attempts at an instant of `[lo, hi)`. */
  function Wrong(xs: seq<Attempt>, n: nat, lo: int, hi: int): nat
    requires n <= |xs|
  {
    if n == 0 then 0
    else Wrong(xs, n - 1, lo, hi) + if lo <= xs[n - 1].at < hi && !xs[n - 1].correct then 1 else 0
  }

  /** Those of them that were tried while the account was not locked. */
  function LiveWrong(xs: seq<Attempt>, n: nat, lo: int, hi: int, cfg: Config): nat
    requires n <= |xs|
  {
    if n == 0 then 0
    else
      LiveWrong(xs, n - 1, lo, hi, cfg)
      + if lo <= xs[n - 1].at < hi && !xs[n - 1].correct && Live(xs, n - 1, cfg) then 1 else 0
  }

  ghost predicate NoneAccepted(xs: seq<Attempt>, lo: int, hi: int, cfg: Config) {
    forall i :: 0 <= i < |xs| && lo <= xs[i].at < hi ==> !AcceptedAt(xs, i, cfg)
  }

  lemma {:induction false} LiveWrongIsCounted(xs: seq<Attempt>, n: nat, lo: int, cfg: Config)
    requires Ordered(xs) && n <= |xs| && cfg.maxFailed >= 1
    requires NoneAccepted(xs, lo, lo + cfg.lockout, cfg)
    requires n > 0 ==> xs[n - 1].at < lo + cfg.lockout
    ensures var c, a := LiveWrong(xs, n, lo, lo + cfg.lockout, cfg), After(xs, n, cfg);
      c <= cfg.maxFailed && (c <= a.failed || (a.lockedUntil.Some? && a.lockedUntil.value >= lo + cfg.lockout))
    decreases n
  {
    if n > 0 {
      AccountIsSummary(xs, n - 1, cfg);
      assert n > 1 ==> xs[n - 2].at <= xs[n - 1].at;
      LiveWrongIsCounted(xs, n - 1, lo, cfg);
      if xs[n - 1].at < lo {
        NoneBefore(xs, n, lo, lo + cfg.lockout, cfg);
        AccountIsSummary(xs, n, cfg);
      }
    }
  }

  lemma {:induction false} NoneBefore(xs: seq<Attempt>, n: nat, lo: int, hi: int, cfg: Config)
    requires Ordered(xs) && n <= |xs| && (n > 0 ==> xs[n - 1].at < lo)
    ensures LiveWrong(xs, n, lo, hi, cfg) == 0
    decreases n
  {
    if n > 1 {
      assert xs[n - 2].at <= xs[n - 1].at;
      NoneBefore(xs, n - 1, lo, hi, cfg);
    }
  }

  /**
    However the endpoints are called, a half-open interval of the lockout length without
    an accepted login holds at most `maxFailed` wrong passwords that could have worked.
  */
  lemma {:induction false} LiveGuessBound(xs: seq<Attempt>, n: nat, lo: int, cfg: Config)
    requires Ordered(xs) && n <= |xs| && cfg.maxFailed >= 1
    requires NoneAccepted(xs, lo, lo + cfg.lockout, cfg)
    ensures LiveWrong(xs, n, lo, lo + cfg.lockout, cfg) <= cfg.maxFailed
    decreases n
  {
    if n > 0 {
      if xs[n - 1].at < lo + cfg.lockout {
        LiveWrongIsCounted(xs, n, lo, cfg);
      } else {
        LiveGuessBound(xs, n - 1, lo, cfg);
      }
    }
  }

  ghost predicate OnlyLive(xs: seq<Attempt>, lo: int, hi: int, cfg: Config) {
    forall i :: 0 <= i < |xs| && lo <= xs[i].at < hi && !xs[i].correct ==> Live(xs, i, cfg)
  }

  lemma {:induction false} AllWrongAreLive(xs: seq<Attempt>, n: nat, lo: int, hi: int, cfg: Config)
    requires n <= |xs| && OnlyLive(xs, lo, hi, cfg)
    ensures Wrong(xs, n, lo, hi) == LiveWrong(xs, n, lo, hi, cfg)
    decreases n
  {
    if n > 0 {
      AllWrongAreLive(xs, n - 1, lo, hi, cfg);
    }
  }

  /** If passwords were checked only while unlocked, counted failures would obey the bound too. */
  lemma GuardedFailureBound(xs: seq<Attempt>, lo: int, cfg: Config)
    requires Ordered(xs) && cfg.maxFailed >= 1
    requires NoneAccepted(xs, lo, lo + cfg.lockout, cfg) && OnlyLive(xs, lo, lo + cfg.lockout, cfg)
    ensures Wrong(xs, |xs|, lo, lo + cfg.lockout) <= cfg.maxFailed
  {
    AllWrongAreLive(xs, |xs|, lo, lo + cfg.lockout, cfg);
    LiveGuessBound(xs, |xs|, lo, cfg);
  }

  /** The endpoints do not check that: any number of failures can be counted in one interval. */
  lemma {:induction false} CountedFailuresAreUnbounded(m: nat, cfg: Config)
    requires cfg.lockout > 0
    ensures var xs := seq(m, i => Attempt(0, false));
      Ordered(xs) && NoneAccepted(xs, 0, cfg.lockout, cfg) && Wrong(xs, m, 0, cfg.lockout) == m
  {
    var xs := seq(m, i => Attempt(0, false));
    for n := 0 to m
      invariant Wrong(xs, n, 0, cfg.lockout) == n
    {
    }
  }

  /** A lock, once set, only moves forward until a login is accepted. */
  lemma LockOnlyExtends(xs: seq<Attempt>, n: nat, t: int, cfg: Config)
    requires Ordered(xs) && n < |xs| && cfg.lockout >= 0
    requires xs[n].at <= t && IsLocked(After(xs, n, cfg), t) && !AcceptedAt(xs, n, cfg)
    ensures IsLocked(After(xs, n + 1, cfg), t)
  {
    assert forall i :: 0 <= i < n ==> xs[i].at <= xs[n].at;
    LockWasSetBefore(xs, n, xs[n].at, cfg);
  }

  lemma {:induction false} LockWasSetBefore(xs: seq<Attempt>, n: nat, now: int, cfg: Config)
    requires n <= |xs| && forall i :: 0 <= i < n ==> xs[i].at <= now
    ensures var a := After(xs, n, cfg); a.lockedUntil.Some? ==> a.lockedUntil.value <= now + cfg.lockout
    decreases n
  {
    if n > 0 {
      LockWasSetBefore(xs, n - 1, now, cfg);
    }
  }
}
