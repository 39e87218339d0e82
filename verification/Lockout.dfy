/**
 The lockout after failed authentication (firmware/main/hsm.cpp), with the gate at the start of the
 command handler that consults it.
 */
module Lockouts {
  import opened Throttle
  import opened Widths

  /** The four Kconfig values, in their ranges. */
  datatype Config = Config(window: nat, failMax: nat, base: nat, cap: nat)
  {
    predicate Valid() { 1 <= window <= 3600 && 1 <= failMax <= 100 && 1 <= base <= 3600 && 1 <= cap <= 86400 }
  }

  datatype Lockout = Lockout(windowStart: Seconds, failures: nat, cooldown: nat, lockUntil: Seconds)

  const OPEN := Lockout(0, 0, 0, 0)

  function Remaining(l: Lockout, now: Seconds): nat {
    if l.lockUntil != 0 && now < l.lockUntil then l.lockUntil - now else 0
  }

  /** The failure counter with this failure counted, in a fresh window if the old one is over. */
  function Counted(l: Lockout, now: Seconds, c: Config): Lockout {
    if Since(now, l.windowStart) >= c.window then l.(windowStart := now, failures := 1)
    else l.(failures := l.failures + 1)
  }

  function NextCooldown(cooldown: nat, c: Config): nat {
    var doubled := (if cooldown == 0 then c.base else cooldown) * 2 % U32;
    if doubled > c.cap then c.cap else doubled
  }

  /** Whether a failure at `now` starts a lockout. */
  predicate Trips(l: Lockout, now: Seconds, c: Config) { Counted(l, now, c).failures >= c.failMax }

  function Failure(l: Lockout, now: Seconds, c: Config): Lockout {
    if !Trips(l, now, c) then Counted(l, now, c) else
    var cooldown := NextCooldown(l.cooldown, c);
    Lockout(now, 0, cooldown, (now + cooldown) % U32)
  }

  function Success(l: Lockout, now: Seconds): Lockout { l.(lockUntil := 0, windowStart := now, failures := 0) }

  /** A request: when it arrives and whether its credentials are good. */
  datatype Request = Request(at: Seconds, good: bool)

  /** The gate: credentials are looked at only when no lock is in force. */
  predicate Checked(l: Lockout, r: Request) { Remaining(l, r.at) == 0 }

  function Handle(l: Lockout, r: Request, c: Config): Lockout {
    if !Checked(l, r) then l else if r.good then Success(l, r.at) else Failure(l, r.at, c)
  }

  /** The states of a run: `ls[i]` is what the i-th request finds. */
  predicate IsRun(ls: seq<Lockout>, rs: seq<Request>, c: Config) {
    |ls| == |rs| + 1 && ls[0] == OPEN && forall i :: 0 <= i < |rs| ==> ls[i + 1] == Handle(ls[i], rs[i], c)
  }

  /** Every sequence of requests has exactly one run. */
  function Run(rs: seq<Request>, c: Config): (ls: seq<Lockout>)
    ensures IsRun(ls, rs, c)
  {
    if rs == [] then [OPEN] else
    var n := |rs| - 1;
    var before := Run(rs[..n], c);
    before + [Handle(before[n], rs[n], c)]
  }

  predicate Ordered(rs: seq<Request>) {
    forall i, k :: 0 <= i <= k < |rs| ==> rs[i].at <= rs[k].at
  }

  /** A run whose clock does not go back and does not wrap around. */
  predicate Sound(ls: seq<Lockout>, rs: seq<Request>, c: Config) {
    c.Valid() && IsRun(ls, rs, c) && Ordered(rs) && forall i :: 0 <= i < |rs| ==> rs[i].at + c.cap < U32
  }

  /** The request passes a credential check; it fails one; it starts a lockout. */
  predicate Passes(l: Lockout, r: Request) { Checked(l, r) && r.good }

  predicate Fails(l: Lockout, r: Request) { Checked(l, r) && !r.good }

  predicate Locks(l: Lockout, r: Request, c: Config) { Fails(l, r) && Trips(l, r.at, c) }

  /** Lockouts started by the first `n` requests. */
  function LockoutCount(ls: seq<Lockout>, rs: seq<Request>, n: nat, c: Config): nat
    requires n <= |rs| && |ls| == |rs| + 1
  {
    if n == 0 then 0 else LockoutCount(ls, rs, n - 1, c) + if Locks(ls[n - 1], rs[n - 1], c) then 1 else 0
  }

  // ---------------------------------------------------------------------------
  // How long lockouts last
  // ---------------------------------------------------------------------------

  function Min(a: nat, b: nat): nat { if a < b then a else b }

  /** min(base * 2^k, cap) for the k-th lockout, and no cooldown before the first. */
  function Cooldown(k: nat, c: Config): nat { if k == 0 then 0 else Min(c.base * Pow2(k), c.cap) }

  lemma Doubling(base: nat, k: nat)
    ensures base * Pow2(k + 1) == 2 * (base * Pow2(k)) && base <= base * Pow2(k)
  {
    var p := Pow2(k);
    assert base * (2 * p) == 2 * (base * p);
  }

  lemma CapDoubles(x: nat, cap: nat, d: nat)
    requires 1 <= x && 1 <= cap <= 86400 && d == Min(x, cap) * 2 % U32
    ensures (if d > cap then cap else d) == Min(2 * x, cap) > 0
  {
  }

  lemma NextDoubles(k: nat, c: Config)
    requires c.Valid()
    ensures NextCooldown(Cooldown(k, c), c) == Cooldown(k + 1, c) && 0 < Cooldown(k + 1, c) <= c.cap
  {
    Doubling(c.base, k);
    var x := c.base * Pow2(k);
    if k == 0 {
      assert x == c.base;
    } else {
      CapDoubles(x, c.cap, Min(x, c.cap) * 2 % U32);
    }
  }

  /** After k lockouts the cooldown is min(base * 2^k, cap), whatever successes came in between. */
  lemma {:induction false} CooldownAfter(ls: seq<Lockout>, rs: seq<Request>, n: nat, c: Config)
    requires c.Valid() && IsRun(ls, rs, c) && n <= |rs|
    ensures ls[n].cooldown == Cooldown(LockoutCount(ls, rs, n, c), c)
  {
    if n > 0 {
      CooldownAfter(ls, rs, n - 1, c);
      assert ls[n] == Handle(ls[n - 1], rs[n - 1], c);
      NextDoubles(LockoutCount(ls, rs, n - 1, c), c);
    }
  }

  lemma TripLocks(l: Lockout, now: Seconds, c: Config, k: nat)
    requires c.Valid() && Trips(l, now, c) && now + c.cap < U32 && l.cooldown == Cooldown(k, c)
    ensures Failure(l, now, c) == Lockout(now, 0, Cooldown(k + 1, c), now + Cooldown(k + 1, c))
    ensures 0 < Cooldown(k + 1, c)
  {
    NextDoubles(k, c);
    NoWrap(now, Cooldown(k + 1, c), c.cap);
  }

  lemma NoWrap(now: Seconds, cooldown: nat, cap: nat)
    requires cooldown <= cap && now + cap < U32
    ensures (now + cooldown) % U32 == now + cooldown
  {
  }

  /** The k-th lockout lasts min(base * 2^k, cap) seconds. */
  lemma KthLockoutLasts(ls: seq<Lockout>, rs: seq<Request>, i: nat, c: Config)
    requires Sound(ls, rs, c) && i < |rs| && Locks(ls[i], rs[i], c)
    ensures var k := LockoutCount(ls, rs, i + 1, c);
            k > 0 && Remaining(ls[i + 1], rs[i].at) == Min(c.base * Pow2(k), c.cap)
            && ls[i + 1].lockUntil == rs[i].at + Min(c.base * Pow2(k), c.cap)
  {
    CooldownAfter(ls, rs, i, c);
    assert ls[i + 1] == Handle(ls[i], rs[i], c);
    TripLocks(ls[i], rs[i].at, c, LockoutCount(ls, rs, i, c));
  }

  // ---------------------------------------------------------------------------
  // Nothing is checked while a lock is in force
  // ---------------------------------------------------------------------------

  lemma {:induction false} StaysLocked(ls: seq<Lockout>, rs: seq<Request>, i: nat, k: nat, c: Config)
    requires IsRun(ls, rs, c) && Ordered(rs) && i < k < |rs| && rs[k].at < ls[i + 1].lockUntil
    ensures ls[k] == ls[i + 1]
    decreases k
  {
    if i + 1 < k {
      assert rs[k - 1].at <= rs[k].at;
      StaysLocked(ls, rs, i, k - 1, c);
      assert ls[k] == Handle(ls[k - 1], rs[k - 1], c);
    }
  }

  /** For min(base * 2^k, cap) seconds from the k-th lockout, no credentials are checked and nothing changes. */
  lemma LockedUntilOver(ls: seq<Lockout>, rs: seq<Request>, i: nat, j: nat, c: Config)
    requires Sound(ls, rs, c) && i < j < |rs| && Locks(ls[i], rs[i], c)
    requires rs[j].at < rs[i].at + Min(c.base * Pow2(LockoutCount(ls, rs, i + 1, c)), c.cap)
    ensures !Checked(ls[j], rs[j]) && ls[j + 1] == ls[j] == ls[i + 1]
    ensures Remaining(ls[j], rs[j].at)
         == rs[i].at + Min(c.base * Pow2(LockoutCount(ls, rs, i + 1, c)), c.cap) - rs[j].at
  {
    KthLockoutLasts(ls, rs, i, c);
    StaysLocked(ls, rs, i, j, c);
    assert ls[j + 1] == Handle(ls[j], rs[j], c);
  }

  // ---------------------------------------------------------------------------
  // How many failures a stretch can hold without a lockout
  // ---------------------------------------------------------------------------

  /** Failed checks among the requests from `lo` on, up to `hi`. */
  function FailureCount(ls: seq<Lockout>, rs: seq<Request>, lo: nat, hi: nat): nat
    requires lo <= hi <= |rs| && |ls| == |rs| + 1
    decreases hi - lo
  {
    if lo == hi then 0 else FailureCount(ls, rs, lo, hi - 1) + if Fails(ls[hi - 1], rs[hi - 1]) then 1 else 0
  }

  /** The window start is never ahead of the clock, and the count is below the threshold. */
  lemma {:induction false} Bounded(ls: seq<Lockout>, rs: seq<Request>, n: nat, c: Config)
    requires Sound(ls, rs, c) && n <= |rs|
    ensures ls[n].failures < c.failMax && ls[n].windowStart <= (if n == 0 then 0 else rs[n - 1].at)
  {
    if n > 0 {
      Bounded(ls, rs, n - 1, c);
      assert ls[n] == Handle(ls[n - 1], rs[n - 1], c);
      assert n > 1 ==> rs[n - 2].at <= rs[n - 1].at;
    }
  }

  /**
   `n` failures have been counted since time t: all of them are in the current failure window if that began at t or
   before; otherwise a fresh window began after t.
   */
  predicate Tallied(l: Lockout, n: nat, t: Seconds, c: Config) {
    && (l.windowStart <= t ==> n <= l.failures)
    && (l.windowStart > t ==> n <= c.failMax - 1 + l.failures)
    && (n > 0 ==> t < l.windowStart + c.window)
  }

  /** One more failure; after a window that began later than t there is no time for another. */
  lemma TallyFailure(l: Lockout, now: Seconds, n: nat, t: Seconds, c: Config)
    requires c.Valid() && Tallied(l, n, t, c) && l.windowStart <= now && t <= now <= t + c.window
    requires l.failures < c.failMax && !Trips(l, now, c)
    ensures Tallied(Failure(l, now, c), n + 1, t, c)
  {
    SinceForward(now, l.windowStart);
  }

  /** No good credentials and no lockout among the requests from `lo` on, up to `hi`. */
  predicate Quiet(ls: seq<Lockout>, rs: seq<Request>, lo: nat, hi: nat, c: Config)
    requires hi <= |rs| && |ls| == |rs| + 1
  {
    forall i :: lo <= i < hi ==> !Passes(ls[i], rs[i]) && !Locks(ls[i], rs[i], c)
  }

  lemma {:induction false} QuietCounts(ls: seq<Lockout>, rs: seq<Request>, lo: nat, hi: nat, c: Config)
    requires Sound(ls, rs, c) && lo < hi <= |rs| && Quiet(ls, rs, lo, hi, c) && rs[hi - 1].at - rs[lo].at <= c.window
    ensures Tallied(ls[hi], FailureCount(ls, rs, lo, hi), rs[lo].at, c)
    decreases hi
  {
    var last := hi - 1;
    assert rs[lo].at <= rs[last].at && (last > 0 ==> rs[last - 1].at <= rs[last].at);
    if lo < last {
      QuietCounts(ls, rs, lo, last, c);
    }
    Bounded(ls, rs, last, c);
    assert ls[hi] == Handle(ls[last], rs[last], c);
    if Fails(ls[last], rs[last]) {
      TallyFailure(ls[last], rs[last].at, FailureCount(ls, rs, lo, last), rs[lo].at, c);
    }
  }

  /** Without a success, 2 * failMax - 1 failed checks within one failure window contain a lockout. */
  lemma EnoughFailuresLock(ls: seq<Lockout>, rs: seq<Request>, lo: nat, hi: nat, c: Config)
    requires Sound(ls, rs, c) && lo < hi <= |rs| && rs[hi - 1].at - rs[lo].at <= c.window
    requires forall i :: lo <= i < hi ==> !Passes(ls[i], rs[i])
    requires FailureCount(ls, rs, lo, hi) >= 2 * c.failMax - 1
    ensures exists i :: lo <= i < hi && Locks(ls[i], rs[i], c)
  {
    if Quiet(ls, rs, lo, hi, c) {
      QuietCounts(ls, rs, lo, hi, c);
      Bounded(ls, rs, hi, c);
    }
  }

  // ---------------------------------------------------------------------------
  // Where the count starts
  // ---------------------------------------------------------------------------

  lemma {:induction false} CountedSince(ls: seq<Lockout>, rs: seq<Request>, i: nat, n: nat, c: Config)
    requires c.Valid() && IsRun(ls, rs, c) && i < n <= |rs| && Passes(ls[i], rs[i])
    ensures ls[n].failures <= FailureCount(ls, rs, i + 1, n)
    decreases n
  {
    assert ls[n] == Handle(ls[n - 1], rs[n - 1], c);
    if i + 1 < n {
      CountedSince(ls, rs, i, n - 1, c);
    }
  }

  /** A success wipes the count: a lockout has failMax failed checks after every earlier success. */
  lemma SuccessForgives(ls: seq<Lockout>, rs: seq<Request>, i: nat, k: nat, c: Config)
    requires c.Valid() && IsRun(ls, rs, c) && i < k < |rs| && Passes(ls[i], rs[i]) && Locks(ls[k], rs[k], c)
    ensures FailureCount(ls, rs, i + 1, k + 1) >= c.failMax
  {
    CountedSince(ls, rs, i, k, c);
  }

  /** The requests from `lo` on hold the failures counted so far, all since the start of the failure window. */
  predicate Holds(ls: seq<Lockout>, rs: seq<Request>, lo: nat, n: nat, c: Config)
    requires n <= |rs| && |ls| == |rs| + 1
  {
    && lo <= n && Quiet(ls, rs, lo, n, c) && FailureCount(ls, rs, lo, n) == ls[n].failures
    && (lo < n ==> ls[n].windowStart <= rs[lo].at)
  }

  lemma {:induction false} CountHasStart(ls: seq<Lockout>, rs: seq<Request>, n: nat, c: Config) returns (lo: nat)
    requires Sound(ls, rs, c) && n <= |rs|
    ensures Holds(ls, rs, lo, n, c)
  {
    lo := n;
    if n > 0 {
      var l, r := ls[n - 1], rs[n - 1];
      Bounded(ls, rs, n - 1, c);
      assert ls[n] == Handle(l, r, c);
      assert n > 1 ==> rs[n - 2].at <= r.at;
      SinceForward(r.at, l.windowStart);
      if Fails(l, r) && !Locks(l, r, c) && r.at - l.windowStart >= c.window {
        lo := n - 1;
        assert FailureCount(ls, rs, lo, n) == FailureCount(ls, rs, lo, lo) + 1;
      } else if !Passes(l, r) && !Locks(l, r, c) {
        lo := CountHasStart(ls, rs, n - 1, c);
        assert lo < n - 1 ==> l.windowStart <= rs[lo].at;
        if lo == n - 1 && !Fails(l, r) {
          lo := n;
        }
      }
    }
  }

  /** A lockout comes of exactly failMax failed checks within one failure window, with no success in between. */
  lemma LockoutHasCause(ls: seq<Lockout>, rs: seq<Request>, k: nat, c: Config)
    requires Sound(ls, rs, c) && k < |rs| && Locks(ls[k], rs[k], c)
    ensures exists lo: nat :: lo <= k && FailureCount(ls, rs, lo, k + 1) == c.failMax && Quiet(ls, rs, lo, k, c)
                              && rs[k].at - rs[lo].at < c.window
  {
    var l, r := ls[k], rs[k];
    Bounded(ls, rs, k, c);
    assert k > 0 ==> rs[k - 1].at <= r.at;
    SinceForward(r.at, l.windowStart);
    var lo := k;
    if r.at - l.windowStart < c.window {
      lo := CountHasStart(ls, rs, k, c);
    }
    assert FailureCount(ls, rs, lo, k + 1) == FailureCount(ls, rs, lo, k) + 1 == c.failMax;
  }

  lemma {:induction false} CountSinceReset(ls: seq<Lockout>, rs: seq<Request>, i: nat, hi: nat, c: Config)
    requires Sound(ls, rs, c) && i < hi <= |rs| && (Passes(ls[i], rs[i]) || Locks(ls[i], rs[i], c))
    requires Quiet(ls, rs, i + 1, hi, c) && rs[hi - 1].at - rs[i].at < c.window
    ensures ls[hi].windowStart == rs[i].at && ls[hi].failures == FailureCount(ls, rs, i + 1, hi)
    decreases hi
  {
    var last := hi - 1;
    assert ls[hi] == Handle(ls[last], rs[last], c);
    if i < last {
      assert rs[i].at <= rs[last - 1].at <= rs[last].at;
      CountSinceReset(ls, rs, i, last, c);
      SinceForward(rs[last].at, rs[i].at);
    }
  }

  /** Less than one window after a success or a lockout, failMax failed checks suffice for the next lockout. */
  lemma ResetStartsWindow(ls: seq<Lockout>, rs: seq<Request>, i: nat, hi: nat, c: Config)
    requires Sound(ls, rs, c) && i < hi <= |rs| && (Passes(ls[i], rs[i]) || Locks(ls[i], rs[i], c))
    requires forall j :: i < j < hi ==> !Passes(ls[j], rs[j])
    requires rs[hi - 1].at - rs[i].at < c.window && FailureCount(ls, rs, i + 1, hi) >= c.failMax
    ensures exists j :: i < j < hi && Locks(ls[j], rs[j], c)
  {
    if Quiet(ls, rs, i + 1, hi, c) {
      CountSinceReset(ls, rs, i, hi, c);
      Bounded(ls, rs, hi, c);
    } else {
      var j :| i + 1 <= j < hi && (Passes(ls[j], rs[j]) || Locks(ls[j], rs[j], c));
    }
  }

  /** The lock is over when its time is: the first request after that has its credentials checked. */
  lemma UnlockedWhenOver(ls: seq<Lockout>, rs: seq<Request>, i: nat, j: nat, c: Config)
    requires Sound(ls, rs, c) && i < j < |rs| && Locks(ls[i], rs[i], c)
    requires var over := rs[i].at + Min(c.base * Pow2(LockoutCount(ls, rs, i + 1, c)), c.cap);
             rs[j].at >= over && forall m :: i < m < j ==> rs[m].at < over
    ensures Checked(ls[j], rs[j])
  {
    KthLockoutLasts(ls, rs, i, c);
    if i + 1 < j {
      LockedUntilOver(ls, rs, i, j - 1, c);
    }
  }

  // ---------------------------------------------------------------------------
  // The bound is exact
  // ---------------------------------------------------------------------------

  /** `failMax` - 1 failures in the last second of the first failure window and as many in the next second. */
  function Spread(c: Config): seq<Request>
    requires c.Valid()
  {
    seq(2 * (c.failMax - 1), i => Request(if i < c.failMax - 1 then c.window - 1 else c.window, false))
  }

  lemma {:induction false} SpreadStates(ls: seq<Lockout>, c: Config, n: nat)
    requires c.Valid() && IsRun(ls, Spread(c), c) && n <= 2 * (c.failMax - 1)
    ensures var k := c.failMax - 1;
            ls[n] == if n <= k then Lockout(0, n, 0, 0) else Lockout(c.window, n - k, 0, 0)
    ensures forall i :: 0 <= i < n ==> Fails(ls[i], Spread(c)[i]) && !Locks(ls[i], Spread(c)[i], c)
  {
    if n > 0 {
      SpreadStates(ls, c, n - 1);
      var r := Spread(c)[n - 1];
      assert ls[n] == Handle(ls[n - 1], r, c);
      SinceForward(r.at, ls[n - 1].windowStart);
    }
  }

  lemma {:induction false} AllFail(ls: seq<Lockout>, rs: seq<Request>, hi: nat)
    requires hi <= |rs| && |ls| == |rs| + 1 && forall i :: 0 <= i < hi ==> Fails(ls[i], rs[i])
    ensures FailureCount(ls, rs, 0, hi) == hi
  {
    if hi > 0 {
      AllFail(ls, rs, hi - 1);
    }
  }

  /** One failure fewer can go without a lockout: 2 * failMax - 2 failed checks within two seconds, and no success. */
  lemma FewerNeedNotLock(c: Config)
    requires c.Valid()
    ensures var rs := Spread(c);
            var ls := Run(rs, c);
            && Sound(ls, rs, c) && FailureCount(ls, rs, 0, |rs|) == 2 * c.failMax - 2
            && forall i :: 0 <= i < |rs| ==> !Locks(ls[i], rs[i], c) && rs[i].at <= rs[0].at + 1
  {
    var rs := Spread(c);
    var ls := Run(rs, c);
    SpreadStates(ls, c, |rs|);
    AllFail(ls, rs, |rs|);
  }

  class AuthGate {
    const config: Config
    var windowStart: Seconds
    var failures: nat
    var cooldown: nat
    var lockUntil: Seconds

    ghost function State(): Lockout
      reads this
    {
      Lockout(windowStart, failures, cooldown, lockUntil)
    }

    constructor (config: Config)
      ensures this.config == config && State() == OPEN
    {
      this.config := config;
      windowStart, failures, cooldown, lockUntil := 0, 0, 0, 0;
    }

    method RecordFailure(now: Seconds)
      modifies this
      ensures State() == Failure(old(State()), now, config)
    {
      if Since(now, windowStart) >= config.window {
        windowStart := now;
        failures := 0;
      }
      failures := failures + 1;
      if failures >= config.failMax {
        var base := if cooldown == 0 then config.base else cooldown;
        cooldown := base * 2 % U32;
        if cooldown > config.cap {
          cooldown := config.cap;
        }
        lockUntil := (now + cooldown) % U32;
        windowStart := now;
        failures := 0;
      }
    }

    method RecordSuccess(now: Seconds)
      modifies this
      ensures State() == Success(old(State()), now)
      ensures failures == 0 && windowStart == now && lockUntil == 0 && cooldown == old(cooldown)
    {
      lockUntil := 0;
      windowStart := now;
      failures := 0;
    }

    /** The gate at the start of the command handler; a refused request is told how long to wait. */
    method Authenticate(r: Request) returns (passed: bool, retryAfter: nat)
      modifies this
      ensures State() == Handle(old(State()), r, config)
      ensures passed == (Checked(old(State()), r) && r.good)
      ensures passed ==> failures == 0 && windowStart == r.at && lockUntil == 0 && cooldown == old(cooldown)
      ensures !passed ==> retryAfter == Remaining(State(), r.at)
    {
      retryAfter := if lockUntil != 0 && r.at < lockUntil then lockUntil - r.at else 0;
      if retryAfter > 0 {
        return false, retryAfter;
      }
      if !r.good {
        RecordFailure(r.at);
        retryAfter := if lockUntil != 0 && r.at < lockUntil then lockUntil - r.at else 0;
        return false, retryAfter;
      }
      RecordSuccess(r.at);
      return true, 0;
    }
  }
}
