/**
 The throttles of the firmware (firmware/main/hsm.cpp): a fixed-window request limiter and the
 lockout after failed authentication. Times are seconds in 32 bits.
 */
module Throttle {
  import opened Widths

  type Seconds = t: nat | t < U32

  /** Unsigned 32-bit difference. */
  function Since(now: Seconds, start: Seconds): Seconds { (now - start + U32) % U32 }

  lemma SinceForward(now: Seconds, start: Seconds)
    requires start <= now
    ensures Since(now, start) == now - start
  {
  }

  predicate Ordered(times: seq<Seconds>) {
    forall i, k :: 0 <= i <= k < |times| ==> times[i] <= times[k]
  }

  // ---------------------------------------------------------------------------
  // The request limiter
  // ---------------------------------------------------------------------------

  datatype Window = Window(start: Seconds, count: nat)

  /** The window a call at `now` falls into, before it is counted. */
  function Current(w: Window, now: Seconds, window: nat): Window {
    if Since(now, w.start) >= window then Window(now, 0) else w
  }

  predicate Admits(w: Window, now: Seconds, max: nat, window: nat) { Current(w, now, window).count < max }

  /** `rate_limited_window`. */
  function Call(w: Window, now: Seconds, max: nat, window: nat): Window {
    var c := Current(w, now, window);
    if c.count >= max then c else c.(count := c.count + 1)
  }

  /** The state after calls at the given times. */
  function Calls(w: Window, times: seq<Seconds>, max: nat, window: nat): Window {
    if times == [] then w else
    Call(Calls(w, times[..|times| - 1], max, window), times[|times| - 1], max, window)
  }

  predicate Admitted(w: Window, times: seq<Seconds>, i: nat, max: nat, window: nat)
    requires i < |times|
  {
    Admits(Calls(w, times[..i], max, window), times[i], max, window)
  }

  /** How many of the calls were admitted in a window that started at `start`. */
  function UnderStart(w: Window, times: seq<Seconds>, start: nat, max: nat, window: nat): nat {
    if times == [] then 0 else
    var n := |times| - 1;
    UnderStart(w, times[..n], start, max, window)
    + if Admitted(w, times, n, max, window) && Calls(w, times, max, window).start == start then 1 else 0
  }

  /** How many of the calls were admitted from `from` on and before `to`. */
  function Between(w: Window, times: seq<Seconds>, from: nat, to: nat, max: nat, window: nat): nat {
    if times == [] then 0 else
    var n := |times| - 1;
    Between(w, times[..n], from, to, max, window)
    + if Admitted(w, times, n, max, window) && from <= times[n] < to then 1 else 0
  }

  /** A window as a limiter may start with: not over-full, and not in the future of the first call. */
  predicate Fresh(first: Window, times: seq<Seconds>, max: nat) {
    first.count <= max && (times != [] ==> first.start <= times[0])
  }

  lemma FreshFront(first: Window, times: seq<Seconds>, max: nat)
    requires Fresh(first, times, max) && Ordered(times) && times != []
    ensures Fresh(first, times[..|times| - 1], max) && Ordered(times[..|times| - 1])
    ensures first.start <= times[|times| - 1]
  {
  }

  lemma {:induction false} StartsInThePast(first: Window, times: seq<Seconds>, max: nat, window: nat)
    requires Ordered(times) && Fresh(first, times, max)
    ensures var w := Calls(first, times, max, window);
            w.count <= max && w.start <= (if times == [] then first.start else times[|times| - 1])
  {
    if times != [] {
      FreshFront(first, times, max);
      StartsInThePast(first, times[..|times| - 1], max, window);
    }
  }

  /** A window that is over never comes back: calls counted under a start are at most the count it ended with. */
  lemma {:induction false} StartCounts(first: Window, times: seq<Seconds>, start: nat, max: nat, window: nat)
    requires Ordered(times) && Fresh(first, times, max) && window > 0
    ensures var w, n := Calls(first, times, max, window), UnderStart(first, times, start, max, window);
            n <= max && (start == w.start ==> n <= w.count) && (start > w.start ==> n == 0)
  {
    if times != [] {
      var n := |times| - 1;
      var before, now := times[..n], times[n];
      FreshFront(first, times, max);
      StartCounts(first, before, start, max, window);
      StartsInThePast(first, before, max, window);
      var w := Calls(first, before, max, window);
      SinceForward(now, w.start);
    }
  }

  /** One start admits at most `max` calls, in every run with a clock that does not go back. */
  lemma AtMostMaxPerStart(first: Window, times: seq<Seconds>, start: nat, max: nat, window: nat)
    requires Ordered(times) && Fresh(first, times, max) && window > 0
    ensures UnderStart(first, times, start, max, window) <= max
  {
    StartCounts(first, times, start, max, window);
  }

  /** Counting calls in an interval one window long: at most one window can start inside it. */
  lemma {:induction false} IntervalCounts(first: Window, times: seq<Seconds>, from: nat, max: nat, window: nat)
    requires Ordered(times) && Fresh(first, times, max) && window > 0
    ensures var w, n := Calls(first, times, max, window), Between(first, times, from, from + window, max, window);
            && n <= 2 * max
            && (times == [] || times[|times| - 1] < from ==> n == 0)
            && (times == [] || times[|times| - 1] < from + window ==>
                  n <= (if w.start < from then 0 else max) + w.count)
  {
    if times != [] {
      var n := |times| - 1;
      var before, now := times[..n], times[n];
      FreshFront(first, times, max);
      IntervalCounts(first, before, from, max, window);
      StartsInThePast(first, before, max, window);
      var w := Calls(first, before, max, window);
      SinceForward(now, w.start);
      if n > 0 {
        assert before[n - 1] == times[n - 1] <= now;
      }
    }
  }

  /** Any interval of `window` seconds contains at most 2 * max admitted calls. */
  lemma AtMostTwiceMax(first: Window, times: seq<Seconds>, from: nat, max: nat, window: nat)
    requires Ordered(times) && Fresh(first, times, max) && window > 0
    ensures Between(first, times, from, from + window, max, window) <= 2 * max
  {
    IntervalCounts(first, times, from, max, window);
  }

  const IDLE := Window(0, 0)

  function Repeat(t: Seconds, k: nat): (r: seq<Seconds>)
    ensures |r| == k && forall i :: 0 <= i < k ==> r[i] == t
  {
    if k == 0 then [] else Repeat(t, k - 1) + [t]
  }

  lemma OneMoreCall(times: seq<Seconds>, t: Seconds, from: nat, to: nat, max: nat, window: nat)
    ensures var w := Calls(IDLE, times, max, window);
            && Calls(IDLE, times + [t], max, window) == Call(w, t, max, window)
            && Between(IDLE, times + [t], from, to, max, window)
               == Between(IDLE, times, from, to, max, window)
                  + if Admits(w, t, max, window) && from <= t < to then 1 else 0
  {
    var all := times + [t];
    assert all[..|times|] == times && all[|times|] == t;
  }

  /** A call that finds room in its window. */
  lemma Room(times: seq<Seconds>, t: Seconds, from: nat, to: nat, max: nat, window: nat, c: Window)
    requires from <= t < to && c == Current(Calls(IDLE, times, max, window), t, window) && c.count < max
    ensures Calls(IDLE, times + [t], max, window) == Window(c.start, c.count + 1)
    ensures Between(IDLE, times + [t], from, to, max, window) == Between(IDLE, times, from, to, max, window) + 1
  {
    OneMoreCall(times, t, from, to, max, window);
  }

  /** Calls at one moment are all admitted as long as the window has room. */
  lemma {:induction false} Burst(times: seq<Seconds>, t: Seconds, k: nat, from: nat, to: nat, max: nat, window: nat,
                                 c: Window)
    requires from <= t < to && c == Current(Calls(IDLE, times, max, window), t, window)
    requires 0 < k && c.count + k <= max && Since(t, c.start) < window
    ensures Calls(IDLE, times + Repeat(t, k), max, window) == Window(c.start, c.count + k)
    ensures Between(IDLE, times + Repeat(t, k), from, to, max, window)
         == Between(IDLE, times, from, to, max, window) + k
  {
    if k == 1 {
      assert Repeat(t, 1) == [t];
      Room(times, t, from, to, max, window, c);
    } else {
      Burst(times, t, k - 1, from, to, max, window, c);
      assert times + Repeat(t, k) == times + Repeat(t, k - 1) + [t];
      Room(times + Repeat(t, k - 1), t, from, to, max, window, Window(c.start, c.count + k - 1));
    }
  }

  lemma TwoBurstsOrdered(s: Seconds, t: Seconds, k: nat, m: nat)
    requires s <= t
    ensures Ordered(Repeat(s, k) + Repeat(t, m))
  {
  }

  /** The bound is reached: `max` calls in the last second of a window and `max` in the next second. */
  lemma TwiceMaxIsReached(max: nat, window: nat)
    requires max > 0 && 2 <= window < U32
    ensures var times := Repeat(window - 1, max) + Repeat(window, max);
            Ordered(times) && Between(IDLE, times, window - 1, 2 * window - 1, max, window) == 2 * max
  {
    var from, to, first := window - 1, 2 * window - 1, Repeat(window - 1, max);
    TwoBurstsOrdered(window - 1, window, max, max);
    SinceForward(window - 1, 0);
    SinceForward(window, 0);
    assert Between(IDLE, first, from, to, max, window) == max && Calls(IDLE, first, max, window) == Window(0, max) by {
      assert [] + first == first;
      Burst([], window - 1, max, from, to, max, window, IDLE);
    }
    Burst(first, window, max, from, to, max, window, Window(window, 0));
  }

  // What is admitted after a quiet time

  function Least(a: nat, b: nat): nat { if a < b then a else b }

  /** Call `i` comes at least one window after everything before it. */
  predicate Quiet(first: Window, times: seq<Seconds>, i: nat, window: nat)
    requires i < |times|
  {
    (if i == 0 then first.start else times[i - 1]) + window <= times[i]
  }

  lemma {:induction false} SinceQuiet(first: Window, times: seq<Seconds>, i: nat, n: nat, max: nat, window: nat)
    requires Ordered(times) && Fresh(first, times, max) && window > 0 && i < n <= |times|
    requires Quiet(first, times, i, window) && times[n - 1] < times[i] + window
    ensures Calls(first, times[..n], max, window) == Window(times[i], Least(n - i, max))
    ensures Admitted(first, times, n - 1, max, window) <==> n - 1 - i < max
    decreases n
  {
    assert times[..n][..n - 1] == times[..n - 1];
    if i + 1 < n {
      assert times[n - 2] <= times[n - 1];
      SinceQuiet(first, times, i, n - 1, max, window);
      SinceForward(times[n - 1], times[i]);
    } else {
      StartsInThePast(first, times[..i], max, window);
      SinceForward(times[i], Calls(first, times[..i], max, window).start);
    }
  }

  /** After a quiet time of one window, exactly the first `max` calls of the next window are admitted. */
  lemma FirstMaxAdmitted(first: Window, times: seq<Seconds>, i: nat, k: nat, max: nat, window: nat)
    requires Ordered(times) && Fresh(first, times, max) && window > 0 && i <= k < |times|
    requires Quiet(first, times, i, window) && times[k] < times[i] + window
    ensures Admitted(first, times, k, max, window) <==> k - i < max
  {
    SinceQuiet(first, times, i, k + 1, max, window);
  }

  class RateWindow {
    var start: Seconds
    var count: nat

    ghost function State(): Window
      reads this
    {
      Window(start, count)
    }

    /** The device-wide window starts at 0, that of a connection at its first request. */
    constructor (now: Seconds)
      ensures State() == Window(now, 0)
    {
      start, count := now, 0;
    }

    method RateLimited(now: Seconds, max: nat, window: nat) returns (limited: bool)
      modifies this
      ensures State() == Call(old(State()), now, max, window)
      ensures limited == !Admits(old(State()), now, max, window)
    {
      if Since(now, start) >= window {
        start := now;
        count := 0;
      }
      if count >= max {
        return true;
      }
      count := count + 1;
      return false;
    }
  }
}
