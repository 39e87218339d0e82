/**
 The key wrap rounds of RFC 3394 over any semi-blocks: the index-based and the shift-register
 description of section 2.2.1, and the unwrapping steps of section 2.2.2.
 */
module WrapRounds {
  /**
   What the rounds need: a permutation of pairs of semi-blocks with its inverse, and a way of mixing
   the step counter into the register that undoes itself.
   */
  datatype Primitives<!S(!new)> = Primitives(encrypt: (S, S) -> (S, S), decrypt: (S, S) -> (S, S), mix: (S, nat) -> S)
  {
    ghost predicate Lawful() {
      && (forall a, b :: decrypt(encrypt(a, b).0, encrypt(a, b).1) == (a, b))
      && (forall a, b :: encrypt(decrypt(a, b).0, decrypt(a, b).1) == (a, b))
      && (forall a, t :: mix(mix(a, t), t) == a)
    }
  }

  /** The register A and the semi-blocks R[1..n] (here r[0..n-1]). */
  datatype Regs<S> = Regs(a: S, r: seq<S>)

  /** The index a step works on, when `t` steps came before it: it runs through 0..n-1 over and over. */
  function Position(t: nat, n: nat): (i: nat)
    requires n > 0
    ensures i < n
  {
    if t == 0 || Position(t - 1, n) + 1 == n then 0 else Position(t - 1, n) + 1
  }

  lemma {:induction false} PositionFrom(base: nat, n: nat, i: nat)
    requires i < n && Position(base, n) == 0
    ensures Position(base + i, n) == i
  {
    if i > 0 {
      PositionFrom(base, n, i - 1);
    }
  }

  /** In round `j`, step n*j + i + 1 works on index i. */
  lemma {:induction false} PositionInRound(n: nat, j: nat, i: nat)
    requires i < n
    ensures Position(n * j + i, n) == i
    decreases j, i
  {
    if i > 0 {
      PositionInRound(n, j, i - 1);
    } else if j > 0 {
      PositionInRound(n, j - 1, n - 1);
      assert n * j == n * (j - 1) + n;
    }
  }

  function WrapStep<S(!new)>(p: Primitives<S>, s: Regs<S>, t: nat): Regs<S>
    requires t >= 1 && s.r != []
  {
    var i := Position(t - 1, |s.r|);
    var (a, x) := p.encrypt(s.a, s.r[i]);
    Regs(p.mix(a, t), s.r[i := x])
  }

  function UnwrapStep<S(!new)>(p: Primitives<S>, s: Regs<S>, t: nat): Regs<S>
    requires t >= 1 && s.r != []
  {
    var i := Position(t - 1, |s.r|);
    var (a, x) := p.decrypt(p.mix(s.a, t), s.r[i]);
    Regs(a, s.r[i := x])
  }

  /** Steps 1 to `t`. */
  function WrapSteps<S(!new)>(p: Primitives<S>, s: Regs<S>, t: nat): (s': Regs<S>)
    requires s.r != []
    ensures |s'.r| == |s.r|
  {
    if t == 0 then s else WrapStep(p, WrapSteps(p, s, t - 1), t)
  }

  /** Steps `t` down to 1. */
  function UnwrapSteps<S(!new)>(p: Primitives<S>, s: Regs<S>, t: nat): (s': Regs<S>)
    requires s.r != []
    ensures |s'.r| == |s.r|
    decreases t
  {
    if t == 0 then s else UnwrapSteps(p, UnwrapStep(p, s, t), t - 1)
  }

  /** The shift register: every step works on the first semi-block and moves it to the end. */
  function ShiftSteps<S(!new)>(p: Primitives<S>, s: Regs<S>, t: nat): (s': Regs<S>)
    requires s.r != []
    ensures |s'.r| == |s.r|
  {
    if t == 0 then s else
    var q := ShiftSteps(p, s, t - 1);
    var (a, x) := p.encrypt(q.a, q.r[0]);
    Regs(p.mix(a, t), q.r[1..] + [x])
  }

  lemma StepInverse<S(!new)>(p: Primitives<S>, s: Regs<S>, t: nat)
    requires p.Lawful() && t >= 1 && s.r != []
    ensures UnwrapStep(p, WrapStep(p, s, t), t) == s
    ensures WrapStep(p, UnwrapStep(p, s, t), t) == s
  {
    var i := Position(t - 1, |s.r|);
    var (a, x) := p.encrypt(s.a, s.r[i]);
    assert s.r[i := x][i := s.r[i]] == s.r;
    var (b, y) := p.decrypt(p.mix(s.a, t), s.r[i]);
    assert s.r[i := y][i := s.r[i]] == s.r;
  }

  lemma {:induction false} UnwrapAfterWrap<S(!new)>(p: Primitives<S>, s: Regs<S>, t: nat)
    requires p.Lawful() && s.r != []
    ensures UnwrapSteps(p, WrapSteps(p, s, t), t) == s
  {
    if t > 0 {
      StepInverse(p, WrapSteps(p, s, t - 1), t);
      UnwrapAfterWrap(p, s, t - 1);
    }
  }

  lemma {:induction false} WrapAfterUnwrap<S(!new)>(p: Primitives<S>, s: Regs<S>, t: nat)
    requires p.Lawful() && s.r != []
    ensures WrapSteps(p, UnwrapSteps(p, s, t), t) == s
    decreases t
  {
    if t > 0 {
      WrapAfterUnwrap(p, UnwrapStep(p, s, t), t - 1);
      StepInverse(p, s, t);
    }
  }

  function Rotate<T>(s: seq<T>, k: nat): seq<T>
    requires k <= |s|
  {
    s[k..] + s[..k]
  }

  lemma RotateStep<T>(s: seq<T>, k: nat, x: T)
    requires k < |s|
    ensures Rotate(s, k)[0] == s[k]
    ensures Rotate(s, k)[1..] + [x] == Rotate(s[k := x], if k + 1 == |s| then 0 else k + 1)
  {
  }

  /** After `t` steps the shift register is the indexed state rotated to the current index. */
  lemma {:induction false} ShiftIsRotation<S(!new)>(p: Primitives<S>, s: Regs<S>, t: nat)
    requires s.r != []
    ensures ShiftSteps(p, s, t).a == WrapSteps(p, s, t).a
    ensures ShiftSteps(p, s, t).r == Rotate(WrapSteps(p, s, t).r, Position(t, |s.r|))
  {
    if t > 0 {
      ShiftIsRotation(p, s, t - 1);
      var q, k := WrapSteps(p, s, t - 1), Position(t - 1, |s.r|);
      RotateStep(q.r, k, p.encrypt(q.a, q.r[k]).1);
    }
  }

  /** After whole rounds the two descriptions coincide. */
  lemma ShiftAfterRounds<S(!new)>(p: Primitives<S>, s: Regs<S>, rounds: nat)
    requires s.r != []
    ensures ShiftSteps(p, s, |s.r| * rounds) == WrapSteps(p, s, |s.r| * rounds)
  {
    var t := |s.r| * rounds;
    ShiftIsRotation(p, s, t);
    PositionInRound(|s.r|, rounds, 0);
    assert Rotate(WrapSteps(p, s, t).r, 0) == WrapSteps(p, s, t).r;
  }

  // ---------------------------------------------------------------------------
  // The loops of the source: the buffer is rewritten in place, one semi-block per step
  // ---------------------------------------------------------------------------

  /** The inner wrapping loop: the steps t = base + 1 .. base + n. */
  method WrapRound<S(!new)>(p: Primitives<S>, buffer: array<S>, a: S, base: nat, ghost start: Regs<S>) returns (a': S)
    requires buffer.Length > 0 && |start.r| == buffer.Length && Position(base, buffer.Length) == 0
    requires Regs(a, buffer[..]) == WrapSteps(p, start, base)
    modifies buffer
    ensures Regs(a', buffer[..]) == WrapSteps(p, start, base + buffer.Length)
  {
    var n := buffer.Length;
    a' := a;
    for i := 1 to n + 1
      invariant Regs(a', buffer[..]) == WrapSteps(p, start, base + i - 1)
    {
      var t := base + i;
      PositionFrom(base, n, i - 1);
      ghost var before := buffer[..];
      var (high, low) := p.encrypt(a', buffer[i - 1]);
      a' := p.mix(high, t);
      buffer[i - 1] := low;
      assert buffer[..] == before[i - 1 := low];
    }
  }

  /** The wrapping loops: six rounds over the buffer, with t = n*j + i. */
  method WrapLoops<S(!new)>(p: Primitives<S>, buffer: array<S>, iv: S) returns (a: S)
    requires buffer.Length > 0
    modifies buffer
    ensures Regs(a, buffer[..]) == WrapSteps(p, Regs(iv, old(buffer[..])), buffer.Length * 6)
  {
    var n := buffer.Length;
    a := iv;
    ghost var start := Regs(iv, buffer[..]);
    for j := 0 to 6
      invariant Regs(a, buffer[..]) == WrapSteps(p, start, n * j)
    {
      PositionInRound(n, j, 0);
      a := WrapRound(p, buffer, a, n * j, start);
      assert n * j + n == n * (j + 1);
    }
  }

  /** The inner unwrapping loop: the steps t = base + n down to base + 1. */
  method UnwrapRound<S(!new)>(p: Primitives<S>, buffer: array<S>, a: S, base: nat) returns (a': S)
    requires buffer.Length > 0 && Position(base, buffer.Length) == 0
    modifies buffer
    ensures UnwrapSteps(p, Regs(a', buffer[..]), base)
         == UnwrapSteps(p, Regs(a, old(buffer[..])), base + buffer.Length)
  {
    var n := buffer.Length;
    a' := a;
    ghost var goal := UnwrapSteps(p, Regs(a, buffer[..]), base + n);
    for i := n downto 0
      invariant UnwrapSteps(p, Regs(a', buffer[..]), base + i) == goal
    {
      var t := base + i + 1;
      PositionFrom(base, n, i);
      ghost var before := buffer[..];
      var (high, low) := p.decrypt(p.mix(a', t), buffer[i]);
      a' := high;
      buffer[i] := low;
      assert buffer[..] == before[i := low];
    }
  }

  /** Where the round before starts. */
  method RoundBefore(n: nat, j: nat, base: nat) returns (b: nat)
    requires n > 0 && base == n * (j + 1)
    ensures b + n == base && b == n * j && Position(b, n) == 0
  {
    PositionInRound(n, j, 0);
    b := base - n;
  }

  method UnwrapLoops<S(!new)>(p: Primitives<S>, buffer: array<S>, iv: S) returns (a: S)
    requires buffer.Length > 0
    modifies buffer
    ensures Regs(a, buffer[..]) == UnwrapSteps(p, Regs(iv, old(buffer[..])), buffer.Length * 6)
  {
    var n := buffer.Length;
    a := iv;
    var base := n * 6;
    ghost var goal := UnwrapSteps(p, Regs(iv, buffer[..]), base);
    for j := 6 downto 0
      invariant base == n * j
      invariant UnwrapSteps(p, Regs(a, buffer[..]), base) == goal
    {
      base := RoundBefore(n, j, base);
      a := UnwrapRound(p, buffer, a, base);
    }
  }

  /** Primitives that agree everywhere drive the rounds to the same result. */
  lemma {:induction false} SamePrimitives<S(!new)>(p: Primitives<S>, q: Primitives<S>, s: Regs<S>, t: nat)
    requires forall a, b :: p.encrypt(a, b) == q.encrypt(a, b) && p.decrypt(a, b) == q.decrypt(a, b)
    requires forall a, k :: p.mix(a, k) == q.mix(a, k)
    requires s.r != []
    ensures WrapSteps(p, s, t) == WrapSteps(q, s, t) && UnwrapSteps(p, s, t) == UnwrapSteps(q, s, t)
    decreases t
  {
    if t > 0 {
      SamePrimitives(p, q, s, t - 1);
      SamePrimitives(p, q, UnwrapStep(p, s, t), t - 1);
    }
  }
}
