/**
 The wrapping process of section 2.2.1 of RFC 3394 on octet strings, written down without registers or words, and that
 the key wrap of src/keystore/key_wrap.cpp computes it.
 */
module Rfc3394 {
  import opened Wrappers
  import opened LittleEndian
  import opened Words
  import opened WrapRounds
  import opened KeyWraps

  /** The octets of a step number, most significant first. */
  function TimeOctets(t: nat): Semi {
    [(ShiftRight(t, 7) % 256) as bv8, (ShiftRight(t, 6) % 256) as bv8, (ShiftRight(t, 5) % 256) as bv8,
     (ShiftRight(t, 4) % 256) as bv8, (ShiftRight(t, 3) % 256) as bv8, (ShiftRight(t, 2) % 256) as bv8,
     (ShiftRight(t, 1) % 256) as bv8, (t % 256) as bv8]
  }

  /** MSB(64, B) ^ t. */
  function XorEach(b: Block, t: Semi): (a: Semi) {
    [b[0] ^ t[0], b[1] ^ t[1], b[2] ^ t[2], b[3] ^ t[3], b[4] ^ t[4], b[5] ^ t[5], b[6] ^ t[6], b[7] ^ t[7]]
  }

  /** One step on A | R[1] | ... | R[n]: B = AES(K, A | R[i]), A = MSB(64, B) ^ t, R[i] = LSB(64, B). */
  function Step(c: Cipher, w: seq<bv8>, i: nat, t: Semi): (w': seq<bv8>)
    requires 1 <= i && 8 * i + 8 <= |w|
    ensures |w'| == |w|
  {
    var b := c.encrypt(w[..8] + w[8 * i..8 * i + 8]);
    XorEach(b, t) + w[8..8 * i] + b[8..] + w[8 * i + 8..]
  }

  function StepOf(c: Cipher, octets: nat -> Semi): (seq<bv8>, nat, nat) -> seq<bv8> {
    (w: seq<bv8>, i: nat, t: nat) => if 1 <= i && 8 * i + 8 <= |w| then Step(c, w, i, octets(t)) else w
  }

  /** Steps 1 to `i` of a round: step i is number base + i. */
  function Round<W>(step: (W, nat, nat) -> W, w: W, base: nat, i: nat): W {
    if i == 0 then w else step(Round(step, w, base, i - 1), i, base + i)
  }

  /** The first `j` rounds over n semi-blocks: step i of round j is number t = n * j + i. */
  function Rounds<W>(step: (W, nat, nat) -> W, w: W, n: nat, j: nat): W {
    if j == 0 then w else Round(step, Rounds(step, w, n, j - 1), n * (j - 1), n)
  }

  /** Six rounds over eight octets A6 and the key. */
  function WrapOctets(c: Cipher, p: seq<bv8>): seq<bv8>
    requires |p| % 8 == 0
  {
    Rounds(StepOf(c, TimeOctets), [0xA6, 0xA6, 0xA6, 0xA6, 0xA6, 0xA6, 0xA6, 0xA6] + p, |p| / 8, 6)
  }

  // Registers laid out one after the other

  function Flat(s: Regs<Semi>): (w: seq<bv8>)
    ensures |w| == 8 * |s.r| + 8
  {
    s.a + Join(s.r)
  }

  lemma {:induction false} JoinAt(r: seq<Semi>, i: nat)
    requires i < |r|
    ensures Join(r)[8 * i..8 * i + 8] == r[i]
  {
    var n := |r| - 1;
    if i < n {
      JoinAt(r[..n], i);
      assert Join(r)[8 * i..8 * i + 8] == Join(r[..n])[8 * i..8 * i + 8];
    }
  }

  lemma {:induction false} JoinUpdate(r: seq<Semi>, i: nat, x: Semi)
    requires i < |r|
    ensures Join(r[i := x]) == Join(r)[..8 * i] + x + Join(r)[8 * i + 8..]
  {
    var n := |r| - 1;
    if i < n {
      JoinUpdate(r[..n], i, x);
      assert r[i := x][..n] == r[..n][i := x];
    } else {
      assert r[i := x][..n] == r[..n];
    }
  }

  lemma FlatParts(s: Regs<Semi>, i: nat)
    requires 1 <= i <= |s.r|
    ensures var w := Flat(s);
            && w[..8] == s.a && w[8 * i..8 * i + 8] == s.r[i - 1]
            && w[8..8 * i] == Join(s.r)[..8 * (i - 1)] && w[8 * i + 8..] == Join(s.r)[8 * (i - 1) + 8..]
  {
    JoinAt(s.r, i - 1);
    var w, g := Flat(s), Join(s.r);
    assert w[8 * i..8 * i + 8] == g[8 * (i - 1)..8 * (i - 1) + 8];
  }

  /** Primitives that encipher A | R[i] and mix in the octets of the step number. */
  ghost predicate Follow(p: Primitives<Semi>, c: Cipher, octets: nat -> Semi) {
    && (forall a: Semi, b: Semi :: p.encrypt(a, b) == EncryptPair(c, a, b))
    && (forall a: Semi, t: nat :: p.mix(a, t) == Xor(a, octets(t)))
  }

  /** One step of the registers is one step of the octets. */
  lemma StepFlat(p: Primitives<Semi>, c: Cipher, octets: nat -> Semi, s: Regs<Semi>, i: nat, t: nat)
    requires Follow(p, c, octets) && 1 <= i <= |s.r| && t >= 1 && Position(t - 1, |s.r|) == i - 1
    ensures Flat(WrapStep<Semi>(p, s, t)) == Step(c, Flat(s), i, octets(t))
  {
    var b := c.encrypt(s.a + s.r[i - 1]);
    assert p.encrypt(s.a, s.r[i - 1]) == EncryptPair(c, s.a, s.r[i - 1]) == (b[..8], b[8..]);
    RegsFlat(c, s, i, octets(t), b);
  }

  lemma XorIsEach(b: Block, t: Semi, a: Semi)
    requires a == b[..8]
    ensures Xor(a, t) == XorEach(b, t)
  {
    assert a[0] == b[0] && a[1] == b[1] && a[2] == b[2] && a[3] == b[3];
    assert a[4] == b[4] && a[5] == b[5] && a[6] == b[6] && a[7] == b[7];
  }

  lemma Grouped(a: seq<bv8>, p: seq<bv8>, q: seq<bv8>, r: seq<bv8>)
    ensures a + (p + q + r) == a + p + q + r
  {
  }

  lemma RegsFlat(c: Cipher, s: Regs<Semi>, i: nat, t: Semi, b: Block)
    requires 1 <= i <= |s.r| && b == c.encrypt(s.a + s.r[i - 1])
    ensures Flat(Regs(Xor(b[..8], t), s.r[i - 1 := b[8..]])) == Step(c, Flat(s), i, t)
  {
    var g := Join(s.r);
    FlatParts(s, i);
    JoinUpdate(s.r, i - 1, b[8..]);
    XorIsEach(b, t, b[..8]);
    Grouped(XorEach(b, t), g[..8 * (i - 1)], b[8..], g[8 * (i - 1) + 8..]);
  }

  /** Values that go from one to the next by the steps of the rounds. */
  ghost predicate Chain<W(!new)>(step: (W, nat, nat) -> W, flat: nat -> W, n: nat)
    requires n > 0
  {
    forall t: nat :: flat(t + 1) == step(flat(t), Position(t, n) + 1, t + 1)
  }

  lemma {:induction false} RoundFlat<W(!new)>(step: (W, nat, nat) -> W, flat: nat -> W, n: nat, base: nat, i: nat)
    requires n > 0 && Chain(step, flat, n) && i <= n && Position(base, n) == 0
    ensures flat(base + i) == Round(step, flat(base), base, i)
  {
    if i > 0 {
      RoundFlat(step, flat, n, base, i - 1);
      PositionFrom(base, n, i - 1);
      var t: nat := base + i - 1;
      assert flat(t + 1) == step(flat(t), Position(t, n) + 1, t + 1);
    }
  }

  lemma {:induction false} RoundsFlat<W(!new)>(step: (W, nat, nat) -> W, flat: nat -> W, n: nat, j: nat)
    requires n > 0 && Chain(step, flat, n)
    ensures flat(n * j) == Rounds(step, flat(0), n, j)
  {
    if j > 0 {
      RoundsFlat(step, flat, n, j - 1);
      PositionInRound(n, j - 1, 0);
      RoundFlat(step, flat, n, n * (j - 1), n);
      assert n * j == n * (j - 1) + n;
    }
  }

  lemma BigEndianIs(t: nat)
    ensures BigEndian(t) == TimeOctets(t)
  {
  }

  lemma AesFollows(c: Cipher)
    ensures Follow(Aes(c), c, TimeOctets)
  {
    forall a: Semi, t: nat ensures Aes(c).mix(a, t) == Xor(a, TimeOctets(t)) {
      BigEndianIs(t);
    }
  }

  ghost predicate IsStep(step: (seq<bv8>, nat, nat) -> seq<bv8>, c: Cipher, octets: nat -> Semi) {
    forall w: seq<bv8>, i: nat, t: nat :: 1 <= i && 8 * i + 8 <= |w| ==> step(w, i, t) == Step(c, w, i, octets(t))
  }

  lemma RegsStep(p: Primitives<Semi>, c: Cipher, octets: nat -> Semi, s: Regs<Semi>, t: nat, i: nat,
                 step: (seq<bv8>, nat, nat) -> seq<bv8>, w: seq<bv8>)
    requires Follow(p, c, octets) && s.r != [] && i == Position(t, |s.r|) + 1 && IsStep(step, c, octets) && w == Flat(s)
    ensures Flat(WrapStep<Semi>(p, s, t + 1)) == step(w, i, t + 1)
  {
    StepFlat(p, c, octets, s, i, t + 1);
  }

  lemma RegsChain(p: Primitives<Semi>, c: Cipher, octets: nat -> Semi, s: Regs<Semi>, flat: nat -> seq<bv8>,
                  step: (seq<bv8>, nat, nat) -> seq<bv8>)
    requires Follow(p, c, octets) && s.r != [] && IsStep(step, c, octets)
    requires forall t: nat :: flat(t) == Flat(WrapSteps<Semi>(p, s, t))
    ensures Chain(step, flat, |s.r|)
  {
    forall t: nat ensures flat(t + 1) == step(flat(t), Position(t, |s.r|) + 1, t + 1) {
      RegsLink(p, c, octets, s, WrapSteps<Semi>(p, s, t), t, step);
    }
  }

  lemma RegsLink(p: Primitives<Semi>, c: Cipher, octets: nat -> Semi, s: Regs<Semi>, q: Regs<Semi>, t: nat,
                 step: (seq<bv8>, nat, nat) -> seq<bv8>)
    requires Follow(p, c, octets) && s.r != [] && IsStep(step, c, octets) && q == WrapSteps<Semi>(p, s, t)
    ensures Flat(WrapSteps<Semi>(p, s, t + 1)) == step(Flat(q), Position(t, |s.r|) + 1, t + 1)
  {
    RegsStep(p, c, octets, q, t, Position(t, |s.r|) + 1, step, Flat(q));
  }

  /** Six rounds of the registers are six rounds of the octets. */
  lemma SixRounds(p: Primitives<Semi>, c: Cipher, octets: nat -> Semi, s: Regs<Semi>)
    requires Follow(p, c, octets) && s.r != []
    ensures Flat(WrapSteps<Semi>(p, s, |s.r| * 6)) == Rounds(StepOf(c, octets), Flat(s), |s.r|, 6)
  {
    var flat := (t: nat) => if s.r == [] then [] else Flat(WrapSteps<Semi>(p, s, t));
    RegsChain(p, c, octets, s, flat, StepOf(c, octets));
    RoundsFlat(StepOf(c, octets), flat, |s.r|, 6);
  }

  lemma AesSixRounds(c: Cipher, s: Regs<Semi>)
    requires s.r != []
    ensures Flat(WrapSteps<Semi>(Aes(c), s, |s.r| * 6)) == Rounds(StepOf(c, TimeOctets), Flat(s), |s.r|, 6)
  {
    AesFollows(c);
    SixRounds(Aes(c), c, TimeOctets, s);
  }

  lemma WrapBytesIsRfc(c: Cipher, p: seq<bv8>, s: Regs<Semi>)
    requires LegalPlaintext(p) && s == Start(p)
    ensures WrapBytes(c, p) == WrapOctets(c, p)
  {
    AesSixRounds(c, s);
    OctetsAreRounds(c, p, s);
    BytesAreFlat(c, p, s);
  }

  lemma BytesAreFlat(c: Cipher, p: seq<bv8>, s: Regs<Semi>)
    requires LegalPlaintext(p) && s == Start(p)
    ensures WrapBytes(c, p) == Flat(WrapSteps<Semi>(Aes(c), s, |s.r| * 6))
  {
  }

  lemma OctetsAreRounds(c: Cipher, p: seq<bv8>, s: Regs<Semi>)
    requires LegalPlaintext(p) && s == Start(p)
    ensures WrapOctets(c, p) == Rounds(StepOf(c, TimeOctets), Flat(s), |s.r|, 6)
  {
    StartFlat(p);
  }

  lemma StartFlat(p: seq<bv8>)
    requires LegalPlaintext(p)
    ensures Flat(Start(p)) == [0xA6, 0xA6, 0xA6, 0xA6, 0xA6, 0xA6, 0xA6, 0xA6] + p
  {
    JoinSplit(p);
  }

  /** Wrapping a key of legal size gives the octets of RFC 3394, whatever the cipher; other sizes are refused. */
  lemma WrapIsRfc(c: Cipher, p: seq<bv8>)
    ensures Wrap(c, p).Success? <==> |p| >= 16 && |p| % 8 == 0
    ensures Wrap(c, p).Success? ==> Wrap(c, p).value == WrapOctets(c, p)
  {
    if |p| >= 16 && |p| % 8 == 0 {
      WrapBytesIsRfc(c, p, Start(p));
    }
  }
}
