/**
 The 64-bit register of the key wrap (src/keystore/key_wrap.cpp) on a little-endian machine, and
 what mixing the byte-swapped step counter into it does to its octets.
 */
module Words {
  import opened Bytes
  import opened LittleEndian

  /** 8 octets. */
  type Semi = s: seq<bv8> | |s| == 8 witness [0, 0, 0, 0, 0, 0, 0, 0]

  /** The integer that `memcpy` of 8 octets leaves in a uint64_t (little-endian machine). */
  function Load(s: Semi): bv64 {
    (s[0] as bv64) | (s[1] as bv64 << 8) | (s[2] as bv64 << 16) | (s[3] as bv64 << 24)
    | (s[4] as bv64 << 32) | (s[5] as bv64 << 40) | (s[6] as bv64 << 48) | (s[7] as bv64 << 56)
  }

  /** The octets of a uint64_t in memory. */
  function Store(a: bv64): Semi {
    [(a & 0xFF) as bv8, ((a >> 8) & 0xFF) as bv8, ((a >> 16) & 0xFF) as bv8, ((a >> 24) & 0xFF) as bv8,
     ((a >> 32) & 0xFF) as bv8, ((a >> 40) & 0xFF) as bv8, ((a >> 48) & 0xFF) as bv8, ((a >> 56) & 0xFF) as bv8]
  }

  /** `__builtin_bswap64`. */
  function ByteSwap(a: bv64): bv64 {
    (a << 56) | ((a & 0xFF00) << 40) | ((a & 0xFF_0000) << 24) | ((a & 0xFF00_0000) << 8)
    | ((a >> 8) & 0xFF00_0000) | ((a >> 24) & 0xFF_0000) | ((a >> 40) & 0xFF00) | (a >> 56)
  }

  function Xor(x: Semi, y: Semi): Semi {
    [x[0] ^ y[0], x[1] ^ y[1], x[2] ^ y[2], x[3] ^ y[3], x[4] ^ y[4], x[5] ^ y[5], x[6] ^ y[6], x[7] ^ y[7]]
  }

  function Reversed(s: Semi): Semi { [s[7], s[6], s[5], s[4], s[3], s[2], s[1], s[0]] }

  lemma StoreLoad(s: Semi)
    ensures Store(Load(s)) == s
  {
  }

  lemma StoreXor(a: bv64, b: bv64)
    ensures Store(a ^ b) == Xor(Store(a), Store(b))
  {
  }

  lemma XorTwice(x: Semi, y: Semi)
    ensures Xor(Xor(x, y), y) == x
  {
  }

  /** Swapping the integer reverses its octets in memory. */
  lemma SwapReverses(a: bv64)
    ensures Store(ByteSwap(a)) == Reversed(Store(a))
  {
  }

  lemma XorStored(s: Semi, a: bv64, w: bv64)
    requires a == Load(s)
    ensures Store(a ^ w) == Xor(s, Store(w))
  {
    StoreXor(a, w);
    StoreLoad(s);
  }

  /** Mixing in a swapped integer is an octet-wise XOR with its octets in reverse. */
  lemma SwappedXor(s: Semi, a: bv64)
    ensures Store(Load(s) ^ ByteSwap(a)) == Xor(s, Reversed(Store(a)))
  {
    XorStored(s, Load(s), ByteSwap(a));
    SwapReverses(a);
  }

  // ---------------------------------------------------------------------------
  // Numbers
  // ---------------------------------------------------------------------------

  /** The digit of `t` to the base 256 with weight 256^k. */
  function Digit(t: nat, k: nat): byte { ShiftRight(t, k) % 256 }

  function Octet(t: nat, k: nat): bv8 { Digit(t, k) as bv8 }

  /** The uint64_t with the value of `t` modulo 2^64. */
  function Word(t: nat): bv64 {
    Load([Octet(t, 0), Octet(t, 1), Octet(t, 2), Octet(t, 3), Octet(t, 4), Octet(t, 5), Octet(t, 6), Octet(t, 7)])
  }

  /** A number as 8 octets, most significant first. */
  function BigEndian(t: nat): Semi {
    [Octet(t, 7), Octet(t, 6), Octet(t, 5), Octet(t, 4), Octet(t, 3), Octet(t, 2), Octet(t, 1), Octet(t, 0)]
  }

  lemma WordReversed(t: nat)
    ensures Reversed(Store(Word(t))) == BigEndian(t)
  {
    StoreLoad([Octet(t, 0), Octet(t, 1), Octet(t, 2), Octet(t, 3), Octet(t, 4), Octet(t, 5), Octet(t, 6), Octet(t, 7)]);
  }

  /** The number that digits to the base 256 denote, most significant first. */
  function Positional(d: Bytes): nat {
    if d == [] then 0 else 256 * Positional(d[..|d| - 1]) + d[|d| - 1]
  }

  lemma {:induction false} DigitsValue(t: nat, d: Bytes, k: nat)
    requires |d| <= k && ShiftRight(t, k) == 0 && forall i :: 0 <= i < |d| ==> d[i] == Digit(t, k - 1 - i)
    ensures Positional(d) == ShiftRight(t, k - |d|)
  {
    if d != [] {
      var n := |d| - 1;
      DigitsValue(t, d[..n], k);
      assert d[n] == Digit(t, k - |d|);
    }
  }

  lemma {:induction false} NothingAbove(t: nat, k: nat)
    requires t < Pow256(k)
    ensures ShiftRight(t, k) == 0
  {
    if k > 0 {
      NothingAbove(t / 256, k - 1);
      ShiftFirst(t, k);
    }
  }

  function Digits(t: nat): (d: Bytes)
    ensures |d| == 8
  {
    [Digit(t, 7), Digit(t, 6), Digit(t, 5), Digit(t, 4), Digit(t, 3), Digit(t, 2), Digit(t, 1), Digit(t, 0)]
  }

  lemma DigitsDenote(t: nat)
    requires t < Pow256(8)
    ensures Positional(Digits(t)) == t
  {
    NothingAbove(t, 8);
    DigitsValue(t, Digits(t), 8);
  }

  /** The eight octets are the digits of a number below 2^64, most significant first. */
  lemma BigEndianValue(t: nat, d: Bytes)
    requires t < Pow256(8) && d == Digits(t)
    ensures Positional(d) == t
    ensures BigEndian(t) == [d[0] as bv8, d[1] as bv8, d[2] as bv8, d[3] as bv8,
                             d[4] as bv8, d[5] as bv8, d[6] as bv8, d[7] as bv8]
  {
    DigitsDenote(t);
    OctetsOfDigits(t, d);
  }

  lemma OctetsOfDigits(t: nat, d: Bytes)
    requires d == Digits(t)
    ensures BigEndian(t) == [d[0] as bv8, d[1] as bv8, d[2] as bv8, d[3] as bv8,
                             d[4] as bv8, d[5] as bv8, d[6] as bv8, d[7] as bv8]
  {
  }
}
