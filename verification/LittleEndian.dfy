/** Little-endian integers (src/persistence/le_bytes.h). */
module LittleEndian {
  import opened Bytes
  import Widths

  function Pow256(n: nat): (p: nat)
    ensures p > 0
  {
    if n == 0 then 1 else 256 * Pow256(n - 1)
  }

  /** The low `n` bytes of `v`, least significant first. */
  function Put(v: nat, n: nat): (b: Bytes)
    ensures |b| == n
  {
    if n == 0 then [] else [v % 256] + Put(v / 256, n - 1)
  }

  function Get(b: Bytes): nat {
    if b == [] then 0 else b[0] + 256 * Get(b[1..])
  }

  /** Reading back what was put gives the number, if it fits. */
  lemma {:induction false} GetPut(v: nat, n: nat)
    requires v < Pow256(n)
    ensures Get(Put(v, n)) == v
  {
    if n > 0 {
      GetPut(v / 256, n - 1);
      assert Put(v, n)[1..] == Put(v / 256, n - 1);
    }
  }

  /** Every byte string of length n is the encoding of the number it reads as, and that number fits. */
  lemma {:induction false} PutGet(b: Bytes)
    ensures Put(Get(b), |b|) == b && Get(b) < Pow256(|b|)
  {
    if b != [] {
      PutGet(b[1..]);
      assert b == [b[0]] + b[1..];
      assert Get(b) / 256 == Get(b[1..]) && Get(b) % 256 == b[0];
    }
  }

  /** The octet at position i has the weight 256^i. */
  lemma {:induction false} PutAt(v: nat, n: nat, i: nat)
    requires i < n
    ensures Put(v, n)[i] == v / Pow256(i) % 256
  {
    if i > 0 {
      PutAt(v / 256, n - 1, i - 1);
      Widths.DivideTwice(v, 256, Pow256(i - 1));
    }
  }

  /** The widths in use. */
  lemma Words()
    ensures Pow256(4) == 0x1_0000_0000 && Pow256(8) == 0x1_0000_0000_0000_0000
  {
    assert Pow256(2) == 0x1_0000 && Pow256(4) == 0x1_0000_0000;
    assert Pow256(6) == 0x1_0000_0000_0000;
  }

  lemma {:induction false} PowMonotone(m: nat, n: nat)
    requires m <= n
    ensures Pow256(m) <= Pow256(n)
    decreases n - m
  {
    if m < n {
      PowMonotone(m + 1, n);
    }
  }

  // Parts of a byte string, one after the other

  lemma Peel(a: Bytes, b: Bytes, n: nat)
    requires |a| == n
    ensures (a + b)[..n] == a && (a + b)[n..] == b
  {
  }

  lemma Deeper(f: Bytes, at: nat, a: Bytes, b: Bytes)
    requires at <= |f| && f[at..] == a + b
    ensures at + |a| <= |f| && f[at..at + |a|] == a && f[at + |a|..] == b
  {
    assert f[at..at + |a|] == f[at..][..|a|] && f[at + |a|..] == f[at..][|a|..];
  }

  // The loops

  /** The value shifted right by 8 * i bits. */
  function ShiftRight(v: nat, i: nat): nat {
    if i == 0 then v else ShiftRight(v, i - 1) / 256
  }

  lemma {:induction false} PutAppend(v: nat, n: nat)
    ensures Put(v, n + 1) == Put(v, n) + [ShiftRight(v, n) % 256]
  {
    if n > 0 {
      PutAppend(v / 256, n - 1);
      ShiftFirst(v, n);
    }
  }

  lemma {:induction false} ShiftFirst(v: nat, i: nat)
    requires i > 0
    ensures ShiftRight(v, i) == ShiftRight(v / 256, i - 1)
  {
    if i > 1 {
      ShiftFirst(v, i - 1);
    }
  }

  /** `put_le32` and `put_le64`: push `n` bytes. */
  method PutLoop(out: Bytes, v: nat, n: nat) returns (r: Bytes)
    ensures r == out + Put(v, n)
  {
    r := out;
    for i := 0 to n
      invariant r == out + Put(v, i)
    {
      PutAppend(v, i);
      r := r + [ShiftRight(v, i) % 256];
    }
  }

  /** `get_le64`: from the last byte down, in a word of `n` bytes that drops what is shifted out. */
  method GetLoop(p: Bytes, n: nat) returns (v: nat)
    requires |p| == n
    ensures v == Get(p)
  {
    v := 0;
    var i := n;
    assert p[n..] == [];
    while i > 0
      invariant 0 <= i <= n && v == Get(p[i..])
    {
      i := i - 1;
      assert p[i..][1..] == p[i + 1..];
      FitsShifted(p[i + 1..], n);
      v := v * 256 % Pow256(n) + p[i];
    }
    assert p[0..] == p;
  }

  lemma SmallRemainder(x: nat, m: nat)
    requires x < m
    ensures x % m == x
  {
  }

  lemma FitsShifted(b: Bytes, n: nat)
    requires |b| < n
    ensures Get(b) * 256 % Pow256(n) == Get(b) * 256
  {
    assert Get(b) * 256 < Pow256(n) by {
      PutGet(b);
      PowMonotone(|b| + 1, n);
    }
    SmallRemainder(Get(b) * 256, Pow256(n));
  }
}
