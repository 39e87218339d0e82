/** Decimal numerals: `std::to_string` and `strtoull` on 64-bit numbers. */
module Decimals {
  import opened Widths

  predicate IsDigit(c: char) { '0' <= c <= '9' }

  function Digit(n: nat): (c: char)
    requires n < 10
    ensures IsDigit(c)
  {
    '0' + n as char
  }

  function Dec(n: nat): (s: string)
    ensures s != [] && forall c <- s :: IsDigit(c)
  {
    if n < 10 then [Digit(n)] else Dec(n / 10) + [Digit(n % 10)]
  }

  /** The number a string of digits denotes. */
  function Value(s: string): nat
    requires forall c <- s :: IsDigit(c)
  {
    if s == [] then 0 else
    assert forall c <- s[..|s| - 1] :: c in s;
    assert IsDigit(s[|s| - 1]);
    Value(s[..|s| - 1]) * 10 + (s[|s| - 1] - '0') as nat
  }

  function LeadingDigits(s: string): (d: string)
    ensures forall c <- d :: IsDigit(c)
  {
    if s == [] || !IsDigit(s[0]) then [] else [s[0]] + LeadingDigits(s[1..])
  }

  function SkipSpace(s: string): string {
    if s != [] && (s[0] == ' ' || '\t' <= s[0] <= '\r') then SkipSpace(s[1..]) else s
  }

  /** `strtoull(s, nullptr, 10)`: saturates, and negates modulo 2^64 after a minus sign. */
  function Strtoull(s: string): nat {
    var t := SkipSpace(s);
    var signed := t != [] && (t[0] == '-' || t[0] == '+');
    var v := Value(LeadingDigits(if signed then t[1..] else t));
    if v >= U64 then U64 - 1 else if signed && t[0] == '-' then (U64 - v) % U64 else v
  }

  lemma {:induction false} ValueOfDec(n: nat)
    ensures Value(Dec(n)) == n
  {
    if n >= 10 {
      ValueOfDec(n / 10);
      assert Dec(n)[..|Dec(n)| - 1] == Dec(n / 10);
    }
  }

  function Pow10(k: nat): (p: nat)
    ensures p > 0
  {
    if k == 0 then 1 else 10 * Pow10(k - 1)
  }

  lemma FromTheRight(s: string, d: char, t: string, k: nat)
    requires t == s + [d] && k < |t|
    ensures t[|t| - 1 - k] == if k == 0 then d else s[|s| - k]
  {
  }

  lemma DigitChar(n: nat)
    requires n < 10
    ensures Digit(n) == "0123456789"[n]
  {
  }

  /** The numeral, digit by digit from the right; it starts with a zero only if it is "0". */
  lemma {:induction false} DecAt(n: nat, k: nat)
    requires k < |Dec(n)|
    ensures Dec(n)[|Dec(n)| - 1 - k] == "0123456789"[n / Pow10(k) % 10]
    ensures Dec(n)[0] == '0' ==> n == 0
  {
    DigitChar(n % 10);
    if n >= 10 {
      DecAt(n / 10, if k > 0 then k - 1 else 0);
      FromTheRight(Dec(n / 10), Digit(n % 10), Dec(n), k);
      if k > 0 {
        DivideTwice(n, 10, Pow10(k - 1));
      }
    }
  }

  lemma {:induction false} LeadingStops(d: string, rest: string)
    requires (forall c <- d :: IsDigit(c)) && (rest == [] || !('0' <= rest[0] <= '9'))
    ensures LeadingDigits(d + rest) == d
  {
    if d == [] {
      assert d + rest == rest;
    } else {
      assert d[0] in d && forall c <- d[1..] :: c in d;
      LeadingStops(d[1..], rest);
      assert (d + rest)[1..] == d[1..] + rest;
    }
  }

  lemma {:induction false} SpaceSkipped(space: string, t: string)
    requires (forall c <- space :: c in " \t\n\r" || c as int in {11, 12})
    requires t != [] && t[0] in "-+0123456789"
    ensures SkipSpace(space + t) == t
  {
    if space == [] {
      assert space + t == t;
    } else {
      assert space[0] in space && forall c <- space[1..] :: c in space;
      SpaceSkipped(space[1..], t);
      assert (space + t)[1..] == space[1..] + t;
    }
  }

  function Read(sign: string, n: nat): nat {
    var max := 0xFFFF_FFFF_FFFF_FFFF;
    if n > max then max else if sign == "-" && n > 0 then max + 1 - n else n
  }

  lemma SignRead(s: string, sign: string, d: string, rest: string)
    requires SkipSpace(s) == sign + (d + rest) && sign in {"", "+", "-"} && d != []
    requires (forall c <- d :: IsDigit(c)) && (rest == [] || !('0' <= rest[0] <= '9'))
    ensures Strtoull(s) == Read(sign, Value(d))
  {
    var t := sign + (d + rest);
    assert d[0] in d && t[0] == if sign == [] then d[0] else sign[0];
    LeadingStops(d, rest);
    if sign == [] {
      assert t == d + rest;
    } else {
      assert t[1..] == d + rest;
    }
  }

  /**
   A numeral is read through white space and a sign up to the first other character: too large a number gives the
   largest, and a minus sign negates modulo 2^64.
   */
  lemma StrtoullReads(space: string, sign: string, n: nat, rest: string)
    requires (forall c <- space :: c in " \t\n\r" || c as int in {11, 12}) && sign in {"", "+", "-"}
    requires rest == [] || !('0' <= rest[0] <= '9')
    ensures Strtoull(space + (sign + (Dec(n) + rest))) == Read(sign, n)
  {
    var t := sign + (Dec(n) + rest);
    assert Dec(n)[0] in Dec(n) && IsDigit(Dec(n)[0]);
    assert t[0] == if sign == [] then Dec(n)[0] else sign[0];
    SpaceSkipped(space, t);
    ValueOfDec(n);
    SignRead(space + t, sign, Dec(n), rest);
  }

  lemma {:induction false} LeadingAll(s: string)
    requires forall c <- s :: IsDigit(c)
    ensures LeadingDigits(s) == s
  {
    if s != [] {
      assert s[0] in s && forall c <- s[1..] :: c in s;
      LeadingAll(s[1..]);
    }
  }

  lemma StrtoullOfDec(n: nat)
    requires n < U64
    ensures Strtoull(Dec(n)) == n
  {
    assert IsDigit(Dec(n)[0]);
    LeadingAll(Dec(n));
    ValueOfDec(n);
  }
}
