/**
 Base64 and hexadecimal (src/core/utils.cpp), and the base64 encoder of the REST service
 (rest_api/internal/fabric_manager.go). Shifts and masks on octets are written as division,
 remainder and multiplication by powers of two.
 */
module Codecs {
  import opened Wrappers
  import opened Bytes
  import opened Widths

  /** What a decoder that has produced `out` so far returns, given the outcome for the rest. */
  function Prefixed(out: Bytes, rest: Option<Bytes>): Option<Bytes> {
    match rest
    case Some(x) => Some(out + x)
    case None => None
  }

  lemma PrefixedTwice(out: Bytes, more: Bytes, rest: Option<Bytes>)
    ensures Prefixed(out, Prefixed(more, rest)) == Prefixed(out + more, rest)
  {
    if rest.Some? {
      assert out + (more + rest.value) == (out + more) + rest.value;
    }
  }

  lemma PrefixedNothing(rest: Option<Bytes>)
    ensures Prefixed([], rest) == rest
  {
    if rest.Some? {
      assert [] + rest.value == rest.value;
    }
  }

  // ---------------------------------------------------------------------------
  // Hexadecimal
  // ---------------------------------------------------------------------------

  /** The digit at position `n` of 0123456789abcdef. */
  function HexDigit(n: nat): (c: char)
    requires n < 16
  {
    if n < 10 then '0' + n as char else 'a' + (n - 10) as char
  }

  function HexEncode(x: Bytes): (s: string)
    ensures |s| == 2 * |x|
  {
    if x == [] then [] else [HexDigit(x[0] / 16), HexDigit(x[0] % 16)] + HexEncode(x[1..])
  }

  /** The value of a digit, or 0xFF. */
  function HexValue(c: char): (v: nat)
    ensures v < 16 || v == 0xFF
  {
    if '0' <= c <= '9' then (c - '0') as nat
    else if 'a' <= c <= 'f' then (c - 'a') as nat + 10
    else if 'A' <= c <= 'F' then (c - 'A') as nat + 10
    else 0xFF
  }

  function HexPairs(s: string): Option<Bytes>
    requires |s| % 2 == 0
  {
    if s == [] then Some([]) else
    var hi, lo := HexValue(s[0]), HexValue(s[1]);
    if hi == 0xFF || lo == 0xFF then None else Prefixed([hi * 16 + lo], HexPairs(s[2..]))
  }

  function HexDecode(s: string): Option<Bytes> {
    if |s| % 2 != 0 then None else HexPairs(s)
  }

  predicate LowerCaseHex(s: string) {
    forall c <- s :: !('A' <= c <= 'F')
  }

  /** Two characters per octet, the high half first, from the lower-case alphabet. */
  lemma {:induction false} HexAt(x: Bytes, k: nat)
    requires k < |x|
    ensures HexEncode(x)[2 * k] == "0123456789abcdef"[x[k] / 16]
    ensures HexEncode(x)[2 * k + 1] == "0123456789abcdef"[x[k] % 16]
  {
    if k == 0 {
      HexAlphabet(x[0] / 16);
      HexAlphabet(x[0] % 16);
    } else {
      HexAt(x[1..], k - 1);
      assert HexEncode(x)[2..] == HexEncode(x[1..]);
      assert HexEncode(x)[2 * k] == HexEncode(x)[2..][2 * (k - 1)];
      assert HexEncode(x)[2 * k + 1] == HexEncode(x)[2..][2 * (k - 1) + 1];
    }
  }

  lemma HexAlphabet(n: nat)
    requires n < 16
    ensures HexDigit(n) == "0123456789abcdef"[n]
  {
  }

  /** A character is read as n exactly if it stands at position n of either alphabet. */
  lemma HexReads(c: char, n: nat)
    requires n < 16
    ensures HexValue(c) == n <==> c == "0123456789abcdef"[n] || c == "0123456789ABCDEF"[n]
  {
  }

  lemma HexDigits(n: nat)
    requires n < 16
    ensures HexValue(HexDigit(n)) == n && !('A' <= HexDigit(n) <= 'F')
  {
  }

  lemma {:induction false} HexRoundTrip(x: Bytes)
    ensures HexDecode(HexEncode(x)) == Some(x)
  {
    if x != [] {
      HexRoundTrip(x[1..]);
      HexDigits(x[0] / 16);
      HexDigits(x[0] % 16);
      assert HexEncode(x)[2..] == HexEncode(x[1..]);
      assert x == [x[0]] + x[1..];
    }
  }

  lemma HexChar(c: char)
    requires HexValue(c) != 0xFF
    ensures HexDigit(HexValue(c)) == c <==> !('A' <= c <= 'F')
  {
  }

  lemma PairFirst(c: char, d: char, rest: string, s: string)
    requires |s| >= 2
    ensures [c, d] + rest == s <==> c == s[0] && d == s[1] && rest == s[2..]
  {
    assert s == [s[0], s[1]] + s[2..];
    assert ([c, d] + rest)[2..] == rest;
  }

  lemma LowerCaseSplit(s: string)
    requires |s| >= 2
    ensures LowerCaseHex(s) <==> !('A' <= s[0] <= 'F') && !('A' <= s[1] <= 'F') && LowerCaseHex(s[2..])
  {
    assert s == [s[0], s[1]] + s[2..];
    assert s[0] in s && s[1] in s;
    assert forall c <- s[2..] :: c in s;
  }

  /** Encoding what was decoded gives the text back exactly when it has no upper-case digit. */
  lemma {:induction false} HexCanonicalExactly(s: string)
    requires HexDecode(s).Some?
    ensures HexEncode(HexDecode(s).value) == s <==> LowerCaseHex(s)
  {
    if s != [] {
      HexCanonicalExactly(s[2..]);
      var x := HexDecode(s).value;
      assert x[1..] == HexDecode(s[2..]).value;
      HexChar(s[0]);
      HexChar(s[1]);
      LowerCaseSplit(s);
      PairFirst(HexDigit(x[0] / 16), HexDigit(x[0] % 16), HexEncode(x[1..]), s);
    }
  }

  /** Upper case is accepted and lost. */
  lemma UpperCaseIsLost(s: string)
    requires s == "AB"
    ensures HexDecode(s) == Some([0xAB]) && HexEncode([0xAB]) != s
  {
    assert s[2..] == [] && s[0] == 'A' && s[1] == 'B';
    assert HexPairs(s[2..]) == Some([]);
    assert [0xAB] + [] == [0xAB];
    HexCanonicalExactly(s);
  }

  lemma {:induction false} HexAppend(x: Bytes, b: byte)
    ensures HexEncode(x + [b]) == HexEncode(x) + [HexDigit(b / 16), HexDigit(b % 16)]
  {
    if x != [] {
      HexAppend(x[1..], b);
      assert (x + [b])[1..] == x[1..] + [b];
    }
  }

  /** `hex_encode`, filling a buffer two digits at a time. */
  method HexEncodeLoop(data: Bytes) returns (s: string)
    ensures s == HexEncode(data)
  {
    var buf := new char[2 * |data|];
    for k := 0 to |data|
      invariant buf[..2 * k] == HexEncode(data[..k])
    {
      HexAppend(data[..k], data[k]);
      assert data[..k + 1] == data[..k] + [data[k]];
      buf[2 * k] := HexDigit(data[k] / 16);
      buf[2 * k + 1] := HexDigit(data[k] % 16);
    }
    assert data[..|data|] == data && buf[..2 * |data|] == buf[..];
    return buf[..];
  }

  /** `hex_decode`. */
  method HexDecodeLoop(s: string) returns (r: Option<Bytes>)
    ensures r == HexDecode(s)
  {
    if |s| % 2 != 0 {
      return None;
    }
    var out: Bytes := [];
    var i := 0;
    PrefixedNothing(HexPairs(s));
    assert s[0..] == s;
    while i < |s|
      invariant 0 <= i <= |s| && i % 2 == 0
      invariant HexPairs(s) == Prefixed(out, HexPairs(s[i..]))
    {
      var hi, lo := HexValue(s[i]), HexValue(s[i + 1]);
      assert s[i..][2..] == s[i + 2..];
      if hi == 0xFF || lo == 0xFF {
        return None;
      }
      PrefixedTwice(out, [hi * 16 + lo], HexPairs(s[i + 2..]));
      out := out + [hi * 16 + lo];
      i := i + 2;
    }
    assert s[i..] == [] && out + [] == out;
    return Some(out);
  }

  // ---------------------------------------------------------------------------
  // Base64: octets and six-bit codes
  // ---------------------------------------------------------------------------

  /** Entries of the decoding table that are not positions in the alphabet. */
  const PADDING := 0xFE
  const INVALID := 0xFF

  /** An entry of the decoding table. */
  type Code = c: nat | c < 64 || c == PADDING || c == INVALID

  /** A position in the alphabet, or padding. */
  type Symbol = c: nat | c < 64 || c == PADDING

  function S0(b0: byte): (v: nat) ensures v < 64 { b0 / 4 }

  function S1(b0: byte, b1: byte): (v: nat) ensures v < 64 { (b0 % 4) * 16 + b1 / 16 }

  function S2(b1: byte, b2: byte): (v: nat) ensures v < 64 { (b1 % 16) * 4 + b2 / 64 }

  function S3(b2: byte): (v: nat) ensures v < 64 { b2 % 64 }

  function O0(c0: nat, c1: nat): byte requires c0 < 64 && c1 < 64 { c0 * 4 + c1 / 16 }

  function O1(c1: nat, c2: nat): byte requires c1 < 64 && c2 < 64 { (c1 % 16) * 16 + c2 / 4 }

  function O2(c2: nat, c3: nat): byte requires c2 < 64 && c3 < 64 { (c2 % 4) * 64 + c3 }

  lemma OctetsOfSextets(b0: byte, b1: byte, b2: byte)
    ensures O0(S0(b0), S1(b0, b1)) == b0 && O1(S1(b0, b1), S2(b1, b2)) == b1 && O2(S2(b1, b2), S3(b2)) == b2
  {
  }

  lemma SextetsOfOctets(c0: nat, c1: nat, c2: nat, c3: nat)
    requires c0 < 64 && c1 < 64 && c2 < 64 && c3 < 64
    ensures S0(O0(c0, c1)) == c0 && S1(O0(c0, c1), O1(c1, c2)) == c1
    ensures S2(O1(c1, c2), O2(c2, c3)) == c2 && S3(O2(c2, c3)) == c3
    ensures S1(O0(c0, c1), 0) == c1 <==> c1 % 16 == 0
    ensures S2(O1(c1, c2), 0) == c2 <==> c2 % 4 == 0
  {
  }

  /** The four codes for one, two or three octets. */
  function Group(x: Bytes): (g: seq<Symbol>)
    requires 1 <= |x| <= 3
    ensures |g| == 4
  {
    if |x| == 3 then [S0(x[0]), S1(x[0], x[1]), S2(x[1], x[2]), S3(x[2])]
    else if |x| == 2 then [S0(x[0]), S1(x[0], x[1]), S2(x[1], 0), PADDING]
    else [S0(x[0]), S1(x[0], 0), PADDING, PADDING]
  }

  function Codes(x: Bytes): (v: seq<Symbol>)
    ensures |v| % 4 == 0 && (v == [] <==> x == [])
  {
    if x == [] then [] else if |x| <= 3 then Group(x) else Group(x[..3]) + Codes(x[3..])
  }

  /** The octets of one group of four codes; padding is allowed only in the last group. */
  function Ungroup(g: seq<Code>, last: bool): Option<Bytes>
    requires |g| == 4
  {
    var c0, c1, c2, c3 := g[0], g[1], g[2], g[3];
    if c0 >= PADDING || c1 >= PADDING then None
    else if c2 == INVALID || c3 == INVALID then None
    else if c2 == PADDING && c3 != PADDING then None
    else if (c2 == PADDING || c3 == PADDING) && !last then None
    else if c2 == PADDING then Some([O0(c0, c1)])
    else if c3 == PADDING then Some([O0(c0, c1), O1(c1, c2)])
    else Some([O0(c0, c1), O1(c1, c2), O2(c2, c3)])
  }

  function Groups(v: seq<Code>): Option<Bytes>
    requires |v| % 4 == 0
  {
    if v == [] then Some([]) else
    match Ungroup(v[..4], |v| == 4)
    case Some(out) => Prefixed(out, Groups(v[4..]))
    case None => None
  }

  lemma UngroupThree(b0: byte, b1: byte, b2: byte, last: bool)
    ensures Ungroup(Group([b0, b1, b2]), last) == Some([b0, b1, b2])
  {
    OctetsOfSextets(b0, b1, b2);
  }

  lemma UngroupTwo(b0: byte, b1: byte, z: byte)
    requires z == 0
    ensures Ungroup(Group([b0, b1]), true) == Some([b0, b1])
  {
    OctetsOfSextets(b0, b1, z);
  }

  lemma FirstOctet(b0: byte, b1: byte)
    ensures O0(S0(b0), S1(b0, b1)) == b0
  {
  }

  lemma UngroupOne(b0: byte, z: byte)
    requires z == 0
    ensures Ungroup(Group([b0]), true) == Some([b0])
  {
    FirstOctet(b0, z);
    assert Group([b0]) == [S0(b0), S1(b0, z), PADDING, PADDING];
  }

  lemma UngroupGroup(x: Bytes, last: bool)
    requires 1 <= |x| <= 3 && (last || |x| == 3)
    ensures Ungroup(Group(x), last) == Some(x)
  {
    if |x| == 3 {
      assert x == [x[0], x[1], x[2]];
      UngroupThree(x[0], x[1], x[2], last);
    } else if |x| == 2 {
      assert x == [x[0], x[1]];
      UngroupTwo(x[0], x[1], 0);
    } else {
      assert x == [x[0]];
      UngroupOne(x[0], 0);
    }
  }

  lemma LastGroup(g: seq<Code>)
    requires |g| == 4
    ensures Groups(g) == Ungroup(g, true)
  {
    assert g[..4] == g && g[4..] == [];
    if Ungroup(g, true).Some? {
      assert Ungroup(g, true).value + [] == Ungroup(g, true).value;
    }
  }

  lemma {:induction false} GroupsOfCodes(x: Bytes)
    ensures Groups(Codes(x)) == Some(x)
    decreases |x|
  {
    var v := Codes(x);
    if x == [] {
    } else if |x| <= 3 {
      UngroupGroup(x, true);
      LastGroup(v);
    } else {
      GroupsOfCodes(x[3..]);
      UngroupGroup(x[..3], false);
      assert v[..4] == Group(x[..3]) && v[4..] == Codes(x[3..]);
      assert x == x[..3] + x[3..];
    }
  }

  /** The bits of a padded group that no octet uses are zero. */
  predicate UnusedBitsZero(g: seq<Code>)
    requires |g| == 4
  {
    if g[2] == PADDING then g[1] % 16 == 0 else if g[3] == PADDING then g[2] % 4 == 0 else true
  }

  lemma GroupOfOne(b: byte, s0: nat, s1: nat, c1: nat)
    requires s0 == S0(b) && s1 == S1(b, 0) && c1 < 64
    ensures Group([b]) == [s0, c1, PADDING, PADDING] <==> s1 == c1
  {
    assert [s0, c1, PADDING, PADDING][1] == c1;
  }

  lemma RegroupOne(c0: nat, c1: nat, z: nat)
    requires c0 < 64 && c1 < 64 && z == 0
    ensures Group([O0(c0, c1)]) == [c0, c1, PADDING, PADDING] <==> c1 % 16 == 0
  {
    SextetsOfOctets(c0, c1, z, z);
    GroupOfOne(O0(c0, c1), c0, S1(O0(c0, c1), z), c1);
  }

  lemma RegroupTwo(c0: nat, c1: nat, c2: nat, z: nat)
    requires c0 < 64 && c1 < 64 && c2 < 64 && z == 0
    ensures Group([O0(c0, c1), O1(c1, c2)]) == [c0, c1, c2, PADDING] <==> c2 % 4 == 0
  {
    SextetsOfOctets(c0, c1, c2, z);
    var g := Group([O0(c0, c1), O1(c1, c2)]);
    assert g[0] == c0 && g[1] == c1 && g[2] == S2(O1(c1, c2), z);
    assert [c0, c1, c2, PADDING][2] == c2;
  }

  lemma RegroupThree(c0: nat, c1: nat, c2: nat, c3: nat)
    requires c0 < 64 && c1 < 64 && c2 < 64 && c3 < 64
    ensures Group([O0(c0, c1), O1(c1, c2), O2(c2, c3)]) == [c0, c1, c2, c3]
  {
    SextetsOfOctets(c0, c1, c2, c3);
  }

  lemma RegroupExactly(g: seq<Code>, last: bool)
    requires |g| == 4 && Ungroup(g, last).Some?
    ensures 1 <= |Ungroup(g, last).value| <= 3 && (!last ==> |Ungroup(g, last).value| == 3 && UnusedBitsZero(g))
    ensures Group(Ungroup(g, last).value) == g <==> UnusedBitsZero(g)
  {
    assert g == [g[0], g[1], g[2], g[3]];
    if g[2] == PADDING {
      RegroupOne(g[0], g[1], 0);
    } else if g[3] == PADDING {
      RegroupTwo(g[0], g[1], g[2], 0);
    } else {
      RegroupThree(g[0], g[1], g[2], g[3]);
    }
  }

  lemma EncodeChunk(out: Bytes, rest: Bytes)
    requires |out| == 3
    ensures Codes(out + rest) == Group(out) + Codes(rest)
  {
    if rest == [] {
      assert out + rest == out && Group(out) + [] == Group(out);
    } else {
      assert (out + rest)[..3] == out && (out + rest)[3..] == rest;
    }
  }

  lemma GroupFirst(g: seq<Code>, rest: seq<Code>, v: seq<Code>)
    requires |g| == 4 && |v| >= 4
    ensures g + rest == v <==> g == v[..4] && rest == v[4..]
  {
    assert v == v[..4] + v[4..];
    assert (g + rest)[..4] == g && (g + rest)[4..] == rest;
  }

  lemma {:induction false} CanonicalExactly(v: seq<Code>)
    requires |v| % 4 == 0 && v != [] && Groups(v).Some?
    ensures Codes(Groups(v).value) == v <==> UnusedBitsZero(v[|v| - 4..])
    decreases |v|
  {
    if |v| == 4 {
      LastGroup(v);
      RegroupExactly(v, true);
      assert v[|v| - 4..] == v;
    } else {
      CanonicalExactly(v[4..]);
      assert v[4..][|v[4..]| - 4..] == v[|v| - 4..];
      CanonicalMore(v, Ungroup(v[..4], false).value, Groups(v[4..]).value);
    }
  }

  lemma CanonicalMore(v: seq<Code>, out: Bytes, rest: Bytes)
    requires |v| > 4 && Ungroup(v[..4], false) == Some(out)
    ensures Codes(out + rest) == v <==> Codes(rest) == v[4..]
  {
    assert |out| == 3 && Group(out) == v[..4] by { RegroupExactly(v[..4], false); }
    EncodeChunk(out, rest);
    GroupFirst(Group(out), Codes(rest), v);
  }

  // ---------------------------------------------------------------------------
  // Base64: characters
  // ---------------------------------------------------------------------------

  /** The character at position `i` of A-Z, a-z, 0-9, '+', '/'; or the padding character. */
  function CodeChar(i: Symbol): char {
    if i < 26 then 'A' + i as char
    else if i < 52 then 'a' + (i - 26) as char
    else if i < 62 then '0' + (i - 52) as char
    else if i == 62 then '+' else if i == 63 then '/' else '='
  }

  /** The decoding table. */
  function CharCode(c: char): Code {
    if 'A' <= c <= 'Z' then (c - 'A') as nat
    else if 'a' <= c <= 'z' then (c - 'a') as nat + 26
    else if '0' <= c <= '9' then (c - '0') as nat + 52
    else if c == '+' then 62
    else if c == '/' then 63
    else if c == '=' then PADDING
    else INVALID
  }

  const UPPER := "ABCDEFGHIJKLMNOPQRSTUVWXYZ"
  const LOWER := "abcdefghijklmnopqrstuvwxyz"
  const ALPHABET := UPPER + LOWER + "0123456789+/"

  lemma UpperCase(i: nat)
    requires i < 26
    ensures CodeChar(i) == UPPER[i]
  {
  }

  lemma LowerCase(i: nat)
    requires 26 <= i < 52
    ensures CodeChar(i) == LOWER[i - 26]
  {
  }

  lemma Alphabet(i: nat)
    requires i < 64
    ensures CodeChar(i) == ALPHABET[i]
  {
    if i < 26 {
      UpperCase(i);
    } else if i < 52 {
      LowerCase(i);
    } else {
      assert CodeChar(i) == "0123456789+/"[i - 52];
    }
  }

  lemma CodeInverse(i: Symbol)
    ensures CharCode(CodeChar(i)) == i
  {
  }

  lemma CharInverse(c: char)
    requires CharCode(c) != INVALID
    ensures CodeChar(CharCode(c)) == c
  {
  }

  function Text(v: seq<Symbol>): (s: string)
    ensures |s| == |v|
  {
    seq(|v|, i requires 0 <= i < |v| => CodeChar(v[i]))
  }

  function Lookup(s: string): (v: seq<Code>)
    ensures |v| == |s|
  {
    seq(|s|, i requires 0 <= i < |s| => CharCode(s[i]))
  }

  lemma LookupText(v: seq<Symbol>)
    ensures Lookup(Text(v)) == v
  {
    forall i | 0 <= i < |v| ensures Lookup(Text(v))[i] == v[i] {
      CodeInverse(v[i]);
    }
  }

  lemma TextLookup(s: string, v: seq<Symbol>)
    requires Lookup(s) == v
    ensures Text(v) == s
  {
    forall i | 0 <= i < |s| ensures Text(v)[i] == s[i] {
      assert CharCode(s[i]) == v[i];
      CharInverse(s[i]);
    }
  }

  function Base64Encode(x: Bytes): string {
    Text(Codes(x))
  }

  function Base64Decode(s: string): Option<Bytes> {
    if |s| % 4 != 0 then None else Groups(Lookup(s))
  }

  /** Decoding an encoding gives the octets back, for every octet string. */
  lemma Base64RoundTrip(x: Bytes)
    ensures Base64Decode(Base64Encode(x)) == Some(x)
  {
    LookupText(Codes(x));
    GroupsOfCodes(x);
  }

  /** Encoding what was decoded gives the text back exactly when the unused bits of the last group are zero. */
  lemma Base64CanonicalExactly(s: string)
    requires Base64Decode(s).Some? && s != []
    ensures Base64Encode(Base64Decode(s).value) == s <==> UnusedBitsZero(Lookup(s[|s| - 4..]))
  {
    var v, x := Lookup(s), Base64Decode(s).value;
    CanonicalExactly(v);
    assert v[|v| - 4..] == Lookup(s[|s| - 4..]);
    LookupText(Codes(x));
    if Codes(x) == v {
      TextLookup(s, Codes(x));
    }
  }

  /** Bits that no octet uses are accepted and lost. */
  lemma UnusedBitsAreLost(s: string)
    requires s == "AB=="
    ensures Base64Decode(s).Some? && Base64Encode(Base64Decode(s).value) != s
  {
    var v := Lookup(s);
    assert s[0] == 'A' && s[1] == 'B' && s[2] == '=' && s[3] == '=';
    assert v[0] == 0 && v[1] == 1 && v[2] == PADDING && v[3] == PADDING;
    LastGroup(v);
    assert s[|s| - 4..] == s;
    Base64CanonicalExactly(s);
  }

  // ---------------------------------------------------------------------------
  // Base64: the loops
  // ---------------------------------------------------------------------------

  lemma Associative<T>(a: seq<T>, b: seq<T>, c: seq<T>)
    ensures a + b + c == a + (b + c)
  {
  }

  lemma {:induction false} CodesAppend(x: Bytes, y: Bytes, n: nat)
    requires |x| == 3 * n
    ensures Codes(x + y) == Codes(x) + Codes(y)
    decreases n
  {
    if n == 0 {
      assert x + y == y;
    } else {
      var head, tail := x[..3], x[3..];
      CodesAppend(tail, y, n - 1);
      assert x == head + tail;
      Associative(head, tail, y);
      EncodeChunk(head, tail + y);
      EncodeChunk(head, tail);
      Associative(Group(head), Codes(tail), Codes(y));
    }
  }

  /** What one pass of an encoding loop at position `i` has to append. */
  lemma CodesAt(data: Bytes, i: nat)
    requires i < |data| && i % 3 == 0
    ensures var e := if i + 3 < |data| then i + 3 else |data|; Codes(data[..e]) == Codes(data[..i]) + Group(data[i..e])
  {
    var e := if i + 3 < |data| then i + 3 else |data|;
    assert data[..e] == data[..i] + data[i..e];
    CodesAppend(data[..i], data[i..e], i / 3);
  }

  /** One group as `base64_encode` computes it. */
  method GroupAt(data: Bytes, i: nat) returns (g: seq<Symbol>)
    requires i < |data|
    ensures g == Group(data[i..if i + 3 < |data| then i + 3 else |data|])
  {
    var b0 := data[i];
    var b1 := if i + 1 < |data| then data[i + 1] else 0;
    var b2 := if i + 2 < |data| then data[i + 2] else 0;
    g := [b0 / 4, (b0 % 4) * 16 + b1 / 16,
          if i + 1 < |data| then (b1 % 16) * 4 + b2 / 64 else PADDING,
          if i + 2 < |data| then b2 % 64 else PADDING];
  }

  /** One group as `b64Encode` of the REST service computes it: six-bit fields of a 24-bit number. */
  method GoGroupAt(b: Bytes, i: nat) returns (g: seq<Symbol>)
    requires i < |b|
    ensures g == Group(b[i..if i + 3 < |b| then i + 3 else |b|])
  {
    var remaining := |b| - i;
    if remaining >= 3 {
      var n := b[i] as int * 0x1_0000 + b[i + 1] as int * 0x100 + b[i + 2] as int;
      Fields(b[i], b[i + 1], b[i + 2]);
      g := [n / 0x4_0000 % 64, n / 0x1000 % 64, n / 0x40 % 64, n % 64];
    } else if remaining == 2 {
      var n := b[i] as int * 0x1_0000 + b[i + 1] as int * 0x100;
      Fields(b[i], b[i + 1], 0);
      g := [n / 0x4_0000 % 64, n / 0x1000 % 64, n / 0x40 % 64, PADDING];
    } else {
      var n := b[i] as int * 0x1_0000;
      Fields(b[i], 0, 0);
      g := [n / 0x4_0000 % 64, n / 0x1000 % 64, PADDING, PADDING];
    }
  }

  /** The 24-bit number is made of the four six-bit values. */
  lemma NumberOfGroup(b0: int, b1: int, b2: int)
    requires 0 <= b0 < 256 && 0 <= b1 < 256 && 0 <= b2 < 256
    ensures b0 * 0x1_0000 + b1 * 0x100 + b2
         == (b0 / 4) * 0x4_0000 + ((b0 % 4) * 16 + b1 / 16) * 0x1000 + ((b1 % 16) * 4 + b2 / 64) * 0x40 + b2 % 64
  {
    assert b0 == 4 * (b0 / 4) + b0 % 4;
    assert b1 == 16 * (b1 / 16) + b1 % 16;
    assert b2 == 64 * (b2 / 64) + b2 % 64;
  }

  lemma FieldsOf(n: int, s0: int, s1: int, s2: int, s3: int)
    requires 0 <= s0 < 64 && 0 <= s1 < 64 && 0 <= s2 < 64 && 0 <= s3 < 64
    requires n == s0 * 0x4_0000 + s1 * 0x1000 + s2 * 0x40 + s3
    ensures n / 0x4_0000 % 64 == s0 && n / 0x1000 % 64 == s1 && n / 0x40 % 64 == s2 && n % 64 == s3
  {
    DivMod(n, 0x4_0000, s0, s1 * 0x1000 + s2 * 0x40 + s3);
    DivMod(n, 0x1000, s0 * 64 + s1, s2 * 0x40 + s3);
    DivMod(n, 0x40, s0 * 4096 + s1 * 64 + s2, s3);
    DivMod(s0 * 64 + s1, 64, s0, s1);
    DivMod(s0 * 4096 + s1 * 64 + s2, 64, s0 * 64 + s1, s2);
  }

  /** The six-bit fields of the 24-bit number are those of the octet-wise computation. */
  lemma Fields(b0: byte, b1: byte, b2: byte)
    ensures var n := b0 as int * 0x1_0000 + b1 as int * 0x100 + b2 as int;
            && n / 0x4_0000 % 64 == S0(b0) && n / 0x1000 % 64 == S1(b0, b1)
            && n / 0x40 % 64 == S2(b1, b2) && n % 64 == S3(b2)
  {
    NumberOfGroup(b0, b1, b2);
    FieldsOf(b0 as int * 0x1_0000 + b1 as int * 0x100 + b2 as int, S0(b0), S1(b0, b1), S2(b1, b2), S3(b2));
  }

  lemma TextAppend(v: seq<Symbol>, w: seq<Symbol>)
    ensures Text(v + w) == Text(v) + Text(w)
  {
  }

  function Done(data: Bytes, i: nat): Bytes { if i <= |data| then data[..i] else data }

  lemma EncodeAt(data: Bytes, i: nat)
    requires i < |data| && i % 3 == 0
    ensures Base64Encode(Done(data, i + 3))
         == Base64Encode(data[..i]) + Text(Group(data[i..if i + 3 < |data| then i + 3 else |data|]))
  {
    CodesAt(data, i);
    TextAppend(Codes(data[..i]), Group(data[i..if i + 3 < |data| then i + 3 else |data|]));
    assert data[..|data|] == data;
  }

  /** Octets 3k to 3k + 2 as one number; octets that are missing at the end count as zero. */
  function Number(x: Bytes, k: nat): nat
    requires 3 * k < |x|
  {
    0x1_0000 * (x[3 * k] as nat) + 0x100 * (if 3 * k + 1 < |x| then x[3 * k + 1] as nat else 0)
    + (if 3 * k + 2 < |x| then x[3 * k + 2] as nat else 0)
  }

  /** The six-bit digits of a 24-bit number, highest first, of which one, two or three octets are given. */
  function Quartet(letters: string, n: nat, octets: nat): string
    requires |letters| == 64
  {
    [letters[n / 0x4_0000 % 64], letters[n / 0x1000 % 64],
     if octets > 1 then letters[n / 64 % 64] else '=', if octets > 2 then letters[n % 64] else '=']
  }

  lemma GroupText(letters: string, x: Bytes, n: nat, b0: byte, b1: byte, b2: byte)
    requires |letters| == 64 && forall i: nat :: i < 64 ==> CodeChar(i) == letters[i]
    requires 1 <= |x| <= 3 && b0 == x[0] && b1 == (if |x| > 1 then x[1] else 0) && b2 == (if |x| > 2 then x[2] else 0)
    requires n == b0 as int * 0x1_0000 + b1 as int * 0x100 + b2 as int
    ensures Text(Group(x)) == Quartet(letters, n, |x|)
  {
    Fields(b0, b1, b2);
    assert CodeChar(PADDING) == '=';
  }

  lemma CodesSplit(before: Bytes, group: Bytes, after: Bytes, k: nat)
    requires |before| == 3 * k && 1 <= |group| <= 3 && (after != [] ==> |group| == 3)
    ensures Codes(before + (group + after)) == Codes(before) + (Group(group) + Codes(after))
  {
    CodesAppend(before, group + after, k);
    if after == [] {
      assert group + after == group && Codes(after) == [];
    } else {
      EncodeChunk(group, after);
    }
  }

  lemma TextSplit(before: Bytes, group: Bytes, after: Bytes, k: nat)
    requires |before| == 3 * k && 1 <= |group| <= 3 && (after != [] ==> |group| == 3)
    ensures var s := Base64Encode(before + (group + after));
            |s| >= 4 * k + 4 && s[4 * k..4 * k + 4] == Text(Group(group))
  {
    CodesSplit(before, group, after, k);
    CodesLength(before, k);
    TextAppend(Codes(before), Group(group) + Codes(after));
    TextAppend(Group(group), Codes(after));
    Middle(Text(Codes(before)), Text(Group(group)), Text(Codes(after)));
  }

  lemma Base64In(letters: string, x: Bytes, k: nat)
    requires |letters| == 64 && (forall i: nat :: i < 64 ==> CodeChar(i) == letters[i]) && 3 * k < |x|
    ensures |Base64Encode(x)| >= 4 * k + 4
    ensures Base64Encode(x)[4 * k..4 * k + 4] == Quartet(letters, Number(x, k), |x| - 3 * k)
  {
    var end := if 3 * k + 3 < |x| then 3 * k + 3 else |x|;
    var before, group, after := x[..3 * k], x[3 * k..end], x[end..];
    assert x == before + (group + after);
    TextSplit(before, group, after, k);
    GroupText(letters, group, Number(x, k), group[0],
              if |group| > 1 then group[1] else 0, if |group| > 2 then group[2] else 0);
  }

  /** Three octets make four characters; one missing octet makes one padding character, two make two. */
  lemma Base64At(x: Bytes, k: nat)
    requires 3 * k < |x|
    ensures |Base64Encode(x)| >= 4 * k + 4
    ensures Base64Encode(x)[4 * k..4 * k + 4] == Quartet(ALPHABET, Number(x, k), |x| - 3 * k)
  {
    forall i: nat | i < 64 ensures CodeChar(i) == ALPHABET[i] {
      Alphabet(i);
    }
    Base64In(ALPHABET, x, k);
  }

  lemma Middle<T>(a: seq<T>, b: seq<T>, c: seq<T>)
    ensures (a + (b + c))[|a|..|a| + |b|] == b
  {
  }

  lemma {:induction false} CodesLength(x: Bytes, k: nat)
    requires |x| == 3 * k
    ensures |Codes(x)| == 4 * k
    decreases k
  {
    if k > 0 {
      CodesLength(x[3..], k - 1);
      EncodeChunk(x[..3], x[3..]);
      assert x == x[..3] + x[3..];
    }
  }

  /** `base64_encode`. */
  method Base64EncodeLoop(data: Bytes) returns (s: string)
    ensures s == Base64Encode(data)
  {
    s := [];
    var i := 0;
    while i < |data|
      invariant 0 <= i && i % 3 == 0 && s == Base64Encode(Done(data, i))
    {
      var g := GroupAt(data, i);
      EncodeAt(data, i);
      s := s + Text(g);
      i := i + 3;
    }
    assert data[..|data|] == data;
  }

  /** `b64Encode` of the REST service gives the same text as `base64_encode`, on every input. */
  method GoBase64Encode(b: Bytes) returns (s: string)
    ensures s == Base64Encode(b)
  {
    s := [];
    var i := 0;
    while i < |b|
      invariant 0 <= i && i % 3 == 0 && s == Base64Encode(Done(b, i))
    {
      var g := GoGroupAt(b, i);
      EncodeAt(b, i);
      s := s + Text(g);
      i := i + 3;
    }
    assert b[..|b|] == b;
  }

  /** The decoding of one group, for the loop that does not look inside it. */
  type Ungrouper = (seq<Code>, bool) -> Option<Bytes>

  function UngroupAny(g: seq<Code>, last: bool): Option<Bytes> { if |g| == 4 then Ungroup(g, last) else None }

  function GroupsBy(u: Ungrouper, v: seq<Code>): Option<Bytes>
    requires |v| % 4 == 0
  {
    if v == [] then Some([]) else
    match u(v[..4], |v| == 4)
    case Some(out) => Prefixed(out, GroupsBy(u, v[4..]))
    case None => None
  }

  lemma {:induction false} GroupsByUngroup(v: seq<Code>)
    requires |v| % 4 == 0
    ensures GroupsBy(UngroupAny, v) == Groups(v)
    decreases |v|
  {
    if v != [] {
      GroupsByUngroup(v[4..]);
    }
  }

  /** `base64_decode`. */
  method Base64DecodeLoop(s: string) returns (r: Option<Bytes>)
    ensures r == Base64Decode(s)
  {
    if |s| % 4 != 0 {
      return None;
    }
    r := DecodeCodes(UngroupAny, Lookup(s));
    GroupsByUngroup(Lookup(s));
  }

  method DecodeCodes(u: Ungrouper, v: seq<Code>) returns (r: Option<Bytes>)
    requires |v| % 4 == 0
    ensures r == GroupsBy(u, v)
  {
    var out: Bytes, rest := [], v;
    ghost var goal := GroupsBy(u, v);
    PrefixedNothing(goal);
    while rest != []
      invariant |rest| % 4 == 0 && goal == Prefixed(out, GroupsBy(u, rest))
      decreases |rest|
    {
      var group := u(rest[..4], |rest| == 4);
      if group == None {
        return None;
      }
      PrefixedTwice(out, group.value, GroupsBy(u, rest[4..]));
      out, rest := out + group.value, rest[4..];
    }
    assert out + [] == out;
    return Some(out);
  }
}
