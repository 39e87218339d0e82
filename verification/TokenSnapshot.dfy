/** Token snapshots as bytes (src/persistence/token_serializer.cpp, src/domain/keystore/token_snapshot.h). */
module TokenSnapshots {
  import opened Wrappers
  import opened Bytes
  import opened LittleEndian
  import opened FieldLists
  import opened Widths

  const MAGIC: nat := 0x5648534D
  const VERSION: nat := 1
  /** Widths of the two numbers before the strings and of the nine after them. */
  const HEAD: seq<nat> := [4, 4]
  const NUMBERS: seq<nat> := [8, 8, 8, 8, 1, 4, 4, 4, 8]
  const HEAD_LEN: nat := 8
  const NUMBERS_LEN: nat := 53

  /** Where the flags octet lies among the numbers. */
  const FLAGS_AT: nat := 32

  datatype Flags = Flags(
    tokenInitialized: bool, userPinSet: bool, soPinSet: bool, userLoginRequired: bool, soLoginRequired: bool,
    userPinLocked: bool, soPinLocked: bool)

  /** The numbers and flags between the strings and the key. */
  datatype Numbers = Numbers(
    maxSessions: nat, sessions: nat, maxRwSessions: nat, rwSessions: nat, flags: Flags,
    maxFailed: nat, userFailed: nat, soFailed: nat)

  datatype Snapshot = Snapshot(name: Bytes, id: Bytes, numbers: Numbers, kek: Bytes)

  predicate InRange(n: Numbers) {
    && n.maxSessions < U64 && n.sessions < U64 && n.maxRwSessions < U64 && n.rwSessions < U64
    && n.maxFailed < U32 && n.userFailed < U32 && n.soFailed < U32
  }

  /** Every field fits its C++ type. */
  predicate Typed(s: Snapshot) { InRange(s.numbers) && |s.kek| < U64 }

  // ---------------------------------------------------------------------------
  // The flags octet
  // ---------------------------------------------------------------------------

  function Bit(b: bool): nat { if b then 1 else 0 }

  /** The number with these bits, lowest first. */
  function Value(bits: seq<bool>): nat {
    if bits == [] then 0 else Bit(bits[0]) + 2 * Value(bits[1..])
  }

  /** The low `n` bits of a number. */
  function Bits(r: nat, n: nat): (bits: seq<bool>)
    ensures |bits| == n
  {
    if n == 0 then [] else [r % 2 == 1] + Bits(r / 2, n - 1)
  }

  /** What is left of a number without its low `n` bits. */
  function Above(r: nat, n: nat): nat {
    if n == 0 then r else Above(r / 2, n - 1)
  }

  lemma {:induction false} BitsOfValue(bits: seq<bool>, n: nat)
    requires |bits| == n
    ensures Bits(Value(bits), n) == bits && Value(bits) < Pow2(n)
  {
    if n > 0 {
      BitsOfValue(bits[1..], n - 1);
      assert bits == [bits[0]] + bits[1..];
    }
  }

  lemma {:induction false} ValueOfBits(r: nat, n: nat)
    ensures Value(Bits(r, n)) + Pow2(n) * Above(r, n) == r
  {
    if n > 0 {
      ValueOfBits(r / 2, n - 1);
      assert Bits(r, n)[1..] == Bits(r / 2, n - 1);
      Doubled(Pow2(n - 1), Above(r / 2, n - 1));
    }
  }

  lemma Doubled(p: nat, a: nat)
    ensures 2 * p * a == 2 * (p * a)
  {
  }

  /** Bit 0 is `tokenInitialized`, bit 6 is `soPinLocked`. */
  function FlagBits(f: Flags): (bits: seq<bool>)
    ensures |bits| == 7
  {
    [f.tokenInitialized, f.userPinSet, f.soPinSet, f.userLoginRequired,
     f.soLoginRequired, f.userPinLocked, f.soPinLocked]
  }

  function FlagsOf(b: seq<bool>): Flags
    requires |b| == 7
  {
    Flags(b[0], b[1], b[2], b[3], b[4], b[5], b[6])
  }

  lemma BitsOfFlags(b: seq<bool>)
    requires |b| == 7
    ensures FlagBits(FlagsOf(b)) == b
  {
  }

  function Pack(f: Flags): (r: byte)
    ensures r < 128
  {
    BitsOfValue(FlagBits(f), 7);
    assert Pow2(7) == 128;
    Value(FlagBits(f))
  }

  function Unpack(r: byte): Flags { FlagsOf(Bits(r, 7)) }

  lemma UnpackPack(f: Flags)
    ensures Unpack(Pack(f)) == f
  {
    BitsOfValue(FlagBits(f), 7);
  }

  /** Unpacking forgets the top bit and nothing else. */
  lemma PackUnpack(r: byte)
    ensures Pack(Unpack(r)) == r % 128
  {
    var bits := Bits(r, 7);
    BitsOfFlags(bits);
    BitsOfValue(bits, 7);
    ValueOfBits(r, 7);
    LowSeven(Value(bits), Pow2(7), Above(r, 7), r);
  }

  lemma LowSeven(x: nat, p: nat, a: nat, r: nat)
    requires p == Pow2(7) && x < p && x + p * a == r
    ensures x == r % 128
  {
    assert p == 128;
  }

  // ---------------------------------------------------------------------------
  // Writing
  // ---------------------------------------------------------------------------

  function Values(n: Numbers, kekLength: nat): (v: seq<nat>)
    ensures |v| == |NUMBERS|
  {
    [n.maxSessions, n.sessions, n.maxRwSessions, n.rwSessions,
     Pack(n.flags), n.maxFailed, n.userFailed, n.soFailed, kekLength]
  }

  function Prefixed(s: Bytes): Bytes
    requires |s| < 256
  {
    [|s|] + s
  }

  /** The parts of a snapshot in order. */
  function Assemble(head: seq<nat>, name: Bytes, id: Bytes, values: seq<nat>, kek: Bytes): Bytes
    requires |head| == |HEAD| && |name| < 256 && |id| < 256 && |values| == |NUMBERS|
  {
    Encode(head, HEAD) + (Prefixed(name) + (Prefixed(id) + (Encode(values, NUMBERS) + kek)))
  }

  function Serialize(s: Snapshot): Result<Bytes> {
    if |s.name| > 255 then Failure("label too long")
    else if |s.id| > 255 then Failure("id too long")
    else Success(Assemble([MAGIC, VERSION], s.name, s.id, Values(s.numbers, |s.kek|), s.kek))
  }

  /** The weights of the flags. */
  lemma PackedFlags(f: Flags)
    ensures Pack(f) == (if f.tokenInitialized then 1 else 0) + (if f.userPinSet then 2 else 0)
                     + (if f.soPinSet then 4 else 0) + (if f.userLoginRequired then 8 else 0)
                     + (if f.soLoginRequired then 16 else 0) + (if f.userPinLocked then 32 else 0)
                     + (if f.soPinLocked then 64 else 0)
  {
    var b := FlagBits(f);
    assert b[1..][1..] == b[2..] && b[2..][1..] == b[3..] && b[3..][1..] == b[4..];
    LastFlags(b[4..]);
    assert Value(b[2..]) == Bit(b[2]) + 2 * Bit(b[3]) + 4 * Value(b[4..]);
    assert Value(b) == Bit(b[0]) + 2 * Bit(b[1]) + 4 * Value(b[2..]);
  }

  lemma LastFlags(b: seq<bool>)
    requires |b| == 3
    ensures Value(b) == Bit(b[0]) + 2 * Bit(b[1]) + 4 * Bit(b[2])
  {
    assert b[1..][1..] == b[2..] && b[2..][1..] == [];
    assert Value(b[2..]) == Bit(b[2]);
  }

  lemma EncodeFirst(v: nat, w: nat, values: seq<nat>, widths: seq<nat>)
    requires |values| == |widths|
    ensures Encode([v] + values, [w] + widths) == Put(v, w) + Encode(values, widths)
  {
    assert ([v] + values)[1..] == values && ([w] + widths)[1..] == widths;
  }

  lemma HeadOctets()
    ensures Encode([MAGIC, VERSION], HEAD) == [0x4D, 0x53, 0x48, 0x56, 1, 0, 0, 0]
  {
    var m, v: seq<nat> := [0x5648534D], [1];
    var w: seq<nat> := [4];
    assert [MAGIC, VERSION] == m + v && HEAD == [4] + w;
    EncodeFirst(0x5648534D, 4, v, w);
    EncodeFirst(1, 4, [], []);
    assert v == [1] + [] && w == [4] + [];
    assert Put(0x5648, 2) == [0x48, 0x56] && Put(0x5648534D, 4) == [0x4D, 0x53] + Put(0x5648, 2);
    assert Put(0, 2) == [0, 0] && Put(1, 4) == [1, 0] + Put(0, 2);
  }

  lemma LastOctets(a: nat, b: nat, c: nat, d: nat)
    ensures Encode([a, b, c, d], [4, 4, 4, 8]) == Put(a, 4) + (Put(b, 4) + (Put(c, 4) + Put(d, 8)))
  {
    EncodeFirst(d, 8, [], []);
    EncodeFirst(c, 4, [d], [8]);
    EncodeFirst(b, 4, [c, d], [4, 8]);
    EncodeFirst(a, 4, [b, c, d], [4, 4, 8]);
    assert [d] == [d] + [] && [8] == [8] + [];
    assert [c, d] == [c] + [d] && [4, 8] == [4] + [8];
    assert [b, c, d] == [b] + [c, d] && [4, 4, 8] == [4] + [4, 8];
    assert [a, b, c, d] == [a] + [b, c, d] && [4, 4, 4, 8] == [4] + [4, 4, 8];
  }

  lemma FirstOctets(a: nat, b: nat, c: nat, d: nat)
    ensures Encode([a, b, c, d], [8, 8, 8, 8]) == Put(a, 8) + (Put(b, 8) + (Put(c, 8) + Put(d, 8)))
  {
    EncodeFirst(d, 8, [], []);
    EncodeFirst(c, 8, [d], [8]);
    EncodeFirst(b, 8, [c, d], [8, 8]);
    EncodeFirst(a, 8, [b, c, d], [8, 8, 8]);
    assert [d] == [d] + [] && [8] == [8] + [];
    assert [c, d] == [c] + [d] && [8, 8] == [8] + [8];
    assert [b, c, d] == [b] + [c, d] && [8, 8, 8] == [8] + [8, 8];
    assert [a, b, c, d] == [a] + [b, c, d] && [8, 8, 8, 8] == [8] + [8, 8, 8];
  }

  lemma {:induction false} EncodeAppend(v: seq<nat>, w: seq<nat>, v': seq<nat>, w': seq<nat>)
    requires |v| == |w| && |v'| == |w'|
    ensures Encode(v + v', w + w') == Encode(v, w) + Encode(v', w')
    decreases |v|
  {
    if v == [] {
      assert v + v' == v' && w + w' == w';
    } else {
      EncodeAppend(v[1..], w[1..], v', w');
      assert (v + v')[1..] == v[1..] + v' && (w + w')[1..] == w[1..] + w';
    }
  }

  /** The 53 octets of the numbers. */
  function NumberOctets(n: Numbers, flags: byte, kekLength: nat): Bytes {
    (Put(n.maxSessions, 8) + (Put(n.sessions, 8) + (Put(n.maxRwSessions, 8) + Put(n.rwSessions, 8))))
    + ([flags] + (Put(n.maxFailed, 4) + (Put(n.userFailed, 4) + (Put(n.soFailed, 4) + Put(kekLength, 8)))))
  }

  lemma FlagsFirst(x: nat, a: nat, b: nat, c: nat, d: nat)
    ensures Encode([x, a, b, c, d], [1, 4, 4, 4, 8]) == Put(x, 1) + (Put(a, 4) + (Put(b, 4) + (Put(c, 4) + Put(d, 8))))
  {
    LastOctets(a, b, c, d);
    EncodeFirst(x, 1, [a, b, c, d], [4, 4, 4, 8]);
    assert [x, a, b, c, d] == [x] + [a, b, c, d] && [1, 4, 4, 4, 8] == [1] + [4, 4, 4, 8];
  }

  lemma OneOctet(x: byte)
    ensures Put(x, 1) == [x]
  {
  }

  lemma NumbersAppended(n: Numbers, flags: byte, kekLength: nat, u: seq<nat>, v: seq<nat>)
    requires u == [n.maxSessions, n.sessions, n.maxRwSessions, n.rwSessions]
    requires v == [flags, n.maxFailed, n.userFailed, n.soFailed, kekLength]
    ensures Encode(u + v, [8, 8, 8, 8] + [1, 4, 4, 4, 8]) == NumberOctets(n, flags, kekLength)
  {
    FlagsFirst(flags, n.maxFailed, n.userFailed, n.soFailed, kekLength);
    OneOctet(flags);
    FirstOctets(n.maxSessions, n.sessions, n.maxRwSessions, n.rwSessions);
    EncodeAppend(u, [8, 8, 8, 8], v, [1, 4, 4, 4, 8]);
  }

  lemma NumbersLaidOut(n: Numbers, flags: byte, kekLength: nat)
    requires flags == Pack(n.flags)
    ensures Encode(Values(n, kekLength), NUMBERS) == NumberOctets(n, flags, kekLength)
  {
    var u := [n.maxSessions, n.sessions, n.maxRwSessions, n.rwSessions];
    var v: seq<nat> := [flags, n.maxFailed, n.userFailed, n.soFailed, kekLength];
    NumbersAppended(n, flags, kekLength, u, v);
    assert Values(n, kekLength) == u + v;
    assert NUMBERS == [8, 8, 8, 8] + [1, 4, 4, 4, 8];
  }

  /**
   A snapshot, octet by octet: the head, the two strings with their lengths, the numbers and the key; refused exactly if
   a string is longer than 255 octets.
   */
  lemma SnapshotLayout(s: Snapshot, flags: byte)
    requires flags == Pack(s.numbers.flags)
    ensures Serialize(s).Success? <==> |s.name| <= 255 && |s.id| <= 255
    ensures Serialize(s).Success? ==>
              Serialize(s).value == [0x4D, 0x53, 0x48, 0x56, 1, 0, 0, 0]
                + (([|s.name|] + s.name) + (([|s.id|] + s.id) + (NumberOctets(s.numbers, flags, |s.kek|) + s.kek)))
  {
    HeadOctets();
    NumbersLaidOut(s.numbers, flags, |s.kek|);
  }

  // ---------------------------------------------------------------------------
  // Reading
  // ---------------------------------------------------------------------------

  /** A length-prefixed string, and what follows it. */
  function ReadString(rest: Bytes): Option<(Bytes, Bytes)> {
    if rest == [] || rest[0] > |rest| - 1 then None else Some((rest[1..1 + rest[0]], rest[1 + rest[0]..]))
  }

  function NumbersOf(v: seq<nat>): Numbers
    requires |v| == |NUMBERS| && v[4] < 256
  {
    Numbers(v[0], v[1], v[2], v[3], Unpack(v[4]), v[5], v[6], v[7])
  }

  lemma Totals()
    ensures Total(HEAD) == HEAD_LEN && Total(NUMBERS) == NUMBERS_LEN && Pow256(1) == 256
  {
    TotalFrom(NUMBERS);
  }

  lemma TotalFrom(w: seq<nat>)
    requires w == NUMBERS
    ensures Total(w) == NUMBERS_LEN && Total(w[..4]) == FLAGS_AT
  {
    assert w[1..] == [8, 8, 8, 1, 4, 4, 4, 8] && w[1..][1..] == [8, 8, 1, 4, 4, 4, 8];
    assert [8, 8, 1, 4, 4, 4, 8][1..] == [8, 1, 4, 4, 4, 8] && [8, 1, 4, 4, 4, 8][1..] == [1, 4, 4, 4, 8];
    assert [1, 4, 4, 4, 8][1..] == [4, 4, 4, 8] && [4, 4, 4, 8][1..] == [4, 4, 8];
    assert Total([4, 4, 8]) == 16 by { assert [4, 4, 8][1..] == [4, 8] && [4, 8][1..] == [8]; }
    assert w[..4] == [8, 8, 8, 8] && [8, 8, 8, 8][1..] == [8, 8, 8] && [8, 8, 8][1..] == [8, 8] && [8, 8][1..] == [8];
  }

  /** The nine numbers at the start of `rest`. */
  function ReadValues(rest: Bytes): (v: seq<nat>)
    requires |rest| >= NUMBERS_LEN
    ensures |v| == |NUMBERS| && v[4] < 256
  {
    Totals();
    EncodeDecode(rest, NUMBERS);
    assert Decode(rest, NUMBERS)[4] < Pow256(NUMBERS[4]);
    Decode(rest, NUMBERS)
  }

  function ReadHead(data: Bytes): (v: seq<nat>)
    requires |data| >= HEAD_LEN
    ensures |v| == |HEAD|
  {
    Totals();
    Decode(data, HEAD)
  }

  /** The snapshot and how many bytes were read. */
  function Deserialize(data: Bytes): Result<(Snapshot, nat)> {
    if |data| < 10 then Failure("data too short")
    else if ReadHead(data)[0] != MAGIC then Failure("bad magic")
    else if ReadHead(data)[1] != VERSION then Failure("unsupported version")
    else
      match ReadString(data[HEAD_LEN..])
      case None => Failure("truncated string")
      case Some((name, afterName)) =>
        match ReadString(afterName)
        case None => Failure("truncated string")
        case Some((id, rest)) =>
          if |rest| < NUMBERS_LEN then Failure("truncated numeric fields")
          else
            var v := ReadValues(rest);
            var end := NUMBERS_LEN + v[8];
            if end > |rest| then Failure("truncated KEK")
            else Success((Snapshot(name, id, NumbersOf(v), rest[NUMBERS_LEN..end]), |data| - |rest| + end))
  }

  // ---------------------------------------------------------------------------
  // Writing, then reading
  // ---------------------------------------------------------------------------

  lemma ReadPrefixed(s: Bytes, rest: Bytes)
    requires |s| < 256
    ensures ReadString(Prefixed(s) + rest) == Some((s, rest))
  {
    var b := Prefixed(s) + rest;
    assert b[1..1 + |s|] == s && b[1 + |s|..] == rest;
  }

  lemma ValuesFit(n: Numbers, kekLength: nat)
    requires InRange(n) && kekLength < U64
    ensures Fit(Values(n, kekLength), NUMBERS) && NumbersOf(Values(n, kekLength)) == n
  {
    assert Pow256(4) == U32 && Pow256(8) == U64 && Pow256(1) == 256;
    UnpackPack(n.flags);
  }

  lemma HeadFits()
    ensures Fit([MAGIC, VERSION], HEAD)
  {
    assert Pow256(4) == U32;
  }

  /** Bytes made of parts that read as the fields of `s` read as `s`. */
  lemma ReadParts(data: Bytes, s: Snapshot, afterName: Bytes, rest: Bytes, n: nat)
    requires |data| >= 10 && ReadHead(data)[0] == MAGIC && ReadHead(data)[1] == VERSION
    requires ReadString(data[HEAD_LEN..]) == Some((s.name, afterName)) && ReadString(afterName) == Some((s.id, rest))
    requires |rest| >= NUMBERS_LEN + |s.kek| && rest[NUMBERS_LEN..NUMBERS_LEN + |s.kek|] == s.kek
    requires NumbersOf(ReadValues(rest)) == s.numbers && ReadValues(rest)[8] == |s.kek|
    requires n == |data| - |rest| + NUMBERS_LEN + |s.kek|
    ensures Deserialize(data) == Success((s, n))
  {
  }

  lemma Regroup(a: Bytes, b: Bytes, c: Bytes, d: Bytes, e: Bytes, more: Bytes)
    ensures a + (b + (c + (d + e))) + more == a + (b + (c + (d + (e + more))))
  {
    assert d + e + more == d + (e + more);
    assert c + (d + e) + more == c + (d + e + more);
    assert b + (c + (d + e)) + more == b + (c + (d + e) + more);
  }

  lemma Slices(a: Bytes, b: Bytes, c: Bytes)
    ensures (a + (b + c))[|a|..|a| + |b|] == b && (a + (b + c))[|a|..] == b + c
  {
  }

  lemma HeadReads(h: seq<nat>, rest: Bytes)
    requires |h| == |HEAD| && Fit(h, HEAD)
    ensures |Encode(h, HEAD)| == HEAD_LEN && (Encode(h, HEAD) + rest)[HEAD_LEN..] == rest
    ensures ReadHead(Encode(h, HEAD) + rest) == h
  {
    Totals();
    DecodeEncode(h, HEAD, rest);
  }

  lemma RestReads(v: seq<nat>, kek: Bytes, more: Bytes)
    requires |v| == |NUMBERS| && Fit(v, NUMBERS)
    ensures var rest := Encode(v, NUMBERS) + (kek + more);
            && |rest| == NUMBERS_LEN + |kek| + |more| && ReadValues(rest) == v
            && rest[NUMBERS_LEN..NUMBERS_LEN + |kek|] == kek
  {
    Totals();
    DecodeEncode(v, NUMBERS, kek + more);
    Slices(Encode(v, NUMBERS), kek, more);
  }

  /** The string reads of a snapshot followed by more bytes. */
  lemma StringsRead(head: Bytes, s: Snapshot, numbers: Bytes, more: Bytes, data: Bytes) returns (afterName: Bytes)
    requires |s.name| < 256 && |s.id| < 256 && |head| == HEAD_LEN
    requires data == head + (Prefixed(s.name) + (Prefixed(s.id) + (numbers + s.kek))) + more
    ensures |data| == HEAD_LEN + |s.name| + |s.id| + 2 + |numbers| + |s.kek| + |more|
    ensures ReadString(data[HEAD_LEN..]) == Some((s.name, afterName))
    ensures ReadString(afterName) == Some((s.id, numbers + (s.kek + more)))
    ensures data == head + data[HEAD_LEN..]
  {
    var rest := numbers + (s.kek + more);
    afterName := Prefixed(s.id) + rest;
    Regroup(head, Prefixed(s.name), Prefixed(s.id), numbers, s.kek, more);
    ReadPrefixed(s.name, afterName);
    ReadPrefixed(s.id, rest);
    Peel(head, Prefixed(s.name) + afterName, HEAD_LEN);
  }

  /** Parts that fit are read back, whatever follows. */
  lemma AssembledReads(h: seq<nat>, s: Snapshot, v: seq<nat>, more: Bytes, data: Bytes, n: nat)
    requires |s.name| < 256 && |s.id| < 256 && |h| == |HEAD| && Fit(h, HEAD) && h[0] == MAGIC && h[1] == VERSION
    requires |v| == |NUMBERS| && Fit(v, NUMBERS) && v[4] < 256 && NumbersOf(v) == s.numbers && v[8] == |s.kek|
    requires data == Assemble(h, s.name, s.id, v, s.kek) + more && n == |data| - |more|
    ensures Deserialize(data) == Success((s, n))
  {
    Totals();
    var afterName := StringsRead(Encode(h, HEAD), s, Encode(v, NUMBERS), more, data);
    HeadReads(h, data[HEAD_LEN..]);
    RestReads(v, s.kek, more);
    ReadParts(data, s, afterName, Encode(v, NUMBERS) + (s.kek + more), n);
  }

  lemma Checked(s: Snapshot)
    requires Typed(s) && Serialize(s).Success?
    ensures |s.name| < 256 && |s.id| < 256
    ensures Serialize(s).value == Assemble([MAGIC, VERSION], s.name, s.id, Values(s.numbers, |s.kek|), s.kek)
    ensures Fit(Values(s.numbers, |s.kek|), NUMBERS) && NumbersOf(Values(s.numbers, |s.kek|)) == s.numbers
  {
    ValuesFit(s.numbers, |s.kek|);
  }

  /** A snapshot survives serialization, whatever bytes follow it, and exactly its bytes are read. */
  lemma RoundTrip(s: Snapshot, more: Bytes)
    requires Typed(s) && Serialize(s).Success?
    ensures Deserialize(Serialize(s).value + more) == Success((s, |Serialize(s).value|))
  {
    HeadFits();
    Checked(s);
    var v := Values(s.numbers, |s.kek|);
    AssembledReads([MAGIC, VERSION], s, v, more, Serialize(s).value + more, |Serialize(s).value|);
  }

  // ---------------------------------------------------------------------------
  // Reading, then writing
  // ---------------------------------------------------------------------------

  lemma PrefixedRead(x: Bytes)
    requires ReadString(x).Some?
    ensures |ReadString(x).value.0| < 256 && x == Prefixed(ReadString(x).value.0) + ReadString(x).value.1
  {
  }

  /** What an accepted input consists of. */
  lemma Accepted(data: Bytes, s: Snapshot, n: nat) returns (afterName: Bytes, rest: Bytes)
    requires Deserialize(data) == Success((s, n))
    ensures |data| >= 10 && ReadHead(data)[0] == MAGIC && ReadHead(data)[1] == VERSION
    ensures ReadString(data[HEAD_LEN..]) == Some((s.name, afterName)) && ReadString(afterName) == Some((s.id, rest))
    ensures |rest| >= NUMBERS_LEN + |s.kek| && rest[NUMBERS_LEN..NUMBERS_LEN + |s.kek|] == s.kek
    ensures NumbersOf(ReadValues(rest)) == s.numbers && ReadValues(rest)[8] == |s.kek|
    ensures n == |data| - |rest| + NUMBERS_LEN + |s.kek|
  {
    afterName := ReadString(data[HEAD_LEN..]).value.1;
    rest := ReadString(afterName).value.1;
  }

  /** Writing the numbers that were read gives the values that were read, but for the top flag bit. */
  lemma ValuesBack(v: seq<nat>)
    requires |v| == |NUMBERS| && v[4] < 256
    ensures Values(NumbersOf(v), v[8]) == v[4 := v[4] % 128]
  {
    PackUnpack(v[4]);
  }

  lemma RestWrites(rest: Bytes, v: seq<nat>, x: byte)
    requires |rest| >= NUMBERS_LEN && v == ReadValues(rest)
    ensures Encode(v[4 := x], NUMBERS) == rest[..NUMBERS_LEN][FLAGS_AT := x] && rest[FLAGS_AT] == v[4]
  {
    Totals();
    TotalFrom(NUMBERS);
    ChangeField(rest, NUMBERS, v, 4, FLAGS_AT, x);
  }

  lemma HeadWrites(data: Bytes)
    requires |data| >= HEAD_LEN && ReadHead(data)[0] == MAGIC && ReadHead(data)[1] == VERSION
    ensures Encode([MAGIC, VERSION], HEAD) == data[..HEAD_LEN]
  {
    Totals();
    EncodeDecode(data, HEAD);
    assert ReadHead(data) == [MAGIC, VERSION];
  }

  /** Replacing one byte of a part replaces it in the whole, and what follows the parts does not matter. */
  lemma Rebuild(a: Bytes, b: Bytes, c: Bytes, d: Bytes, e: Bytes, more: Bytes, k: nat, x: byte, data: Bytes, n: nat,
                at: nat)
    requires k < |d| && data == a + (b + (c + (d + e + more))) && n == |data| - |more| && at == |a| + |b| + |c| + k
    ensures at < n <= |data| && data[at] == d[k] && a + (b + (c + (d[k := x] + e))) == data[..n][at := x]
  {
    assert d[k := x] + e == (d + e)[k := x];
    assert c + (d + e)[k := x] == (c + (d + e))[|c| + k := x];
    assert b + (c + (d + e))[|c| + k := x] == (b + (c + (d + e)))[|b| + |c| + k := x];
    assert data[..n] == a + (b + (c + (d + e)));
  }

  /** Where the flags octet of a snapshot lies. */
  function FlagsOffset(s: Snapshot): nat { HEAD_LEN + 2 + |s.name| + |s.id| + FLAGS_AT }

  lemma AcceptedIsTyped(rest: Bytes, s: Snapshot)
    requires |rest| >= NUMBERS_LEN && NumbersOf(ReadValues(rest)) == s.numbers && ReadValues(rest)[8] == |s.kek|
    ensures Typed(s)
  {
    var v := ReadValues(rest);
    Totals();
    EncodeDecode(rest, NUMBERS);
    assert Pow256(4) == U32 && Pow256(8) == U64;
    assert forall i :: 0 <= i < |NUMBERS| ==> v[i] < Pow256(NUMBERS[i]);
  }

  lemma SerializeParts(s: Snapshot, head: Bytes, v: seq<nat>, numbers: Bytes)
    requires |s.name| < 256 && |s.id| < 256 && Encode([MAGIC, VERSION], HEAD) == head
    requires v == Values(s.numbers, |s.kek|) && Encode(v, NUMBERS) == numbers
    ensures Serialize(s) == Success(head + (Prefixed(s.name) + (Prefixed(s.id) + (numbers + s.kek))))
  {
  }

  lemma StringsBack(data: Bytes, s: Snapshot, afterName: Bytes, rest: Bytes)
    requires |data| >= HEAD_LEN
    requires ReadString(data[HEAD_LEN..]) == Some((s.name, afterName)) && ReadString(afterName) == Some((s.id, rest))
    ensures |s.name| < 256 && |s.id| < 256
    ensures data == data[..HEAD_LEN] + (Prefixed(s.name) + (Prefixed(s.id) + rest))
  {
    PrefixedRead(data[HEAD_LEN..]);
    PrefixedRead(afterName);
    assert data == data[..HEAD_LEN] + data[HEAD_LEN..];
  }

  lemma Thirds(a: Bytes, i: nat, k: nat)
    requires i <= k <= |a|
    ensures a == a[..i] + a[i..k] + a[k..]
  {
  }

  /** Serializing what was read gives the bytes that were read, with the top bit of the flags octet cleared. */
  lemma Canonical(data: Bytes, s: Snapshot, n: nat)
    requires Deserialize(data) == Success((s, n))
    ensures Typed(s) && FlagsOffset(s) < n <= |data|
    ensures Serialize(s) == Success(data[..n][FlagsOffset(s) := data[FlagsOffset(s)] % 128])
  {
    var afterName, rest := Accepted(data, s, n);
    AcceptedIsTyped(rest, s);
    WrittenBack(data, s, n, afterName, rest, ReadValues(rest), ReadValues(rest)[4] % 128);
  }

  lemma WrittenBack(data: Bytes, s: Snapshot, n: nat, afterName: Bytes, rest: Bytes, v: seq<nat>, x: byte)
    requires |data| >= HEAD_LEN && ReadHead(data)[0] == MAGIC && ReadHead(data)[1] == VERSION
    requires ReadString(data[HEAD_LEN..]) == Some((s.name, afterName)) && ReadString(afterName) == Some((s.id, rest))
    requires |rest| >= NUMBERS_LEN + |s.kek| && rest[NUMBERS_LEN..NUMBERS_LEN + |s.kek|] == s.kek
    requires v == ReadValues(rest) && NumbersOf(v) == s.numbers && v[8] == |s.kek| && x == v[4] % 128
    requires n == |data| - |rest| + NUMBERS_LEN + |s.kek|
    ensures FlagsOffset(s) < n <= |data| && data[FlagsOffset(s)] == v[4]
    ensures Serialize(s) == Success(data[..n][FlagsOffset(s) := x])
  {
    var numbers, more := rest[..NUMBERS_LEN], rest[NUMBERS_LEN + |s.kek|..];
    StringsBack(data, s, afterName, rest);
    Thirds(rest, NUMBERS_LEN, NUMBERS_LEN + |s.kek|);
    Rebuild(data[..HEAD_LEN], Prefixed(s.name), Prefixed(s.id), numbers, s.kek,
            more, FLAGS_AT, x, data, n, FlagsOffset(s));
    assert Serialize(s)
        == Success(data[..HEAD_LEN] + (Prefixed(s.name) + (Prefixed(s.id) + (numbers[FLAGS_AT := x] + s.kek)))) by {
      HeadWrites(data);
      ValuesBack(v);
      RestWrites(rest, v, x);
      SerializeParts(s, data[..HEAD_LEN], v[4 := x], numbers[FLAGS_AT := x]);
    }
    RestWrites(rest, v, x);
  }

  lemma Cleared(d: Bytes, at: nat)
    requires at < |d|
    ensures d[at := d[at] % 128] == d <==> d[at] < 128
  {
    assert d[at := d[at] % 128][at] == d[at] % 128;
  }

  /** Reading and writing back is the identity exactly on inputs whose flags octet has its top bit clear. */
  lemma CanonicalExactly(data: Bytes, s: Snapshot, n: nat)
    requires Deserialize(data) == Success((s, n))
    ensures FlagsOffset(s) < n <= |data| && (Serialize(s) == Success(data[..n]) <==> data[FlagsOffset(s)] < 128)
  {
    Canonical(data, s, n);
    Cleared(data[..n], FlagsOffset(s));
  }

  lemma SamePacked(f: Flags, g: Flags)
    requires Pack(f) == Pack(g)
    ensures f == g
  {
    UnpackPack(f);
    UnpackPack(g);
  }

  lemma TopBit(f: Flags, r: byte)
    requires r == Pack(f) + 128
    ensures Unpack(r) == f
  {
    PackUnpack(r);
    WithoutTop(Pack(f), r);
    SamePacked(Unpack(r), f);
  }

  lemma WithoutTop(p: nat, r: nat)
    requires p < 128 && r == p + 128
    ensures r % 128 == p
  {
  }

  lemma SameParts(a: Bytes, b: Bytes, c: Bytes, d: Bytes, e: Bytes, x: Bytes)
    requires a + (b + (c + (d + e))) == a + (b + (c + (x + e))) && |d| == |x|
    ensures d == x
  {
    Slices(a + (b + c), d, e);
    Slices(a + (b + c), x, e);
    assert a + (b + (c + (d + e))) == (a + (b + c)) + (d + e) && a + (b + (c + (x + e))) == (a + (b + c)) + (x + e);
  }

  lemma WithTopBit(n: Numbers, v: seq<nat>, u: seq<nat>, kekLength: nat)
    requires InRange(n) && kekLength < U64 && v == Values(n, kekLength) && u == v[4 := v[4] + 128]
    ensures Fit(v, NUMBERS) && Fit(u, NUMBERS) && NumbersOf(u) == n && u != v
  {
    ValuesFit(n, kekLength);
    TopBit(n.flags, u[4]);
    assert Pow256(1) == 256;
    assert u[4] != v[4];
  }

  lemma EncodesDiffer(u: seq<nat>, v: seq<nat>)
    requires |u| == |v| == |NUMBERS| && Fit(u, NUMBERS) && Fit(v, NUMBERS) && u != v
    ensures Encode(u, NUMBERS) != Encode(v, NUMBERS) && |Encode(u, NUMBERS)| == |Encode(v, NUMBERS)|
  {
    DecodeEncode(u, NUMBERS, []);
    DecodeEncode(v, NUMBERS, []);
  }

  /** Every snapshot is also read from bytes that differ from its own in that bit. */
  lemma TopBitIsForgotten(s: Snapshot, v: seq<nat>, u: seq<nat>, data: Bytes)
    requires Typed(s) && Serialize(s).Success? && v == Values(s.numbers, |s.kek|) && u == v[4 := v[4] + 128]
    requires data == Assemble([MAGIC, VERSION], s.name, s.id, u, s.kek)
    ensures Deserialize(data) == Success((s, |data|)) && Serialize(s) != Success(data)
  {
    HeadFits();
    WithTopBit(s.numbers, v, u, |s.kek|);
    assert data == data + [];
    AssembledReads([MAGIC, VERSION], s, u, [], data, |data|);
    EncodesDiffer(u, v);
    if Serialize(s) == Success(data) {
      SameParts(Encode([MAGIC, VERSION], HEAD), Prefixed(s.name), Prefixed(s.id), Encode(v, NUMBERS), s.kek,
                Encode(u, NUMBERS));
    }
  }

  // ---------------------------------------------------------------------------
  // The two functions as they step through the bytes
  // ---------------------------------------------------------------------------

  /** Appends one number after another. */
  method PutFields(out: Bytes, values: seq<nat>, widths: seq<nat>, i: nat) returns (r: Bytes)
    requires |values| == |widths| && i <= |widths|
    ensures r == out + Encode(values[i..], widths[i..])
    decreases |widths| - i
  {
    if i == |widths| {
      return out;
    }
    r := PutLoop(out, values[i], widths[i]);
    assert values[i..][1..] == values[i + 1..] && widths[i..][1..] == widths[i + 1..];
    r := PutFields(r, values, widths, i + 1);
  }

  method SerializeToken(s: Snapshot) returns (r: Result<Bytes>)
    ensures r == Serialize(s)
  {
    if |s.name| > 255 {
      return Failure("label too long");
    }
    if |s.id| > 255 {
      return Failure("id too long");
    }
    var out := Appended([MAGIC, VERSION], s.name, s.id, Values(s.numbers, |s.kek|), s.kek);
    return Success(out);
  }

  method Appended(head: seq<nat>, name: Bytes, id: Bytes, values: seq<nat>, kek: Bytes) returns (out: Bytes)
    requires |head| == |HEAD| && |name| < 256 && |id| < 256 && |values| == |NUMBERS|
    ensures out == Assemble(head, name, id, values, kek)
  {
    assert head[0..] == head && HEAD[0..] == HEAD && values[0..] == values && NUMBERS[0..] == NUMBERS;
    out := PutFields([], head, HEAD, 0);
    out := out + Prefixed(name);
    out := out + Prefixed(id);
    out := PutFields(out, values, NUMBERS, 0);
    out := out + kek;
    Flatten(Encode(head, HEAD), Prefixed(name), Prefixed(id), Encode(values, NUMBERS), kek);
  }

  lemma Flatten(a: Bytes, b: Bytes, c: Bytes, d: Bytes, e: Bytes)
    ensures [] + a + b + c + d + e == a + (b + (c + (d + e)))
  {
    assert [] + a == a;
    assert a + b + c + d + e == a + b + c + (d + e);
    assert a + b + c + (d + e) == a + b + (c + (d + e));
  }

  /** The `read_string` step: the string at the cursor and the cursor behind it. */
  method ReadStringAt(data: Bytes, off: nat) returns (r: Option<(Bytes, nat)>)
    requires off <= |data|
    ensures r.None? <==> ReadString(data[off..]).None?
    ensures r.Some? ==> r.value.1 <= |data| && ReadString(data[off..]) == Some((r.value.0, data[r.value.1..]))
  {
    if off >= |data| {
      return None;
    }
    var length := data[off];
    if length > |data| - (off + 1) {
      return None;
    }
    var end := off + 1 + length;
    assert data[off..][1..1 + length] == data[off + 1..end] && data[off..][1 + length..] == data[end..];
    return Some((data[off + 1..end], end));
  }

  /** The four session counts at the cursor. */
  method ReadCounts(data: Bytes, start: nat) returns (v0: nat, v1: nat, v2: nat, v3: nat, off: nat)
    requires start <= |data| && |data| - start >= NUMBERS_LEN
    ensures var v := ReadValues(data[start..]); v0 == v[0] && v1 == v[1] && v2 == v[2] && v3 == v[3]
    ensures off == start + Total(NUMBERS[..4])
  {
    Totals();
    assert NUMBERS[..0] == [];
    v0, off := ReadField(data, start, NUMBERS, start, 0);
    v1, off := ReadField(data, start, NUMBERS, off, 1);
    v2, off := ReadField(data, start, NUMBERS, off, 2);
    v3, off := ReadField(data, start, NUMBERS, off, 3);
  }

  /** The nine numbers at the cursor, the flags unpacked. */
  method ReadNumbersAt(data: Bytes, start: nat) returns (n: Numbers, kekLength: nat, off: nat)
    requires start <= |data| && |data| - start >= NUMBERS_LEN
    ensures n == NumbersOf(ReadValues(data[start..])) && kekLength == ReadValues(data[start..])[8]
    ensures off == start + NUMBERS_LEN
  {
    var v0, v1, v2, v3, v4, v5, v6, v7;
    Totals();
    assert ReadValues(data[start..])[4] == Decode(data[start..], NUMBERS)[4] < 256;
    v0, v1, v2, v3, off := ReadCounts(data, start);
    v4, off := ReadField(data, start, NUMBERS, off, 4);
    v5, off := ReadField(data, start, NUMBERS, off, 5);
    v6, off := ReadField(data, start, NUMBERS, off, 6);
    v7, off := ReadField(data, start, NUMBERS, off, 7);
    kekLength, off := ReadField(data, start, NUMBERS, off, 8);
    assert NUMBERS[..9] == NUMBERS;
    n := Numbers(v0, v1, v2, v3, Unpack(v4), v5, v6, v7);
  }

  /** Every read stays within the input, whatever it holds. */
  method DeserializeToken(data: Bytes) returns (r: Result<Snapshot>)
    ensures r.Failure? <==> Deserialize(data).Failure?
    ensures r.Success? ==> r.value == Deserialize(data).value.0
  {
    if |data| < 10 {
      return Failure("data too short");
    }
    var head := ReadHead(data);
    if head[0] != MAGIC {
      return Failure("bad magic");
    }
    if head[1] != VERSION {
      return Failure("unsupported version");
    }
    var name := ReadStringAt(data, HEAD_LEN);
    if name.None? {
      return Failure("truncated string");
    }
    var id := ReadStringAt(data, name.value.1);
    if id.None? {
      return Failure("truncated string");
    }
    var start := id.value.1;
    if |data| - start < NUMBERS_LEN {
      return Failure("truncated numeric fields");
    }
    var numbers, length, off := ReadNumbersAt(data, start);
    if length > |data| - off {
      return Failure("truncated KEK");
    }
    assert data[start..][NUMBERS_LEN..NUMBERS_LEN + length] == data[off..off + length];
    return Success(Snapshot(name.value.0, id.value.0, numbers, data[off..off + length]));
  }
}
