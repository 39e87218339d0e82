/**
 The hash-chained audit log (src/audit/audit_log.cpp): its text format, reading it back line by
 line through a bounded buffer, verification, and recovery of the chain's tail after a restart.
 The keyed MAC is a parameter; the chain key is fixed.
 */
module AuditLog {
  import opened Wrappers
  import opened Bytes
  import opened Codecs
  import opened HashChain
  import opened Decimals
  import opened Widths

  type Digest = d: Bytes | |d| == 32 witness seq(32, _ => 0)

  /** HMAC-SHA256 under the chain key, applied to the record's characters. */
  type Mac = string -> Digest

  /** No two of these records have the same MAC; a MAC of 32 bytes cannot do better than on finitely many. */
  ghost predicate CollisionFree(mac: Mac, records: set<string>) {
    forall x: string, y: string :: x in records && y in records && mac(x) == mac(y) ==> x == y
  }

  /** None of these records has the all-zero MAC. */
  ghost predicate NeverZero(mac: Mac, records: set<string>) {
    forall x: string :: x in records ==> mac(x) != seq(32, _ => 0)
  }

  const HEX_LEN := 64
  const RECOVER_BUFFER := 1024
  const VERIFY_BUFFER := 2048

  /** The predecessor hash of the first record. */
  function ZeroHex(): string { seq(HEX_LEN, _ => '0') }

  function HexMac(mac: Mac, record: string): (h: string)
    ensures |h| == HEX_LEN
  {
    HexEncode(mac(record))
  }

  // ---------------------------------------------------------------------------
  // Reading: fgets into a buffer, then a C string, then without its newline
  // ---------------------------------------------------------------------------

  /** Characters that `fgets` takes from a non-empty file with a buffer of `cap` characters. */
  function Taken(f: string, cap: nat): (n: nat)
    requires f != [] && cap >= 2
    ensures 1 <= n <= |f|
  {
    if f[0] == '\n' || |f| == 1 || cap == 2 then 1 else 1 + Taken(f[1..], cap - 1)
  }

  function CString(s: string): string {
    if s == [] || s[0] == '\0' then [] else [s[0]] + CString(s[1..])
  }

  function Clean(raw: string): string {
    var s := CString(raw);
    if s != [] && s[|s| - 1] == '\n' then s[..|s| - 1] else s
  }

  function Lines(f: string, cap: nat): seq<string>
    requires cap >= 2
    decreases |f|
  {
    if f == [] then [] else
    var n := Taken(f, cap);
    [Clean(f[..n])] + Lines(f[n..], cap)
  }

  // ---------------------------------------------------------------------------
  // Fields
  // ---------------------------------------------------------------------------

  /** Position of the first bar, or the length. */
  function Bar(s: string): (p: nat)
    ensures p <= |s| && (p < |s| ==> s[p] == '|')
  {
    if s == [] || s[0] == '|' then 0 else 1 + Bar(s[1..])
  }

  lemma {:induction false} NoBarBefore(s: string)
    ensures '|' !in s[..Bar(s)]
  {
    if s != [] && s[0] != '|' {
      NoBarBefore(s[1..]);
      assert s[..Bar(s)] == [s[0]] + s[1..][..Bar(s) - 1];
    }
  }

  /** What follows the n-th bar. */
  function After(s: string, n: nat): Option<string> {
    if n == 0 then Some(s)
    else if Bar(s) == |s| then None
    else After(s[Bar(s) + 1..], n - 1)
  }

  lemma {:induction false} AfterIsSuffix(s: string, n: nat)
    requires After(s, n).Some?
    ensures |After(s, n).value| <= |s| && s[|s| - |After(s, n).value|..] == After(s, n).value
  {
    if n > 0 {
      AfterIsSuffix(s[Bar(s) + 1..], n - 1);
    }
  }

  /** The hash a line hands on: its last 64 characters. */
  function TailOf(s: string): string {
    if |s| < HEX_LEN then s else s[|s| - HEX_LEN..]
  }

  /** What is left of a line without its hash and the bar before it. */
  function RecordOf(s: string): string {
    if |s| <= HEX_LEN then [] else s[..|s| - HEX_LEN - 1]
  }

  /** Shape, link to the predecessor, and MAC of one line of `bars` + 1 fields. */
  predicate LineOk(mac: Mac, bars: nat, prev: string, s: string)
    requires bars > 0
  {
    var end := After(s, bars - 1);
    && end.Some? && Bar(end.value) < |end.value|
    && EndOk(mac, prev, s, end.value[..Bar(end.value)], end.value[Bar(end.value) + 1..])
  }

  /** The last two fields of the line `s`. */
  predicate EndOk(mac: Mac, prev: string, s: string, link: string, hash: string) {
    |hash| == HEX_LEN && link == prev && HexMac(mac, RecordOf(s)) == hash
  }

  /** SEQ|TS|EVENT_ID|EVENT_TYPE|PREV|HMAC: five bars. */
  const BARS: nat := 5

  function LogRules(mac: Mac, bars: nat): Rules
    requires bars > 0
  {
    Rules((prev: string, s: string) => LineOk(mac, bars, prev, s), TailOf, ZeroHex())
  }

  /** The field before the last, when there are enough bars. */
  function LinkOf(s: string, bars: nat): string
    requires bars > 0
  {
    var end := After(s, bars - 1);
    if end.Some? then end.value[..Bar(end.value)] else []
  }

  /** An intact line is its record, a bar, and the record's MAC; its link is the predecessor's hash. */
  lemma OkShape(mac: Mac, bars: nat, prev: string, s: string)
    requires bars > 0 && LineOk(mac, bars, prev, s)
    ensures |s| > HEX_LEN && s == RecordOf(s) + "|" + TailOf(s)
    ensures TailOf(s) == HexMac(mac, RecordOf(s)) && LinkOf(s, bars) == prev
  {
    var end := After(s, bars - 1).value;
    AfterIsSuffix(s, bars - 1);
    ShapeOfEnd(mac, prev, s, end, Bar(end));
  }

  lemma ShapeOfEnd(mac: Mac, prev: string, s: string, end: string, b: nat)
    requires |end| <= |s| && s[|s| - |end|..] == end && b < |end| && end[b] == '|'
    requires EndOk(mac, prev, s, end[..b], end[b + 1..])
    ensures |s| > HEX_LEN && s == RecordOf(s) + "|" + TailOf(s) && TailOf(s) == HexMac(mac, RecordOf(s))
  {
    EndOfLine(s, end, b);
  }

  lemma EndOfLine(s: string, end: string, b: nat)
    requires |end| <= |s| && s[|s| - |end|..] == end && b + HEX_LEN + 1 == |end| && end[b] == '|'
    ensures |s| > HEX_LEN && s == RecordOf(s) + "|" + TailOf(s) && TailOf(s) == end[b + 1..]
  {
    assert s[|s| - HEX_LEN - 1] == end[b];
  }

  lemma HexInjective(x: Bytes, y: Bytes)
    requires HexEncode(x) == HexEncode(y)
    ensures x == y
  {
    HexRoundTrip(x);
    HexRoundTrip(y);
  }

  lemma {:induction false} ZerosEncode(x: Bytes)
    requires forall i :: 0 <= i < |x| ==> x[i] == 0
    ensures forall i :: 0 <= i < 2 * |x| ==> HexEncode(x)[i] == '0'
  {
    if x != [] {
      ZerosEncode(x[1..]);
    }
  }

  lemma MacIsNotZero(mac: Mac, record: string)
    requires NeverZero(mac, {record})
    ensures HexMac(mac, record) != ZeroHex()
  {
    var zero: Bytes := seq(32, _ => 0);
    ZerosEncode(zero);
    assert HexEncode(zero) == ZeroHex();
    if HexMac(mac, record) == ZeroHex() {
      HexInjective(mac(record), zero);
    }
  }

  /** The records of the lines. */
  function RecordsOf(lines: set<string>): set<string> { set s | s in lines :: RecordOf(s) }

  /** Two intact lines with the same MAC are the same line, after the same predecessor. */
  lemma SameTailSameLine(mac: Mac, bars: nat, p: string, s: string, q: string, t: string)
    requires bars > 0 && CollisionFree(mac, {RecordOf(s), RecordOf(t)})
    requires LineOk(mac, bars, p, s) && LineOk(mac, bars, q, t) && TailOf(s) == TailOf(t)
    ensures s == t && p == q
  {
    OkShape(mac, bars, p, s);
    OkShape(mac, bars, q, t);
    HexInjective(mac(RecordOf(s)), mac(RecordOf(t)));
  }

  lemma MacFixesLine(mac: Mac, bars: nat, lines: set<string>)
    requires bars > 0 && CollisionFree(mac, RecordsOf(lines)) && NeverZero(mac, RecordsOf(lines))
    ensures LogRules(mac, bars).TailFixesLine(lines)
  {
    var r := LogRules(mac, bars);
    forall p: string, s: string, q: string, t: string
      | s in lines && t in lines && r.check(p, s) && r.check(q, t) && r.tail(s) == r.tail(t)
      ensures s == t && p == q
    {
      assert RecordOf(s) in RecordsOf(lines) && RecordOf(t) in RecordsOf(lines);
      SameTailSameLine(mac, bars, p, s, q, t);
    }
    forall p: string, s: string | s in lines && r.check(p, s) ensures r.tail(s) != r.zero {
      assert RecordOf(s) in RecordsOf(lines);
      OkShape(mac, bars, p, s);
      MacIsNotZero(mac, RecordOf(s));
    }
  }

  /** The lines of both logs. */
  function LinesOfBoth(xs: seq<string>, ys: seq<string>): set<string> { (set s | s in xs) + (set s | s in ys) }

  /**
   Two intact logs that end in the same HMAC are identical, line for line, unless two of their own records collide
   or one of them has the all-zero MAC.
   */
  lemma TailDeterminesLog(mac: Mac, xs: seq<string>, ys: seq<string>)
    requires CollisionFree(mac, RecordsOf(LinesOfBoth(xs, ys))) && NeverZero(mac, RecordsOf(LinesOfBoth(xs, ys)))
    requires LogRules(mac, BARS).Intact(xs) && LogRules(mac, BARS).Intact(ys)
    requires xs != [] && ys != [] && TailOf(xs[|xs| - 1]) == TailOf(ys[|ys| - 1])
    ensures xs == ys
  {
    MacFixesLine(mac, BARS, LinesOfBoth(xs, ys));
    TailDeterminesLines(LogRules(mac, BARS), LinesOfBoth(xs, ys), xs, ys);
  }

  // ---------------------------------------------------------------------------
  // Records and their lines
  // ---------------------------------------------------------------------------

  datatype Record = Record(seqNo: nat, ts: string, id: string, kind: string)

  /** Free of the characters that the format gives a meaning. */
  predicate Plain(s: string) { '|' !in s && '\n' !in s && '\0' !in s }

  predicate PlainRecord(r: Record) { Plain(r.ts) && Plain(r.id) && Plain(r.kind) }

  /** Without bars inside its fields. */
  predicate BarFree(r: Record) { '|' !in r.ts && '|' !in r.id && '|' !in r.kind }

  predicate OneLineText(s: string) { '\n' !in s && '\0' !in s }

  /** Without newlines and NULs inside its fields. */
  predicate OneLineRecord(r: Record) { OneLineText(r.ts) && OneLineText(r.id) && OneLineText(r.kind) }

  function RecordBytes(r: Record, prev: string): string {
    Dec(r.seqNo) + ("|" + (r.ts + ("|" + (r.id + ("|" + (r.kind + ("|" + prev)))))))
  }

  /** A line without its newline. */
  function Body(mac: Mac, r: Record, prev: string): string {
    RecordBytes(r, prev) + "|" + HexMac(mac, RecordBytes(r, prev))
  }

  /** Characters of the line, newline included. */
  function LineLength(r: Record): nat {
    |Dec(r.seqNo)| + |r.ts| + |r.id| + |r.kind| + 2 * HEX_LEN + 6
  }

  lemma {:induction false} HexIsPlain(x: Bytes)
    ensures Plain(HexEncode(x))
  {
    if x != [] {
      HexIsPlain(x[1..]);
    }
  }

  lemma DecIsPlain(n: nat)
    ensures Plain(Dec(n))
  {
    assert forall c <- Dec(n) :: IsDigit(c);
  }

  lemma BarAt(head: string, rest: string)
    requires '|' !in head
    ensures Bar(head + ("|" + rest)) == |head|
  {
    var s := head + ("|" + rest);
    NoBarBefore(s);
    assert s[|head|] == '|' && s[..|head|] == head;
  }

  lemma AfterField(head: string, rest: string, n: nat)
    requires '|' !in head && n > 0
    ensures After(head + ("|" + rest), n) == After(rest, n - 1)
  {
    var s := head + ("|" + rest);
    BarAt(head, rest);
    assert s[|head| + 1..] == rest;
  }

  lemma BodyShape(mac: Mac, r: Record, prev: string)
    ensures var hash := HexMac(mac, RecordBytes(r, prev));
            var end := prev + ("|" + hash);
            && Body(mac, r, prev) == Dec(r.seqNo) + ("|" + (r.ts + ("|" + (r.id + ("|" + (r.kind + ("|" + end)))))))
            && TailOf(Body(mac, r, prev)) == hash && RecordOf(Body(mac, r, prev)) == RecordBytes(r, prev)
  {
    var hash := HexMac(mac, RecordBytes(r, prev));
    Regroup(Dec(r.seqNo), r.ts, r.id, r.kind, prev, "|" + hash);
    RecordAndTail(RecordBytes(r, prev), hash);
  }

  lemma Regroup(a: string, b: string, c: string, d: string, e: string, f: string)
    ensures a + ("|" + (b + ("|" + (c + ("|" + (d + ("|" + e))))))) + f
         == a + ("|" + (b + ("|" + (c + ("|" + (d + ("|" + (e + f))))))))
  {
    var s3 := d + ("|" + e);
    assert s3 + f == d + ("|" + (e + f));
    var s2 := c + ("|" + s3);
    assert s2 + f == c + ("|" + (s3 + f));
    var s1 := b + ("|" + s2);
    assert s1 + f == b + ("|" + (s2 + f));
    assert a + ("|" + s1) + f == a + ("|" + (s1 + f));
  }

  lemma RecordAndTail(record: string, hash: string)
    requires |hash| == HEX_LEN
    ensures RecordOf(record + "|" + hash) == record && TailOf(record + "|" + hash) == hash
    ensures record + "|" + hash == record + ("|" + hash)
  {
  }

  /** The last two fields of a line that `append` writes. */
  lemma BodyEnd(mac: Mac, bars: nat, r: Record, prev: string)
    requires bars == BARS && BarFree(r)
    ensures After(Body(mac, r, prev), bars - 1) == Some(prev + ("|" + HexMac(mac, RecordBytes(r, prev))))
  {
    var end := prev + ("|" + HexMac(mac, RecordBytes(r, prev)));
    BodyShape(mac, r, prev);
    DecIsPlain(r.seqNo);
    FourFields(Dec(r.seqNo), r.ts, r.id, r.kind, end, bars - 1);
  }

  lemma FourFields(a: string, b: string, c: string, d: string, end: string, n: nat)
    requires n == BARS - 1 && '|' !in a && '|' !in b && '|' !in c && '|' !in d
    ensures After(a + ("|" + (b + ("|" + (c + ("|" + (d + ("|" + end))))))), n) == Some(end)
  {
    var s3 := d + ("|" + end);
    var s2 := c + ("|" + s3);
    var s1 := b + ("|" + s2);
    AfterField(a, s1, n);
    AfterField(b, s2, n - 1);
    AfterField(c, s3, n - 2);
    AfterField(d, end, n - 3);
  }

  /**
   A line that `append` writes passes the check against the hash it was chained to and no other, and hands on its own.
   */
  lemma AppendedLineOk(mac: Mac, bars: nat, r: Record, prev: string)
    requires bars == BARS && BarFree(r) && '|' !in prev
    ensures LineOk(mac, bars, prev, Body(mac, r, prev)) && LinkOf(Body(mac, r, prev), bars) == prev
    ensures TailOf(Body(mac, r, prev)) == HexMac(mac, RecordBytes(r, prev))
  {
    var hash := HexMac(mac, RecordBytes(r, prev));
    BodyShape(mac, r, prev);
    BodyEnd(mac, bars, r, prev);
    BarAt(prev, hash);
    var end := prev + ("|" + hash);
    assert end[..|prev|] == prev && end[|prev| + 1..] == hash;
  }

  lemma BodyPlain(mac: Mac, r: Record, prev: string)
    requires OneLineRecord(r) && OneLineText(prev)
    ensures OneLineText(Body(mac, r, prev)) && Body(mac, r, prev) != []
    ensures |prev| == HEX_LEN ==> |Body(mac, r, prev)| + 1 == LineLength(r)
    ensures Plain(HexMac(mac, RecordBytes(r, prev)))
  {
    DecIsPlain(r.seqNo);
    HexIsPlain(mac(RecordBytes(r, prev)));
  }

  // Records that are not plain

  function BarCount(s: string): nat {
    if s == [] then 0 else BarCount(s[..|s| - 1]) + if s[|s| - 1] == '|' then 1 else 0
  }

  lemma {:induction false} BarCountAppend(a: string, b: string)
    ensures BarCount(a + b) == BarCount(a) + BarCount(b)
    decreases |b|
  {
    if b == [] {
      assert a + b == a;
    } else {
      var n := |b| - 1;
      BarCountAppend(a, b[..n]);
      assert (a + b)[..|a + b| - 1] == a + b[..n];
    }
  }

  lemma {:induction false} NoBarsNoCount(s: string)
    ensures BarCount(s) == 0 <==> '|' !in s
  {
    if s != [] {
      NoBarsNoCount(s[..|s| - 1]);
      assert s == s[..|s| - 1] + [s[|s| - 1]];
    }
  }

  lemma WithBar(a: string, b: string)
    ensures BarCount(a + ("|" + b)) == BarCount(a) + 1 + BarCount(b)
  {
    BarCountAppend(a, "|" + b);
    BarCountAppend("|", b);
    assert BarCount("|") == 1;
  }

  lemma SplitAtBar(s: string)
    requires Bar(s) < |s|
    ensures '|' !in s[..Bar(s)] && s == s[..Bar(s)] + ("|" + s[Bar(s) + 1..])
  {
    NoBarBefore(s);
    CutAt(s, Bar(s));
  }

  lemma CutAt(s: string, b: nat)
    requires b < |s| && s[b] == '|'
    ensures s == s[..b] + ("|" + s[b + 1..])
  {
  }

  lemma OneBarMore(head: string, rest: string)
    requires '|' !in head
    ensures BarCount(head + ("|" + rest)) == 1 + BarCount(rest)
  {
    NoBarsNoCount(head);
    WithBar(head, rest);
  }

  lemma FirstBarCounts(s: string)
    requires Bar(s) < |s|
    ensures BarCount(s) == 1 + BarCount(s[Bar(s) + 1..])
  {
    SplitAtBar(s);
    OneBarMore(s[..Bar(s)], s[Bar(s) + 1..]);
  }

  /** Passing n bars leaves n bars fewer. */
  lemma {:induction false} AfterCounts(s: string, n: nat)
    ensures After(s, n).Some? ==> BarCount(s) == n + BarCount(After(s, n).value)
    decreases n
  {
    if n > 0 && Bar(s) < |s| {
      FirstBarCounts(s);
      AfterCounts(s[Bar(s) + 1..], n - 1);
    }
  }

  /** An intact line has exactly `bars` bars: its last field is a MAC, which contains none. */
  lemma OkBars(mac: Mac, bars: nat, prev: string, s: string)
    requires bars > 0 && LineOk(mac, bars, prev, s)
    ensures BarCount(s) == bars
  {
    AfterCounts(s, bars - 1);
    HexIsPlain(mac(RecordOf(s)));
    LastBar(After(s, bars - 1).value, HexMac(mac, RecordOf(s)));
  }

  lemma LastBar(end: string, hash: string)
    requires Bar(end) < |end| && end[Bar(end) + 1..] == hash && '|' !in hash
    ensures BarCount(end) == 1
  {
    FirstBarCounts(end);
    NoBarsNoCount(hash);
  }

  lemma BodyBars(mac: Mac, r: Record, prev: string)
    ensures BarCount(Body(mac, r, prev)) >= BARS + BarCount(r.ts) + BarCount(r.id) + BarCount(r.kind)
  {
    var end := prev + ("|" + HexMac(mac, RecordBytes(r, prev)));
    BodyShape(mac, r, prev);
    FourBars(Dec(r.seqNo), r.ts, r.id, r.kind, end);
    BarCountAppend(prev, "|" + HexMac(mac, RecordBytes(r, prev)));
    BarCountAppend("|", HexMac(mac, RecordBytes(r, prev)));
    assert BarCount("|") == 1;
  }

  lemma FourBars(a: string, b: string, c: string, d: string, end: string)
    ensures BarCount(a + ("|" + (b + ("|" + (c + ("|" + (d + ("|" + end))))))))
         == 4 + BarCount(a) + BarCount(b) + BarCount(c) + BarCount(d) + BarCount(end)
  {
    WithBar(d, end);
    WithBar(c, d + ("|" + end));
    WithBar(b, c + ("|" + (d + ("|" + end))));
    WithBar(a, b + ("|" + (c + ("|" + (d + ("|" + end))))));
  }

  /**
   A line that `append` writes is intact exactly if its fields are free of bars, against the hash it was chained to.
   */
  lemma AppendedLineExactly(mac: Mac, bars: nat, r: Record, prev: string, q: string)
    requires bars == BARS && '|' !in prev
    ensures LineOk(mac, bars, q, Body(mac, r, prev)) <==> BarFree(r) && q == prev
  {
    var s := Body(mac, r, prev);
    if BarFree(r) {
      AppendedLineOk(mac, bars, r, prev);
      if LineOk(mac, bars, q, s) {
        OkShape(mac, bars, q, s);
      }
    } else {
      NoBarsNoCount(r.ts);
      NoBarsNoCount(r.id);
      NoBarsNoCount(r.kind);
      BodyBars(mac, r, prev);
      if LineOk(mac, bars, q, s) {
        OkBars(mac, bars, q, s);
      }
    }
  }

  // ---------------------------------------------------------------------------
  // Reading files back
  // ---------------------------------------------------------------------------

  lemma {:induction false} CStringWhole(s: string)
    requires '\0' !in s
    ensures CString(s) == s
  {
    if s != [] {
      assert forall c <- s[1..] :: c in s;
      CStringWhole(s[1..]);
    }
  }

  lemma {:induction false} TakenLine(a: string, rest: string, cap: nat)
    requires '\n' !in a && |a| + 2 <= cap
    ensures Taken(a + "\n" + rest, cap) == |a| + 1
    decreases |a|
  {
    var f := a + "\n" + rest;
    if a == [] {
      assert f[0] == '\n';
    } else {
      assert forall c <- a[1..] :: c in a;
      assert f[0] == a[0] && a[0] in a;
      assert f[1..] == a[1..] + "\n" + rest;
      TakenLine(a[1..], rest, cap - 1);
    }
  }

  /** A line that fits the buffer is read whole, and the rest of the file is read as if it stood alone. */
  lemma LinesCons(a: string, rest: string, cap: nat)
    requires '\n' !in a && '\0' !in a && |a| + 2 <= cap
    ensures Lines(a + "\n" + rest, cap) == [a] + Lines(rest, cap)
  {
    var f := a + "\n" + rest;
    TakenLine(a, rest, cap);
    assert f[..|a| + 1] == a + "\n" && f[|a| + 1..] == rest;
    CStringWhole(a + "\n");
    assert (a + "\n")[..|a|] == a;
  }

  lemma {:induction false} TakenAll(a: string, cap: nat)
    requires a != [] && '\n' !in a && |a| + 1 <= cap
    ensures Taken(a, cap) == |a|
    decreases |a|
  {
    assert a[0] in a;
    if |a| > 1 {
      assert forall c <- a[1..] :: c in a;
      TakenAll(a[1..], cap - 1);
    }
  }

  /** A last line without its newline is read like any other. */
  lemma LastLine(a: string, cap: nat)
    requires a != [] && '\n' !in a && '\0' !in a && |a| + 1 <= cap
    ensures Lines(a, cap) == [a]
  {
    TakenAll(a, cap);
    CStringWhole(a);
    assert a[..|a|] == a && a[|a|..] == [] && a[|a| - 1] in a;
  }

  lemma OneLine(s: string, end: string, cap: nat)
    requires s != [] && '\n' !in s && '\0' !in s && |s| + 2 <= cap && (end == [] || end == "\n")
    ensures Lines(s + end, cap) == [s]
  {
    if end == [] {
      assert s + end == s;
      LastLine(s, cap);
    } else {
      assert s + end == s + "\n" + [];
      LinesCons(s, [], cap);
    }
  }

  lemma {:induction false} CStringFree(s: string)
    ensures CString(s) <= s && '\0' !in CString(s)
  {
    if s != [] && s[0] != '\0' {
      CStringFree(s[1..]);
    }
  }

  /** `fgets` stops at the first newline. */
  lemma {:induction false} TakenFree(f: string, cap: nat)
    requires f != [] && cap >= 2
    ensures '\n' !in f[..Taken(f, cap) - 1]
    decreases |f|
  {
    if f[0] == '\n' || |f| == 1 || cap == 2 {
    } else {
      var n := Taken(f[1..], cap - 1);
      TakenFree(f[1..], cap - 1);
      assert f[..n] == [f[0]] + f[1..][..n - 1];
    }
  }

  predicate Tidy(lines: seq<string>) {
    forall i :: 0 <= i < |lines| ==> '\n' !in lines[i] && '\0' !in lines[i]
  }

  /** Whatever the file, the lines read from it are free of newlines and NULs. */
  lemma {:induction false} LinesTidy(f: string, cap: nat)
    requires cap >= 2
    ensures Tidy(Lines(f, cap))
    decreases |f|
  {
    if f != [] {
      var n := Taken(f, cap);
      var raw := f[..n];
      TakenFree(f, cap);
      CStringFree(raw);
      var c := CString(raw);
      assert forall i :: 0 <= i < |c| - 1 ==> c[i] == f[..n - 1][i];
      LinesTidy(f[n..], cap);
    }
  }

  // ---------------------------------------------------------------------------
  // Recovery
  // ---------------------------------------------------------------------------

  function AfterLastBar(s: string): (t: string)
    requires '|' in s
  {
    if s[|s| - 1] == '|' then [] else
    assert '|' in s[..|s| - 1];
    AfterLastBar(s[..|s| - 1]) + [s[|s| - 1]]
  }

  /** `recover_tail` on the lines it reads: the last line with a bar wins. */
  function Recover(lines: seq<string>): (nat, string) {
    if lines == [] then (0, ZeroHex()) else
    var s := lines[|lines| - 1];
    if '|' !in s then Recover(lines[..|lines| - 1]) else (Strtoull(s[..Bar(s)]), AfterLastBar(s))
  }

  lemma {:induction false} AfterLastBarOf(a: string, b: string)
    requires '|' !in b
    ensures AfterLastBar(a + "|" + b) == b
    decreases |b|
  {
    var s := a + "|" + b;
    assert s[|a|] == '|';
    if b != [] {
      var n := |b| - 1;
      assert forall c <- b[..n] :: c in b;
      assert b[n] in b && s[|s| - 1] == b[n];
      AfterLastBarOf(a, b[..n]);
      assert s[..|s| - 1] == a + "|" + b[..n];
    }
  }

  lemma RecoverLine(mac: Mac, r: Record, prev: string)
    requires r.seqNo < U64
    ensures var s := Body(mac, r, prev);
            '|' in s && Strtoull(s[..Bar(s)]) == r.seqNo && AfterLastBar(s) == HexMac(mac, RecordBytes(r, prev))
  {
    var s, hex, d := Body(mac, r, prev), HexMac(mac, RecordBytes(r, prev)), Dec(r.seqNo);
    HexIsPlain(mac(RecordBytes(r, prev)));
    AfterLastBarOf(RecordBytes(r, prev), hex);
    DecIsPlain(r.seqNo);
    BodyShape(mac, r, prev);
    BarAt(d, s[|d| + 1..]);
    assert s == d + ("|" + s[|d| + 1..]);
    assert s[..|d|] == d;
    StrtoullOfDec(r.seqNo);
  }

  lemma {:induction false} AfterLastBarFree(s: string)
    requires '|' in s
    ensures '|' !in AfterLastBar(s) && forall c <- AfterLastBar(s) :: c in s
  {
    if s[|s| - 1] != '|' {
      assert '|' in s[..|s| - 1];
      AfterLastBarFree(s[..|s| - 1]);
    }
  }

  lemma ZeroHexPlain()
    ensures Plain(ZeroHex())
  {
  }

  lemma {:induction false} RecoverPlain(lines: seq<string>)
    requires Tidy(lines)
    ensures Plain(Recover(lines).1)
    decreases |lines|
  {
    if lines == [] {
      ZeroHexPlain();
    } else if '|' !in lines[|lines| - 1] {
      RecoverPlain(lines[..|lines| - 1]);
    } else {
      AfterLastBarFree(lines[|lines| - 1]);
    }
  }

  // ---------------------------------------------------------------------------
  // Lines that are cut off, merged, or chained to the wrong hash
  // ---------------------------------------------------------------------------

  lemma BarOfPrefix(s: string, k: nat)
    requires k <= |s| && Bar(s[..k]) < k
    ensures Bar(s) == Bar(s[..k])
  {
    var b := Bar(s[..k]);
    NoBarBefore(s);
    NoBarBefore(s[..k]);
    assert s[b] == '|' && s[..b] == s[..k][..b];
  }

  /** Cutting characters off the end of a line shortens what follows a bar by as many. */
  lemma {:induction false} AfterOfPrefix(s: string, k: nat, n: nat)
    requires k <= |s| && After(s[..k], n).Some?
    ensures After(s, n).Some?
    ensures |After(s, n).value| == |After(s[..k], n).value| + |s| - k
    decreases n
  {
    if n > 0 {
      BarOfPrefix(s, k);
      var b := Bar(s);
      assert s[..k][b + 1..] == s[b + 1..][..k - b - 1];
      AfterOfPrefix(s[b + 1..], k - b - 1, n - 1);
    }
  }

  /** The next bar is where it was. */
  lemma EndOfPrefix(s: string, k: nat, n: nat, cut: string)
    requires k <= |s| && After(s[..k], n) == Some(cut) && Bar(cut) < |cut|
    ensures After(s, n).Some? && |After(s, n).value| == |cut| + |s| - k && Bar(After(s, n).value) == Bar(cut)
  {
    AfterOfPrefix(s, k, n);
    AfterIsSuffix(s, n);
    AfterIsSuffix(s[..k], n);
    SuffixOfPrefix(s, k, cut, After(s, n).value);
    BarOfPrefix(After(s, n).value, |cut|);
  }

  lemma SuffixOfPrefix(s: string, k: nat, cut: string, end: string)
    requires |cut| <= k <= |s| && |end| <= |s| && cut == s[..k][k - |cut|..] && end == s[|s| - |end|..]
    requires |end| == |cut| + |s| - k
    ensures end[..|cut|] == cut
  {
  }

  /** A proper prefix of an intact line is never intact, against any hash. */
  lemma CutLineFails(mac: Mac, bars: nat, prev: string, s: string, k: nat, q: string)
    requires bars > 0 && LineOk(mac, bars, prev, s) && k < |s|
    ensures !LineOk(mac, bars, q, s[..k])
  {
    if LineOk(mac, bars, q, s[..k]) {
      EndOfPrefix(s, k, bars - 1, After(s[..k], bars - 1).value);
    }
  }

  /**
   A line written behind the remains of another is not intact, whatever it was chained to, unless their records collide.
   */
  lemma MergedLineFails(mac: Mac, bars: nat, prev: string, remains: string, r: Record, t: string)
    requires bars > 0 && remains != [] && CollisionFree(mac, {RecordBytes(r, t), remains + RecordBytes(r, t)})
    ensures !LineOk(mac, bars, prev, remains + Body(mac, r, t))
  {
    var s, record := remains + Body(mac, r, t), RecordBytes(r, t);
    if LineOk(mac, bars, prev, s) {
      OkShape(mac, bars, prev, s);
      assert s == (remains + record) + "|" + HexMac(mac, record);
      RecordAndTail(remains + record, HexMac(mac, record));
      HexInjective(mac(RecordOf(s)), mac(record));
    }
  }

  // ---------------------------------------------------------------------------
  // Fields with a newline or a NUL
  // ---------------------------------------------------------------------------

  lemma {:induction false} TakenStops(f: string, cap: nat, k: nat)
    requires f != [] && cap >= 2 && k < |f| && f[k] == '\n'
    ensures Taken(f, cap) <= k + 1
    decreases |f|
  {
    if f[0] != '\n' && |f| > 1 && cap > 2 {
      TakenStops(f[1..], cap - 1, k - 1);
    }
  }

  lemma {:induction false} CStringStops(s: string, k: nat)
    requires k < |s| && s[k] == '\0'
    ensures |CString(s)| <= k
  {
    if s[0] != '\0' {
      CStringStops(s[1..], k - 1);
    }
  }

  lemma CleanIsPrefix(raw: string)
    ensures Clean(raw) <= raw && |Clean(raw)| <= |CString(raw)|
  {
    CStringFree(raw);
  }

  /** A newline or NUL ends the first line no later than where it stands. */
  lemma FirstLineEnds(front: string, rest: string, cap: nat, k: nat)
    requires cap >= 2 && k < |front| && (front[k] == '\n' || front[k] == '\0')
    ensures Lines(front + rest, cap) != [] && Lines(front + rest, cap)[0] <= front
  {
    var f := front + rest;
    var raw := f[..Taken(f, cap)];
    CleanIsPrefix(raw);
    if front[k] == '\n' {
      TakenStops(f, cap, k);
    } else if k < |raw| {
      CStringStops(raw, k);
    }
    PrefixOfFront(Clean(raw), front, rest);
  }

  lemma PrefixOfFront(c: string, front: string, rest: string)
    requires c <= front + rest && |c| <= |front|
    ensures c <= front
  {
  }

  lemma PrefixBars(c: string, front: string)
    requires c <= front
    ensures BarCount(c) <= BarCount(front)
  {
    assert front == c + front[|c|..];
    BarCountAppend(c, front[|c|..]);
  }

  /** The part of a line before the link. */
  function Front(r: Record): string { Dec(r.seqNo) + ("|" + (r.ts + ("|" + (r.id + ("|" + r.kind))))) }

  lemma FrontBars(r: Record)
    requires BarFree(r)
    ensures BarCount(Front(r)) == 3
  {
    DecIsPlain(r.seqNo);
    NoBarsNoCount(Dec(r.seqNo));
    NoBarsNoCount(r.ts);
    NoBarsNoCount(r.id);
    NoBarsNoCount(r.kind);
    WithBar(r.id, r.kind);
    WithBar(r.ts, r.id + ("|" + r.kind));
    WithBar(Dec(r.seqNo), r.ts + ("|" + (r.id + ("|" + r.kind))));
  }

  lemma FrontFirst(mac: Mac, r: Record, prev: string)
    ensures Body(mac, r, prev) == Front(r) + ("|" + (prev + ("|" + HexMac(mac, RecordBytes(r, prev)))))
  {
    BodyShape(mac, r, prev);
    var end := prev + ("|" + HexMac(mac, RecordBytes(r, prev)));
    Regroup3(Dec(r.seqNo), r.ts, r.id, r.kind, "|" + end);
  }

  lemma Regroup3(a: string, b: string, c: string, d: string, f: string)
    ensures a + ("|" + (b + ("|" + (c + ("|" + d))))) + f == a + ("|" + (b + ("|" + (c + ("|" + (d + f))))))
  {
    var s2 := c + ("|" + d);
    assert s2 + f == c + ("|" + (d + f));
    var s1 := b + ("|" + s2);
    assert s1 + f == b + ("|" + (s2 + f));
    assert a + ("|" + s1) + f == a + ("|" + (s1 + f));
  }

  lemma NotOneLine(r: Record) returns (k: nat)
    requires !OneLineRecord(r)
    ensures k < |Front(r)| && (Front(r)[k] == '\n' || Front(r)[k] == '\0')
  {
    var t := Front(r);
    var d := |Dec(r.seqNo)| + 1;
    if !OneLineText(r.ts) {
      var i :| 0 <= i < |r.ts| && (r.ts[i] == '\n' || r.ts[i] == '\0');
      k := d + i;
    } else if !OneLineText(r.id) {
      var i :| 0 <= i < |r.id| && (r.id[i] == '\n' || r.id[i] == '\0');
      k := d + |r.ts| + 1 + i;
    } else {
      var i :| 0 <= i < |r.kind| && (r.kind[i] == '\n' || r.kind[i] == '\0');
      k := d + |r.ts| + 1 + |r.id| + 1 + i;
    }
  }

  /** A record with a newline or NUL, and no bars, in its fields starts with a line that is never intact. */
  lemma SpoiledRecord(mac: Mac, r: Record, prev: string, more: string, cap: nat)
    requires cap >= 2 && BarFree(r) && !OneLineRecord(r)
    ensures var lines := Lines(Body(mac, r, prev) + more, cap);
            lines != [] && forall p: string :: !LineOk(mac, BARS, p, lines[0])
  {
    var k := NotOneLine(r);
    var rest := "|" + (prev + ("|" + HexMac(mac, RecordBytes(r, prev))));
    FrontFirst(mac, r, prev);
    assert Body(mac, r, prev) + more == Front(r) + (rest + more);
    FirstLineEnds(Front(r), rest + more, cap, k);
    var c := Lines(Body(mac, r, prev) + more, cap)[0];
    PrefixBars(c, Front(r));
    FrontBars(r);
    forall p: string ensures !LineOk(mac, BARS, p, c) {
      if LineOk(mac, BARS, p, c) {
        OkBars(mac, BARS, p, c);
      }
    }
  }
}
