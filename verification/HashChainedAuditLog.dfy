/**
 The audit log object (src/audit/audit_log.cpp): its fields, the loops of recovery and verification,
 and `append`, each tied to the functions of `AuditLog`.
 */
module AuditLogs {
  import opened Wrappers
  import Codecs
  import opened Decimals
  import opened AuditLog
  import opened AuditRuns
  import opened AuditVerdicts
  import opened Widths

  lemma LinesStep(f: string, cap: nat)
    requires f != [] && cap >= 2
    ensures Lines(f, cap) == [Clean(f[..Taken(f, cap)])] + Lines(f[Taken(f, cap)..], cap)
  {
  }

  lemma RecoverStep(lines: seq<string>, s: string)
    ensures Recover(lines + [s]) == if '|' in s then (Strtoull(s[..Bar(s)]), AfterLastBar(s)) else Recover(lines)
  {
    assert (lines + [s])[..|lines|] == lines;
  }

  /** One `fgets` with a buffer of `cap` characters: the characters read and what is left of the file. */
  method Fgets(f: string, cap: nat) returns (raw: string, rest: string)
    requires f != [] && cap >= 2
    ensures raw + rest == f && |raw| == Taken(f, cap)
  {
    ghost var all := Taken(f, cap);
    var n := 1;
    while f[n - 1] != '\n' && n < |f| && n + 1 < cap
      invariant 1 <= n <= |f| && n + 1 <= cap
      invariant all == n - 1 + Taken(f[n - 1..], cap - (n - 1))
      decreases |f| - n
    {
      assert f[n - 1..][1..] == f[n..];
      n := n + 1;
    }
    raw, rest := f[..n], f[n..];
  }

  /** The contents of the buffer as a C string, without a final newline. */
  method Stripped(raw: string) returns (s: string)
    ensures s == Clean(raw)
  {
    s := CString(raw);
    if s != [] && s[|s| - 1] == '\n' {
      s := s[..|s| - 1];
    }
  }

  /** One line, and what is left of the file. */
  method ReadLine(f: string, cap: nat) returns (s: string, rest: string)
    requires f != [] && cap >= 2
    ensures Lines(f, cap) == [s] + Lines(rest, cap) && |rest| < |f|
  {
    LinesStep(f, cap);
    var raw, more := Fgets(f, cap);
    assert raw == f[..Taken(f, cap)] && more == f[Taken(f, cap)..];
    s := Stripped(raw);
    rest := more;
  }

  /** The parts with a bar between each two. */
  function Joined(parts: seq<string>): string
    requires parts != []
  {
    var n := |parts| - 1;
    if n == 0 then parts[0] else Joined(parts[..n]) + ("|" + parts[n])
  }

  lemma JoinedMore(parts: seq<string>, s: string)
    requires parts != []
    ensures Joined(parts + [s]) == Joined(parts) + ("|" + s)
  {
    assert (parts + [s])[..|parts|] == parts;
  }

  /**
   How what is left of a line relates to the whole, after which the last field starts at `last` and the one before
   at `link`: as many bars still to be passed as there are fields missing.
   */
  predicate Counted(link: Option<string>, last: Option<string>, bars: nat, k: nat, field: string, here: string) {
    && k <= bars && last == After(here, bars - k)
    && (k < bars ==> link == After(here, bars - 1 - k))
    && (0 < k == bars ==> link == Some(field + ("|" + here)))
  }

  predicate Rejoins(s: string, parts: seq<string>, here: string) {
    if parts == [] then here == s else Joined(parts) + ("|" + here) == s && '|' !in parts[|parts| - 1]
  }

  lemma CountStep(link: Option<string>, last: Option<string>, bars: nat, k: nat, was: string, here: string,
                  field: string, rest: string)
    requires Counted(link, last, bars, k, was, here) && k < bars && here == field + ("|" + rest)
    requires forall n: nat :: n > 0 ==> After(here, n) == After(rest, n - 1)
    ensures Counted(link, last, bars, k + 1, field, rest)
  {
  }

  lemma CutAt(here: string, b: nat, field: string, rest: string)
    requires b < |here| && here[b] == '|' && field == here[..b] && rest == here[b + 1..]
    ensures here == field + ("|" + rest)
  {
  }

  lemma AfterBar(here: string, rest: string, n: nat)
    requires n > 0 && Bar(here) < |here| && rest == here[Bar(here) + 1..]
    ensures After(here, n) == After(rest, n - 1)
  {
  }

  lemma AtBar(here: string, field: string, rest: string)
    requires Bar(here) < |here| && field == here[..Bar(here)] && rest == here[Bar(here) + 1..]
    ensures here == field + ("|" + rest) && '|' !in field
    ensures forall n: nat :: n > 0 ==> After(here, n) == After(rest, n - 1)
  {
    NoBarBefore(here);
    CutAt(here, Bar(here), field, rest);
    forall n: nat | n > 0 ensures After(here, n) == After(rest, n - 1) {
      AfterBar(here, rest, n);
    }
  }

  lemma RejoinStep(s: string, parts: seq<string>, here: string, field: string, rest: string)
    requires Rejoins(s, parts, here) && here == field + ("|" + rest) && '|' !in field
    ensures Rejoins(s, parts + [field], rest)
  {
    if parts != [] {
      JoinedMore(parts, field);
      Regrouped(Joined(parts), field, rest);
    }
  }

  /** Splits off fields until `bars` of them are there or no bar is left. */
  method SplitLoop(s: string, bars: nat, ghost link: Option<string>, ghost last: Option<string>)
    returns (parts: seq<string>, here: string, ghost field: string)
    requires bars > 0 && Counted(link, last, bars, 0, "", s)
    ensures |parts| <= bars && (|parts| < bars ==> last == None)
    ensures |parts| == bars ==>
              Counted(link, last, bars, bars, field, here) && Rejoins(s, parts, here) && field == parts[bars - 1]
  {
    parts, here, field := [], s, "";
    while |parts| < bars
      invariant Counted(link, last, bars, |parts|, field, here) && Rejoins(s, parts, here)
      invariant parts != [] ==> field == parts[|parts| - 1]
      decreases bars - |parts|
    {
      var b := Bar(here);
      if b == |here| {
        return;
      }
      ghost var was := field;
      var next, rest := here[..b], here[b + 1..];
      AtBar(here, next, rest);
      CountStep(link, last, bars, |parts|, was, here, next, rest);
      RejoinStep(s, parts, here, next, rest);
      parts, here, field := parts + [next], rest, next;
    }
  }

  /** The fields of a line as `verify_chain` splits it: all of them if there are enough bars, otherwise fewer. */
  method Split(s: string, bars: nat) returns (parts: seq<string>)
    requires bars > 0
    ensures After(s, bars).None? ==> |parts| <= bars
    ensures After(s, bars).Some? ==> |parts| == bars + 1 && parts[bars] == After(s, bars).value && Joined(parts) == s
    ensures After(s, bars).Some? ==>
              After(s, bars - 1) == Some(parts[bars - 1] + ("|" + parts[bars])) && '|' !in parts[bars - 1]
  {
    var here;
    ghost var field;
    parts, here, field := SplitLoop(s, bars, After(s, bars - 1), After(s, bars));
    if |parts| == bars {
      JoinedMore(parts, here);
      parts := parts + [here];
    }
  }

  lemma Regrouped(a: string, b: string, c: string)
    ensures a + ("|" + b) + ("|" + c) == a + ("|" + (b + ("|" + c)))
  {
  }

  /** With enough bars, the check is on the last two fields. */
  lemma LineOkFields(mac: Mac, bars: nat, prev: string, s: string, link: string, hash: string)
    requires bars > 0 && After(s, bars - 1) == Some(link + ("|" + hash)) && '|' !in link
    ensures LineOk(mac, bars, prev, s) == EndOk(mac, prev, s, link, hash)
  {
    var end := link + ("|" + hash);
    BarAt(link, hash);
    assert end[..|link|] == link && end[|link| + 1..] == hash;
  }

  lemma {:induction false} AfterNone(s: string, n: nat)
    ensures After(s, n + 1).Some? <==> After(s, n).Some? && Bar(After(s, n).value) < |After(s, n).value|
  {
    if n > 0 && Bar(s) < |s| {
      AfterNone(s[Bar(s) + 1..], n - 1);
    }
  }

  /** The check of one line against the hash of its predecessor. */
  method CheckLine(mac: Mac, bars: nat, prev: string, s: string) returns (ok: bool, hash: string)
    requires bars > 0
    ensures ok == LineOk(mac, bars, prev, s)
    ensures ok ==> hash == TailOf(s)
  {
    AfterNone(s, bars - 1);
    var parts := Split(s, bars);
    if |parts| != bars + 1 {
      return false, [];
    }
    LineOkFields(mac, bars, prev, s, parts[bars - 1], parts[bars]);
    if |parts[bars]| != HEX_LEN || parts[bars - 1] != prev {
      return false, [];
    }
    var record := Joined(parts[..bars]);
    assert s == record + ("|" + parts[bars]);
    RecordAndTail(record, parts[bars]);
    hash := Codecs.HexEncodeLoop(mac(record));
    ok := hash == parts[bars];
  }

  /** The characters of one record with its newline, and the hash in them. */
  method MakeLine(mac: Mac, r: Record, tail: string) returns (line: string, hex: string)
    ensures line == Body(mac, r, tail) + "\n" && hex == HexMac(mac, RecordBytes(r, tail))
  {
    var record := RecordBytes(r, tail);
    hex := Codecs.HexEncodeLoop(mac(record));
    line := record + "|" + hex + "\n";
  }

  lemma AppendIs(mac: Mac, log: Log, r: Record, io: Io, line: string, hex: string)
    requires r.seqNo == NextSeq(log) && line == Body(mac, r, log.tail) + "\n"
    requires hex == HexMac(mac, RecordBytes(r, log.tail))
    ensures AuditRuns.Append(LogFormat(mac, BARS), log, r.ts, r.id, r.kind, io)
         == if io.CannotOpen? then Log(log.file, r.seqNo, log.tail)
            else Log(Some(Contents(log.file) + Shorter(line, io.count)), r.seqNo,
                     if io.count >= |line| && io.synced then hex else log.tail)
  {
  }

  class HashChainedAuditLog {
    const mac: Mac
    var file: Option<string>
    var seqNo: nat
    var tail: string

    ghost function State(): Log
      reads this
    {
      Log(file, seqNo, tail)
    }

    /** Opening an existing file, or none, recovers the last number and hash. */
    constructor (mac: Mac, file: Option<string>)
      ensures this.mac == mac && this.file == file
      ensures State() == Restart(Log(file, 0, []))
      ensures Contents(file) == [] ==> seqNo == 0 && tail == seq(64, _ => '0')
    {
      this.mac, this.file := mac, file;
      seqNo, tail := 0, ZeroHex();
      new;
      RecoverTail(RECOVER_BUFFER);
    }

    /** A line with a bar gives the number before its first bar and the hash behind its last. */
    method TakeTail(s: string, ghost done: seq<string>)
      requires (seqNo, tail) == Recover(done)
      modifies `seqNo, `tail
      ensures (seqNo, tail) == Recover(done + [s])
    {
      RecoverStep(done, s);
      if '|' in s {
        tail := AfterLastBar(s);
        seqNo := Strtoull(s[..Bar(s)]);
      }
    }

    method RecoverTail(cap: nat)
      requires cap >= 2 && seqNo == 0 && tail == ZeroHex()
      modifies `seqNo, `tail
      ensures (seqNo, tail) == Recover(Lines(Contents(file), cap))
    {
      var rest := Contents(file);
      ghost var all := Lines(rest, cap);
      ghost var done: seq<string> := [];
      while rest != []
        invariant all == done + Lines(rest, cap)
        invariant (seqNo, tail) == Recover(done)
        decreases |rest|
      {
        var s, more := ReadLine(rest, cap);
        TakeTail(s, done);
        done := done + [s];
        rest := more;
      }
      assert all == done;
    }

    /** One record; `io` is what the file system does with it. */
    method Append(ts: string, id: string, kind: string, io: Io) returns (ok: bool)
      modifies `file, `seqNo, `tail
      ensures State() == AuditRuns.Append(LogFormat(mac, BARS), old(State()), ts, id, kind, io)
      ensures ok <==> io.Wrote? && io.synced && io.count > |Body(mac, Record(seqNo, ts, id, kind), old(tail))|
      ensures seqNo == (old(seqNo) + 1) % 0x1_0000_0000_0000_0000
      ensures ok ==> file == Some(Contents(old(file)) + LineText(mac, seqNo, ts, id, kind, old(tail)))
    {
      ghost var log := State();
      seqNo := (seqNo + 1) % U64;
      var line, hex := MakeLine(mac, Record(seqNo, ts, id, kind), tail);
      AppendIs(mac, log, Record(seqNo, ts, id, kind), io, line, hex);
      RecordText(Record(seqNo, ts, id, kind), tail);
      if io.CannotOpen? {
        return false;
      }
      var written := Shorter(line, io.count);
      file := Some(Contents(file) + written);
      ok := |written| == |line| && io.synced;
      if ok {
        tail := hex;
      }
    }

    /** `None` for an intact file, otherwise the number of the first line whose shape, link or MAC is wrong. */
    method VerifyChain() returns (bad: Option<nat>)
      ensures bad == Verdict(LogFormat(mac, BARS), State())
    {
      var rest, prev, lineno := Contents(file), ZeroHex(), 0;
      ghost var all := Lines(rest, VERIFY_BUFFER);
      ghost var r := LogRules(mac, BARS);
      while rest != []
        invariant lineno <= |all| && all[lineno..] == Lines(rest, VERIFY_BUFFER)
        invariant prev == r.PrevOf(all, lineno)
        invariant r.FirstBad(all, 0) == r.FirstBad(all, lineno)
        decreases |rest|
      {
        var s, more := ReadLine(rest, VERIFY_BUFFER);
        lineno := lineno + 1;
        assert s == all[lineno - 1] && all[lineno..] == all[lineno - 1..][1..];
        var ok, hash := CheckLine(mac, BARS, prev, s);
        if !ok {
          return Some(lineno);
        }
        prev := hash;
        rest := more;
      }
      return None;
    }
  }
}
