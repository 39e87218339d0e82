/** Inputs and runs on which the audit log (src/audit/audit_log.cpp) does not do what one would expect. */
module AuditExamples {
  import opened Wrappers
  import opened Decimals
  import opened AuditLog
  import opened AuditLines
  import opened AuditRuns
  import opened AuditVerdicts

  const NEW_LOG := Log(None, 0, ZeroHex())

  function Filler(n: nat): string { seq(n, _ => 'x') }

  /** A complete, synced append of an event type. */
  function Complete(kind: string): Happening { Attempt([], [], kind, Wrote(200 + |kind|, true)) }

  lemma FirstRecord(mac: Mac, f: Format, kind: string)
    requires f == LogFormat(mac, BARS)
    ensures var e := Complete(kind);
            && NextRecord(NEW_LOG, e) == Record(1, [], [], kind) && WritesAll(f, NEW_LOG, e)
            && LineLength(Record(1, [], [], kind)) == 135 + |kind|
  {
    FirstLength(mac, kind);
  }

  lemma FirstLength(mac: Mac, kind: string)
    ensures |Body(mac, Record(1, [], [], kind), ZeroHex())| == 134 + |kind|
  {
  }

  /** The run of one append on a new log. */
  lemma OneAppend(mac: Mac, f: Format, kind: string)
    requires f == LogFormat(mac, BARS) && Simple(Record(1, [], [], kind))
    ensures var j := Track(f, [Complete(kind)]);
            && j.log == Next(f, NEW_LOG, Complete(kind)) && Follows(f, j) && Verdict(f, j.log) == Expected(f, j)
            && j.phase == (if Good(Record(1, [], [], kind)) then Settled
                           else Spoiled(if Brimful(Record(1, [], [], kind)) then 2 else 1))
            && (Good(Record(1, [], [], kind)) ==> j.recs == [Record(1, [], [], kind)])
  {
    var e, j := Complete(kind), Track(f, []);
    FirstRecord(mac, f, kind);
    assert [e][..0] == [] && j == Trail(NEW_LOG, [], Settled);
    assert Track(f, [e]) == Advance(f, j, e);
    assert Written(f, NEW_LOG, e) == NextBody(f, NEW_LOG, e) + "\n";
    NextVerdict(mac, f, j, e);
    assert [] + [Record(1, [], [], kind)] == [Record(1, [], [], kind)];
  }

  /** An event type with a bar, with a newline, or of 1913 characters is written, and the file no longer verifies. */
  lemma TroubleSpoils(mac: Mac, f: Format)
    requires f == LogFormat(mac, BARS)
    ensures Verdict(f, Track(f, [Complete("|")]).log) == Some(1)
    ensures Verdict(f, Track(f, [Complete("\n")]).log) == Some(1)
    ensures Verdict(f, Track(f, [Complete(Filler(1914))]).log) == Some(1)
    ensures Verdict(f, Track(f, [Complete(Filler(1913))]).log) == Some(2)
    ensures Verdict(f, Track(f, [Complete(Filler(1912))]).log) == None
  {
    Kinds(mac, f);
    OneAppend(mac, f, "|");
    OneAppend(mac, f, "\n");
    OneAppend(mac, f, Filler(1914));
    OneAppend(mac, f, Filler(1913));
    OneAppend(mac, f, Filler(1912));
  }

  lemma Kinds(mac: Mac, f: Format)
    requires f == LogFormat(mac, BARS)
    ensures Simple(Record(1, [], [], "|")) && !PlainRecord(Record(1, [], [], "|"))
    ensures Simple(Record(1, [], [], "\n")) && !PlainRecord(Record(1, [], [], "\n"))
    ensures forall n: nat :: Simple(Record(1, [], [], Filler(n))) && PlainRecord(Record(1, [], [], Filler(n)))
    ensures forall n: nat :: LineLength(Record(1, [], [], Filler(n))) == 135 + n
  {
    FirstRecord(mac, f, "|");
    assert "|"[0] == '|' && "\n"[0] == '\n';
    forall n: nat ensures LineLength(Record(1, [], [], Filler(n))) == 135 + n {
      FirstRecord(mac, f, Filler(n));
    }
  }

  /** An append that stops after five characters leaves a file that does not verify. */
  lemma PartlyWritten(mac: Mac, f: Format, e: Happening)
    requires f == LogFormat(mac, BARS) && e == Attempt([], [], "x", Wrote(5, false))
    ensures Verdict(f, Next(f, NEW_LOG, e)) != None
  {
    FirstRecord(mac, f, "x");
    FirstLength(mac, "x");
    assert NextRecord(NEW_LOG, e) == Record(1, [], [], "x") && Track(f, []) == Trail(NEW_LOG, [], Settled);
    FailedAppendVerdict(mac, f, [], Track(f, []), e);
  }

  // ---------------------------------------------------------------------------
  // Restarts after lines that do not fit the recovery buffer
  // ---------------------------------------------------------------------------

  lemma RecoverLong(s: string, a: string, rest: string)
    requires OneLineText(s) && |s| >= RECOVER_BUFFER && a == s[..RECOVER_BUFFER - 1] && rest == s[RECOVER_BUFFER - 1..]
    requires '|' in rest && |rest| < RECOVER_BUFFER
    ensures Recover(Lines(s + "\n", RECOVER_BUFFER)) == (Strtoull(rest[..Bar(rest)]), AfterLastBar(rest))
  {
    PieceOf(s, a, rest);
    RecoverShort(rest);
  }

  lemma SecondPiece(mac: Mac, kind: string, s: string, hash: string)
    requires kind == Filler(1023) && s == Body(mac, Record(1, [], [], kind), ZeroHex())
    requires hash == HexMac(mac, RecordBytes(Record(1, [], [], kind), ZeroHex()))
    ensures |s| == 1157 && s[RECOVER_BUFFER - 1..] == "xxxx" + ("|" + (ZeroHex() + ("|" + hash)))
  {
    FirstLength(mac, kind);
    BodyShape(mac, Record(1, [], [], kind), ZeroHex());
    assert Dec(1) == "1";
  }

  lemma NoDigits(rest: string, more: string)
    requires rest == "xxxx" + ("|" + more)
    ensures '|' in rest && Strtoull(rest[..Bar(rest)]) == 0
  {
    BarAt("xxxx", more);
    assert rest[4] == '|' && rest[..4] == "xxxx";
  }

  /** The number that is read from the second piece of such a line is 0. */
  lemma NumberIsZero(mac: Mac, kind: string, s: string, hash: string)
    requires kind == Filler(1023) && s == Body(mac, Record(1, [], [], kind), ZeroHex())
    requires hash == HexMac(mac, RecordBytes(Record(1, [], [], kind), ZeroHex()))
    ensures Recover(Lines(s + "\n", RECOVER_BUFFER)).0 == 0
  {
    ZeroHexPlain();
    BodyPlain(mac, Record(1, [], [], kind), ZeroHex());
    SecondPiece(mac, kind, s, hash);
    NoDigits(s[RECOVER_BUFFER - 1..], ZeroHex() + ("|" + hash));
    RecoverLong(s, s[..RECOVER_BUFFER - 1], s[RECOVER_BUFFER - 1..]);
  }

  lemma FileOfOne(f: Format, j: Trail, r: Record)
    requires Follows(f, j) && j.phase.Settled? && j.recs == [r]
    ensures Contents(j.log.file) == f.body(r, f.rules.zero) + "\n" && j.log.tail == f.hash(r, f.rules.zero)
  {
    assert [r][..0] == [];
    assert f.Render([], f.rules.zero) + (f.body(r, f.rules.zero) + "\n") == f.body(r, f.rules.zero) + "\n";
  }

  lemma RestartAfterOne(mac: Mac, f: Format, j: Trail, r: Record, k: Trail)
    requires f == LogFormat(mac, BARS) && Follows(f, j) && j.phase.Settled? && j.recs == [r] && KeepsTail(r)
    requires k == Advance(f, j, Restarted)
    ensures Verdict(f, k.log) == None && k.recs == [r]
  {
    NextVerdict(mac, f, j, Restarted);
  }

  lemma NumberAfterOne(mac: Mac, f: Format, j: Trail, r: Record, kind: string)
    requires f == LogFormat(mac, BARS) && Follows(f, j) && j.phase.Settled? && j.recs == [r]
    requires kind == Filler(1023) && r == Record(1, [], [], kind)
    ensures Restart(j.log).seqNo == 0
  {
    FileOfOne(f, j, r);
    NumberIsZero(mac, kind, Body(mac, r, ZeroHex()), HexMac(mac, RecordBytes(r, ZeroHex())));
  }

  /** After a line of 1158 characters and a restart the file verifies, and the next append gives number 1 again. */
  lemma NumberIsLost(mac: Mac, f: Format, kind: string, j: Trail, k: Trail)
    requires f == LogFormat(mac, BARS) && kind == Filler(1023)
    requires j == Track(f, [Complete(kind)]) && k == Advance(f, j, Restarted)
    ensures j.recs == k.recs == [Record(1, [], [], kind)] && Verdict(f, k.log) == None
    ensures NextSeq(k.log) == 1
  {
    LongRecord(mac, f, kind, Record(1, [], [], kind));
    OneGoodAppend(mac, f, kind, j);
    NumberAfterOne(mac, f, j, Record(1, [], [], kind), kind);
    RestartLosesNumber(mac, f, j, Record(1, [], [], kind), k);
  }

  lemma RestartLosesNumber(mac: Mac, f: Format, j: Trail, r: Record, k: Trail)
    requires f == LogFormat(mac, BARS) && Follows(f, j) && j.phase.Settled? && j.recs == [r] && KeepsTail(r)
    requires Restart(j.log).seqNo == 0 && k == Advance(f, j, Restarted)
    ensures k.recs == j.recs && Verdict(f, k.log) == None && NextSeq(k.log) == 1
  {
    RestartAfterOne(mac, f, j, r, k);
  }

  lemma OneGoodAppend(mac: Mac, f: Format, kind: string, j: Trail)
    requires f == LogFormat(mac, BARS) && Good(Record(1, [], [], kind)) && j == Track(f, [Complete(kind)])
    ensures Follows(f, j) && j.phase.Settled? && j.recs == [Record(1, [], [], kind)]
  {
    OneAppend(mac, f, kind);
  }

  lemma LongRecord(mac: Mac, f: Format, kind: string, r: Record)
    requires f == LogFormat(mac, BARS) && kind == Filler(1023) && r == Record(1, [], [], kind)
    ensures Good(r) && KeepsTail(r)
  {
    FirstRecord(mac, f, kind);
  }

  /** After a line of 1025 characters and a restart the object chains to a cut-off hash, and the next line is bad. */
  lemma HashIsLost(mac: Mac, f: Format, kind: string, j: Trail, log: Log, e: Happening)
    requires f == LogFormat(mac, BARS) && kind == Filler(890)
    requires j == Track(f, [Complete(kind)]) && log == Restart(j.log)
    ensures j.phase.Settled? && log.tail != j.log.tail
    ensures e.Attempt? && WritesAll(f, log, e) && FitsPlainly(f, log, e) ==> Verdict(f, Next(f, log, e)) == Some(2)
  {
    SplitRecord(mac, f, kind);
    OneGoodAppend(mac, f, kind, j);
    HashSplit(mac, f, j, log, e);
  }

  lemma HashSplit(mac: Mac, f: Format, j: Trail, log: Log, e: Happening)
    requires f == LogFormat(mac, BARS) && Follows(f, j) && j.phase.Settled? && |j.recs| == 1 && log == Restart(j.log)
    requires !HashUnsplit(LineLength(j.recs[0]) - 1)
    ensures log.tail != j.log.tail
    ensures e.Attempt? && WritesAll(f, log, e) && FitsPlainly(f, log, e) ==> Verdict(f, Next(f, log, e)) == Some(2)
  {
    assert j.recs[0] in j.recs;
    RestartTailExactly(mac, f, j.recs, j.log);
    RestartPlain(j.log);
    if e.Attempt? && WritesAll(f, log, e) && FitsPlainly(f, log, e) {
      WrongTailSpoils(mac, f, j.recs, log, e);
    }
  }

  predicate FitsPlainly(f: Format, log: Log, e: Happening)
    requires e.Attempt?
  {
    PlainRecord(NextRecord(log, e)) && |NextBody(f, log, e)| + 2 <= VERIFY_BUFFER
  }

  lemma SplitRecord(mac: Mac, f: Format, kind: string)
    requires f == LogFormat(mac, BARS) && kind == Filler(890)
    ensures Good(Record(1, [], [], kind)) && LineLength(Record(1, [], [], kind)) == 1025 && !HashUnsplit(1024)
  {
    FirstRecord(mac, f, kind);
  }

  // ---------------------------------------------------------------------------
  // The conditions on the MAC can be met
  // ---------------------------------------------------------------------------

  /** A MAC that only depends on the length, enough to tell short records of different lengths apart. */
  function LengthMac(s: string): Digest { [|s| % 255 + 1] + seq(31, _ => 0) }

  lemma LengthsApart(q: string, rest: string)
    requires |q| + |rest| < 255
    ensures CollisionFree(LengthMac, {q, rest + q}) && CollisionFree(LengthMac, {q}) && NeverZero(LengthMac, {q})
  {
    assert rest == [] ==> rest + q == q;
    forall s <- {q, rest + q} ensures LengthMac(s)[0] == |s| + 1 {
    }
  }

  /** A first append that fails wherever it may, and a second that does not: what is asked of the MAC is met. */
  lemma ClashlessExample(f: Format, j: Trail, io: Io, e: Happening, k: Trail, d: Happening)
    requires f == LogFormat(LengthMac, BARS) && j == Track(f, []) && io.Wrote?
    requires e == Attempt([], [], "x", io) && k == Advance(f, j, e) && d == Attempt([], [], "y", Wrote(200, true))
    ensures Clashless(LengthMac, f, k, d)
  {
    var r, q := Record(1, [], [], "x"), Record(2, [], [], "y");
    assert NextRecord(j.log, e) == r && NextRecord(k.log, d) == q;
    FirstLength(LengthMac, "x");
    TextLength(1, "x", ZeroHex());
    if k.phase.Unsynced? {
      assert k.recs == [r] && [r][..0] == [];
      assert RecordTexts(f, [r]) == {RecordBytes(r, ZeroHex())};
      LengthsApart(RecordBytes(r, ZeroHex()), []);
    } else if k.phase.Torn? {
      NextIs(f, j.log, e);
      TextLength(2, "y", ZeroHex());
      LengthsApart(RecordBytes(q, k.log.tail), k.phase.rest);
    }
  }

  lemma TextLength(n: nat, kind: string, prev: string)
    requires n < 10 && |prev| == HEX_LEN
    ensures |RecordBytes(Record(n, [], [], kind), prev)| == 69 + |kind|
  {
  }
}
