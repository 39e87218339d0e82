/**
 What `verify_chain` says after any run of the audit log (src/audit/audit_log.cpp): the real line format meets the laws
 of `AuditRuns`, so after every run of complete, failed and unsynced appends and of restarts its verdict is known.
 */
module AuditVerdicts {
  import opened Wrappers
  import opened Codecs
  import opened Decimals
  import opened AuditLog
  import opened AuditLines
  import opened AuditRuns
  import opened Widths

  // ---------------------------------------------------------------------------
  // The real format
  // ---------------------------------------------------------------------------

  function LogFormat(mac: Mac, bars: nat): Format
    requires bars > 0
  {
    Format(LogRules(mac, bars), (r: Record, p: string) => Body(mac, r, p),
           (r: Record, p: string) => HexMac(mac, RecordBytes(r, p)))
  }

  /**
   What one append adds to the file: SEQ|TIME|ID|TYPE|PREVIOUS and the HMAC of just that in hexadecimal, a bar before it
   and a newline behind it.
   */
  function LineText(mac: Mac, n: nat, ts: string, id: string, kind: string, prev: string): string {
    var record := Dec(n) + "|" + ts + "|" + id + "|" + kind + "|" + prev;
    record + "|" + HexEncode(mac(record)) + "\n"
  }

  lemma RecordText(r: Record, prev: string)
    ensures RecordBytes(r, prev) == Dec(r.seqNo) + "|" + r.ts + "|" + r.id + "|" + r.kind + "|" + prev
  {
    BarsApart(Dec(r.seqNo), r.ts, r.id + ("|" + (r.kind + ("|" + prev))));
    BarsApart(Dec(r.seqNo) + "|" + r.ts, r.id, r.kind + ("|" + prev));
    BarsApart(Dec(r.seqNo) + "|" + r.ts + "|" + r.id, r.kind, prev);
  }

  lemma BarsApart(a: string, b: string, c: string)
    ensures a + ("|" + (b + ("|" + c))) == (a + "|" + b) + ("|" + c)
    ensures a + "|" + b + ("|" + c) == a + "|" + b + "|" + c
  {
  }

  /**
   Every append takes the next number modulo 2^64, whatever comes of it; the file gets the line or the part of it that
   was written; the hash moves on exactly if the whole line was written and synced.
   */
  lemma AppendWrites(mac: Mac, log: Log, ts: string, id: string, kind: string, io: Io, n: nat, line: string, after: Log)
    requires n == (log.seqNo + 1) % 0x1_0000_0000_0000_0000 && line == LineText(mac, n, ts, id, kind, log.tail)
    requires after == Append(LogFormat(mac, BARS), log, ts, id, kind, io)
    ensures after.seqNo == n
    ensures io.CannotOpen? ==> after.file == log.file && after.tail == log.tail
    ensures io.Wrote? ==>
              && after.file == Some(Contents(log.file) + if io.count < |line| then line[..io.count] else line)
              && |line| >= 65
              && after.tail == if io.count >= |line| && io.synced then line[|line| - 65..|line| - 1] else log.tail
  {
    var r := Record(n, ts, id, kind);
    var text := RecordBytes(r, log.tail);
    RecordText(r, log.tail);
    assert line == text + "|" + HexEncode(mac(text)) + "\n";
    HashAtEnd(text + "|", HexEncode(mac(text)), line);
  }

  lemma HashAtEnd(a: string, hash: string, line: string)
    requires |hash| == 64 && line == a + hash + "\n"
    ensures line[|line| - 65..|line| - 1] == hash
  {
  }

  lemma LineLaws(mac: Mac, f: Format, r: Record, p: string)
    requires f == LogFormat(mac, BARS) && Simple(r) && IsHash(p)
    ensures LineLaw(f, r, p)
  {
    WholeLineExactly(mac, r, p);
    RecordAndTail(RecordBytes(r, p), HexMac(mac, RecordBytes(r, p)));
  }

  lemma RecoverLaws(mac: Mac, f: Format, r: Record, p: string)
    requires f == LogFormat(mac, BARS) && KeepsTail(r) && IsHash(p)
    ensures RecoverLaw(f, r, p)
  {
    BodyPlain(mac, r, p);
    HexIsPlain(mac(RecordBytes(r, p)));
    TailRecoveredExactly(RecordBytes(r, p), HexMac(mac, RecordBytes(r, p)), Body(mac, r, p));
    if ReadBack(r) {
      RecoverRecord(mac, r, p);
    }
  }

  /** The laws hold of every MAC. */
  lemma LogLaws(mac: Mac, f: Format)
    requires f == LogFormat(mac, BARS)
    ensures Lawful(f)
  {
    forall r: Record, p: string ensures IsHash(f.hash(r, p)) {
      HexIsPlain(mac(RecordBytes(r, p)));
    }
    forall r: Record, p: string | Simple(r) && IsHash(p) ensures LineLaw(f, r, p) {
      LineLaws(mac, f, r, p);
    }
    forall r: Record, p: string | KeepsTail(r) && IsHash(p) ensures RecoverLaw(f, r, p) {
      RecoverLaws(mac, f, r, p);
    }
    forall r: Record, p: string | OneLineRecord(r) && OneLineText(p) ensures OneLineText(f.body(r, p)) {
      BodyPlain(mac, r, p);
    }
  }

  // ---------------------------------------------------------------------------
  // Which records must not collide
  // ---------------------------------------------------------------------------

  /** The texts that the hashes of the records are MACs of. */
  function RecordTexts(f: Format, recs: seq<Record>): set<string> {
    if recs == [] then {} else
    var front, last := recs[..|recs| - 1], recs[|recs| - 1];
    RecordTexts(f, front) + {RecordBytes(last, f.HashAfter(front, f.rules.zero))}
  }

  /** The text of a record that is written, alone and behind what is there of another line. */
  function TwoTexts(r: Record, prev: string, rest: string): set<string> {
    {RecordBytes(r, prev), rest + RecordBytes(r, prev)}
  }

  /** Only a whole line behind an unsynced one or behind a rest asks something of the MAC. */
  ghost predicate Clashless(mac: Mac, f: Format, j: Trail, e: Happening) {
    e.Attempt? && WritesAll(f, j.log, e) ==>
      match j.phase
      case Unsynced => CollisionFree(mac, RecordTexts(f, j.recs)) && NeverZero(mac, RecordTexts(f, j.recs))
      case Torn(rest) => CollisionFree(mac, TwoTexts(NextRecord(j.log, e), j.log.tail, rest))
      case _ => true
  }

  lemma SameTextSamePrev(r: Record, p: string, q: Record, t: string)
    requires RecordBytes(r, p) == RecordBytes(q, t) && |p| == |t|
    ensures p == t
  {
    PrevAtEnd(r, p);
    PrevAtEnd(q, t);
  }

  lemma PrevAtEnd(r: Record, p: string)
    ensures var a := RecordBytes(r, p); |p| <= |a| && a[|a| - |p|..] == p
  {
  }

  /** The hash of the last record differs from the one it is chained to, unless two of the records collide. */
  lemma {:induction false} HashMoves(mac: Mac, f: Format, recs: seq<Record>)
    requires f == LogFormat(mac, BARS) && recs != []
    requires CollisionFree(mac, RecordTexts(f, recs)) && NeverZero(mac, RecordTexts(f, recs))
    ensures f.HashAfter(recs, f.rules.zero) != f.HashAfter(recs[..|recs| - 1], f.rules.zero)
  {
    var front, last := recs[..|recs| - 1], recs[|recs| - 1];
    var h := f.HashAfter(front, f.rules.zero);
    assert RecordBytes(last, h) in RecordTexts(f, recs);
    if front == [] {
      MacIsNotZero(mac, RecordBytes(last, h));
    } else if f.hash(last, h) == h {
      var before, prev := front[..|front| - 1], front[|front| - 1];
      var g := f.HashAfter(before, f.rules.zero);
      assert RecordBytes(prev, g) in RecordTexts(f, front) && RecordTexts(f, front) <= RecordTexts(f, recs);
      HashMoves(mac, f, front);
      SameHashSameText(mac, RecordBytes(last, h), RecordBytes(prev, g), RecordTexts(f, recs));
      HashLengths(mac, f, before);
      SameTextSamePrev(last, h, prev, g);
    }
  }

  lemma SameHashSameText(mac: Mac, x: string, y: string, texts: set<string>)
    requires CollisionFree(mac, texts) && x in texts && y in texts && HexMac(mac, x) == HexMac(mac, y)
    ensures x == y
  {
    HexInjective(mac(x), mac(y));
  }

  lemma HashLengths(mac: Mac, f: Format, recs: seq<Record>)
    requires f == LogFormat(mac, BARS)
    ensures |f.HashAfter(recs, f.rules.zero)| == HEX_LEN
  {
  }

  lemma ClashlessApart(mac: Mac, f: Format, j: Trail, e: Happening)
    requires f == LogFormat(mac, BARS) && Follows(f, j) && Clashless(mac, f, j, e)
    ensures Apart(f, j, e)
  {
    if e.Attempt? && WritesAll(f, j.log, e) {
      match j.phase
      case Unsynced => HashMoves(mac, f, j.recs);
      case Torn(rest) =>
        MergedLineFails(mac, BARS, f.HashAfter(j.recs, f.rules.zero), rest, NextRecord(j.log, e), j.log.tail);
      case _ =>
    }
  }

  // ---------------------------------------------------------------------------
  // Every run
  // ---------------------------------------------------------------------------

  predicate Regularly(f: Format, es: seq<Happening>) {
    forall k: nat :: k < |es| ==> Regular(f, Track(f, es[..k]), es[k])
  }

  ghost predicate ClashlessRun(mac: Mac, f: Format, es: seq<Happening>) {
    forall k: nat :: k < |es| ==> Clashless(mac, f, Track(f, es[..k]), es[k])
  }

  lemma FrontOfRun(mac: Mac, f: Format, es: seq<Happening>)
    requires Regularly(f, es) && ClashlessRun(mac, f, es) && es != []
    ensures var front, e := es[..|es| - 1], es[|es| - 1];
            && Regularly(f, front) && ClashlessRun(mac, f, front)
            && Regular(f, Track(f, front), e) && Clashless(mac, f, Track(f, front), e)
  {
    var front := es[..|es| - 1];
    forall k: nat | k < |front|
      ensures Regular(f, Track(f, front[..k]), front[k]) && Clashless(mac, f, Track(f, front[..k]), front[k])
    {
      assert front[..k] == es[..k] && front[k] == es[k];
    }
  }

  lemma {:induction false} TrackFollows(mac: Mac, f: Format, es: seq<Happening>)
    requires f == LogFormat(mac, BARS) && Regularly(f, es) && ClashlessRun(mac, f, es)
    ensures Follows(f, Track(f, es))
  {
    if es != [] {
      var front, e := es[..|es| - 1], es[|es| - 1];
      FrontOfRun(mac, f, es);
      TrackFollows(mac, f, front);
      ClashlessApart(mac, f, Track(f, front), e);
      LogLaws(mac, f);
      AdvanceFollows(f, Track(f, front), e);
    }
  }

  /**
   After any run of complete, partial and unsynced appends and of restarts, `verify_chain` says exactly what the trail
   says: nothing while all lines are whole and good, the first bad line otherwise.
   */
  lemma RunsVerdict(mac: Mac, f: Format, es: seq<Happening>)
    requires f == LogFormat(mac, BARS) && Regularly(f, es) && ClashlessRun(mac, f, es)
    ensures Verdict(f, Track(f, es).log) == Expected(f, Track(f, es))
  {
    LogLaws(mac, f);
    TrackFollows(mac, f, es);
    FollowsVerdict(f, Track(f, es));
  }

  /** The next step: what is asked of it, and the verdict after it. */
  lemma NextVerdict(mac: Mac, f: Format, j: Trail, e: Happening)
    requires f == LogFormat(mac, BARS) && Follows(f, j) && Regular(f, j, e) && Clashless(mac, f, j, e)
    ensures Follows(f, Advance(f, j, e)) && Verdict(f, Next(f, j.log, e)) == Expected(f, Advance(f, j, e))
  {
    LogLaws(mac, f);
    ClashlessApart(mac, f, j, e);
    AdvanceFollows(f, j, e);
    FollowsVerdict(f, Advance(f, j, e));
  }

  // ---------------------------------------------------------------------------
  // Runs in which no append fails after it opened the file
  // ---------------------------------------------------------------------------

  predicate Completes(f: Format, log: Log, e: Happening) {
    e.Restarted? || e.io.CannotOpen? || (WritesAll(f, log, e) && e.io.synced)
  }

  predicate Calm(f: Format, es: seq<Happening>) {
    forall k: nat :: k < |es| ==> Completes(f, Track(f, es[..k]).log, es[k])
  }

  /** What is appended, if anything, is a good record. */
  predicate AppendsGood(log: Log, e: Happening) { e.Attempt? && e.io.Wrote? ==> Good(NextRecord(log, e)) }

  predicate AllAppendGood(f: Format, es: seq<Happening>) {
    forall k: nat :: k < |es| ==> AppendsGood(Track(f, es[..k]).log, es[k])
  }

  lemma {:induction false} CalmPhases(f: Format, es: seq<Happening>)
    requires Calm(f, es)
    ensures Track(f, es).phase.Settled? || Track(f, es).phase.Spoiled?
    ensures Track(f, es).phase.Settled? <==> AllAppendGood(f, es)
  {
    if es != [] {
      var front, e := es[..|es| - 1], es[|es| - 1];
      CalmFront(f, es, front, e);
      CalmPhases(f, front);
      CalmStep(f, Track(f, front), e);
    }
  }

  lemma CalmFront(f: Format, es: seq<Happening>, front: seq<Happening>, e: Happening)
    requires es == front + [e]
    ensures Calm(f, es) ==> Calm(f, front) && Completes(f, Track(f, front).log, e)
    ensures AllAppendGood(f, es) <==> AllAppendGood(f, front) && AppendsGood(Track(f, front).log, e)
  {
    assert es[..|front|] == front && es[|front|] == e;
    assert forall k: nat :: k < |front| ==> front[..k] == es[..k] && front[k] == es[k];
  }

  lemma CalmStep(f: Format, j: Trail, e: Happening)
    requires Completes(f, j.log, e) && (j.phase.Settled? || j.phase.Spoiled?)
    ensures var p := Advance(f, j, e).phase;
            (p.Settled? || p.Spoiled?) && (p.Settled? <==> j.phase.Settled? && AppendsGood(j.log, e))
  {
  }

  lemma CalmIsClashless(mac: Mac, f: Format, es: seq<Happening>)
    requires Calm(f, es)
    ensures ClashlessRun(mac, f, es)
  {
    forall k: nat | k < |es| ensures Clashless(mac, f, Track(f, es[..k]), es[k]) {
      assert forall i: nat :: i < k ==> es[..k][..i] == es[..i] && es[..k][i] == es[i];
      CalmPhases(f, es[..k]);
    }
  }

  /**
   After any run of complete appends, appends that cannot open the file and restarts, for every MAC: the file verifies
   exactly if every record appended was good; then its lines are the records' and the object stands at their end.
   */
  lemma RunsVerify(mac: Mac, f: Format, es: seq<Happening>)
    requires f == LogFormat(mac, BARS) && Regularly(f, es) && Calm(f, es)
    ensures var j := Track(f, es);
            && Verdict(f, j.log) == Expected(f, j)
            && (Verdict(f, j.log) == None <==> AllAppendGood(f, es))
            && (Verdict(f, j.log) == None ==>
                  && Lines(Contents(j.log.file), VERIFY_BUFFER) == f.Bodies(j.recs, ZeroHex())
                  && j.log.tail == f.HashAfter(j.recs, ZeroHex()))
  {
    CalmIsClashless(mac, f, es);
    RunsVerdict(mac, f, es);
    CalmPhases(f, es);
    TrackFollows(mac, f, es);
    LogLaws(mac, f);
    if Track(f, es).phase.Settled? {
      GoodFile(f, Track(f, es).recs);
    }
  }

  /** After any run that left the file settled, a complete append keeps it so exactly if the line is plain and fits. */
  lemma AppendKeepsExactly(mac: Mac, f: Format, es: seq<Happening>, j: Trail, e: Happening)
    requires f == LogFormat(mac, BARS) && Regularly(f, es) && ClashlessRun(mac, f, es) && j == Track(f, es)
    requires j.phase.Settled? && e.Attempt? && WritesAll(f, j.log, e) && Simple(NextRecord(j.log, e))
    ensures Verdict(f, Next(f, j.log, e)) == None
       <==> Plain(e.ts) && Plain(e.id) && Plain(e.kind) && LineLength(NextRecord(j.log, e)) < VERIFY_BUFFER
  {
    TrackFollows(mac, f, es);
    NextVerdict(mac, f, j, e);
    WholePhase(f, j, e);
    GoodFields(j.log, e);
  }

  lemma GoodFields(log: Log, e: Happening)
    requires e.Attempt?
    ensures Good(NextRecord(log, e))
       <==> Plain(e.ts) && Plain(e.id) && Plain(e.kind) && LineLength(NextRecord(log, e)) < VERIFY_BUFFER
  {
  }

  /** After a whole line the file is intact exactly if it was settled and the record is good. */
  lemma WholePhase(f: Format, j: Trail, e: Happening)
    requires !j.phase.Spoiled? && e.Attempt? && WritesAll(f, j.log, e)
    ensures Expected(f, Advance(f, j, e)) == None <==> j.phase.Settled? && Good(NextRecord(j.log, e))
  {
    assert Written(f, j.log, e) == NextBody(f, j.log, e) + "\n";
  }

  // ---------------------------------------------------------------------------
  // One append that fails, and what comes next
  // ---------------------------------------------------------------------------

  /** The append returns an error. */
  predicate Fails(f: Format, log: Log, e: Happening) { e.Attempt? && !(WritesAll(f, log, e) && e.io.synced) }

  /** What a failed append of a good record makes of a settled file. */
  lemma FailedPhase(f: Format, j: Trail, e: Happening)
    requires j.phase.Settled? && Fails(f, j.log, e) && Good(NextRecord(j.log, e))
    ensures var k := Advance(f, j, e);
            && k.log == Next(f, j.log, e)
            && k.phase == (if Written(f, j.log, e) == [] then Settled else if WritesAll(f, j.log, e) then Unsynced
                           else Torn(Written(f, j.log, e)))
            && k.recs == if WritesAll(f, j.log, e) then j.recs + [NextRecord(j.log, e)] else j.recs
  {
    assert [] + Written(f, j.log, e) == Written(f, j.log, e);
  }

  /** Of a good line, a part is intact exactly if only the newline is missing. */
  lemma PartChecks(mac: Mac, r: Record, p: string, b: string, count: nat)
    requires Good(r) && IsHash(p) && b == Body(mac, r, p) && 0 < count <= |b|
    ensures LineOk(mac, BARS, p, b[..count]) <==> count == |b|
  {
    AppendedLineExactly(mac, BARS, r, p, p);
    if count < |b| {
      CutLineFails(mac, BARS, p, b, count, p);
    } else {
      assert b[..count] == b;
    }
  }

  /** A good record fails to be appended to a settled file. */
  lemma FailedStep(mac: Mac, f: Format, j: Trail, e: Happening)
    requires f == LogFormat(mac, BARS) && Follows(f, j) && j.phase.Settled?
    requires Fails(f, j.log, e) && Good(NextRecord(j.log, e))
    ensures Regular(f, j, e) && Clashless(mac, f, j, e) && Follows(f, Advance(f, j, e))
    ensures Verdict(f, Next(f, j.log, e)) == Expected(f, Advance(f, j, e))
  {
    LogLaws(mac, f);
    HashAfterIsHash(f, j.recs);
    BodyPlain(mac, NextRecord(j.log, e), j.log.tail);
    NextIs(f, j.log, e);
    NextVerdict(mac, f, j, e);
  }

  /**
   After any run that left the file settled, a failed append leaves it intact exactly if nothing was written, or all but
   the newline.
   */
  lemma FailedAppendVerdict(mac: Mac, f: Format, es: seq<Happening>, j: Trail, e: Happening)
    requires f == LogFormat(mac, BARS) && Regularly(f, es) && ClashlessRun(mac, f, es) && j == Track(f, es)
    requires j.phase.Settled? && Fails(f, j.log, e) && Good(NextRecord(j.log, e))
    ensures Verdict(f, Next(f, j.log, e)) == None
       <==> Written(f, j.log, e) == [] || |Written(f, j.log, e)| >= |NextBody(f, j.log, e)|
  {
    TrackFollows(mac, f, es);
    FailedStep(mac, f, j, e);
    FailedPhase(f, j, e);
    NextIs(f, j.log, e);
    if Written(f, j.log, e) != [] && !WritesAll(f, j.log, e) {
      PartVerdict(mac, f, j, e);
    }
  }

  lemma PartVerdict(mac: Mac, f: Format, j: Trail, e: Happening)
    requires f == LogFormat(mac, BARS) && Follows(f, j) && j.phase.Settled? && e.Attempt? && Good(NextRecord(j.log, e))
    requires Written(f, j.log, e) != [] && !WritesAll(f, j.log, e)
    ensures f.rules.check(f.HashAfter(j.recs, f.rules.zero), Written(f, j.log, e))
       <==> |Written(f, j.log, e)| == |NextBody(f, j.log, e)|
  {
    LogLaws(mac, f);
    HashAfterIsHash(f, j.recs);
    NextIs(f, j.log, e);
    PartChecks(mac, NextRecord(j.log, e), j.log.tail, NextBody(f, j.log, e), e.io.count);
  }

  /**
   The object goes on chaining to the old hash. Unless records collide, the next whole line leaves an intact file
   exactly if the failed append had written nothing.
   */
  lemma NextAppendVerdict(mac: Mac, f: Format, es: seq<Happening>, j: Trail, e: Happening, k: Trail, d: Happening)
    requires f == LogFormat(mac, BARS) && Regularly(f, es) && ClashlessRun(mac, f, es) && j == Track(f, es)
    requires j.phase.Settled? && Fails(f, j.log, e) && Good(NextRecord(j.log, e)) && k == Advance(f, j, e)
    requires d.Attempt? && WritesAll(f, k.log, d) && Good(NextRecord(k.log, d))
    requires Regular(f, k, d) && Clashless(mac, f, k, d)
    ensures Verdict(f, Next(f, k.log, d)) == None <==> Written(f, j.log, e) == []
  {
    TrackFollows(mac, f, es);
    FailedStep(mac, f, j, e);
    FailedPhase(f, j, e);
    NextVerdict(mac, f, k, d);
    WholePhase(f, k, d);
  }

  /**
   A restart takes its hash from the file. Unless records collide, the next whole line leaves an intact file exactly if
   the failed append had written nothing or its whole line.
   */
  lemma RestartedAppendVerdict(mac: Mac, f: Format, es: seq<Happening>, j: Trail, e: Happening, k: Trail, d: Happening)
    requires f == LogFormat(mac, BARS) && Regularly(f, es) && ClashlessRun(mac, f, es) && j == Track(f, es)
    requires j.phase.Settled? && Fails(f, j.log, e) && Good(NextRecord(j.log, e))
    requires Regular(f, Advance(f, j, e), Restarted) && k == Advance(f, Advance(f, j, e), Restarted)
    requires d.Attempt? && WritesAll(f, k.log, d) && Good(NextRecord(k.log, d))
    requires Regular(f, k, d) && Clashless(mac, f, k, d)
    ensures Verdict(f, Next(f, k.log, d)) == None <==> Written(f, j.log, e) == [] || WritesAll(f, j.log, e)
  {
    TrackFollows(mac, f, es);
    FailedStep(mac, f, j, e);
    FailedPhase(f, j, e);
    NextVerdict(mac, f, Advance(f, j, e), Restarted);
    NextVerdict(mac, f, k, d);
    WholePhase(f, k, d);
  }

  // ---------------------------------------------------------------------------
  // Restarts on a file of whole lines
  // ---------------------------------------------------------------------------

  /**
   A restart recovers the hash of a last line without newline or NUL exactly if it is not split between two pieces.
   */
  lemma RestartTailExactly(mac: Mac, f: Format, recs: seq<Record>, log: Log)
    requires f == LogFormat(mac, BARS) && Contents(log.file) == f.Render(recs, f.rules.zero)
    requires recs != [] && OneLineRecord(recs[|recs| - 1])
    ensures Restart(log).tail == f.HashAfter(recs, f.rules.zero) <==> HashUnsplit(LineLength(recs[|recs| - 1]) - 1)
  {
    var front, last := recs[..|recs| - 1], recs[|recs| - 1];
    var h := f.HashAfter(front, f.rules.zero);
    LogLaws(mac, f);
    HashAfterIsHash(f, front);
    BodyPlain(mac, last, h);
    HexIsPlain(mac(RecordBytes(last, h)));
    TailRecoveredExactly(RecordBytes(last, h), HexMac(mac, RecordBytes(last, h)), Body(mac, last, h));
    RenderEnds(f, front, f.rules.zero);
    LinesAppend(f.Render(front, f.rules.zero), f.body(last, h) + "\n", RECOVER_BUFFER);
    RecoverAppend(Lines(f.Render(front, f.rules.zero), RECOVER_BUFFER), Lines(f.body(last, h) + "\n", RECOVER_BUFFER));
  }

  /** A line chained to anything but the last hash spoils the file. */
  lemma WrongTailSpoils(mac: Mac, f: Format, recs: seq<Record>, log: Log, e: Happening)
    requires f == LogFormat(mac, BARS) && AllGood(recs) && Contents(log.file) == f.Render(recs, f.rules.zero)
    requires Plain(log.tail) && log.tail != f.HashAfter(recs, f.rules.zero) && e.Attempt? && WritesAll(f, log, e)
    requires PlainRecord(NextRecord(log, e)) && |NextBody(f, log, e)| + 2 <= VERIFY_BUFFER
    ensures Verdict(f, Next(f, log, e)) == Some(|recs| + 1) && Fixed(f, Contents(Next(f, log, e).file), |recs| + 1)
  {
    var b, file := NextBody(f, log, e), Contents(Next(f, log, e).file);
    LogLaws(mac, f);
    NextIs(f, log, e);
    BodyPlain(mac, NextRecord(log, e), log.tail);
    OneLine(b, "\n", VERIFY_BUFFER);
    AppendedLineExactly(mac, BARS, NextRecord(log, e), log.tail, f.HashAfter(recs, f.rules.zero));
    VerdictBehind(f, recs, file, b + "\n", [b]);
    FixedNow(f, file, |recs| + 1);
  }

  // ---------------------------------------------------------------------------
  // Sequence numbers
  // ---------------------------------------------------------------------------

  /** At a restart the last record fits the recovery buffer. */
  predicate NumberKept(j: Trail, e: Happening) {
    e.Restarted? && !j.phase.Torn? && !j.phase.Spoiled? && j.recs != [] ==> ReadBack(j.recs[|j.recs| - 1])
  }

  predicate NumbersKept(f: Format, es: seq<Happening>) {
    forall k: nat :: k < |es| ==> NumberKept(Track(f, es[..k]), es[k])
  }

  predicate Increasing(recs: seq<Record>) {
    forall i, k :: 0 <= i < k < |recs| ==> recs[i].seqNo < recs[k].seqNo
  }

  /** Strictly increasing, up to the last number given out while lines are whole. */
  predicate Numbered(j: Trail, steps: nat) {
    && Increasing(j.recs) && (forall i :: 0 <= i < |j.recs| ==> j.recs[i].seqNo <= steps)
    && (j.phase.Settled? || j.phase.Unsynced? ==>
          j.log.seqNo <= steps && forall i :: 0 <= i < |j.recs| ==> j.recs[i].seqNo <= j.log.seqNo)
  }

  lemma RestartNumbered(f: Format, j: Trail, steps: nat)
    requires Lawful(f) && Follows(f, j) && Regular(f, j, Restarted) && NumberKept(j, Restarted) && Numbered(j, steps)
    ensures Numbered(Advance(f, j, Restarted), steps)
  {
    if j.phase.Settled? || j.phase.Unsynced? {
      RestartTail(f, j.recs, j.log);
    }
  }

  lemma AdvanceNumbered(f: Format, j: Trail, e: Happening, steps: nat)
    requires Lawful(f) && Follows(f, j) && Regular(f, j, e) && NumberKept(j, e) && Numbered(j, steps) && steps + 1 < U64
    ensures Numbered(Advance(f, j, e), steps + 1)
  {
    if e.Restarted? {
      RestartNumbered(f, j, steps);
    } else {
      AttemptNumbered(f, j, e, steps);
    }
  }

  lemma AttemptNumbered(f: Format, j: Trail, e: Happening, steps: nat)
    requires e.Attempt? && Numbered(j, steps) && steps + 1 < U64
    ensures Numbered(Advance(f, j, e), steps + 1)
  {
    var k := Advance(f, j, e);
    assert k.log.seqNo == NextSeq(j.log);
    if j.phase.Settled? && k.recs != j.recs {
      assert k.recs == j.recs + [NextRecord(j.log, e)];
      OneMoreNumber(j.recs, j.log.seqNo, NextRecord(j.log, e));
    } else {
      assert k.recs == j.recs;
    }
  }

  lemma OneMoreNumber(recs: seq<Record>, last: nat, r: Record)
    requires Increasing(recs) && (forall i :: 0 <= i < |recs| ==> recs[i].seqNo <= last) && last < r.seqNo
    ensures Increasing(recs + [r]) && forall i :: 0 <= i < |recs + [r]| ==> (recs + [r])[i].seqNo <= r.seqNo
  {
  }

  /** In every run whose restarts find the last record whole, the numbers of the good records strictly increase. */
  lemma {:induction false} NumbersIncrease(mac: Mac, f: Format, es: seq<Happening>)
    requires f == LogFormat(mac, BARS) && Regularly(f, es) && ClashlessRun(mac, f, es) && NumbersKept(f, es)
    requires |es| < U64
    ensures Numbered(Track(f, es), |es|)
  {
    if es != [] {
      var front, e := es[..|es| - 1], es[|es| - 1];
      FrontOfRun(mac, f, es);
      assert forall k: nat :: k < |front| ==> front[..k] == es[..k] && front[k] == es[k];
      NumbersIncrease(mac, f, front);
      TrackFollows(mac, f, front);
      LogLaws(mac, f);
      AdvanceNumbered(f, Track(f, front), e, |front|);
    }
  }
}
