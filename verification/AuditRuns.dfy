/**
 Runs of the audit log (src/audit/audit_log.cpp): appends of which all, a part or nothing reaches the file, and
 restarts, in any order. The text of a line is a parameter here, with laws that `LogLaws` proves of the real one.
 */
module AuditRuns {
  import opened Wrappers
  import opened HashChain
  import opened AuditLog
  import opened AuditLines
  import opened Widths

  /** How a record chained to a predecessor's hash is written, the hash it hands on, and how lines are checked. */
  datatype Format = Format(rules: Rules, body: (Record, string) -> string, hash: (Record, string) -> string)
  {
    /** A file of the records, the first chained to `prev`. */
    function Render(recs: seq<Record>, prev: string): string {
      if recs == [] then [] else
      var front, last := recs[..|recs| - 1], recs[|recs| - 1];
      Render(front, prev) + (body(last, HashAfter(front, prev)) + "\n")
    }

    /** Its lines. */
    function Bodies(recs: seq<Record>, prev: string): seq<string> {
      if recs == [] then [] else
      var front, last := recs[..|recs| - 1], recs[|recs| - 1];
      Bodies(front, prev) + [body(last, HashAfter(front, prev))]
    }

    /** Its last hash. */
    function HashAfter(recs: seq<Record>, prev: string): string {
      if recs == [] then prev else hash(recs[|recs| - 1], HashAfter(recs[..|recs| - 1], prev))
    }
  }

  lemma AppendRecord(f: Format, recs: seq<Record>, r: Record, prev: string)
    ensures var h := f.HashAfter(recs, prev);
            && f.Render(recs + [r], prev) == f.Render(recs, prev) + (f.body(r, h) + "\n")
            && f.Bodies(recs + [r], prev) == f.Bodies(recs, prev) + [f.body(r, h)]
            && f.HashAfter(recs + [r], prev) == f.hash(r, h)
  {
    assert (recs + [r])[..|recs|] == recs;
  }

  /** What is read of a whole line, and the hash it hands on. */
  ghost predicate LineLaw(f: Format, r: Record, p: string) {
    && WholeLine(f.rules.check, Lines(f.body(r, p) + "\n", VERIFY_BUFFER), f.body(r, p), r, p)
    && f.rules.tail(f.body(r, p)) == f.hash(r, p)
  }

  /** A restart recovers the hash, and the number of a line that fits the buffer. */
  ghost predicate RecoverLaw(f: Format, r: Record, p: string) {
    var lines := Lines(f.body(r, p) + "\n", RECOVER_BUFFER);
    && SomeBar(lines) && Recover(lines).1 == f.hash(r, p)
    && (ReadBack(r) ==> Recover(lines).0 == r.seqNo)
  }

  /** The hash of the record's line is not split between two pieces of the recovery buffer. */
  predicate KeepsTail(r: Record) { OneLineRecord(r) && HashUnsplit(LineLength(r) - 1) }

  ghost predicate Lawful(f: Format) {
    && f.rules.zero == ZeroHex()
    && (forall r: Record, p: string :: IsHash(f.hash(r, p)))
    && (forall r: Record, p: string :: Simple(r) && IsHash(p) ==> LineLaw(f, r, p))
    && (forall r: Record, p: string :: KeepsTail(r) && IsHash(p) ==> RecoverLaw(f, r, p))
    && (forall r: Record, p: string :: OneLineRecord(r) && OneLineText(p) ==> OneLineText(f.body(r, p)))
  }

  // ---------------------------------------------------------------------------
  // A file of good records
  // ---------------------------------------------------------------------------

  predicate AllGood(recs: seq<Record>) { forall r <- recs :: Good(r) }

  lemma FrontGood(recs: seq<Record>)
    requires AllGood(recs) && recs != []
    ensures AllGood(recs[..|recs| - 1]) && Good(recs[|recs| - 1])
  {
    assert forall r <- recs[..|recs| - 1] :: r in recs;
  }

  lemma HashAfterIsHash(f: Format, recs: seq<Record>)
    requires Lawful(f)
    ensures IsHash(f.HashAfter(recs, f.rules.zero))
  {
    ZeroHexPlain();
  }

  lemma {:induction false} RenderEnds(f: Format, recs: seq<Record>, prev: string)
    ensures Ended(f.Render(recs, prev))
  {
  }

  /** The lines of good records are read back, form an intact chain, and end with the hash after the records. */
  lemma {:induction false} GoodFile(f: Format, recs: seq<Record>)
    requires Lawful(f) && AllGood(recs)
    ensures var lines := f.Bodies(recs, f.rules.zero);
            && Lines(f.Render(recs, f.rules.zero), VERIFY_BUFFER) == lines && |lines| == |recs|
            && f.rules.Intact(lines) && f.rules.PrevOf(lines, |lines|) == f.HashAfter(recs, f.rules.zero)
  {
    if recs != [] {
      var front, last := recs[..|recs| - 1], recs[|recs| - 1];
      FrontGood(recs);
      GoodFile(f, front);
      var h := f.HashAfter(front, f.rules.zero);
      HashAfterIsHash(f, front);
      assert LineLaw(f, last, h);
      GoodRead(f, Lines(f.body(last, h) + "\n", VERIFY_BUFFER), f.body(last, h), h, last);
      RenderEnds(f, front, f.rules.zero);
      LinesAppend(f.Render(front, f.rules.zero), f.body(last, h) + "\n", VERIFY_BUFFER);
      ExtendIntact(f.rules, f.Bodies(front, f.rules.zero), f.body(last, h));
    }
  }

  lemma GoodRead(f: Format, lines: seq<string>, b: string, h: string, r: Record)
    requires Good(r) && WholeLine(f.rules.check, lines, b, r, h)
    ensures lines == [b] && f.rules.check(h, b)
  {
    assert f.rules.check(h, lines[0]);
  }

  /** What verification finds in a file of good records with something behind it. */
  lemma VerdictBehind(f: Format, recs: seq<Record>, file: string, more: string, read: seq<string>)
    requires Lawful(f) && AllGood(recs) && file == f.Render(recs, f.rules.zero) + more
    requires read == Lines(more, VERIFY_BUFFER)
    ensures var h, bad := f.HashAfter(recs, f.rules.zero), f.rules.FirstBad(Lines(file, VERIFY_BUFFER), 0);
            && (read == [] ==> bad == None)
            && (read != [] && !f.rules.check(h, read[0]) ==> bad == Some(|recs| + 1))
            && (|read| > 1 && f.rules.check(h, read[0]) && !f.rules.check(f.rules.tail(read[0]), read[1]) ==>
                  bad == Some(|recs| + 2))
            && (|read| == 1 && f.rules.check(h, read[0]) ==> bad == None)
  {
    var lines := f.Bodies(recs, f.rules.zero);
    GoodFile(f, recs);
    assert Lines(file, VERIFY_BUFFER) == lines + read by {
      RenderEnds(f, recs, f.rules.zero);
      LinesAppend(f.Render(recs, f.rules.zero), more, VERIFY_BUFFER);
    }
    VerdictOfLines(f.rules, lines, read, f.rules.FirstBad(lines + read, 0));
  }

  lemma VerdictOfLines(r: Rules, lines: seq<string>, read: seq<string>, bad: Option<nat>)
    requires r.Intact(lines) && bad == r.FirstBad(lines + read, 0)
    ensures var h := r.PrevOf(lines, |lines|);
            && (read == [] ==> bad == None)
            && (read != [] && !r.check(h, read[0]) ==> bad == Some(|lines| + 1))
            && (|read| > 1 && r.check(h, read[0]) && !r.check(r.tail(read[0]), read[1]) ==> bad == Some(|lines| + 2))
            && (|read| == 1 && r.check(h, read[0]) ==> bad == None)
  {
    if read == [] {
      assert lines + read == lines;
    } else {
      FirstBadNext(r, lines, read);
    }
  }

  // ---------------------------------------------------------------------------
  // The log object: append, failures, restart
  // ---------------------------------------------------------------------------

  /** The file (absent, or its contents) and the two fields of the object. */
  datatype Log = Log(file: Option<string>, seqNo: nat, tail: string)

  /** What the file system does with one append. */
  datatype Io = CannotOpen | Wrote(count: nat, synced: bool)

  function Contents(file: Option<string>): string { if file.Some? then file.value else [] }

  function NextSeq(log: Log): nat { (log.seqNo + 1) % U64 }

  function Shorter(line: string, count: nat): string { if count < |line| then line[..count] else line }

  /** `append`: the sequence number is consumed first; the tail moves only after a complete, synced write. */
  function Append(f: Format, log: Log, ts: string, id: string, kind: string, io: Io): Log {
    var r := Record(NextSeq(log), ts, id, kind);
    var line := f.body(r, log.tail) + "\n";
    if io.CannotOpen? then log.(seqNo := r.seqNo)
    else Log(Some(Contents(log.file) + Shorter(line, io.count)), r.seqNo,
             if io.count >= |line| && io.synced then f.hash(r, log.tail) else log.tail)
  }

  /** A new object on the same file. */
  function Restart(log: Log): Log {
    var (n, t) := Recover(Lines(Contents(log.file), RECOVER_BUFFER));
    Log(log.file, n, t)
  }

  /** `verify_chain`: `None` for an intact file, otherwise the number of the first bad line. */
  function Verdict(f: Format, log: Log): Option<nat> {
    f.rules.FirstBad(Lines(Contents(log.file), VERIFY_BUFFER), 0)
  }

  datatype Happening = Attempt(ts: string, id: string, kind: string, io: Io) | Restarted

  function Next(f: Format, log: Log, e: Happening): Log {
    match e
    case Attempt(ts, id, kind, io) => Append(f, log, ts, id, kind, io)
    case Restarted => Restart(log)
  }

  function NextRecord(log: Log, e: Happening): Record
    requires e.Attempt?
  {
    Record(NextSeq(log), e.ts, e.id, e.kind)
  }

  function NextBody(f: Format, log: Log, e: Happening): string
    requires e.Attempt?
  {
    f.body(NextRecord(log, e), log.tail)
  }

  /** What reaches the file. */
  function Written(f: Format, log: Log, e: Happening): string
    requires e.Attempt?
  {
    if e.io.CannotOpen? then [] else Shorter(NextBody(f, log, e) + "\n", e.io.count)
  }

  predicate WritesAll(f: Format, log: Log, e: Happening)
    requires e.Attempt?
  {
    e.io.Wrote? && e.io.count > |NextBody(f, log, e)|
  }

  lemma NextIs(f: Format, log: Log, e: Happening)
    requires e.Attempt?
    ensures var log' := Next(f, log, e);
            && Contents(log'.file) == Contents(log.file) + Written(f, log, e)
            && log'.seqNo == NextSeq(log)
            && log'.tail == (if WritesAll(f, log, e) && e.io.synced then f.hash(NextRecord(log, e), log.tail)
                             else log.tail)
    ensures WritesAll(f, log, e) ==> Written(f, log, e) == NextBody(f, log, e) + "\n"
    ensures Written(f, log, e) != [] && !WritesAll(f, log, e) ==>
              && 0 < e.io.count <= |NextBody(f, log, e)|
              && Written(f, log, e) == NextBody(f, log, e)[..e.io.count]
  {
    assert Contents(log.file) + [] == Contents(log.file);
  }

  // ---------------------------------------------------------------------------
  // Damage is permanent
  // ---------------------------------------------------------------------------

  /** Line `k` is the first bad one and is terminated: nothing behind it can change that. */
  ghost predicate Fixed(f: Format, text: string, k: nat) {
    exists n: nat :: n <= |text| && BadHead(f, text[..n], k)
  }

  predicate BadHead(f: Format, head: string, k: nat) {
    Ended(head) && f.rules.FirstBad(Lines(head, VERIFY_BUFFER), 0) == Some(k)
  }

  lemma FixedVerdict(f: Format, text: string, more: string, k: nat)
    requires Fixed(f, text, k)
    ensures Fixed(f, text + more, k) && f.rules.FirstBad(Lines(text + more, VERIFY_BUFFER), 0) == Some(k)
  {
    var n: nat :| n <= |text| && BadHead(f, text[..n], k);
    CutAnywhere(text, more, n);
    StaysBad(f, text[..n], text[n..] + more, text + more, k);
  }

  lemma CutAnywhere(text: string, more: string, n: nat)
    requires n <= |text|
    ensures (text + more)[..n] == text[..n] && text + more == text[..n] + (text[n..] + more)
  {
  }

  lemma StaysBad(f: Format, head: string, rest: string, all: string, k: nat)
    requires BadHead(f, head, k) && all == head + rest
    ensures f.rules.FirstBad(Lines(all, VERIFY_BUFFER), 0) == Some(k)
  {
    LinesAppend(head, rest, VERIFY_BUFFER);
    FirstBadStays(f.rules, Lines(head, VERIFY_BUFFER), Lines(rest, VERIFY_BUFFER));
  }

  lemma FixedNow(f: Format, text: string, k: nat)
    requires Ended(text) && f.rules.FirstBad(Lines(text, VERIFY_BUFFER), 0) == Some(k)
    ensures Fixed(f, text, k)
  {
    assert text[..|text|] == text;
    assert BadHead(f, text[..|text|], k);
  }

  function RunFrom(f: Format, log: Log, es: seq<Happening>): Log {
    if es == [] then log else Next(f, RunFrom(f, log, es[..|es| - 1]), es[|es| - 1])
  }

  /** On any file at all: once a terminated line is bad, every later verification names it, whatever happens. */
  lemma {:induction false} DamageIsPermanent(f: Format, log: Log, es: seq<Happening>, k: nat)
    requires Fixed(f, Contents(log.file), k)
    ensures Fixed(f, Contents(RunFrom(f, log, es).file), k) && Verdict(f, RunFrom(f, log, es)) == Some(k)
  {
    if es == [] {
      FixedVerdict(f, Contents(log.file), [], k);
      assert Contents(log.file) + [] == Contents(log.file);
    } else {
      DamageIsPermanent(f, log, es[..|es| - 1], k);
      FixedStep(f, RunFrom(f, log, es[..|es| - 1]), es[|es| - 1], k);
    }
  }

  lemma FixedStep(f: Format, log: Log, e: Happening, k: nat)
    requires Fixed(f, Contents(log.file), k)
    ensures Fixed(f, Contents(Next(f, log, e).file), k) && Verdict(f, Next(f, log, e)) == Some(k)
  {
    var more := if e.Attempt? then Written(f, log, e) else [];
    if e.Attempt? {
      NextIs(f, log, e);
    }
    assert Contents(Next(f, log, e).file) == Contents(log.file) + more;
    FixedVerdict(f, Contents(log.file), more, k);
  }

  // ---------------------------------------------------------------------------
  // What a run has done to the file
  // ---------------------------------------------------------------------------

  datatype Phase =
    | Settled              // whole lines, and the object chains to the last
    | Unsynced             // whole lines, and the object chains to the last but one
    | Torn(rest: string)   // whole lines and an unterminated rest
    | Spoiled(line: nat)   // a terminated line is bad

  /** The log, the records whose lines are whole and good, and what has become of the file. */
  datatype Trail = Trail(log: Log, recs: seq<Record>, phase: Phase)

  function RestOf(j: Trail): string { if j.phase.Torn? then j.phase.rest else [] }

  function Advance(f: Format, j: Trail, e: Happening): Trail {
    var log := Next(f, j.log, e);
    if j.phase.Spoiled? then j.(log := log)
    else if e.Restarted? then j.(log := log, phase := if j.phase.Unsynced? then Settled else j.phase)
    else if Written(f, j.log, e) == [] then j.(log := log)
    else if !WritesAll(f, j.log, e) then j.(log := log, phase := Torn(RestOf(j) + Written(f, j.log, e)))
    else
      var r := NextRecord(j.log, e);
      if !j.phase.Settled? then j.(log := log, phase := Spoiled(|j.recs| + 1))
      else if !Good(r) then j.(log := log, phase := Spoiled(|j.recs| + if Brimful(r) then 2 else 1))
      else Trail(log, j.recs + [r], if e.io.synced then Settled else Unsynced)
  }

  /** The run of a new log. */
  function Track(f: Format, es: seq<Happening>): Trail {
    if es == [] then Trail(Log(None, 0, f.rules.zero), [], Settled)
    else Advance(f, Track(f, es[..|es| - 1]), es[|es| - 1])
  }

  /** What `verify_chain` has to say. */
  function Expected(f: Format, j: Trail): Option<nat> {
    match j.phase
    case Settled => None
    case Unsynced => None
    case Torn(rest) => if f.rules.check(f.HashAfter(j.recs, f.rules.zero), rest) then None else Some(|j.recs| + 1)
    case Spoiled(k) => Some(k)
  }

  /** The file and the object are as the trail says. */
  ghost predicate Follows(f: Format, j: Trail) {
    var file, whole := Contents(j.log.file), f.Render(j.recs, f.rules.zero);
    match j.phase
    case Settled => AllGood(j.recs) && file == whole && j.log.tail == f.HashAfter(j.recs, f.rules.zero)
    case Unsynced =>
      && j.recs != [] && AllGood(j.recs) && file == whole
      && j.log.tail == f.HashAfter(j.recs[..|j.recs| - 1], f.rules.zero)
    case Torn(rest) =>
      && AllGood(j.recs) && file == whole + rest && Plain(j.log.tail)
      && rest != [] && OneLineText(rest) && |rest| < VERIFY_BUFFER
    case Spoiled(k) => Fixed(f, file, k)
  }

  lemma FollowsVerdict(f: Format, j: Trail)
    requires Lawful(f) && Follows(f, j)
    ensures Verdict(f, j.log) == Expected(f, j)
  {
    var file := Contents(j.log.file);
    match j.phase
    case Spoiled(k) =>
      FixedVerdict(f, file, [], k);
      assert file + [] == file;
    case Torn(rest) =>
      LastLine(rest, VERIFY_BUFFER);
      VerdictBehind(f, j.recs, file, rest, [rest]);
    case _ =>
      assert file == file + [];
      VerdictBehind(f, j.recs, file, [], []);
  }

  // ---------------------------------------------------------------------------
  // Every step
  // ---------------------------------------------------------------------------

  /**
   What is asked of a step, as long as the file is not spoiled: a record written whole has no bars or is otherwise in
   order; a part of a record holds no newline or NUL, and what is joined fits the buffer of `verify_chain`; and at a
   restart the last hash is not split between two pieces of the recovery buffer.
   */
  predicate Regular(f: Format, j: Trail, e: Happening) {
    j.phase.Spoiled? ||
    match e
    case Restarted => j.phase.Torn? || j.recs == [] || KeepsTail(j.recs[|j.recs| - 1])
    case Attempt(_, _, _, _) =>
      var r, joined := NextRecord(j.log, e), RestOf(j) + Written(f, j.log, e);
      || Written(f, j.log, e) == []
      || (if WritesAll(f, j.log, e) && !j.phase.Torn? then Simple(r) else OneLineRecord(r) && |joined| < VERIFY_BUFFER)
  }

  /** A whole line behind an unsynced one, or behind a rest, does not check. */
  predicate Apart(f: Format, j: Trail, e: Happening) {
    e.Attempt? && WritesAll(f, j.log, e) ==>
      match j.phase
      case Unsynced => f.HashAfter(j.recs, f.rules.zero) != j.log.tail
      case Torn(rest) => !f.rules.check(f.HashAfter(j.recs, f.rules.zero), rest + NextBody(f, j.log, e))
      case _ => true
  }

  lemma RestartTail(f: Format, recs: seq<Record>, log: Log)
    requires Lawful(f) && Contents(log.file) == f.Render(recs, f.rules.zero)
    requires recs == [] || KeepsTail(recs[|recs| - 1])
    ensures Restart(log).tail == f.HashAfter(recs, f.rules.zero) && Restart(log).file == log.file
    ensures recs == [] ==> Restart(log).seqNo == 0
    ensures recs != [] && ReadBack(recs[|recs| - 1]) ==> Restart(log).seqNo == recs[|recs| - 1].seqNo
  {
    if recs != [] {
      var front, last := recs[..|recs| - 1], recs[|recs| - 1];
      var h := f.HashAfter(front, f.rules.zero);
      HashAfterIsHash(f, front);
      assert RecoverLaw(f, last, h);
      RenderEnds(f, front, f.rules.zero);
      LinesAppend(f.Render(front, f.rules.zero), f.body(last, h) + "\n", RECOVER_BUFFER);
      RecoverAppend(Lines(f.Render(front, f.rules.zero), RECOVER_BUFFER),
                    Lines(f.body(last, h) + "\n", RECOVER_BUFFER));
    }
  }

  /** On any file whatsoever, the recovered tail can be a field of the next line. */
  lemma RestartPlain(log: Log)
    ensures Plain(Restart(log).tail)
  {
    LinesTidy(Contents(log.file), RECOVER_BUFFER);
    RecoverPlain(Lines(Contents(log.file), RECOVER_BUFFER));
  }

  lemma RestartFollows(f: Format, j: Trail)
    requires Lawful(f) && Follows(f, j) && Regular(f, j, Restarted)
    ensures Follows(f, Advance(f, j, Restarted))
  {
    match j.phase
    case Torn(_) => RestartPlain(j.log);
    case Spoiled(k) => FixedStep(f, j.log, Restarted, k);
    case _ => RestartTail(f, j.recs, j.log);
  }

  /** A whole line behind whole lines. */
  lemma WholeLineBehind(f: Format, recs: seq<Record>, file: string, r: Record, p: string)
    requires Lawful(f) && AllGood(recs) && Simple(r) && IsHash(p)
    requires file == f.Render(recs, f.rules.zero) + (f.body(r, p) + "\n")
    requires !Good(r) || p != f.HashAfter(recs, f.rules.zero)
    ensures var h := f.HashAfter(recs, f.rules.zero);
            Fixed(f, file, |recs| + if Brimful(r) && p == h then 2 else 1)
  {
    var more := f.body(r, p) + "\n";
    assert LineLaw(f, r, p);
    VerdictBehind(f, recs, file, more, Lines(more, VERIFY_BUFFER));
    FixedNow(f, file, |recs| + if Brimful(r) && p == f.HashAfter(recs, f.rules.zero) then 2 else 1);
  }

  lemma SettledWhole(f: Format, j: Trail, e: Happening)
    requires Lawful(f) && Follows(f, j) && Regular(f, j, e) && j.phase.Settled? && e.Attempt? && WritesAll(f, j.log, e)
    ensures Follows(f, Advance(f, j, e))
  {
    var r := NextRecord(j.log, e);
    NextIs(f, j.log, e);
    HashAfterIsHash(f, j.recs);
    if Good(r) {
      AppendRecord(f, j.recs, r, f.rules.zero);
      assert (j.recs + [r])[..|j.recs|] == j.recs;
    } else {
      WholeLineBehind(f, j.recs, Contents(Next(f, j.log, e).file), r, j.log.tail);
    }
  }

  lemma UnsyncedWhole(f: Format, j: Trail, e: Happening)
    requires Lawful(f) && Follows(f, j) && Regular(f, j, e) && Apart(f, j, e)
    requires j.phase.Unsynced? && e.Attempt? && WritesAll(f, j.log, e)
    ensures Follows(f, Advance(f, j, e))
  {
    NextIs(f, j.log, e);
    HashAfterIsHash(f, j.recs[..|j.recs| - 1]);
    WholeLineBehind(f, j.recs, Contents(Next(f, j.log, e).file), NextRecord(j.log, e), j.log.tail);
  }

  lemma TornIsSpoiled(f: Format, j: Trail, e: Happening)
    requires j.phase.Torn? && e.Attempt? && WritesAll(f, j.log, e)
    ensures Advance(f, j, e) == Trail(Next(f, j.log, e), j.recs, Spoiled(|j.recs| + 1))
  {
  }

  /** A line completed behind a rest. */
  lemma TornWhole(f: Format, j: Trail, e: Happening)
    requires Lawful(f) && Follows(f, j) && Regular(f, j, e) && Apart(f, j, e)
    requires j.phase.Torn? && e.Attempt? && WritesAll(f, j.log, e)
    ensures Follows(f, Advance(f, j, e))
  {
    var b, rest, file := NextBody(f, j.log, e), j.phase.rest, Contents(Next(f, j.log, e).file);
    NextIs(f, j.log, e);
    TornIsSpoiled(f, j, e);
    assert file == f.Render(j.recs, f.rules.zero) + (rest + b + "\n");
    OneLine(rest + b, "\n", VERIFY_BUFFER);
    VerdictBehind(f, j.recs, file, rest + b + "\n", [rest + b]);
    FixedNow(f, file, |j.recs| + 1);
  }

  lemma PartFollows(f: Format, j: Trail, e: Happening)
    requires Lawful(f) && Follows(f, j) && Regular(f, j, e) && !j.phase.Spoiled?
    requires e.Attempt? && Written(f, j.log, e) != [] && !WritesAll(f, j.log, e)
    ensures Follows(f, Advance(f, j, e))
  {
    var text := Written(f, j.log, e);
    NextIs(f, j.log, e);
    TailIsPlain(f, j);
    assert OneLineText(NextBody(f, j.log, e));
    assert f.Render(j.recs, f.rules.zero) + RestOf(j) + text == f.Render(j.recs, f.rules.zero) + (RestOf(j) + text);
    assert RestOf(j) == [] ==> f.Render(j.recs, f.rules.zero) + RestOf(j) == f.Render(j.recs, f.rules.zero);
  }

  lemma TailIsPlain(f: Format, j: Trail)
    requires Lawful(f) && Follows(f, j) && !j.phase.Spoiled?
    ensures Plain(j.log.tail)
  {
    HashAfterIsHash(f, j.recs);
    if j.recs != [] {
      HashAfterIsHash(f, j.recs[..|j.recs| - 1]);
    }
  }

  lemma NothingFollows(f: Format, j: Trail, e: Happening)
    requires Follows(f, j) && !j.phase.Spoiled? && e.Attempt? && Written(f, j.log, e) == []
    ensures Follows(f, Advance(f, j, e))
  {
    NextIs(f, j.log, e);
    assert Contents(j.log.file) + [] == Contents(j.log.file);
  }

  lemma AdvanceFollows(f: Format, j: Trail, e: Happening)
    requires Lawful(f) && Follows(f, j) && Regular(f, j, e) && Apart(f, j, e)
    ensures Follows(f, Advance(f, j, e))
  {
    if j.phase.Spoiled? {
      FixedStep(f, j.log, e, j.phase.line);
    } else if e.Restarted? {
      RestartFollows(f, j);
    } else if Written(f, j.log, e) == [] {
      NothingFollows(f, j, e);
    } else if !WritesAll(f, j.log, e) {
      PartFollows(f, j, e);
    } else {
      match j.phase
      case Settled => SettledWhole(f, j, e);
      case Unsynced => UnsyncedWhole(f, j, e);
      case Torn(_) => TornWhole(f, j, e);
    }
  }
}
