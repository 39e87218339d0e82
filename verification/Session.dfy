/**
 Per-session operation and search state (src/session/session.cpp) as the digest, sign, verify and
 find entry points drive it (src/pkcs11/p11_crypto.cpp, src/pkcs11/p11_object.cpp). What a digest,
 sign or verify primitive is given is recorded in the reply; what it computes is not modelled.
 */
module Sessions {
  import opened Wrappers
  import opened Bytes
  import opened Machines

  datatype Kind = Digest | Sign | Verify

  /** A pointer and a length: null, or bytes. */
  datatype Buffer = Null(len: nat) | Of(bytes: Bytes)

  predicate Bad(b: Buffer) { b.Null? && b.len > 0 }

  function Data(b: Buffer): Bytes { if b.Null? then [] else b.bytes }

  /** `mech` is 0 when no operation is active; `legacy` is set by an entry point that none of these calls uses. */
  datatype Session = Session(legacy: bool, mech: nat, key: nat, buf: Bytes, handles: seq<nat>, pos: nat, finding: bool)

  datatype Rv =
    | Ok | OperationActive | NotInitialized | ArgumentsBad
    | MechanismInvalid | KeyHandleInvalid | SessionHandleInvalid

  datatype Call =
    | Init(kind: Kind, mech: nat, key: nat)
    | Update(part: Buffer)
    | Final(kind: Kind, signature: Buffer)
    | OneShot(kind: Kind, data: Buffer, signature: Buffer)
    | FindInit(results: seq<nat>)
    | FindNext(max: nat, room: bool, counter: bool)   // whether the two output pointers are not null
    | FindFinal

  /** What a primitive is given. */
  datatype Job = Job(kind: Kind, mech: nat, key: nat, data: Bytes)

  /** `count` is the number of handles reported, `found` what was written to the caller's array. */
  datatype Reply = Reply(rv: Rv, job: Option<Job>, count: nat, found: seq<nat>)

  function Just(rv: Rv): Reply { Reply(rv, None, 0, []) }

  function Run(kind: Kind, s: Session, data: Bytes): Reply { Reply(Ok, Some(Job(kind, s.mech, s.key, data)), 0, []) }

  /** Which mechanisms an Init accepts; 0 is none of them. */
  datatype Policy = Policy(accepts: (Kind, nat) -> bool)
  {
    ghost predicate Valid() { forall k: Kind :: !accepts(k, 0) }
  }

  /** `opBegin`: an operation that is still active is dropped. */
  function Begin(s: Session, mech: nat, key: nat): (Session, Rv) {
    if s.legacy && s.mech != 0 then (s, OperationActive) else (s.(mech := mech, key := key, buf := []), Ok)
  }

  /** `opEnd`: the search is not touched. */
  function End(s: Session): Session { s.(mech := 0, key := 0, buf := []) }

  function BatchSize(s: Session, max: nat): nat {
    if s.pos >= |s.handles| then 0 else if max < |s.handles| - s.pos then max else |s.handles| - s.pos
  }

  /** The key an Init stores: a digest has none. */
  function KeyFor(kind: Kind, key: nat): nat { if kind == Digest then 0 else key }

  function Perform(p: Policy, s: Session, c: Call): (Session, Reply) {
    match c
    case Init(kind, mech, key) =>
      if !p.accepts(kind, mech) then (s, Just(MechanismInvalid))
      else if kind != Digest && key == 0 then (s, Just(KeyHandleInvalid))
      else var (t, rv) := Begin(s, mech, KeyFor(kind, key)); (t, Just(rv))
    case Update(part) =>
      if s.mech == 0 then (s, Just(NotInitialized))
      else if Bad(part) then (s, Just(ArgumentsBad))
      else (s.(buf := s.buf + Data(part)), Just(Ok))
    case Final(kind, signature) =>
      if s.mech == 0 then (s, Just(NotInitialized))
      else if kind == Verify && Bad(signature) then (s, Just(ArgumentsBad))
      else (End(s), Run(kind, s, s.buf))
    case OneShot(kind, data, signature) =>
      if s.mech == 0 then (s, Just(NotInitialized))
      else if Bad(data) || (kind == Verify && Bad(signature)) then (s, Just(ArgumentsBad))
      else (End(s), Run(kind, s, Data(data)))
    case FindInit(results) =>
      if s.pos < |s.handles| || s.finding then (s, Just(OperationActive))
      else (s.(handles := results, pos := 0, finding := true), Just(Ok))
    case FindNext(max, room, counter) =>
      if !counter then (s, Just(ArgumentsBad))
      else if !s.finding then (s, Just(NotInitialized))
      else
        var n := BatchSize(s, max);
        (s.(pos := s.pos + n), Reply(Ok, None, n, if n == 0 || !room then [] else s.handles[s.pos..s.pos + n]))
    case FindFinal => (s.(handles := [], pos := 0, finding := false), Just(Ok))
  }

  /** What a call on a handle without a session returns. */
  function Absent(p: Policy, c: Call): Rv {
    match c
    case Init(kind, mech, key) =>
      if !p.accepts(kind, mech) then MechanismInvalid
      else if kind != Digest && key == 0 then KeyHandleInvalid
      else SessionHandleInvalid
    case Update(_) => NotInitialized
    case Final(_, _) => NotInitialized
    case OneShot(_, _, _) => NotInitialized
    case FindInit(_) => SessionHandleInvalid
    case FindNext(_, _, counter) => if counter then SessionHandleInvalid else ArgumentsBad
    case FindFinal => SessionHandleInvalid
  }

  function SessionMachine(p: Policy): Machine<Session, Call, Reply> {
    Machine((s: Session, c: Call) => Perform(p, s, c), (c: Call) => Just(Absent(p, c)))
  }

  // ---------------------------------------------------------------------------
  // What each call does, as laws of the machine
  // ---------------------------------------------------------------------------

  /** Calls that neither begin nor end an operation. */
  predicate Feeds(c: Call) { c.Update? || c.FindInit? || c.FindNext? || c.FindFinal? }

  /** The data a call adds; a part with a null pointer and a length is refused. */
  function Part(c: Call): Bytes { if c.Update? && c.part.Of? then c.part.bytes else [] }

  ghost predicate FeedLaw(m: Machine<Session, Call, Reply>, s: Session, c: Call) {
    var t := m.step(s, c).0;
    t.mech == s.mech && t.key == s.key && t.buf == s.buf + Part(c)
  }

  /** An Init that is accepted: the mechanism is known, and a key is given where one is needed. */
  predicate Accepted(p: Policy, kind: Kind, mech: nat, key: nat) {
    p.accepts(kind, mech) && (kind == Digest || key != 0)
  }

  /** The job of an operation on all of `data`. */
  function JobFor(c: Call, data: Bytes): Job
    requires c.Init?
  {
    Job(c.kind, c.mech, if c.kind.Digest? then 0 else c.key, data)
  }

  /** An accepted Init leaves nothing of an operation before it. */
  ghost predicate InitLaw(m: Machine<Session, Call, Reply>, s: Session, c: Call)
    requires c.Init?
  {
    var t := m.step(s, c).0;
    t.mech == c.mech != 0 && t.key == KeyFor(c.kind, c.key) && t.buf == []
  }

  ghost predicate EndLaw(m: Machine<Session, Call, Reply>, s: Session, kind: Kind, signature: Buffer) {
    m.step(s, Final(kind, signature)) == (End(s), Run(kind, s, s.buf))
  }

  ghost predicate OneShotLaw(m: Machine<Session, Call, Reply>, s: Session, kind: Kind, data: Bytes, signature: Buffer) {
    m.step(s, OneShot(kind, Of(data), signature)) == (End(s), Run(kind, s, data))
  }

  ghost predicate Lawful(m: Machine<Session, Call, Reply>, p: Policy) {
    && (forall s: Session, c: Call :: s.mech != 0 && Feeds(c) ==> FeedLaw(m, s, c))
    && (forall s: Session, c: Call :: m.step(s, c).0.legacy == s.legacy)
    && (forall s: Session, c: Call :: c.Init? && !s.legacy && Accepted(p, c.kind, c.mech, c.key) ==> InitLaw(m, s, c))
    && (forall s: Session, kind: Kind, sig: Buffer :: s.mech != 0 && !Bad(sig) ==> EndLaw(m, s, kind, sig))
    && (forall s: Session, kind: Kind, data: Bytes, sig: Buffer :: s.mech != 0 && !Bad(sig) ==>
          OneShotLaw(m, s, kind, data, sig))
  }

  lemma SessionsAreLawful(p: Policy)
    requires p.Valid()
    ensures Lawful(SessionMachine(p), p)
  {
  }

  // ---------------------------------------------------------------------------
  // Chunks
  // ---------------------------------------------------------------------------

  /** The data of the updates among the calls, in order. */
  function Fed(cs: seq<Call>): Bytes {
    if cs == [] then [] else Fed(cs[..|cs| - 1]) + Part(cs[|cs| - 1])
  }

  lemma FeedsOn(m: Machine<Session, Call, Reply>, p: Policy, s: Session, c: Call, a: Bytes, b: Bytes)
    requires Lawful(m, p) && s.mech != 0 && Feeds(c) && s.buf == a + b
    ensures var t := m.step(s, c).0; t.mech == s.mech && t.key == s.key && t.buf == a + (b + Part(c))
  {
    assert FeedLaw(m, s, c);
    assert a + b + Part(c) == a + (b + Part(c));
  }

  lemma {:induction false} FeedingKeeps(m: Machine<Session, Call, Reply>, p: Policy, s: Session, cs: seq<Call>)
    requires Lawful(m, p) && s.mech != 0 && forall c <- cs :: Feeds(c)
    ensures var t := m.After(s, cs); t.mech == s.mech && t.key == s.key && t.buf == s.buf + Fed(cs)
  {
    if cs != [] {
      var front, c := cs[..|cs| - 1], cs[|cs| - 1];
      assert c in cs && forall x <- front :: x in cs;
      FeedingKeeps(m, p, s, front);
      FeedsOn(m, p, m.After(s, front), c, s.buf, Fed(front));
    }
  }

  lemma {:induction false} LegacyStays(m: Machine<Session, Call, Reply>, p: Policy, s: Session, cs: seq<Call>)
    requires Lawful(m, p)
    ensures m.After(s, cs).legacy == s.legacy
  {
    if cs != [] {
      LegacyStays(m, p, s, cs[..|cs| - 1]);
    }
  }

  /** From any state: Init, then updates and searches in any order. */
  lemma ChunksReach(m: Machine<Session, Call, Reply>, p: Policy, s: Session, c: Call, cs: seq<Call>)
    requires Lawful(m, p) && !s.legacy && c.Init? && Accepted(p, c.kind, c.mech, c.key) && forall x <- cs :: Feeds(x)
    ensures var t := m.After(s, [c] + cs); t.mech == c.mech != 0 && t.key == KeyFor(c.kind, c.key) && t.buf == Fed(cs)
  {
    assert InitLaw(m, s, c);
    First(m, s, c);
    Concat(m, s, [c], cs);
    FeedingKeeps(m, p, m.After(s, [c]), cs);
  }

  /** Init and one call with all the data. */
  lemma OnceReaches(m: Machine<Session, Call, Reply>, p: Policy, s: Session, c: Call, data: Bytes, signature: Buffer)
    requires Lawful(m, p) && !s.legacy && c.Init? && Accepted(p, c.kind, c.mech, c.key) && !Bad(signature)
    ensures m.Replies(s, [c] + [OneShot(c.kind, Of(data), signature)])[1].job == Some(JobFor(c, data))
  {
    assert InitLaw(m, s, c);
    First(m, s, c);
    OneMore(m, s, [c], OneShot(c.kind, Of(data), signature));
    assert OneShotLaw(m, m.After(s, [c]), c.kind, data, signature);
  }

  /** The last reply of a session that was fed in chunks, after any past of its own. */
  lemma ChunkedReply(m: Machine<Session, Call, Reply>, p: Policy, s: Session, past: seq<Call>, c: Call, cs: seq<Call>,
                     signature: Buffer)
    requires Lawful(m, p) && !s.legacy && c.Init? && Accepted(p, c.kind, c.mech, c.key) && !Bad(signature)
    requires forall x <- cs :: Feeds(x)
    ensures var rs := m.Replies(s, past + ([c] + cs) + [Final(c.kind, signature)]);
            rs[|rs| - 1].job == Some(JobFor(c, Fed(cs)))
  {
    var t := m.After(s, past);
    LegacyStays(m, p, s, past);
    Concat(m, s, past, [c] + cs);
    OneMore(m, s, past + ([c] + cs), Final(c.kind, signature));
    ChunksReach(m, p, t, c, cs);
    assert EndLaw(m, m.After(t, [c] + cs), c.kind, signature);
  }

  /**
   Whatever happened before, on this session or on others, and whatever other sessions do meanwhile: an operation fed in
   chunks gives its primitive the same mechanism, key and data as a one-shot call with all the data, in any session.
   */
  lemma ChunkedIsOneShot(p: Policy, w: map<nat, Session>, es: seq<(nat, Call)>, h: nat, past: seq<Call>, c: Call,
                         cs: seq<Call>,
                         signature: Buffer, other: Session)
    requires p.Valid() && h in w && !w[h].legacy && !other.legacy
    requires c.Init? && Accepted(p, c.kind, c.mech, c.key) && !Bad(signature) && forall x <- cs :: Feeds(x)
    requires CallsOn(es, h) == past + ([c] + cs) + [Final(c.kind, signature)]
    ensures var m := SessionMachine(p);
            var rs := m.RepliesOn(w, es, h);
            var once := m.Replies(other, [c] + [OneShot(c.kind, Of(Fed(cs)), signature)]);
            rs != [] && rs[|rs| - 1].job == once[1].job == Some(JobFor(c, Fed(cs)))
  {
    var m := SessionMachine(p);
    SessionsAreLawful(p);
    Separate(m, w, es, h);
    ChunkedReply(m, p, w[h], past, c, cs, signature);
    OnceReaches(m, p, other, c, Fed(cs), signature);
  }

  // ---------------------------------------------------------------------------
  // Searches
  // ---------------------------------------------------------------------------

  /** The handles handed out in the replies, in order. */
  function Found(rs: seq<Reply>): seq<nat> {
    if rs == [] then [] else Found(rs[..|rs| - 1]) + rs[|rs| - 1].found
  }

  /** The sum of the counts reported. */
  function Counted(rs: seq<Reply>): nat {
    if rs == [] then 0 else Counted(rs[..|rs| - 1]) + rs[|rs| - 1].count
  }

  /** How many handles were counted without an array to write them to. */
  function Dropped(cs: seq<Call>, rs: seq<Reply>): nat
    requires |cs| == |rs|
  {
    if cs == [] then 0 else
    var n := |cs| - 1;
    Dropped(cs[..n], rs[..n]) + Lost(cs[n], rs[n])
  }

  function Lost(c: Call, r: Reply): nat { if c.FindNext? && !c.room then r.count else 0 }

  /** The batch was counted, and came back with fewer handles than asked for. */
  predicate Short(c: Call, r: Reply) { c.FindNext? && c.counter && r.count < c.max }

  predicate SomeShort(cs: seq<Call>, rs: seq<Reply>)
    requires |cs| == |rs|
  {
    exists i :: 0 <= i < |cs| && Short(cs[i], rs[i])
  }

  lemma FoundMore(rs: seq<Reply>, r: Reply)
    ensures Found(rs + [r]) == Found(rs) + r.found && Counted(rs + [r]) == Counted(rs) + r.count
  {
    assert (rs + [r])[..|rs|] == rs;
  }

  /**
   A search in progress: `counted` handles are behind the cursor, `lost` of them were never written anywhere, and
   without such a loss what was written is the part of the results before the cursor.
   */
  predicate Searching(s: Session, results: seq<nat>, counted: nat, out: seq<nat>, lost: nat) {
    && s.finding && s.handles == results && s.pos == counted <= |results| && |out| + lost == counted
    && (lost == 0 ==> out == results[..counted])
  }

  ghost predicate SearchLaw(m: Machine<Session, Call, Reply>, s: Session, c: Call) {
    var (t, r) := m.step(s, c);
    && t.finding && t.handles == s.handles && t.pos == s.pos + r.count <= |s.handles|
    && |r.found| + Lost(c, r) == r.count && (Lost(c, r) == 0 ==> r.found == s.handles[s.pos..t.pos])
    && (Short(c, r) ==> t.pos == |s.handles|)
  }

  ghost predicate Searchable(m: Machine<Session, Call, Reply>) {
    forall s: Session, c: Call :: s.finding && s.pos <= |s.handles| && !c.FindFinal? ==> SearchLaw(m, s, c)
  }

  lemma SessionsAreSearchable(p: Policy)
    ensures Searchable(SessionMachine(p))
  {
  }

  /** One more batch. */
  lemma SearchingOn(m: Machine<Session, Call, Reply>, s: Session, c: Call, results: seq<nat>, counted: nat,
                    out: seq<nat>, lost: nat)
    requires SearchLaw(m, s, c) && Searching(s, results, counted, out, lost)
    ensures var (t, r) := m.step(s, c);
            Searching(t, results, counted + r.count, out + r.found, lost + Lost(c, r))
  {
  }

  /** Calls of every other kind in between, even another FindInit, leave the search alone. */
  lemma {:induction false} SearchRuns(m: Machine<Session, Call, Reply>, s: Session, cs: seq<Call>, results: seq<nat>)
    requires Searchable(m) && Searching(s, results, 0, [], 0) && forall c <- cs :: !c.FindFinal?
    ensures var t, rs := m.After(s, cs), m.Replies(s, cs);
            Searching(t, results, Counted(rs), Found(rs), Dropped(cs, rs)) && (SomeShort(cs, rs) ==> t.pos == |results|)
  {
    if cs != [] {
      var n := |cs| - 1;
      var front, c := cs[..n], cs[n];
      assert c in cs && forall x <- front :: x in cs;
      SearchRuns(m, s, front, results);
      var t, rs := m.After(s, front), m.Replies(s, front);
      assert SearchLaw(m, t, c);
      SearchingOn(m, t, c, results, Counted(rs), Found(rs), Dropped(front, rs));
      FoundMore(rs, m.step(t, c).1);
      ShortEarlier(cs, m.Replies(s, cs));
      assert m.Replies(s, cs)[..n] == rs;
    }
  }

  lemma ShortEarlier(cs: seq<Call>, rs: seq<Reply>)
    requires |cs| == |rs| > 0
    ensures var n := |cs| - 1; SomeShort(cs, rs) ==> SomeShort(cs[..n], rs[..n]) || Short(cs[n], rs[n])
  {
    var n := |cs| - 1;
    if SomeShort(cs, rs) {
      var i :| 0 <= i < |cs| && Short(cs[i], rs[i]);
      if i < n {
        assert cs[..n][i] == cs[i] && rs[..n][i] == rs[i];
      }
    }
  }

  lemma FindInitStarts(p: Policy, s: Session, results: seq<nat>)
    requires !s.finding && s.pos >= |s.handles|
    ensures Searching(SessionMachine(p).step(s, FindInit(results)).0, results, 0, [], 0)
  {
  }

  /**
   For any batch sizes, and whatever else happens on this session and on others: the handles written are the results at
   the time of the Init up to the number counted, exactly if nothing was counted without an array to write to, and all
   results are counted once a batch has come back short.
   */
  lemma BatchesConcatenate(p: Policy, w: map<nat, Session>, es: seq<(nat, Call)>, h: nat, results: seq<nat>,
                           cs: seq<Call>)
    requires h in w && !w[h].finding && w[h].pos >= |w[h].handles|
    requires CallsOn(es, h) == [FindInit(results)] + cs && forall c <- cs :: !c.FindFinal?
    ensures var rs := SessionMachine(p).RepliesOn(w, es, h);
            && |rs| == 1 + |cs| && Counted(rs[1..]) <= |results|
            && (Found(rs[1..]) == results[..Counted(rs[1..])] <==> Dropped(cs, rs[1..]) == 0)
            && (SomeShort(cs, rs[1..]) ==> Counted(rs[1..]) == |results|)
  {
    var m, c := SessionMachine(p), FindInit(results);
    SessionsAreSearchable(p);
    Separate(m, w, es, h);
    First(m, w[h], c);
    FindInitStarts(p, w[h], results);
    Concat(m, w[h], [c], cs);
    SearchRuns(m, m.After(w[h], [c]), cs, results);
    assert m.RepliesOn(w, es, h)[1..] == m.Replies(m.After(w[h], [c]), cs);
  }

  /** A result is counted into a null array: the caller was told of it, and no later call returns it. */
  lemma CountedAndLost(p: Policy, s: Session, results: seq<nat>, c: Call)
    requires s.finding && s.handles == results && s.pos == 0 && results != [] && c == FindNext(|results|, false, true)
    ensures var m := SessionMachine(p);
            var (t, r) := m.step(s, c);
            && r.rv == Ok && r.count == |results| && r.found == []
            && forall max: nat, room: bool :: m.step(t, FindNext(max, room, true)).1.count == 0
  {
  }

  // ---------------------------------------------------------------------------
  // The answer to every call, told by the calls before it
  // ---------------------------------------------------------------------------

  function NewSession(legacy: bool): Session { Session(legacy, 0, 0, [], [], 0, false) }

  /** A null pointer with a length. */
  predicate Dangling(b: Buffer) { b.Null? && b.len > 0 }

  /** After the call an operation is active, or was before; the call ends the operation that is active, if any. */
  predicate Opens(p: Policy, c: Call) { c.Init? && p.accepts(c.kind, c.mech) && (c.kind.Digest? || c.key != 0) }

  predicate Closes(c: Call) {
    (c.Final? || c.OneShot?) && !(c.OneShot? && Dangling(c.data)) && !(c.kind.Verify? && Dangling(c.signature))
  }

  /** An operation was begun and not ended since; a search was begun and not ended since. */
  ghost predicate Active(p: Policy, cs: seq<Call>) {
    exists i :: 0 <= i < |cs| && Opens(p, cs[i]) && forall j :: i < j < |cs| ==> !Closes(cs[j])
  }

  ghost predicate Seeking(cs: seq<Call>) {
    exists i :: 0 <= i < |cs| && cs[i].FindInit? && forall j :: i < j < |cs| ==> !cs[j].FindFinal?
  }

  lemma ActiveOn(p: Policy, cs: seq<Call>, c: Call)
    ensures Active(p, cs + [c]) <==> Opens(p, c) || (Active(p, cs) && !Closes(c))
  {
    var more := cs + [c];
    if Opens(p, c) {
      assert Opens(p, more[|cs|]);
    } else if Active(p, cs) && !Closes(c) {
      var i :| 0 <= i < |cs| && Opens(p, cs[i]) && forall j :: i < j < |cs| ==> !Closes(cs[j]);
      assert Opens(p, more[i]);
    }
    if Active(p, more) && !Opens(p, c) {
      var i :| 0 <= i < |more| && Opens(p, more[i]) && forall j :: i < j < |more| ==> !Closes(more[j]);
      assert Opens(p, cs[i]) && !Closes(more[|cs|]);
      assert forall j :: i < j < |cs| ==> cs[j] == more[j];
    }
  }

  lemma SeekingOn(cs: seq<Call>, c: Call)
    ensures Seeking(cs + [c]) <==> c.FindInit? || (Seeking(cs) && !c.FindFinal?)
  {
    var more := cs + [c];
    if c.FindInit? {
      assert more[|cs|].FindInit?;
    } else if Seeking(cs) && !c.FindFinal? {
      var i :| 0 <= i < |cs| && cs[i].FindInit? && forall j :: i < j < |cs| ==> !cs[j].FindFinal?;
      assert more[i].FindInit?;
    }
    if Seeking(more) && !c.FindInit? {
      var i :| 0 <= i < |more| && more[i].FindInit? && forall j :: i < j < |more| ==> !more[j].FindFinal?;
      assert cs[i].FindInit? && !more[|cs|].FindFinal?;
      assert forall j :: i < j < |cs| ==> cs[j] == more[j];
    }
  }

  /** What the session knows of its past. */
  ghost predicate Remembers(p: Policy, legacy: bool, s: Session, cs: seq<Call>) {
    && s.legacy == legacy && (s.mech != 0 <==> Active(p, cs)) && (s.finding <==> Seeking(cs))
    && (!s.finding ==> s.handles == [] && s.pos == 0)
  }

  lemma RemembersOn(p: Policy, legacy: bool, s: Session, cs: seq<Call>, c: Call)
    requires p.Valid() && Remembers(p, legacy, s, cs)
    ensures Remembers(p, legacy, Perform(p, s, c).0, cs + [c])
  {
    ActiveOn(p, cs, c);
    SeekingOn(cs, c);
  }

  lemma {:induction false} SessionRemembers(p: Policy, legacy: bool, cs: seq<Call>)
    requires p.Valid()
    ensures Remembers(p, legacy, SessionMachine(p).After(NewSession(legacy), cs), cs)
  {
    if cs != [] {
      var front, c := cs[..|cs| - 1], cs[|cs| - 1];
      SessionRemembers(p, legacy, front);
      RemembersOn(p, legacy, SessionMachine(p).After(NewSession(legacy), front), front, c);
      assert cs == front + [c];
    }
  }

  /** The answer to a call after the calls `cs`. */
  ghost function Answer(p: Policy, legacy: bool, cs: seq<Call>, c: Call): Rv {
    match c
    case Init(kind, mech, key) =>
      if !p.accepts(kind, mech) then MechanismInvalid
      else if kind != Digest && key == 0 then KeyHandleInvalid
      else if legacy && Active(p, cs) then OperationActive else Ok
    case FindInit(_) => if Seeking(cs) then OperationActive else Ok
    case FindNext(_, _, counter) => if !counter then ArgumentsBad else if Seeking(cs) then Ok else NotInitialized
    case FindFinal => Ok
    case Update(part) =>
      if !Active(p, cs) then NotInitialized else if Dangling(part) then ArgumentsBad else Ok
    case _ => if !Active(p, cs) then NotInitialized else if Closes(c) then Ok else ArgumentsBad
  }

  lemma AnswerFrom(p: Policy, legacy: bool, s: Session, cs: seq<Call>, c: Call, r: Reply)
    requires Remembers(p, legacy, s, cs) && r == Perform(p, s, c).1
    ensures r.rv == Answer(p, legacy, cs, c)
    ensures r.job.Some? <==> r.rv == Ok && (c.Final? || c.OneShot?)
  {
  }

  /**
   From a new session: every reply of every run. A primitive runs exactly when a Final or a one-shot call succeeds.
   */
  lemma EveryReply(p: Policy, legacy: bool, cs: seq<Call>, k: nat)
    requires p.Valid() && k < |cs|
    ensures var r := SessionMachine(p).Replies(NewSession(legacy), cs)[k];
            && r.rv == Answer(p, legacy, cs[..k], cs[k])
            && (r.job.Some? <==> r.rv == Ok && (cs[k].Final? || cs[k].OneShot?))
  {
    var m, s := SessionMachine(p), NewSession(legacy);
    SessionRemembers(p, legacy, cs[..k]);
    AnswerFrom(p, legacy, m.After(s, cs[..k]), cs[..k], cs[k], m.step(m.After(s, cs[..k]), cs[k]).1);
    ReplyAt(m, s, cs, k);
  }

  /** A handle without a session gets no service, whatever is called on it and whatever happens elsewhere. */
  lemma {:induction false} NoSessionNoService(p: Policy, w: map<nat, Session>, es: seq<(nat, Call)>, h: nat)
    requires h !in w
    ensures h !in SessionMachine(p).Worlds(w, es)
    ensures forall r <- SessionMachine(p).RepliesOn(w, es, h) :: r.rv != Ok && r.job == None && r.found == []
  {
    if es != [] {
      NoSessionNoService(p, w, es[..|es| - 1], h);
    }
  }
}
