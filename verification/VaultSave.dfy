/**
 The save protocol of the vault (src/persistence/vault.cpp): each save writes a temporary file in the
 same directory, syncs it, closes it, renames it over the target and syncs the directory. Saves of
 any number of threads and processes interleave, any call may fail, a process may be killed between
 any two calls, and the power may go. Renaming is atomic; a file's contents are certain after a power
 loss only once synced, and a rename only once the directory is.
 */
module VaultSave {
  import opened Wrappers
  import opened Bytes

  /** Process id and counter of a temporary file's name. */
  datatype Name = Name(pid: int, seqNo: nat)

  datatype File = File(content: Bytes, synced: bool)

  /** `older`: what the target's entry was at each rename since the directory was last synced. */
  datatype Disk = Disk(target: Option<File>, older: seq<Option<File>>, temps: map<Name, File>)

  /** Where a save is between two of its calls. */
  datatype Phase =
    | Fresh
    | Writing(written: nat)
    | Synced
    | Closed
    | Renamed
    | Cleaning(open: bool)
    | Finished(ok: bool)
    | Dead

  datatype Save = Save(name: Name, image: Bytes, phase: Phase)
  {
    /** The save still counts on its temporary file being its own. */
    predicate Owns() {
      phase.Fresh? || phase.Writing? || phase.Synced? || phase.Closed? || phase.Cleaning?
    }
  }

  datatype State = State(disk: Disk, saves: seq<Save>)

  datatype Event =
    | Begin(name: Name, image: Bytes)
    | Open(i: nat, ok: bool)
    | Write(i: nat, count: int)
    | Sync(i: nat, ok: bool)
    | Close(i: nat, ok: bool)
    | Rename(i: nat, ok: bool)
    | Unlink(i: nat)
    | SyncDir(i: nat, ok: bool)
    | Kill(i: nat)
    | PowerLoss(pick: nat, kept: Option<File>, temps: map<Name, File>)

  predicate At(s: State, i: nat) { i < |s.saves| }

  /** An entry of the directory after a power loss: as it was, unless its contents were never synced. */
  predicate Survives(was: Option<File>, now: Option<File>) {
    if was.Some? && !was.value.synced then now.Some? else now == was
  }

  function Entry(d: Disk, k: nat): Option<File> {
    if k < |d.older| then d.older[k] else d.target
  }

  predicate NameFree(s: State, name: Name) {
    forall i :: 0 <= i < |s.saves| && s.saves[i].Owns() ==> s.saves[i].name != name
  }

  predicate Enabled(s: State, e: Event) {
    match e
    case Begin(name, _) => NameFree(s, name)
    case Open(i, _) => At(s, i) && s.saves[i].phase.Fresh?
    case Write(i, count) =>
      && At(s, i) && s.saves[i].phase.Writing? && s.saves[i].phase.written < |s.saves[i].image|
      && count <= |s.saves[i].image| - s.saves[i].phase.written
    case Sync(i, _) => At(s, i) && s.saves[i].phase.Writing? && s.saves[i].phase.written >= |s.saves[i].image|
    case Close(i, _) => At(s, i) && (s.saves[i].phase.Synced? || s.saves[i].phase == Cleaning(true))
    case Rename(i, _) => At(s, i) && s.saves[i].phase.Closed?
    case Unlink(i) => At(s, i) && s.saves[i].phase == Cleaning(false)
    case SyncDir(i, _) => At(s, i) && s.saves[i].phase.Renamed?
    case Kill(i) => At(s, i) && !s.saves[i].phase.Finished?
    case PowerLoss(pick, kept, _) => pick <= |s.disk.older| && Survives(Entry(s.disk, pick), kept)
  }

  function Moved(s: State, i: nat, phase: Phase): seq<Save>
    requires At(s, i)
  {
    s.saves[i := s.saves[i].(phase := phase)]
  }

  function Killed(saves: seq<Save>): (r: seq<Save>)
    ensures |r| == |saves| && forall i :: 0 <= i < |saves| ==> r[i] == Stopped(saves[i])
  {
    seq(|saves|, i requires 0 <= i < |saves| => Stopped(saves[i]))
  }

  function Stopped(v: Save): Save { v.(phase := if v.phase.Finished? then v.phase else Dead) }

  function Put(d: Disk, name: Name, f: File): Disk { d.(temps := d.temps[name := f]) }

  function Remove(d: Disk, name: Name): Disk { d.(temps := d.temps - {name}) }

  /** The bytes a name holds; nothing is written through a name that is gone. */
  function Held(d: Disk, name: Name): Bytes { if name in d.temps then d.temps[name].content else [] }

  function Step(s: State, e: Event): State
    requires Enabled(s, e)
  {
    match e
    case Begin(name, image) => s.(saves := s.saves + [Save(name, image, Fresh)])
    case Open(i, ok) =>
      if !ok then s.(saves := Moved(s, i, Finished(false)))
      else State(Put(s.disk, s.saves[i].name, File([], false)), Moved(s, i, Writing(0)))
    case Write(i, count) =>
      var v := s.saves[i];
      var w := v.phase.written;
      if count < 0 then s.(saves := Moved(s, i, Cleaning(true)))
      else State(Put(s.disk, v.name, File(Held(s.disk, v.name) + v.image[w..w + count], false)),
                Moved(s, i, Writing(w + count)))
    case Sync(i, ok) =>
      var v := s.saves[i];
      if !ok then s.(saves := Moved(s, i, Cleaning(true)))
      else State(Put(s.disk, v.name, File(Held(s.disk, v.name), true)), Moved(s, i, Synced))
    case Close(i, ok) =>
      s.(saves := Moved(s, i, if ok && s.saves[i].phase.Synced? then Closed else Cleaning(false)))
    case Rename(i, ok) =>
      var v := s.saves[i];
      if !ok || v.name !in s.disk.temps then s.(saves := Moved(s, i, Cleaning(false)))
      else State(Disk(Some(s.disk.temps[v.name]), s.disk.older + [s.disk.target], s.disk.temps - {v.name}),
                Moved(s, i, Renamed))
    case Unlink(i) => State(Remove(s.disk, s.saves[i].name), Moved(s, i, Finished(false)))
    case SyncDir(i, ok) =>
      State(if ok then s.disk.(older := []) else s.disk, Moved(s, i, Finished(true)))
    case Kill(i) => s.(saves := Moved(s, i, Dead))
    case PowerLoss(_, kept, temps) => State(Disk(kept, [], temps), Killed(s.saves))
  }

  /** States reached from `s` by the events, or `None` if one of them could not happen. */
  function Run(s: State, es: seq<Event>): Option<State> {
    if es == [] then Some(s) else
    var before := Run(s, es[..|es| - 1]);
    if before.Some? && Enabled(before.value, es[|es| - 1]) then Some(Step(before.value, es[|es| - 1])) else None
  }

  // ---------------------------------------------------------------------------
  // What every step keeps
  // ---------------------------------------------------------------------------

  /** A durable copy of the image of one of the saves. */
  predicate IsImage(saves: seq<Save>, f: Option<File>) {
    f.Some? && f.value.synced && exists i :: 0 <= i < |saves| && saves[i].image == f.value.content
  }

  predicate Good(first: Option<File>, saves: seq<Save>, f: Option<File>) { f == first || IsImage(saves, f) }

  /** The temporary file of a save holds what the save has written. */
  predicate Holds(d: Disk, v: Save) {
    match v.phase
    case Writing(w) => w <= |v.image| && v.name in d.temps && d.temps[v.name].content == v.image[..w]
    case Synced => v.name in d.temps && d.temps[v.name] == File(v.image, true)
    case Closed => v.name in d.temps && d.temps[v.name] == File(v.image, true)
    case _ => true
  }

  predicate NamesDistinct(saves: seq<Save>) {
    forall i, k :: 0 <= i < k < |saves| && saves[i].Owns() && saves[k].Owns() ==> saves[i].name != saves[k].name
  }

  predicate AllHold(s: State) {
    forall i :: 0 <= i < |s.saves| ==> Holds(s.disk, s.saves[i])
  }

  predicate AllGood(first: Option<File>, s: State) {
    Good(first, s.saves, s.disk.target) && forall k :: 0 <= k < |s.disk.older| ==> Good(first, s.saves, s.disk.older[k])
  }

  predicate Inv(first: Option<File>, s: State) {
    && (first.Some? ==> first.value.synced)
    && NamesDistinct(s.saves) && AllHold(s) && AllGood(first, s)
  }

  lemma StepKeepsNames(s: State, e: Event)
    requires Enabled(s, e) && NamesDistinct(s.saves)
    ensures NamesDistinct(Step(s, e).saves)
  {
  }

  /** One save's move changes the disk only at its own name. */
  lemma MoveKeepsHolds(s: State, i: nat, d: Disk, phase: Phase)
    requires At(s, i) && NamesDistinct(s.saves) && AllHold(s) && s.saves[i].Owns()
    requires forall n: Name :: n != s.saves[i].name ==>
               (n in d.temps <==> n in s.disk.temps) && (n in d.temps ==> d.temps[n] == s.disk.temps[n])
    requires Holds(d, s.saves[i].(phase := phase))
    ensures AllHold(State(d, Moved(s, i, phase)))
  {
    forall k | 0 <= k < |s.saves| ensures Holds(d, Moved(s, i, phase)[k]) {
      assert Holds(s.disk, s.saves[k]);
    }
  }

  lemma StepKeepsHolds(s: State, e: Event)
    requires Enabled(s, e) && NamesDistinct(s.saves) && AllHold(s)
    ensures AllHold(Step(s, e))
  {
    match e
    case Begin(_, _) =>
    case Open(i, ok) =>
      MoveKeepsHolds(s, i, Step(s, e).disk, Step(s, e).saves[i].phase);
    case Write(i, count) =>
      assert Holds(s.disk, s.saves[i]);
      WriteHolds(s.saves[i], count);
      MoveKeepsHolds(s, i, Step(s, e).disk, Step(s, e).saves[i].phase);
    case Sync(i, ok) =>
      assert Holds(s.disk, s.saves[i]);
      MoveKeepsHolds(s, i, Step(s, e).disk, Step(s, e).saves[i].phase);
    case Close(i, ok) =>
      assert Holds(s.disk, s.saves[i]);
      MoveKeepsHolds(s, i, Step(s, e).disk, Step(s, e).saves[i].phase);
    case Rename(i, ok) =>
      MoveKeepsHolds(s, i, Step(s, e).disk, Step(s, e).saves[i].phase);
    case Unlink(i) =>
      MoveKeepsHolds(s, i, Step(s, e).disk, Step(s, e).saves[i].phase);
    case SyncDir(i, _) =>
    case Kill(i) =>
    case PowerLoss(_, _, _) =>
  }

  lemma WriteHolds(v: Save, count: int)
    requires v.phase.Writing? && v.phase.written < |v.image| && count <= |v.image| - v.phase.written
    ensures var w := v.phase.written; count >= 0 ==> v.image[..w] + v.image[w..w + count] == v.image[..w + count]
  {
  }

  /** The saves stay in the list, with their images. */
  lemma SavesPersist(s: State, e: Event)
    requires Enabled(s, e)
    ensures |s.saves| <= |Step(s, e).saves|
    ensures forall i :: 0 <= i < |s.saves| ==>
              Step(s, e).saves[i].image == s.saves[i].image && Step(s, e).saves[i].name == s.saves[i].name
  {
  }

  lemma GoodPersists(first: Option<File>, s: State, e: Event, f: Option<File>)
    requires Enabled(s, e) && Good(first, s.saves, f)
    ensures Good(first, Step(s, e).saves, f)
  {
    SavesPersist(s, e);
    if f != first {
      var i :| 0 <= i < |s.saves| && s.saves[i].image == f.value.content;
      assert Step(s, e).saves[i].image == f.value.content;
    }
  }

  lemma StepKeepsGood(first: Option<File>, s: State, e: Event)
    requires Enabled(s, e) && Inv(first, s)
    ensures AllGood(first, Step(s, e))
  {
    var t := Step(s, e);
    GoodPersists(first, s, e, s.disk.target);
    forall k | 0 <= k < |s.disk.older| ensures Good(first, t.saves, s.disk.older[k]) {
      GoodPersists(first, s, e, s.disk.older[k]);
    }
    if e.Rename? {
      assert Holds(s.disk, s.saves[e.i]);
      assert t.saves[e.i].image == s.saves[e.i].image;
    }
  }

  lemma StepKeepsInv(first: Option<File>, s: State, e: Event)
    requires Enabled(s, e) && Inv(first, s)
    ensures Inv(first, Step(s, e))
  {
    StepKeepsNames(s, e);
    StepKeepsHolds(s, e);
    StepKeepsGood(first, s, e);
  }

  lemma {:induction false} RunKeepsInv(first: Option<File>, s: State, es: seq<Event>)
    requires Inv(first, s) && Run(s, es).Some?
    ensures Inv(first, Run(s, es).value)
  {
    if es != [] {
      RunKeepsInv(first, s, es[..|es| - 1]);
      StepKeepsInv(first, Run(s, es[..|es| - 1]).value, es[|es| - 1]);
    }
  }

  // ---------------------------------------------------------------------------
  // Safety over whole runs
  // ---------------------------------------------------------------------------

  /** The start: a durable target or none, and no save under way; stale temporary files do not matter. */
  predicate Initial(s: State) {
    s.saves == [] && s.disk.older == [] && (s.disk.target.Some? ==> s.disk.target.value.synced)
  }

  /**
   At every point of every run, whatever failed, was killed or lost power, the target is as it was at the start or
   one complete image, which one of the saves had written and synced.
   */
  lemma NeverPartial(s: State, es: seq<Event>)
    requires Initial(s) && Run(s, es).Some?
    ensures var t := Run(s, es).value; t.disk.target == s.disk.target || IsImage(t.saves, t.disk.target)
  {
    RunKeepsInv(s.disk.target, s, es);
  }

  /** Somebody answers for a temporary file: a save that is past its open and not over, or one that was killed. */
  predicate Answered(s: State, name: Name) {
    exists v <- s.saves :: v.name == name && (v.phase.Dead? || (v.Owns() && !v.phase.Fresh?))
  }

  predicate NoLeftovers(before: set<Name>, s: State) {
    forall name <- s.disk.temps :: name in before || Answered(s, name)
  }

  lemma StillAnswered(s: State, i: nat, phase: Phase, d: Disk, name: Name)
    requires At(s, i) && Answered(s, name)
    requires name != s.saves[i].name || phase.Dead? || s.saves[i].phase.Fresh?
             || phase.Writing? || phase.Synced? || phase.Closed? || phase.Cleaning?
    ensures Answered(State(d, Moved(s, i, phase)), name)
  {
    var v :| v in s.saves && v.name == name && (v.phase.Dead? || (v.Owns() && !v.phase.Fresh?));
    var k :| 0 <= k < |s.saves| && s.saves[k] == v;
    var t := State(d, Moved(s, i, phase));
    if k == i && !phase.Fresh? && !phase.Dead? {
      assert t.saves[k].Owns() || v.phase.Fresh?;
    }
    assert t.saves[k] in t.saves;
  }

  lemma MoveLeavesNothing(before: set<Name>, s: State, i: nat, phase: Phase, d: Disk)
    requires At(s, i) && NoLeftovers(before, s) && (forall n <- d.temps :: n in s.disk.temps || n == s.saves[i].name)
    requires s.saves[i].name !in d.temps || phase.Dead? || s.saves[i].phase.Fresh?
             || phase.Writing? || phase.Synced? || phase.Closed? || phase.Cleaning?
    requires s.saves[i].phase.Fresh? && s.saves[i].name in d.temps && s.saves[i].name !in s.disk.temps
             ==> phase.Writing?
    ensures NoLeftovers(before, State(d, Moved(s, i, phase)))
  {
    var t := State(d, Moved(s, i, phase));
    forall n <- d.temps | n !in before ensures Answered(t, n) {
      if n in s.disk.temps {
        StillAnswered(s, i, phase, d, n);
      } else {
        assert t.saves[i] in t.saves;
      }
    }
  }

  lemma StepLeavesNothing(before: set<Name>, s: State, e: Event)
    requires Enabled(s, e) && NoLeftovers(before, s) && !e.PowerLoss?
    ensures NoLeftovers(before, Step(s, e))
  {
    var t := Step(s, e);
    match e
    case Begin(_, _) =>
      forall n <- t.disk.temps | n !in before ensures Answered(t, n) {
        var v :| v in s.saves && v.name == n && (v.phase.Dead? || (v.Owns() && !v.phase.Fresh?));
        assert v in t.saves;
      }
    case Open(i, _) => MoveLeavesNothing(before, s, i, t.saves[i].phase, t.disk);
    case Write(i, _) => MoveLeavesNothing(before, s, i, t.saves[i].phase, t.disk);
    case Sync(i, _) => MoveLeavesNothing(before, s, i, t.saves[i].phase, t.disk);
    case Close(i, _) => MoveLeavesNothing(before, s, i, t.saves[i].phase, t.disk);
    case Rename(i, _) => MoveLeavesNothing(before, s, i, t.saves[i].phase, t.disk);
    case Unlink(i) => MoveLeavesNothing(before, s, i, t.saves[i].phase, t.disk);
    case SyncDir(i, _) => RenamedLeavesNothing(before, s, i, t.saves[i].phase, t.disk);
    case Kill(i) => MoveLeavesNothing(before, s, i, t.saves[i].phase, t.disk);
  }

  lemma RenamedLeavesNothing(before: set<Name>, s: State, i: nat, phase: Phase, d: Disk)
    requires At(s, i) && NoLeftovers(before, s) && d.temps == s.disk.temps && s.saves[i].phase.Renamed?
    ensures NoLeftovers(before, State(d, Moved(s, i, phase)))
  {
    var t := State(d, Moved(s, i, phase));
    forall n <- d.temps | n !in before ensures Answered(t, n) {
      var v :| v in s.saves && v.name == n && (v.phase.Dead? || (v.Owns() && !v.phase.Fresh?));
      var k :| 0 <= k < |s.saves| && s.saves[k] == v;
      assert t.saves[k] in t.saves;
    }
  }

  /** A save that is over, with or without success, leaves no temporary file behind; only one that is killed does. */
  lemma {:induction false} LeavesNothing(s: State, es: seq<Event>)
    requires Run(s, es).Some? && s.saves == [] && forall e <- es :: !e.PowerLoss?
    ensures NoLeftovers(s.disk.temps.Keys, Run(s, es).value)
  {
    if es != [] {
      var front, e := es[..|es| - 1], es[|es| - 1];
      assert e in es && forall x <- front :: x in es;
      LeavesNothing(s, front);
      StepLeavesNothing(s.disk.temps.Keys, Run(s, front).value, e);
    }
  }

  /** Once a directory sync has succeeded, a power loss does not undo the rename. */
  lemma SyncedSurvives(s: State, es: seq<Event>, i: nat, e: Event)
    requires Initial(s) && Run(s, es).Some? && Enabled(Run(s, es).value, SyncDir(i, true)) && e.PowerLoss?
    requires Enabled(Step(Run(s, es).value, SyncDir(i, true)), e)
    ensures Step(Step(Run(s, es).value, SyncDir(i, true)), e).disk.target == Run(s, es).value.disk.target
  {
    RunKeepsInv(s.disk.target, s, es);
  }

  /** The images of the saves that were begun, in order. */
  function Images(es: seq<Event>): seq<Bytes> {
    if es == [] then [] else
    var before, e := Images(es[..|es| - 1]), es[|es| - 1];
    if e.Begin? then before + [e.image] else before
  }

  /** The image of the last successful rename, or the target at the start. */
  function Winner(first: Option<File>, es: seq<Event>): Option<File> {
    if es == [] then first else
    var e := es[|es| - 1];
    if e.Rename? && e.ok && e.i < |Images(es)| then Some(File(Images(es)[e.i], true)) else Winner(first, es[..|es| - 1])
  }

  lemma {:induction false} SavesAreImages(s: State, es: seq<Event>)
    requires Initial(s) && Run(s, es).Some?
    ensures var saves := Run(s, es).value.saves;
            |saves| == |Images(es)| && forall i :: 0 <= i < |saves| ==> saves[i].image == Images(es)[i]
  {
    if es != [] {
      var before, e := es[..|es| - 1], es[|es| - 1];
      SavesAreImages(s, before);
      SavesPersist(Run(s, before).value, e);
    }
  }

  /**
   Without a power loss the target is exactly the image of the last successful rename; failed saves leave no trace.
   */
  lemma {:induction false} LastRenameWins(s: State, es: seq<Event>)
    requires Initial(s) && Run(s, es).Some? && forall e <- es :: !e.PowerLoss?
    ensures Run(s, es).value.disk.target == Winner(s.disk.target, es)
  {
    if es != [] {
      var before, e := es[..|es| - 1], es[|es| - 1];
      assert e in es && forall x <- before :: x in es;
      LastRenameWins(s, before);
      SavesAreImages(s, es);
      SavesAreImages(s, before);
      RunKeepsInv(s.disk.target, s, before);
      if e.Rename? {
        assert Holds(Run(s, before).value.disk, Run(s, before).value.saves[e.i]);
      }
    }
  }

  // ---------------------------------------------------------------------------
  // Why the names must differ
  // ---------------------------------------------------------------------------

  /** Two saves about to start. */
  function Two(a: Save, b: Save): State { State(Disk(None, [], map[]), [a, b]) }

  predicate Whole(s: State) { s.disk.target == None || IsImage(s.saves, s.disk.target) }

  /** One save has synced and closed its file when the other opens the same name, and then renames it. */
  function Schedule(size: int): seq<Event> {
    [Open(0, true), Write(0, size), Sync(0, true), Close(0, true), Open(1, true), Rename(0, true)]
  }

  lemma RunMore(s: State, es: seq<Event>, e: Event)
    ensures Run(s, es + [e]) == if Run(s, es).Some? && Enabled(Run(s, es).value, e) then Some(Step(Run(s, es).value, e))
           else None
  {
    assert (es + [e])[..|es|] == es;
  }

  /** The two saves in the given phases, their common file, and no target yet. */
  predicate Halfway(o: Option<State>, a: Save, b: Save, p: Phase, q: Phase, f: File) {
    && o.Some? && |o.value.saves| == 2 && o.value.saves[0] == a.(phase := p) && o.value.saves[1] == b.(phase := q)
    && a.name in o.value.disk.temps && o.value.disk.temps[a.name] == f
  }

  lemma SharedNameBreaks(a: Save, b: Save)
    requires a.phase.Fresh? && b.phase.Fresh? && a.image != [] && b.image != [] && a.name == b.name
    ensures Run(Two(a, b), Schedule(|a.image|)).Some? && !Whole(Run(Two(a, b), Schedule(|a.image|)).value)
  {
    var s := Two(a, b);
    var p0: seq<Event> := [];
    var p1 := p0 + [Open(0, true)];
    var p2 := p1 + [Write(0, |a.image|)];
    var p3 := p2 + [Sync(0, true)];
    var p4 := p3 + [Close(0, true)];
    var p5 := p4 + [Open(1, true)];
    RunMore(s, p0, Open(0, true));
    assert Halfway(Run(s, p1), a, b, Writing(0), Fresh, File([], false));
    RunMore(s, p1, Write(0, |a.image|));
    assert [] + a.image[0..0 + |a.image|] == a.image;
    assert Halfway(Run(s, p2), a, b, Writing(|a.image|), Fresh, File(a.image, false));
    RunMore(s, p2, Sync(0, true));
    assert Halfway(Run(s, p3), a, b, Synced, Fresh, File(a.image, true));
    RunMore(s, p3, Close(0, true));
    assert Halfway(Run(s, p4), a, b, Closed, Fresh, File(a.image, true));
    RunMore(s, p4, Open(1, true));
    assert Halfway(Run(s, p5), a, b, Closed, Writing(0), File([], false));
    RunMore(s, p5, Rename(0, true));
    assert p5 + [Rename(0, true)] == Schedule(|a.image|);
  }

  /** Two saves leave a whole file in every run exactly if their temporary names differ. */
  lemma WholeExactly(a: Save, b: Save)
    requires a.phase.Fresh? && b.phase.Fresh? && a.image != [] && b.image != []
    ensures (forall es: seq<Event> :: Run(Two(a, b), es).Some? ==> Whole(Run(Two(a, b), es).value))
       <==> a.name != b.name
  {
    if a.name == b.name {
      SharedNameBreaks(a, b);
    } else {
      assert Inv(None, Two(a, b));
      forall es: seq<Event> | Run(Two(a, b), es).Some? ensures Whole(Run(Two(a, b), es).value) {
        RunKeepsInv(None, Two(a, b), es);
      }
    }
  }
}
