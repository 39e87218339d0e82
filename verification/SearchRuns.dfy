/**
 Attribute search while other threads use the store (src/keystore/object_store.cpp): the snapshot is taken
 under the lock, everything after it interleaves with any run of the store.
 */
module SearchRuns {
  import opened Wrappers
  import opened HandleTable
  import opened ObjectIndex

  /** `later` is what some run of the store makes of `w`. */
  ghost predicate Later(w: World, later: World) {
    exists ops :: DoAll(w, ops) == later
  }

  lemma LaterSelf(w: World)
    ensures Later(w, w)
  {
    assert DoAll(w, []) == w;
  }

  lemma {:induction false} LaterIsSound(w: World, ops: seq<StoreOp>)
    requires Sound(w)
    ensures Sound(DoAll(w, ops))
  {
    if ops != [] {
      LaterIsSound(w, ops[..|ops| - 1]);
      DoKeepsSound(DoAll(w, ops[..|ops| - 1]), ops[|ops| - 1]);
    }
  }

  /** The object is not forgotten, and if the slot still holds it, it is under the same version. */
  predicate SameTenancy(w: World, i: nat, ref: Ref, version: nat) {
    && ref in w.memory && i < |w.table.entries|
    && (w.table.entries[i].ref == Some(ref) ==> w.table.entries[i].version == version)
  }

  lemma DoKeepsTenancy(w: World, op: StoreOp, i: nat, ref: Ref, version: nat)
    requires SameTenancy(w, i, ref, version)
    ensures SameTenancy(Do(w, op), i, ref, version)
  {
  }

  /** Addresses of live objects are not reused, so a slot that holds the object again has held it all the time. */
  lemma {:induction false} TenancyLasts(w: World, ops: seq<StoreOp>, i: nat, ref: Ref)
    requires Sound(w) && Holds(w, i, ref)
    ensures SameTenancy(DoAll(w, ops), i, ref, w.table.entries[i].version)
  {
    if ops != [] {
      TenancyLasts(w, ops[..|ops| - 1], i, ref);
      DoKeepsTenancy(DoAll(w, ops[..|ops| - 1]), ops[|ops| - 1], i, ref, w.table.entries[i].version);
    }
  }

  /** The tables and memories looked at are those of runs that started from `w`. */
  ghost predicate LookedAt(w: World, mems: seq<Memory>, tables: seq<Table>) {
    && |mems| == |tables|
    && (forall k: nat :: k < |mems| ==> exists x :: Later(w, x) && x.memory == mems[k])
    && (forall k: nat :: k < |tables| ==> exists x :: Later(w, x) && x.table == tables[k])
  }

  lemma LaterTable(w: World, x: World, i: nat, ref: Ref, h: Handle)
    requires Sound(w) && Holds(w, i, ref) && Later(w, x)
    requires Lookup(x.table, h) == Some(i) && Resolve(x.table, h) == Some(ref)
    ensures Lookup(w.table, h) == Some(i) && Resolve(w.table, h) == Some(ref)
  {
    var ops :| DoAll(w, ops) == x;
    TenancyLasts(w, ops, i, ref);
  }

  /**
   Whatever other threads do between snapshot and revalidation, a handle that is returned already designated, when the
   snapshot was taken, the object that matched: it is the handle its creator was given, not that of a later tenant.
   */
  lemma FoundWasThere(w: World, t: Template, snap: seq<(nat, Ref)>, mems: seq<Memory>, tables: seq<Table>, h: Handle)
    requires Sound(w) && IsSnapshot(w, t, snap) && LookedAt(w, mems, tables) && |snap| == |mems|
    requires (forall x <- tables :: WordSized(x)) && h in FindAll(t, snap, mems, tables)
    ensures exists k: nat :: k < |snap| && FoundAs(t, snap[k], mems[k], tables[k], h)
              && FoundAs(t, snap[k], mems[k], w.table, h)
  {
    FindSound(t, snap, mems, tables, h);
    var k: nat :| k < |snap| && FoundAs(t, snap[k], mems[k], tables[k], h);
    var x :| Later(w, x) && x.table == tables[k];
    assert multiset(snap)[snap[k]] > 0;
    LaterTable(w, x, snap[k].0, snap[k].1, h);
    assert FoundAs(t, snap[k], mems[k], w.table, h);
  }

  /** One entry after another: the search so far, extended by the next entry. */
  lemma {:induction false} FindSnoc(t: Template, snap: seq<(nat, Ref)>, mems: seq<Memory>, tables: seq<Table>,
                                    p: (nat, Ref), m: Memory, now: Table)
    requires |snap| == |mems| == |tables| && (forall x <- tables :: WordSized(x)) && WordSized(now)
    ensures FindAll(t, snap + [p], mems + [m], tables + [now])
         == FindAll(t, snap, mems, tables) + if Accepts(t, p, m, now) then [SlotHandle(now, p.0)] else []
  {
    if snap != [] {
      FindSnoc(t, snap[1..], mems[1..], tables[1..], p, m, now);
      assert (snap + [p])[1..] == snap[1..] + [p];
      assert (mems + [m])[1..] == mems[1..] + [m];
      assert (tables + [now])[1..] == tables[1..] + [now];
    }
  }

  lemma FindNext(t: Template, snap: seq<(nat, Ref)>, mems: seq<Memory>, tables: seq<Table>, k: nat, m: Memory,
                 now: Table)
    requires k < |snap| && |mems| == |tables| == k && (forall x <- tables :: WordSized(x)) && WordSized(now)
    ensures forall x <- tables + [now] :: WordSized(x)
    ensures FindAll(t, snap[..k + 1], mems + [m], tables + [now])
         == FindAll(t, snap[..k], mems, tables)
            + if Accepts(t, snap[k], m, now) then [SlotHandle(now, snap[k].0)] else []
  {
    assert snap[..k + 1] == snap[..k] + [snap[k]];
    FindSnoc(t, snap[..k], mems, tables, snap[k], m, now);
  }

  /** Nothing changed between snapshot and revalidation. */
  ghost predicate Undisturbed(w: World, mems: seq<Memory>, tables: seq<Table>) {
    (forall m <- mems :: m == w.memory) && forall x <- tables :: x == w.table
  }

  lemma UndisturbedIsQuiet(w: World, t: Template, snap: seq<(nat, Ref)>, mems: seq<Memory>, tables: seq<Table>)
    requires WordSized(w.table) && |snap| == |mems| == |tables| && Undisturbed(w, mems, tables)
    ensures FindAll(t, snap, mems, tables) == FindQuietly(w, t, snap)
  {
    AllSame(mems, w.memory);
    AllSame(tables, w.table);
  }

  lemma AllSame<T>(s: seq<T>, x: T)
    requires forall y <- s :: y == x
    ensures s == Repeat(x, |s|)
  {
    forall k | 0 <= k < |s| ensures s[k] == x {
      assert s[k] in s;
    }
  }

  lemma LookedAtMore(w: World, mems: seq<Memory>, tables: seq<Table>, x: World, y: World)
    requires LookedAt(w, mems, tables) && Later(w, x) && Later(w, y)
    ensures LookedAt(w, mems + [x.memory], tables + [y.table])
  {
  }

  // ---------------------------------------------------------------------------
  // What is certain to be found
  // ---------------------------------------------------------------------------

  /** The two handles have the same slot number and version. */
  predicate SameHalves(h: Handle, k: Handle) {
    ExtractIndex(h) == ExtractIndex(k) && ExtractVersion(h) == ExtractVersion(k)
  }

  /** The step neither destroys the object nor writes to it. */
  predicate LeavesAlone(op: StoreOp, h: Handle, ref: Ref) {
    !(op.Drop? && SameHalves(op.handle, h)) && !(op.Scribble? && op.ref == ref)
  }

  predicate Intact(w: World, i: nat, e: Entry, ref: Ref, o: HsmObject) {
    IsLive(w.table, i) && w.table.entries[i] == e && e.ref == Some(ref) && ref in w.memory && w.memory[ref] == o
  }

  lemma DoLeavesAlone(w: World, op: StoreOp, h: Handle, i: nat, e: Entry, ref: Ref, o: HsmObject)
    requires Sound(w) && Intact(w, i, e, ref, o) && LeavesAlone(op, h, ref)
    requires ExtractIndex(h) == i && ExtractVersion(h) == e.version
    ensures Intact(Do(w, op), i, e, ref, o)
  {
    match op
    case Make(r, p) => if CanAllocate(w.table) && r !in w.memory { MakeLeavesAlone(w, r, p, i, e, ref, o); }
    case Drop(k) =>
    case Refresh(k) =>
    case Scribble(r, p) =>
  }

  lemma MakeLeavesAlone(w: World, r: Ref, p: HsmObject, i: nat, e: Entry, ref: Ref, o: HsmObject)
    requires Sound(w) && Intact(w, i, e, ref, o) && CanAllocate(w.table) && r !in w.memory
    ensures Intact(CreateObject(w, r, p), i, e, ref, o)
  {
    assert NextSlot(w.table) != i by {
      var free :| IsFreeList(w.table, free);
      HeadIsFree(w.table, free);
    }
  }

  lemma {:induction false} StaysIntact(w: World, ops: seq<StoreOp>, h: Handle, i: nat, e: Entry, ref: Ref, o: HsmObject)
    requires Sound(w) && Intact(w, i, e, ref, o) && forall op <- ops :: LeavesAlone(op, h, ref)
    requires ExtractIndex(h) == i && ExtractVersion(h) == e.version
    ensures Intact(DoAll(w, ops), i, e, ref, o)
  {
    if ops != [] {
      var front := ops[..|ops| - 1];
      assert ops[|ops| - 1] in ops && forall op <- front :: op in ops;
      StaysIntact(w, front, h, i, e, ref, o);
      LaterIsSound(w, front);
      DoLeavesAlone(DoAll(w, front), ops[|ops| - 1], h, i, e, ref, o);
    }
  }

  /** `later` is reached from `w` without destroying the object or writing to it. */
  ghost predicate LaterWith(w: World, later: World, h: Handle, ref: Ref) {
    exists ops :: DoAll(w, ops) == later && forall op <- ops :: LeavesAlone(op, h, ref)
  }

  ghost predicate LookedAtWith(w: World, mems: seq<Memory>, tables: seq<Table>, h: Handle, ref: Ref) {
    && |mems| == |tables|
    && (forall k: nat :: k < |mems| ==> exists x :: LaterWith(w, x, h, ref) && x.memory == mems[k])
    && (forall k: nat :: k < |tables| ==> exists x :: LaterWith(w, x, h, ref) && x.table == tables[k])
  }

  lemma StillAccepted(w: World, t: Template, i: nat, h: Handle, ref: Ref, x: World, y: World)
    requires Sound(w) && Holds(w, i, ref) && ScanHit(w, t, i) && Lookup(w.table, h) == Some(i)
    requires LaterWith(w, x, h, ref) && LaterWith(w, y, h, ref)
    ensures Accepts(t, (i, ref), x.memory, y.table) && y.table.entries[i] == w.table.entries[i]
  {
    var xs :| DoAll(w, xs) == x && forall op <- xs :: LeavesAlone(op, h, ref);
    var ys :| DoAll(w, ys) == y && forall op <- ys :: LeavesAlone(op, h, ref);
    StaysIntact(w, xs, h, i, w.table.entries[i], ref, w.memory[ref]);
    StaysIntact(w, ys, h, i, w.table.entries[i], ref, w.memory[ref]);
  }

  lemma {:induction false} AcceptedIsFound(t: Template, snap: seq<(nat, Ref)>, mems: seq<Memory>, tables: seq<Table>,
                                           k: nat)
    requires |snap| == |mems| == |tables| && (forall x <- tables :: WordSized(x)) && k < |snap|
    requires Accepts(t, snap[k], mems[k], tables[k])
    ensures SlotHandle(tables[k], snap[k].0) in FindAll(t, snap, mems, tables)
  {
    if k > 0 {
      AcceptedIsFound(t, snap[1..], mems[1..], tables[1..], k - 1);
    }
  }

  lemma Occurs<T>(s: seq<T>, x: T) returns (k: nat)
    requires multiset(s)[x] > 0
    ensures k < |s| && s[k] == x
  {
    assert x in multiset(s) && x in s;
    k :| k < |s| && s[k] == x;
  }

  /**
   Whatever else other threads do, an object whose entries are right and which matches and is findable when the snapshot
   is taken is found, unless it is itself destroyed or written to before the search gets to it.
   */
  lemma IntactIsFound(w: World, t: Template, snap: seq<(nat, Ref)>, mems: seq<Memory>, tables: seq<Table>, i: nat,
                      ref: Ref)
    requires Sound(w) && Holds(w, i, ref) && SlotSynced(w, i)
    requires ScanHit(w, t, i) && Findable(t, ObjectAt(w, i).value) && IsSnapshot(w, t, snap) && |snap| == |mems|
    requires LookedAtWith(w, mems, tables, SlotHandle(w.table, i), ref) && forall x <- tables :: WordSized(x)
    ensures SlotHandle(w.table, i) in FindAll(t, snap, mems, tables)
  {
    CandidateExactly(w, t, i);
    assert multiset(snap)[(i, ref)] == 1;
    var k := Occurs(snap, (i, ref));
    var h := SlotHandle(w.table, i);
    ComposeExtract(i, w.table.entries[i].version);
    var x :| LaterWith(w, x, h, ref) && x.memory == mems[k];
    var y :| LaterWith(w, y, h, ref) && y.table == tables[k];
    StillAccepted(w, t, i, h, ref, x, y);
    AcceptedIsFound(t, snap, mems, tables, k);
  }
}
