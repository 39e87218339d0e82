/**
 Runs of the object store in which attribute writes and `v_reindex` are separate steps, as they are in
 src/pkcs11/p11_object.cpp: which slots the indices are right about, what a write, a destroy and a
 reindex in the wrong order leave behind, and what `C_SetAttributeValue` does to the indices.
 */
module IndexRuns {
  import opened Wrappers
  import opened Bytes
  import opened HandleTable
  import opened ObjectIndex

  // ---------------------------------------------------------------------------
  // Writes and reindexing as separate steps
  // ---------------------------------------------------------------------------

  /** The slots with a key changed since they were last reindexed; destroying the object does not take a slot out. */
  ghost function Stale(ops: seq<StoreOp>): set<nat> {
    if ops == [] then {} else
    var before, op := Stale(ops[..|ops| - 1]), ops[|ops| - 1];
    StaleAfter(DoAll(EMPTY, ops[..|ops| - 1]), before, op)
  }

  ghost function StaleAfter(w: World, before: set<nat>, op: StoreOp): set<nat> {
    match op
    case Scribble(_, _) => before + set i | 0 <= i < |w.table.entries| && Disturbs(w, op, i)
    case Refresh(h) => if Lookup(w.table, h).Some? then before - {Lookup(w.table, h).value} else before
    case _ => before
  }

  /**
   After every run, a slot whose keys were not changed since its last `v_reindex` has exactly its object's entries.
   */
  lemma {:induction false} UnchangedSlotsAreSynced(ops: seq<StoreOp>, i: nat)
    requires i !in Stale(ops)
    ensures SlotSynced(DoAll(EMPTY, ops), i)
  {
    if ops != [] {
      var before, op := ops[..|ops| - 1], ops[|ops| - 1];
      var w := DoAll(EMPTY, before);
      RunsAreSound(before);
      if op.Refresh? && Lookup(w.table, op.handle) == Some(i) {
        ReindexSyncs(w, op.handle, i);
      } else {
        UnchangedSlotsAreSynced(before, i);
        DoKeepsSync(w, op, i);
      }
    }
  }

  /** No object is destroyed between a change of its keys and the `v_reindex` that follows. */
  ghost predicate Disciplined(ops: seq<StoreOp>) {
    forall k: nat :: k < |ops| && ops[k].Drop? ==> DropsFresh(ops[..k], ops[k].handle)
  }

  ghost predicate DropsFresh(before: seq<StoreOp>, h: Handle) {
    var slot := Lookup(DoAll(EMPTY, before).table, h);
    slot.Some? ==> slot.value !in Stale(before)
  }

  lemma DisciplinedFront(ops: seq<StoreOp>)
    requires Disciplined(ops) && ops != []
    ensures Disciplined(ops[..|ops| - 1])
    ensures ops[|ops| - 1].Drop? ==> DropsFresh(ops[..|ops| - 1], ops[|ops| - 1].handle)
  {
    var front := ops[..|ops| - 1];
    assert forall k: nat :: k < |front| ==> front[..k] == ops[..k];
  }

  lemma StaleStaysLive(w: World, before: set<nat>, op: StoreOp, i: nat)
    requires Sound(w) && i in StaleAfter(w, before, op) && (i in before ==> IsLive(w.table, i))
    requires op.Drop? ==> Lookup(w.table, op.handle) != Some(i)
    ensures IsLive(Do(w, op).table, i)
  {
    match op
    case Make(ref, o) =>
      if CanAllocate(w.table) && ref !in w.memory { MakeKeeps(w, ref, o); }
    case Drop(h) =>
    case Refresh(h) =>
    case Scribble(ref, o) =>
  }

  /**
   With that discipline the slots with wrong entries are, at every moment, among the live ones that wait for
   their `v_reindex`; free slots have none, and once nothing waits all three indices are exact.
   */
  lemma DisciplinedRunsAreSynced(ops: seq<StoreOp>)
    requires Disciplined(ops)
    ensures forall i: nat :: !SlotSynced(DoAll(EMPTY, ops), i) ==> i in Stale(ops) && IsLive(DoAll(EMPTY, ops).table, i)
    ensures Stale(ops) == {} ==> Synced(DoAll(EMPTY, ops))
  {
    forall i: nat ensures i !in Stale(ops) ==> SlotSynced(DoAll(EMPTY, ops), i) {
      if i !in Stale(ops) { UnchangedSlotsAreSynced(ops, i); }
    }
    StaleSlotsAreLive(ops);
  }

  lemma {:induction false} StaleSlotsAreLive(ops: seq<StoreOp>)
    requires Disciplined(ops)
    ensures forall i <- Stale(ops) :: IsLive(DoAll(EMPTY, ops).table, i)
  {
    if ops != [] {
      var before, op := ops[..|ops| - 1], ops[|ops| - 1];
      DisciplinedFront(ops);
      StaleSlotsAreLive(before);
      RunsAreSound(before);
      forall i | i in Stale(ops) ensures IsLive(DoAll(EMPTY, ops).table, i) {
        StaleStaysLive(DoAll(EMPTY, before), Stale(before), op, i);
      }
    }
  }

  // ---------------------------------------------------------------------------
  // Without the discipline
  // ---------------------------------------------------------------------------

  /** Slot `i` is filed at most once, and under no key but `key`. */
  ghost predicate AtMost<K(!new)>(m: multiset<(K, nat)>, i: nat, key: Option<K>) {
    forall k: K :: m[(k, i)] <= if key == Some(k) then 1 else 0
  }

  /** No entry of slot `i` is left over from former keys. */
  ghost predicate NoLeftovers(ix: Index, i: nat, o: HsmObject) {
    && AtMost(ix.labels, i, NonEmpty(LabelKey(o)))
    && AtMost(ix.ids, i, NonEmpty(IdKey(o)))
    && AtMost(ix.classes, i, Some(o.kind))
  }

  lemma ErasedExactly<K(!new)>(m: multiset<(K, nat)>, i: nat, key: K)
    ensures Only(m - multiset{(key, i)}, i, None) <==> AtMost(m, i, Some(key))
  {
    var r := m - multiset{(key, i)};
    assert forall k: K :: r[(k, i)] == if k != key then m[(k, i)] else if m[(k, i)] > 0 then m[(k, i)] - 1 else 0;
  }

  lemma ErasedKeyExactly(m: multiset<(Bytes, nat)>, i: nat, key: Bytes)
    ensures Only(if key != [] then m - multiset{(key, i)} else m, i, None) <==> AtMost(m, i, NonEmpty(key))
  {
    if key != [] { ErasedExactly(m, i, key); }
  }

  /** `v_destroy_object` erases under the present keys: the free slot is clean exactly if no entry was left over. */
  lemma DropExactly(w: World, h: Handle, i: nat)
    requires Sound(w) && Lookup(w.table, h) == Some(i)
    ensures SlotSynced(DestroyObject(w, h), i) <==> NoLeftovers(w.index, i, ObjectAt(w, i).value)
  {
    DropKeeps(w, h);
    var o := ObjectAt(w, i).value;
    ErasedKeyExactly(w.index.labels, i, LabelKey(o));
    ErasedKeyExactly(w.index.ids, i, IdKey(o));
    ErasedExactly(w.index.classes, i, o.kind);
  }

  lemma LeftoverExactly(m: multiset<(Bytes, nat)>, i: nat, was: Bytes, now: Bytes)
    requires Only(m, i, NonEmpty(was))
    ensures AtMost(m, i, NonEmpty(now)) <==> was == [] || was == now
  {
    if was != [] && was != now { assert m[(was, i)] == 1; }
  }

  /** What a write through a pointer does to the object in the slot. */
  lemma Written(w: World, i: nat, ref: Ref, o: HsmObject)
    requires Sound(w) && Holds(w, i, ref)
    ensures ref in w.memory && ObjectAt(w, i) == Some(w.memory[ref])
    ensures var w' := WriteObject(w, ref, o);
            && Sound(w') && w'.index == w.index && w'.table == w.table
            && ObjectAt(w', i) == Some(o.(kind := w.memory[ref].kind))
  {
    WriteKeeps(w, ref, o, i);
  }

  /** A destroyed handle no longer designates a slot, so `v_reindex` returns at once. */
  lemma ReindexAfterDrop(w: World, h: Handle)
    ensures Reindex(DestroyObject(w, h), h) == DestroyObject(w, h)
  {
  }

  lemma LeftoversOfWrite(ix: Index, i: nat, was: HsmObject, now: HsmObject)
    requires EntriesFor(ix, i, Some(was)) && was.kind == now.kind
    ensures NoLeftovers(ix, i, now) <==> LabelKey(was) in {[], LabelKey(now)} && IdKey(was) in {[], IdKey(now)}
  {
    LeftoverExactly(ix.labels, i, LabelKey(was), LabelKey(now));
    LeftoverExactly(ix.ids, i, IdKey(was), IdKey(now));
  }

  /**
   One thread changes an object's attributes, another destroys the object, and the first calls `v_reindex`:
   the slot is clean exactly if no key that was indexed was changed.
   */
  lemma WriteDestroyReindex(w: World, h: Handle, i: nat, ref: Ref, o: HsmObject)
    requires Sound(w) && SlotSynced(w, i) && Lookup(w.table, h) == Some(i) && Holds(w, i, ref)
    ensures var was := ObjectAt(w, i).value;
            SlotSynced(Reindex(DestroyObject(WriteObject(w, ref, o), h), h), i)
            <==> LabelKey(was) in {[], LabelKey(o)} && IdKey(was) in {[], IdKey(o)}
  {
    var written := WriteObject(w, ref, o);
    Written(w, i, ref, o);
    DropExactly(written, h, i);
    ReindexAfterDrop(written, h);
    LeftoversOfWrite(w.index, i, w.memory[ref], o.(kind := w.memory[ref].kind));
  }

  lemma DoSnoc(w: World, ops: seq<StoreOp>, op: StoreOp)
    ensures DoAll(w, ops + [op]) == Do(DoAll(w, ops), op)
  {
    assert (ops + [op])[..|ops|] == ops;
  }

  lemma DoOne(w: World, a: StoreOp)
    ensures DoAll(w, [a]) == Do(w, a)
  {
    assert [a] == [] + [a] && DoAll(w, []) == w;
    DoSnoc(w, [], a);
  }

  lemma ThreeSteps(w: World, a: StoreOp, b: StoreOp, c: StoreOp)
    ensures DoAll(w, [a, b, c]) == Do(Do(Do(w, a), b), c)
  {
    assert [a, b, c] == [a, b] + [c] && [a, b] == [a] + [b];
    DoOne(w, a);
    DoSnoc(w, [a], b);
    DoSnoc(w, [a, b], c);
  }

  lemma {:induction false} DoConcat(w: World, xs: seq<StoreOp>, ys: seq<StoreOp>)
    ensures DoAll(w, xs + ys) == DoAll(DoAll(w, xs), ys)
    decreases |ys|
  {
    if ys == [] {
      assert xs + ys == xs;
    } else {
      var front, last := ys[..|ys| - 1], ys[|ys| - 1];
      calc {
        DoAll(w, xs + ys);
        { assert xs + ys == (xs + front) + [last]; DoSnoc(w, xs + front, last); }
        Do(DoAll(w, xs + front), last);
        { DoConcat(w, xs, front); }
        Do(DoAll(DoAll(w, xs), front), last);
        { assert ys == front + [last]; DoSnoc(DoAll(w, xs), front, last); }
        DoAll(DoAll(w, xs), ys);
      }
    }
  }

  /** The entry that the write, the destroy and the reindex leave behind. */
  lemma LeftEntry(w: World, h: Handle, i: nat, ref: Ref, o: HsmObject)
    requires Sound(w) && SlotSynced(w, i) && Lookup(w.table, h) == Some(i) && Holds(w, i, ref)
    requires LabelKey(ObjectAt(w, i).value) !in {[], LabelKey(o)}
    ensures var w' := Reindex(DestroyObject(WriteObject(w, ref, o), h), h);
            !IsLive(w'.table, i) && w'.index.labels[(LabelKey(ObjectAt(w, i).value), i)] == 1
  {
    var written := WriteObject(w, ref, o);
    Written(w, i, ref, o);
    ReindexAfterDrop(written, h);
    assert w.index.labels[(LabelKey(w.memory[ref]), i)] == 1;
  }

  lemma RaceRun(w: World, h: Handle, i: nat, ref: Ref, o: HsmObject, name: Bytes)
    requires Sound(w) && SlotSynced(w, i) && Lookup(w.table, h) == Some(i) && Holds(w, i, ref)
    requires LabelKey(ObjectAt(w, i).value) == name && name !in {[], LabelKey(o)}
    ensures var w' := DoAll(w, [Scribble(ref, o), Drop(h), Refresh(h)]);
            w'.index.labels[(name, i)] == 1 && !IsLive(w'.table, i) && !Synced(w')
  {
    ThreeSteps(w, Scribble(ref, o), Drop(h), Refresh(h));
    LeftEntry(w, h, i, ref, o);
    var end := Reindex(DestroyObject(WriteObject(w, ref, o), h), h);
    assert !SlotSynced(end, i);
  }

  const FIRST: Handle := Compose(0, 1)

  function Labelled(kind: nat, name: Bytes): HsmObject { HsmObject(kind, map[CKA_LABEL := name], []) }

  /** A first object is created, gets its attributes, and is reindexed. */
  function Creation(kind: nat, p: HsmObject): seq<StoreOp> {
    [Make(0, HsmObject(kind, map[], [])), Scribble(0, p), Refresh(FIRST)]
  }

  lemma CreatedWorld(kind: nat, p: HsmObject) returns (w: World)
    ensures w == DoAll(EMPTY, Creation(kind, p))
    ensures Sound(w) && Synced(w) && Lookup(w.table, FIRST) == Some(0) && Holds(w, 0, 0)
    ensures ObjectAt(w, 0) == Some(p.(kind := kind))
  {
    var o := HsmObject(kind, map[], []);
    w := DoAll(EMPTY, Creation(kind, p));
    RunsAreSound(Creation(kind, p));
    assert w == Reindex(WriteObject(CreateObject(EMPTY, 0, o), 0, p), FIRST) by {
      ThreeSteps(EMPTY, Make(0, o), Scribble(0, p), Refresh(FIRST));
      MadeFirst(o);
    }
    MadeFirst(o);
    forall j: nat ensures SlotSynced(w, j) {
      FirstReindexed(CreateObject(EMPTY, 0, o), p, j);
    }
    FirstReindexed(CreateObject(EMPTY, 0, o), p, 0);
  }

  lemma MadeFirst(o: HsmObject)
    ensures var w := Do(EMPTY, Make(0, o));
            && w == CreateObject(EMPTY, 0, o) && w.table == Table([Entry(Some(0), 1, false, END)], END)
            && w.memory == map[0 := o] && forall j: nat :: j != 0 ==> SlotSynced(w, j)
  {
  }

  lemma FirstReindexed(w: World, p: HsmObject, j: nat)
    requires w.table == Table([Entry(Some(0), 1, false, END)], END) && 0 in w.memory && (j == 0 || SlotSynced(w, j))
    ensures var w' := Reindex(WriteObject(w, 0, p), FIRST);
            && SlotSynced(w', j) && Lookup(w'.table, FIRST) == Some(0) && Holds(w', 0, 0)
            && ObjectAt(w', 0) == Some(p.(kind := w.memory[0].kind))
  {
    ComposeExtract(0, 1);
    if j != 0 {
      WriteKeepsSync(w, 0, p, j);
    }
    ReindexSyncs(WriteObject(w, 0, p), FIRST, j);
  }

  /**
   Every write is followed by its `v_reindex`, and still the indices stay wrong: the object is destroyed between the
   second write and its reindex, and the entry under the first label remains, for a slot that is free.
   */
  lemma DestroyBetweenLeavesEntry(kind: nat, x: Bytes, y: Bytes, ops: seq<StoreOp>, more: seq<StoreOp>)
    requires x != [] && x != y
    requires ops == Creation(kind, Labelled(kind, x))
    requires more == [Scribble(0, Labelled(kind, y)), Drop(FIRST), Refresh(FIRST)]
    ensures var w := DoAll(EMPTY, ops + more);
            w.index.labels[(x, 0)] == 1 && !IsLive(w.table, 0) && !Synced(w)
  {
    var w := CreatedWorld(kind, Labelled(kind, x));
    assert SlotSynced(w, 0);
    DoConcat(EMPTY, ops, more);
    RaceRun(w, FIRST, 0, 0, Labelled(kind, y), x);
  }

  // Exact indices, and a match that the search does not find

  lemma MissedMatch(kind: nat, p: HsmObject, t: Template, w: World, snap: seq<(nat, Ref)>)
    requires Matches(p.(kind := kind), t) && !Findable(t, p.(kind := kind))
    requires w == DoAll(EMPTY, Creation(kind, p)) && Sound(w) && IsSnapshot(w, t, snap)
    ensures Synced(w) && ScanHit(w, t, 0) && FIRST !in FindQuietly(w, t, snap)
  {
    var v := CreatedWorld(kind, p);
    assert SlotSynced(w, 0);
    FindReports(w, t, snap, 0);
    LookedUp(w.table, FIRST, 0);
  }

  lemma LookedUp(t: Table, h: Handle, i: nat)
    requires WordSized(t) && Lookup(t, h) == Some(i) && h < WORD * WORD
    ensures h == SlotHandle(t, i)
  {
  }

  const HW_FEATURE: Bytes := [5, 0, 0, 0, 0, 0, 0, 0]

  /**
   `C_CreateObject` gives every class outside 0 to 4 the type 7 and stores CKA_CLASS as given: also after a reindexing a
   search for the stored class does not find the object.
   */
  lemma OtherClassIsMissed(p: HsmObject, t: Template, w: World, snap: seq<(nat, Ref)>)
    requires t == map[CKA_CLASS := HW_FEATURE] && p == HsmObject(7, t, [])
    requires w == DoAll(EMPTY, Creation(7, p)) && Sound(w) && IsSnapshot(w, t, snap)
    ensures Synced(w) && ScanHit(w, t, 0) && FIRST !in FindQuietly(w, t, snap)
  {
    MissedMatch(7, p, t, w, snap);
  }

  /** An object with an empty label matches a template with an empty label and is not found. */
  lemma EmptyLabelIsMissed(kind: nat, p: HsmObject, t: Template, w: World, snap: seq<(nat, Ref)>)
    requires t == map[CKA_LABEL := []] && p == HsmObject(kind, t, [])
    requires w == DoAll(EMPTY, Creation(kind, p)) && Sound(w) && IsSnapshot(w, t, snap)
    ensures Synced(w) && ScanHit(w, t, 0) && FIRST !in FindQuietly(w, t, snap)
  {
    MissedMatch(kind, p, t, w, snap);
  }

  // ---------------------------------------------------------------------------
  // C_SetAttributeValue
  // ---------------------------------------------------------------------------

  const CKA_TOKEN: nat := 1
  const CKA_PRIVATE: nat := 2
  const CKA_SENSITIVE: nat := 0x103
  const CKA_EXTRACTABLE: nat := 0x162

  /**
   One entry of the caller's template: no value for a null pointer with a length; `flagFits` says whether a change of a
   protection flag is allowed, which depends on flags that no search looks at.
   */
  datatype Change = Change(attr: nat, value: Option<Bytes>, flagFits: bool)

  /** `v_set_attribute`: `None` if the change is refused. CKA_ID goes to the object's own id, not to its attributes. */
  function SetAttribute(o: HsmObject, c: Change): Option<HsmObject> {
    if c.attr in {CKA_CLASS, CKA_TOKEN, CKA_PRIVATE} || c.value.None? then None
    else if c.attr in {CKA_SENSITIVE, CKA_EXTRACTABLE} then (if c.flagFits then Some(o) else None)
    else if c.attr == CKA_ID then Some(o.(id := c.value.value))
    else Some(o.(attrs := o.attrs[c.attr := c.value.value]))
  }

  predicate Fits(c: Change) { SetAttribute(HsmObject(0, map[], []), c).Some? }

  predicate AllFit(cs: seq<Change>) { forall c <- cs :: Fits(c) }

  /** The object after the whole template: refused changes are skipped, the others are made. */
  function Changed(o: HsmObject, cs: seq<Change>): HsmObject {
    if cs == [] then o else
    var before := Changed(o, cs[..|cs| - 1]);
    match SetAttribute(before, cs[|cs| - 1])
    case Some(after) => after
    case None => before
  }

  /**
   A change is refused if it has no value, if it is of CKA_CLASS, CKA_TOKEN or CKA_PRIVATE, or of CKA_SENSITIVE or
   CKA_EXTRACTABLE against the rules.
   */
  lemma FitsExactly(o: HsmObject, c: Change)
    ensures SetAttribute(o, c).Some? <==> Fits(c)
    ensures Fits(c) <==> c.value.Some? && c.attr !in {0, 1, 2} && (c.attr in {0x103, 0x162} ==> c.flagFits)
  {
  }

  /** No accepted change of the attribute from position `k` on. */
  predicate NoMore(cs: seq<Change>, k: nat, a: nat) {
    forall j :: k <= j < |cs| && cs[j].attr == a ==> !Fits(cs[j])
  }

  /** Attributes without an accepted change keep their value, and so does the id; the flags are not stored. */
  lemma {:induction false} KeepsUnchanged(o: HsmObject, cs: seq<Change>, a: nat)
    ensures NoMore(cs, 0, a) || a in {0x102, 0x103, 0x162} ==>
              && (a in Changed(o, cs).attrs <==> a in o.attrs)
              && (a in o.attrs ==> Changed(o, cs).attrs[a] == o.attrs[a])
    ensures NoMore(cs, 0, 0x102) ==> Changed(o, cs).id == o.id
    ensures Changed(o, cs).kind == o.kind
  {
    if cs != [] {
      var front, c := cs[..|cs| - 1], cs[|cs| - 1];
      KeepsUnchanged(o, front, a);
      FitsExactly(Changed(o, front), c);
    }
  }

  /** The last accepted change of an attribute decides its value; for CKA_ID (0x102) that is the object's own id. */
  lemma {:induction false} LastChangeWins(o: HsmObject, cs: seq<Change>, k: nat, a: nat)
    requires k < |cs| && cs[k].attr == a && Fits(cs[k]) && NoMore(cs, k + 1, a) && a !in {0x103, 0x162}
    ensures a != 0x102 ==> a in Changed(o, cs).attrs && Changed(o, cs).attrs[a] == cs[k].value.value
    ensures a == 0x102 ==> Changed(o, cs).id == cs[k].value.value
    decreases |cs|
  {
    var front, c := cs[..|cs| - 1], cs[|cs| - 1];
    FitsExactly(Changed(o, front), c);
    if k < |cs| - 1 {
      LastChangeWins(o, front, k, a);
    }
  }

  /** `C_SetAttributeValue`, undisturbed: `v_reindex` is called only if no change was refused. */
  ghost function SetAttributes(w: World, h: Handle, cs: seq<Change>): World {
    match Resolve(w.table, h)
    case Some(ref) =>
      if ref !in w.memory then w else
      var written := WriteObject(w, ref, Changed(w.memory[ref], cs));
      if AllFit(cs) then Reindex(written, h) else written
    case None => w
  }

  lemma {:induction false} ChangedKind(o: HsmObject, cs: seq<Change>)
    ensures Changed(o, cs).kind == o.kind
  {
    if cs != [] { ChangedKind(o, cs[..|cs| - 1]); }
  }

  /** One more entry of the template: what it does to the object, and to the answer. */
  lemma OneMoreChange(o: HsmObject, cs: seq<Change>, k: nat)
    requires k < |cs|
    ensures var before := Changed(o, cs[..k]);
            Changed(o, cs[..k + 1]) == if Fits(cs[k]) then SetAttribute(before, cs[k]).value else before
    ensures SetAttribute(Changed(o, cs[..k]), cs[k]).Some? <==> Fits(cs[k])
    ensures AllFit(cs[..k + 1]) <==> AllFit(cs[..k]) && Fits(cs[k])
    ensures Changed(o, cs[..k]).kind == Changed(o, cs[..k + 1]).kind == o.kind
  {
    assert cs[..k + 1] == cs[..k] + [cs[k]] && cs[..k + 1][..k] == cs[..k];
    assert forall c :: c in cs[..k + 1] <==> c in cs[..k] || c == cs[k];
    FitsExactly(Changed(o, cs[..k]), cs[k]);
    ChangedKind(o, cs[..k]);
    ChangedKind(o, cs[..k + 1]);
  }

  lemma UnsyncedByWrite(ix: Index, i: nat, was: HsmObject, now: HsmObject)
    requires EntriesFor(ix, i, Some(was)) && was.kind == now.kind
    ensures EntriesFor(ix, i, Some(now)) <==> SameKeys(was, now)
  {
    OnlyOneKey(ix.labels, i, LabelKey(was), LabelKey(now));
    OnlyOneKey(ix.ids, i, IdKey(was), IdKey(now));
  }

  lemma OnlyOneKey(m: multiset<(Bytes, nat)>, i: nat, was: Bytes, now: Bytes)
    requires Only(m, i, NonEmpty(was))
    ensures Only(m, i, NonEmpty(now)) <==> was == now
  {
    if was != now {
      assert m[(was, i)] == 1 || m[(now, i)] == 0;
    }
  }

  /**
   The indices are right after the call exactly if no change was refused or the others left both keys as they were.
   */
  lemma SetAttributesExactly(w: World, h: Handle, i: nat, cs: seq<Change>)
    requires Sound(w) && SlotSynced(w, i) && Lookup(w.table, h) == Some(i)
    ensures var was := ObjectAt(w, i).value;
            SlotSynced(SetAttributes(w, h, cs), i) <==> AllFit(cs) || SameKeys(was, Changed(was, cs))
  {
    var ref := w.table.entries[i].ref.value;
    var was := w.memory[ref];
    ChangedKind(was, cs);
    Written(w, i, ref, Changed(was, cs));
    UnsyncedByWrite(w.index, i, was, Changed(was, cs));
    var written := WriteObject(w, ref, Changed(was, cs));
    assert ObjectAt(written, i) == Some(Changed(was, cs));
    if AllFit(cs) {
      ReindexSyncs(written, h, i);
    }
  }

  lemma LastLabel(w: World, h: Handle, i: nat, cs: seq<Change>, k: nat, y: Bytes, w': World)
    requires Sound(w) && Lookup(w.table, h) == Some(i) && AllFit(cs) && w' == SetAttributes(w, h, cs)
    requires k < |cs| && cs[k].attr == 3 && cs[k].value == Some(y) && NoMore(cs, k + 1, 3)
    ensures Sound(w') && SlotSynced(w', i) && ObjectAt(w', i).Some? && w'.table == w.table
    ensures 3 in ObjectAt(w', i).value.attrs && ObjectAt(w', i).value.attrs[3] == y
  {
    var ref := w.table.entries[i].ref.value;
    var o := Changed(w.memory[ref], cs);
    assert cs[k] in cs;
    LastChangeWins(w.memory[ref], cs, k, 3);
    Written(w, i, ref, o);
    ReindexSyncs(WriteObject(w, ref, o), h, i);
    DoKeepsSound(WriteObject(w, ref, o), Refresh(h));
  }

  /** If nothing was refused, the object is found by the label (attribute 3) it was given last. */
  lemma RelabelledIsFound(w: World, h: Handle, i: nat, cs: seq<Change>, k: nat, y: Bytes, w': World,
                          snap: seq<(nat, Ref)>)
    requires Sound(w) && Lookup(w.table, h) == Some(i) && AllFit(cs) && w' == SetAttributes(w, h, cs)
    requires k < |cs| && cs[k].attr == 3 && cs[k].value == Some(y) && NoMore(cs, k + 1, 3) && y != []
    requires IsSnapshot(w', map[3 := y], snap)
    ensures multiset(FindQuietly(w', map[3 := y], snap))[SlotHandle(w.table, i)] == 1
  {
    LastLabel(w, h, i, cs, k, y, w');
    FindReports(w', map[3 := y], snap, i);
  }

  /** A new label is written, an entry for CKA_CLASS is refused, and the old label stays in the index. */
  lemma RefusedEntryLeavesStale(kind: nat, x: Bytes, y: Bytes, w: World, cs: seq<Change>)
    requires x != y && w == DoAll(EMPTY, Creation(kind, Labelled(kind, x)))
    requires cs == [Change(CKA_LABEL, Some(y), true)] + [Change(CKA_CLASS, Some(HW_FEATURE), true)]
    ensures Synced(w) && !SlotSynced(SetAttributes(w, FIRST, cs), 0)
  {
    var v := CreatedWorld(kind, Labelled(kind, x));
    assert SlotSynced(w, 0);
    Relabelled(kind, x, y, cs);
    SetAttributesExactly(w, FIRST, 0, cs);
  }

  lemma Relabelled(kind: nat, x: Bytes, y: Bytes, cs: seq<Change>)
    requires cs == [Change(CKA_LABEL, Some(y), true)] + [Change(CKA_CLASS, Some(HW_FEATURE), true)]
    ensures Changed(Labelled(kind, x), cs) == Labelled(kind, y) && !AllFit(cs)
  {
    assert cs[..1] == [Change(CKA_LABEL, Some(y), true)] && cs[..1][..0] == [];
    assert Changed(Labelled(kind, x), cs[..1]) == Labelled(kind, y);
    assert !Fits(cs[1]) && cs[1] in cs;
  }

  lemma {:induction false} IdsOnly(o: HsmObject, cs: seq<Change>)
    requires forall c <- cs :: c.attr == CKA_ID
    ensures Changed(o, cs).attrs == o.attrs
  {
    if cs != [] {
      assert cs[|cs| - 1] in cs;
      IdsOnly(o, cs[..|cs| - 1]);
    }
  }

  /** Setting CKA_ID this way changes the index but no stored attribute: no search finds the object by its new id. */
  lemma SettingIdChangesNoMatch(w: World, h: Handle, i: nat, cs: seq<Change>, t: Template)
    requires Sound(w) && Lookup(w.table, h) == Some(i) && forall c <- cs :: c.attr == CKA_ID
    ensures ScanHit(SetAttributes(w, h, cs), t, i) <==> ScanHit(w, t, i)
  {
    var ref := w.table.entries[i].ref.value;
    IdsOnly(w.memory[ref], cs);
    Written(w, i, ref, Changed(w.memory[ref], cs));
    var written := WriteObject(w, ref, Changed(w.memory[ref], cs));
    assert ObjectAt(SetAttributes(w, h, cs), i) == ObjectAt(written, i);
  }
}
