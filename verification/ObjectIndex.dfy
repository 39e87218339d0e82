/**
 Secondary indices and attribute search (src/keystore/object_store.cpp). The three multimaps
 are multisets of (key, slot) pairs: the source's unordered multimaps promise no order, and
 nothing here depends on one.
 */
module ObjectIndex {
  import opened Wrappers
  import opened Bytes
  import opened HandleTable
  import LittleEndian

  const CKA_CLASS: nat := 0
  const CKA_LABEL: nat := 3
  const CKA_ID: nat := 0x102

  /** sizeof(CK_OBJECT_CLASS) */
  const CLASS_SIZE := 8

  /** The part of `HsmObject` a search looks at; `kind` is the numeric value of its ObjectType. */
  datatype HsmObject = HsmObject(kind: nat, attrs: map<nat, Bytes>, id: Bytes)

  type Memory = map<Ref, HsmObject>

  datatype Index = Index(labels: multiset<(Bytes, nat)>, ids: multiset<(Bytes, nat)>, classes: multiset<(nat, nat)>)

  /** Everything a store operation reads or writes: the table, the indices and the objects they refer to. */
  datatype World = World(table: Table, index: Index, memory: Memory)

  // ---------------------------------------------------------------------------
  // Keys and index maintenance
  // ---------------------------------------------------------------------------

  function LabelKey(o: HsmObject): Bytes {
    if CKA_LABEL in o.attrs then o.attrs[CKA_LABEL] else []
  }

  /** CKA_ID as stored, or else the object's own id. */
  function IdKey(o: HsmObject): Bytes {
    if CKA_ID in o.attrs && o.attrs[CKA_ID] != [] then o.attrs[CKA_ID] else o.id
  }

  /** `v_index_insert`: an empty label or id is not indexed. */
  function Insert(ix: Index, i: nat, o: HsmObject): Index {
    Index(if LabelKey(o) != [] then ix.labels + multiset{(LabelKey(o), i)} else ix.labels,
          if IdKey(o) != [] then ix.ids + multiset{(IdKey(o), i)} else ix.ids,
          ix.classes + multiset{(o.kind, i)})
  }

  /** `v_index_remove`: erases one entry per index, under the keys the object has now. */
  function Remove(ix: Index, i: nat, o: HsmObject): Index {
    Index(if LabelKey(o) != [] then ix.labels - multiset{(LabelKey(o), i)} else ix.labels,
          if IdKey(o) != [] then ix.ids - multiset{(IdKey(o), i)} else ix.ids,
          ix.classes - multiset{(o.kind, i)})
  }

  /** A multimap without the entries for slot `i`. */
  ghost function Without<K(!new)>(m: multiset<(K, nat)>, i: nat): (r: multiset<(K, nat)>)
    ensures forall p :: r[p] == if p.1 == i then 0 else m[p]
    decreases |m|
  {
    if m == multiset{} then m else
    var p :| p in m;
    var rest := Without(m[p := 0], i);
    if p.1 == i then rest else rest[p := m[p]]
  }

  ghost function Purge(ix: Index, i: nat): Index {
    Index(Without(ix.labels, i), Without(ix.ids, i), Without(ix.classes, i))
  }

  // ---------------------------------------------------------------------------
  // Operations
  // ---------------------------------------------------------------------------

  function ObjectAt(w: World, i: nat): Option<HsmObject> {
    if IsLive(w.table, i) && w.table.entries[i].ref.Some? && w.table.entries[i].ref.value in w.memory
    then Some(w.memory[w.table.entries[i].ref.value]) else None
  }

  /** `v_create_object`: the object is indexed as constructed, before any template is applied to it. */
  function CreateObject(w: World, ref: Ref, o: HsmObject): World
    requires CanAllocate(w.table)
  {
    World(Allocate(w.table, ref), Insert(w.index, NextSlot(w.table), o), w.memory[ref := o])
  }

  /** `v_destroy_object`; the object itself lives on while somebody holds it. */
  function DestroyObject(w: World, h: Handle): World {
    match Lookup(w.table, h)
    case Some(i) =>
      World(Free(w.table, i),
            if ObjectAt(w, i).Some? then Remove(w.index, i, ObjectAt(w, i).value) else w.index,
            w.memory)
    case None => w
  }

  /** `v_reindex`: all entries of the slot are replaced by those of the object's present attributes. */
  ghost function Reindex(w: World, h: Handle): World {
    match Lookup(w.table, h)
    case Some(i) =>
      if ObjectAt(w, i).Some? then w.(index := Insert(Purge(w.index, i), i, ObjectAt(w, i).value)) else w
    case None => w
  }

  /** Attributes written through a pointer; the store does not notice. */
  function WriteObject(w: World, ref: Ref, o: HsmObject): World {
    if ref in w.memory then w.(memory := w.memory[ref := o.(kind := w.memory[ref].kind)]) else w
  }

  // ---------------------------------------------------------------------------
  // When the indices are right
  // ---------------------------------------------------------------------------

  /** Slot `i` occurs in the multimap once, under `key`, or not at all. */
  ghost predicate Only<K(!new)>(m: multiset<(K, nat)>, i: nat, key: Option<K>) {
    forall k: K :: m[(k, i)] == if key == Some(k) then 1 else 0
  }

  function NonEmpty(key: Bytes): Option<Bytes> { if key == [] then None else Some(key) }

  /** The entries of slot `i` are exactly those of the object `o`, or none at all. */
  ghost predicate EntriesFor(ix: Index, i: nat, o: Option<HsmObject>) {
    match o
    case Some(o) =>
      && Only(ix.labels, i, NonEmpty(LabelKey(o)))
      && Only(ix.ids, i, NonEmpty(IdKey(o)))
      && Only(ix.classes, i, Some(o.kind))
    case None =>
      Only(ix.labels, i, None) && Only(ix.ids, i, None) && Only(ix.classes, i, None)
  }

  lemma AddOne<K(!new)>(m: multiset<(K, nat)>, i: nat, key: K, j: nat, x: Option<K>)
    requires Only(m, j, x) && (j == i ==> x == None)
    ensures Only(m + multiset{(key, i)}, j, if j == i then Some(key) else x)
  {
  }

  lemma EraseOne<K(!new)>(m: multiset<(K, nat)>, i: nat, key: K, j: nat, x: Option<K>)
    requires Only(m, j, x) && (j == i ==> x == Some(key))
    ensures Only(m - multiset{(key, i)}, j, if j == i then None else x)
  {
  }

  function LabelOf(o: Option<HsmObject>): Option<Bytes> { if o.Some? then NonEmpty(LabelKey(o.value)) else None }

  function IdOf(o: Option<HsmObject>): Option<Bytes> { if o.Some? then NonEmpty(IdKey(o.value)) else None }

  function KindOf(o: Option<HsmObject>): Option<nat> { if o.Some? then Some(o.value.kind) else None }

  lemma InsertEntries(ix: Index, i: nat, o: HsmObject, j: nat, x: Option<HsmObject>)
    requires EntriesFor(ix, j, x) && (j == i ==> x == None)
    ensures EntriesFor(Insert(ix, i, o), j, if j == i then Some(o) else x)
  {
    AddOne(ix.labels, i, LabelKey(o), j, LabelOf(x));
    AddOne(ix.ids, i, IdKey(o), j, IdOf(x));
    AddOne(ix.classes, i, o.kind, j, KindOf(x));
  }

  lemma RemoveEntries(ix: Index, i: nat, o: HsmObject, j: nat, x: Option<HsmObject>)
    requires EntriesFor(ix, j, x) && (j == i ==> x == Some(o))
    ensures EntriesFor(Remove(ix, i, o), j, if j == i then None else x)
  {
    if LabelKey(o) != [] { EraseOne(ix.labels, i, LabelKey(o), j, LabelOf(x)); }
    if IdKey(o) != [] { EraseOne(ix.ids, i, IdKey(o), j, IdOf(x)); }
    EraseOne(ix.classes, i, o.kind, j, KindOf(x));
  }

  lemma PurgeEntries(ix: Index, i: nat, j: nat, x: Option<HsmObject>)
    requires j == i || EntriesFor(ix, j, x)
    ensures EntriesFor(Purge(ix, i), j, if j == i then None else x)
  {
  }

  /** Slot `i` has exactly the index entries of the object it holds, or none if it is free. */
  ghost predicate SlotSynced(w: World, i: nat) {
    EntriesFor(w.index, i, ObjectAt(w, i))
  }

  ghost predicate Synced(w: World) {
    forall i: nat :: SlotSynced(w, i)
  }

  /** Live slots hold different objects, all in memory; free slots hold none. */
  predicate RefsKnown(w: World) {
    && (forall i: nat :: i < |w.table.entries| ==>
          if w.table.entries[i].isFree then w.table.entries[i].ref.None?
          else w.table.entries[i].ref.Some? && w.table.entries[i].ref.value in w.memory)
    && (forall i, j :: 0 <= i < j < |w.table.entries| && !w.table.entries[i].isFree && !w.table.entries[j].isFree ==>
          w.table.entries[i].ref != w.table.entries[j].ref)
  }

  /** Slot numbers and versions fit their halves of a handle. */
  predicate WordSized(t: Table) {
    |t.entries| <= END && forall e <- t.entries :: e.version < WORD
  }

  ghost predicate Sound(w: World) {
    && RefsKnown(w)
    && WordSized(w.table)
    && exists free :: IsFreeList(w.table, free)
  }

  const EMPTY := World(Table([], END), Index(multiset{}, multiset{}, multiset{}), map[])

  datatype StoreOp =
    | Make(ref: Ref, o: HsmObject)                 // v_create_object
    | Drop(handle: Handle)                         // v_destroy_object
    | Refresh(handle: Handle)                      // v_reindex
    | Scribble(ref: Ref, o: HsmObject)             // write attributes through a pointer, without the store's lock

  ghost function Do(w: World, op: StoreOp): World {
    match op
    case Make(ref, o) => if CanAllocate(w.table) && ref !in w.memory then CreateObject(w, ref, o) else w
    case Drop(h) => DestroyObject(w, h)
    case Refresh(h) => Reindex(w, h)
    case Scribble(ref, o) => WriteObject(w, ref, o)
  }

  ghost function DoAll(w: World, ops: seq<StoreOp>): World {
    if ops == [] then w else Do(DoAll(w, ops[..|ops| - 1]), ops[|ops| - 1])
  }

  // Every operation keeps the store sound, and touches the entries of one slot.

  lemma MakeRefs(w: World, ref: Ref, o: HsmObject)
    requires RefsKnown(w) && CanAllocate(w.table) && ref !in w.memory
    requires w.table.freeHead != END ==> w.table.entries[w.table.freeHead].isFree
    ensures RefsKnown(CreateObject(w, ref, o))
  {
  }

  lemma MakeObjects(w: World, ref: Ref, o: HsmObject)
    requires RefsKnown(w) && CanAllocate(w.table) && ref !in w.memory
    requires w.table.freeHead != END ==> w.table.entries[w.table.freeHead].isFree
    ensures var w', i := CreateObject(w, ref, o), NextSlot(w.table);
            && ObjectAt(w, i) == None && ObjectAt(w', i) == Some(o)
            && forall j: nat :: j != i ==> ObjectAt(w', j) == ObjectAt(w, j)
  {
    var w', i := CreateObject(w, ref, o), NextSlot(w.table);
    forall j: nat | j != i ensures ObjectAt(w', j) == ObjectAt(w, j) {
      if j < |w.table.entries| { assert w'.table.entries[j] == w.table.entries[j]; }
    }
  }

  lemma MakeKeeps(w: World, ref: Ref, o: HsmObject)
    requires Sound(w) && CanAllocate(w.table) && ref !in w.memory
    ensures var w', i := CreateObject(w, ref, o), NextSlot(w.table);
            && Sound(w') && ObjectAt(w, i) == None && ObjectAt(w', i) == Some(o)
            && forall j: nat :: j != i ==> ObjectAt(w', j) == ObjectAt(w, j)
  {
    var free :| IsFreeList(w.table, free);
    HeadIsFree(w.table, free);
    MakeRefs(w, ref, o);
    MakeObjects(w, ref, o);
    CreateKeepsFreeList(w.table, free, ref);
  }

  lemma DropKeeps(w: World, h: Handle)
    requires Sound(w) && Lookup(w.table, h).Some?
    ensures var w', i := DestroyObject(w, h), Lookup(w.table, h).value;
            && Sound(w') && ObjectAt(w, i).Some? && ObjectAt(w', i) == None
            && forall j: nat :: j != i ==> ObjectAt(w', j) == ObjectAt(w, j)
  {
    var free :| IsFreeList(w.table, free);
    DestroyKeepsFreeList(w.table, free, Lookup(w.table, h).value);
    DropRefs(w, w.table.entries, h, Lookup(w.table, h).value);
    DropObjects(w, h, Lookup(w.table, h).value);
  }

  lemma DropRefs(w: World, es: seq<Entry>, h: Handle, i: nat)
    requires RefsKnown(w) && WordSized(w.table) && es == w.table.entries && Lookup(w.table, h) == Some(i)
    ensures RefsKnown(DestroyObject(w, h)) && WordSized(DestroyObject(w, h).table)
  {
    var w' := DestroyObject(w, h);
    assert w'.memory == w.memory && w'.table.entries == es[i := Entry(None, es[i].version, true, w.table.freeHead)];
    forall e <- w'.table.entries ensures e.version < WORD {
      assert es[i] in es;
    }
  }

  lemma DropObjects(w: World, h: Handle, i: nat)
    requires RefsKnown(w) && Lookup(w.table, h) == Some(i)
    ensures var w' := DestroyObject(w, h);
            && ObjectAt(w, i).Some? && ObjectAt(w', i) == None
            && forall j: nat :: j != i ==> ObjectAt(w', j) == ObjectAt(w, j)
  {
    var w' := DestroyObject(w, h);
    forall j: nat | j != i ensures ObjectAt(w', j) == ObjectAt(w, j) {
      if j < |w.table.entries| { assert w'.table.entries[j] == w.table.entries[j]; }
    }
  }

  lemma WriteKeeps(w: World, ref: Ref, o: HsmObject, i: nat)
    requires Sound(w) && IsLive(w.table, i) && w.table.entries[i].ref == Some(ref)
    ensures var w' := WriteObject(w, ref, o);
            && Sound(w') && w'.table == w.table && w'.index == w.index
            && ObjectAt(w', i).Some?
            && forall j: nat :: j != i ==> ObjectAt(w', j) == ObjectAt(w, j)
  {
  }

  lemma MakeKeepsSync(w: World, ref: Ref, o: HsmObject, j: nat)
    requires Sound(w) && CanAllocate(w.table) && ref !in w.memory && SlotSynced(w, j)
    ensures SlotSynced(CreateObject(w, ref, o), j)
  {
    MakeKeeps(w, ref, o);
    InsertEntries(w.index, NextSlot(w.table), o, j, ObjectAt(w, j));
  }

  lemma DropKeepsSync(w: World, h: Handle, j: nat)
    requires Sound(w) && Lookup(w.table, h).Some? && SlotSynced(w, j)
    ensures SlotSynced(DestroyObject(w, h), j)
  {
    DropKeeps(w, h);
    var i := Lookup(w.table, h).value;
    RemoveEntries(w.index, i, ObjectAt(w, i).value, j, ObjectAt(w, j));
  }

  /** Whatever the slot's entries were, `v_reindex` makes them right, and leaves other slots alone. */
  lemma ReindexSyncs(w: World, h: Handle, j: nat)
    requires Lookup(w.table, h).Some? && ObjectAt(w, Lookup(w.table, h).value).Some?
    requires j == Lookup(w.table, h).value || SlotSynced(w, j)
    ensures SlotSynced(Reindex(w, h), j)
  {
    var i := Lookup(w.table, h).value;
    PurgeEntries(w.index, i, j, ObjectAt(w, j));
    InsertEntries(Purge(w.index, i), i, ObjectAt(w, i).value, j, if j == i then None else ObjectAt(w, j));
    assert ObjectAt(Reindex(w, h), j) == ObjectAt(w, j);
  }

  lemma DoKeepsSound(w: World, op: StoreOp)
    requires Sound(w)
    ensures Sound(Do(w, op))
  {
    match op
    case Make(ref, o) => if CanAllocate(w.table) && ref !in w.memory { MakeKeeps(w, ref, o); }
    case Drop(h) => if Lookup(w.table, h).Some? { DropKeeps(w, h); }
    case Refresh(h) =>
    case Scribble(ref, o) => assert WriteObject(w, ref, o).table == w.table;
  }

  predicate Holds(w: World, i: nat, ref: Ref) { IsLive(w.table, i) && w.table.entries[i].ref == Some(ref) }

  predicate SameKeys(o: HsmObject, p: HsmObject) { LabelKey(o) == LabelKey(p) && IdKey(o) == IdKey(p) }

  /** The step changes a key of the object in slot `i` behind the store's back. */
  predicate Disturbs(w: World, op: StoreOp, i: nat) {
    op.Scribble? && Holds(w, i, op.ref) && op.ref in w.memory && !SameKeys(w.memory[op.ref], op.o)
  }

  /** A write that changes no key leaves the entries of every slot as right as they were. */
  lemma WriteKeepsSync(w: World, ref: Ref, o: HsmObject, j: nat)
    requires SlotSynced(w, j) && !Disturbs(w, Scribble(ref, o), j)
    ensures SlotSynced(WriteObject(w, ref, o), j)
  {
    var w' := WriteObject(w, ref, o);
    if Holds(w, j, ref) && ref in w.memory {
      assert ObjectAt(w, j) == Some(w.memory[ref]) && ObjectAt(w', j) == Some(w'.memory[ref]);
    } else {
      assert ObjectAt(w', j) == ObjectAt(w, j);
    }
  }

  /** A right slot stays right in every step that does not disturb it. */
  lemma DoKeepsSync(w: World, op: StoreOp, j: nat)
    requires Sound(w) && SlotSynced(w, j) && !Disturbs(w, op, j)
    ensures SlotSynced(Do(w, op), j)
  {
    match op
    case Make(ref, o) => if CanAllocate(w.table) && ref !in w.memory { MakeKeepsSync(w, ref, o, j); }
    case Drop(h) => if Lookup(w.table, h).Some? { DropKeepsSync(w, h, j); }
    case Refresh(h) =>
      if Lookup(w.table, h).Some? && ObjectAt(w, Lookup(w.table, h).value).Some? { ReindexSyncs(w, h, j); }
    case Scribble(ref, o) => WriteKeepsSync(w, ref, o, j);
  }

  lemma {:induction false} RunsAreSound(ops: seq<StoreOp>)
    ensures Sound(DoAll(EMPTY, ops))
  {
    if ops == [] {
      assert IsFreeList(EMPTY.table, []);
    } else {
      RunsAreSound(ops[..|ops| - 1]);
      DoKeepsSound(DoAll(EMPTY, ops[..|ops| - 1]), ops[|ops| - 1]);
    }
  }

  // ---------------------------------------------------------------------------
  // Search
  // ---------------------------------------------------------------------------

  type Template = map<nat, Bytes>

  predicate Matches(o: HsmObject, t: Template) {
    forall a <- t :: a in o.attrs && o.attrs[a] == t[a]
  }

  /** A CKA_CLASS value copied into a CK_OBJECT_CLASS and cut to 32 bits (little-endian). */
  function ClassValue(b: Bytes): nat
    requires |b| == CLASS_SIZE
  {
    b[0] as int + 0x100 * (b[1] as int) + 0x1_0000 * (b[2] as int) + 0x100_0000 * (b[3] as int)
  }

  lemma LowHalf(low: nat, high: nat, n: nat)
    requires low < 0x1_0000_0000 && n == low + 0x1_0000_0000 * high
    ensures low == n % 0x1_0000_0000
  {
  }

  lemma ClassValueIsLow(b: Bytes)
    requires |b| == CLASS_SIZE
    ensures ClassValue(b) == LittleEndian.Get(b) % 0x1_0000_0000
  {
    assert b[1..][1..] == b[2..] && b[2..][1..] == b[3..] && b[3..][1..] == b[4..];
    var high := LittleEndian.Get(b[4..]);
    var x0, x1, x2, x3: int := b[0], b[1], b[2], b[3];
    assert LittleEndian.Get(b[2..]) == x2 + 0x100 * x3 + 0x1_0000 * high;
    assert LittleEndian.Get(b) == x0 + 0x100 * x1 + 0x1_0000 * LittleEndian.Get(b[2..]);
    LowHalf(ClassValue(b), high, LittleEndian.Get(b));
  }

  /** A class that a caller writes as eight octets, lowest first, is looked up by its low 32 bits. */
  lemma ClassOfNumber(n: nat)
    requires n < 0x1_0000_0000_0000_0000
    ensures ClassValue(LittleEndian.Put(n, 8)) == n % 0x1_0000_0000
  {
    LittleEndian.Words();
    LittleEndian.GetPut(n, 8);
    ClassValueIsLow(LittleEndian.Put(n, 8));
  }

  predicate ByClass(t: Template) { CKA_CLASS in t && |t[CKA_CLASS]| == CLASS_SIZE }

  predicate Indexed(t: Template) { ByClass(t) || CKA_LABEL in t || CKA_ID in t }

  /** How often slot `i` is among the candidates: in every bucket the template names, as often as in the last. */
  function CandidateCount(ix: Index, t: Template, i: nat): nat {
    if ByClass(t) && ix.classes[(ClassValue(t[CKA_CLASS]), i)] == 0 then 0
    else if CKA_LABEL in t && ix.labels[(t[CKA_LABEL], i)] == 0 then 0
    else if CKA_ID in t then ix.ids[(t[CKA_ID], i)]
    else if CKA_LABEL in t then ix.labels[(t[CKA_LABEL], i)]
    else if ByClass(t) then ix.classes[(ClassValue(t[CKA_CLASS]), i)]
    else 1
  }

  /** What is copied under the first lock: every candidate that is live, with the object it holds. */
  ghost predicate IsSnapshot(w: World, t: Template, snap: seq<(nat, Ref)>) {
    forall p: (nat, Ref) :: multiset(snap)[p] ==
      if IsLive(w.table, p.0) && w.table.entries[p.0].ref == Some(p.1) then CandidateCount(w.index, t, p.0) else 0
  }

  function SlotHandle(t: Table, i: nat): Handle
    requires WordSized(t) && i < |t.entries|
  {
    assert t.entries[i] in t.entries;
    Compose(i, t.entries[i].version)
  }

  /** The check of one snapshot entry: attributes are read in `m`, the slot is looked at again in `now`. */
  predicate Accepts(t: Template, p: (nat, Ref), m: Memory, now: Table) {
    && p.1 in m && Matches(m[p.1], t)
    && IsLive(now, p.0) && now.entries[p.0].ref == Some(p.1)
  }

  /**
   `v_find_all_by_attributes` after the snapshot. The lock is not held: entry `k` is matched against the
   memory `mems[k]` and revalidated in the table `tables[k]`, whatever happened in between.
   */
  function FindAll(t: Template, snap: seq<(nat, Ref)>, mems: seq<Memory>, tables: seq<Table>): seq<Handle>
    requires |snap| == |mems| == |tables| && forall x <- tables :: WordSized(x)
  {
    if snap == [] then [] else
      (if Accepts(t, snap[0], mems[0], tables[0]) then [SlotHandle(tables[0], snap[0].0)] else [])
        + FindAll(t, snap[1..], mems[1..], tables[1..])
  }

  /** `v_find_by_attributes` after the snapshot: the first entry that passes, or the invalid handle. */
  function FindFirst(t: Template, snap: seq<(nat, Ref)>, mems: seq<Memory>, tables: seq<Table>): Handle
    requires |snap| == |mems| == |tables| && forall x <- tables :: WordSized(x)
  {
    if snap == [] then INVALID_HANDLE
    else if Accepts(t, snap[0], mems[0], tables[0]) then SlotHandle(tables[0], snap[0].0)
    else FindFirst(t, snap[1..], mems[1..], tables[1..])
  }

  lemma {:induction false} FirstOfAll(t: Template, snap: seq<(nat, Ref)>, mems: seq<Memory>, tables: seq<Table>)
    requires |snap| == |mems| == |tables| && forall x <- tables :: WordSized(x)
    ensures var all := FindAll(t, snap, mems, tables);
            FindFirst(t, snap, mems, tables) == if all == [] then INVALID_HANDLE else all[0]
  {
    if snap != [] {
      FirstOfAll(t, snap[1..], mems[1..], tables[1..]);
    }
  }

  /** `h` is the handle of the entry's slot, resolves to the entry's object, and that object matched the template. */
  predicate FoundAs(t: Template, p: (nat, Ref), m: Memory, now: Table, h: Handle) {
    && Lookup(now, h) == Some(p.0) && Resolve(now, h) == Some(p.1)
    && p.1 in m && Matches(m[p.1], t)
  }

  /**
   Every handle found resolves, at the moment of revalidation, to the very object whose attributes matched the
   whole template, however the store was changed since the snapshot and however stale its indices are.
   */
  lemma {:induction false} FindSound(t: Template, snap: seq<(nat, Ref)>, mems: seq<Memory>, tables: seq<Table>,
                                     h: Handle)
    requires |snap| == |mems| == |tables| && forall x <- tables :: WordSized(x)
    requires h in FindAll(t, snap, mems, tables)
    ensures exists k: nat :: k < |snap| && FoundAs(t, snap[k], mems[k], tables[k], h)
  {
    if Accepts(t, snap[0], mems[0], tables[0]) && h == SlotHandle(tables[0], snap[0].0) {
      ComposeExtract(snap[0].0, tables[0].entries[snap[0].0].version);
      assert FoundAs(t, snap[0], mems[0], tables[0], h);
    } else {
      FindSound(t, snap[1..], mems[1..], tables[1..], h);
      var k: nat :| k < |snap| - 1 && FoundAs(t, snap[1..][k], mems[1..][k], tables[1..][k], h);
      assert FoundAs(t, snap[k + 1], mems[k + 1], tables[k + 1], h);
    }
  }

  function LiveHandle(t: Table, i: nat): seq<Handle>
    requires WordSized(t) && i < |t.entries|
  {
    if IsLive(t, i) && t.entries[i].ref.Some? then [SlotHandle(t, i)] else []
  }

  /** The handles of the live slots below `n`, in slot order. */
  function LiveHandles(t: Table, n: nat): seq<Handle>
    requires WordSized(t) && n <= |t.entries|
  {
    if n == 0 then [] else LiveHandles(t, n - 1) + LiveHandle(t, n - 1)
  }

  lemma LiveHandleOnce(w: World, k: nat, i: nat)
    requires RefsKnown(w) && WordSized(w.table) && k < |w.table.entries| && i < |w.table.entries|
    ensures multiset(LiveHandle(w.table, k))[SlotHandle(w.table, i)] == if i == k && ScanHit(w, map[], i) then 1 else 0
  {
    if SlotHandle(w.table, i) == SlotHandle(w.table, k) {
      SlotHandleInjective(w.table, i, k);
    }
  }

  lemma CountConcat<T>(a: seq<T>, b: seq<T>, x: T)
    ensures multiset(a + b)[x] == multiset(a)[x] + multiset(b)[x]
  {
  }

  lemma {:induction false} LiveHandlesCount(t: Table, n: nat, i: nat, h: Handle, hit: bool)
    requires WordSized(t) && n <= |t.entries|
    requires forall k: nat :: k < n ==> multiset(LiveHandle(t, k))[h] == if i == k && hit then 1 else 0
    ensures multiset(LiveHandles(t, n))[h] == if i < n && hit then 1 else 0
  {
    if n > 0 {
      LiveHandlesCount(t, n - 1, i, h, hit);
      CountConcat(LiveHandles(t, n - 1), LiveHandle(t, n - 1), h);
    }
  }

  /** The empty template: every live slot is reported once. */
  lemma LiveHandlesExactly(w: World, n: nat, i: nat, h: Handle)
    requires RefsKnown(w) && WordSized(w.table) && n <= |w.table.entries|
    requires i < |w.table.entries| && h == SlotHandle(w.table, i)
    ensures multiset(LiveHandles(w.table, n))[h] == if i < n && ScanHit(w, map[], i) then 1 else 0
  {
    var hit := ScanHit(w, map[], i);
    forall k: nat | k < n ensures multiset(LiveHandle(w.table, k))[h] == if i == k && hit then 1 else 0 {
      LiveHandleOnce(w, k, i);
    }
    LiveHandlesCount(w.table, n, i, h, hit);
  }

  lemma {:induction false} LiveHandlesAreHandles(t: Table, n: nat, h: Handle)
    requires WordSized(t) && n <= |t.entries| && h in LiveHandles(t, n)
    ensures exists i: nat :: i < n && IsLive(t, i) && SlotHandle(t, i) == h
  {
    if h in LiveHandles(t, n - 1) {
      LiveHandlesAreHandles(t, n - 1, h);
    }
  }

  // Without interference: the result against a linear scan

  function Repeat<T>(x: T, n: nat): seq<T> { seq(n, _ => x) }

  ghost function FindQuietly(w: World, t: Template, snap: seq<(nat, Ref)>): seq<Handle>
    requires WordSized(w.table)
  {
    FindAll(t, snap, Repeat(w.memory, |snap|), Repeat(w.table, |snap|))
  }

  /** The slot a linear scan over stored attributes would report. */
  predicate ScanHit(w: World, t: Template, i: nat) {
    ObjectAt(w, i).Some? && Matches(ObjectAt(w, i).value, t)
  }

  lemma SlotHandleInjective(t: Table, i: nat, j: nat)
    requires WordSized(t) && i < |t.entries| && j < |t.entries| && SlotHandle(t, i) == SlotHandle(t, j)
    ensures i == j
  {
    ComposeExtract(i, t.entries[i].version);
    ComposeExtract(j, t.entries[j].version);
  }

  predicate HoldsWhatItSays(w: World, snap: seq<(nat, Ref)>) {
    forall p <- snap :: IsLive(w.table, p.0) && w.table.entries[p.0].ref == Some(p.1)
  }

  function Reported(w: World, t: Template, p: (nat, Ref)): seq<Handle>
    requires WordSized(w.table)
  {
    if Accepts(t, p, w.memory, w.table) then [SlotHandle(w.table, p.0)] else []
  }

  lemma FindCons(w: World, t: Template, snap: seq<(nat, Ref)>)
    requires WordSized(w.table) && snap != []
    ensures FindQuietly(w, t, snap) == Reported(w, t, snap[0]) + FindQuietly(w, t, snap[1..])
  {
    assert Repeat(w.memory, |snap|)[1..] == Repeat(w.memory, |snap[1..]|);
    assert Repeat(w.table, |snap|)[1..] == Repeat(w.table, |snap[1..]|);
  }

  lemma ReportedOnce(w: World, t: Template, p: (nat, Ref), i: nat)
    requires Sound(w) && IsLive(w.table, i)
    requires IsLive(w.table, p.0) && w.table.entries[p.0].ref == Some(p.1)
    ensures multiset(Reported(w, t, p))[SlotHandle(w.table, i)] == if p.0 == i && ScanHit(w, t, i) then 1 else 0
  {
    if SlotHandle(w.table, p.0) == SlotHandle(w.table, i) {
      SlotHandleInjective(w.table, p.0, i);
    }
  }

  /** A matching slot is reported as often as it was a candidate; another slot is not reported. */
  lemma {:induction false} ReportedCount(w: World, t: Template, snap: seq<(nat, Ref)>, i: nat)
    requires Sound(w) && HoldsWhatItSays(w, snap) && IsLive(w.table, i)
    ensures multiset(FindQuietly(w, t, snap))[SlotHandle(w.table, i)]
         == if ScanHit(w, t, i) then multiset(snap)[(i, w.table.entries[i].ref.value)] else 0
  {
    if snap != [] {
      assert snap[0] in snap;
      ReportedOnce(w, t, snap[0], i);
      ReportedCount(w, t, snap[1..], i);
      FindCons(w, t, snap);
      assert snap == [snap[0]] + snap[1..];
    }
  }

  lemma {:induction false} ReportedSlots(w: World, t: Template, snap: seq<(nat, Ref)>, h: Handle)
    requires Sound(w) && HoldsWhatItSays(w, snap) && h in FindQuietly(w, t, snap)
    ensures exists i: nat :: IsLive(w.table, i) && SlotHandle(w.table, i) == h
  {
    FindCons(w, t, snap);
    if h !in Reported(w, t, snap[0]) {
      ReportedSlots(w, t, snap[1..], h);
    }
  }

  /** Labels and ids the template names are non-empty: an empty one is never indexed. */
  predicate Searchable(t: Template) {
    (CKA_LABEL in t ==> t[CKA_LABEL] != []) && (CKA_ID in t ==> t[CKA_ID] != [])
  }

  /**
   A search with this template gets to an object that matches it: it names no empty key, and the class it names is the
   type under which the object is indexed. (A stored CKA_CLASS outside 0 to 4 is not.)
   */
  predicate Findable(t: Template, o: HsmObject) {
    Searchable(t) && (ByClass(t) ==> ClassValue(t[CKA_CLASS]) == o.kind)
  }

  /** With exact entries, a match is a candidate exactly if it is findable, and then once. */
  lemma CandidateExactly(w: World, t: Template, i: nat)
    requires SlotSynced(w, i) && ScanHit(w, t, i)
    ensures CandidateCount(w.index, t, i) == if Findable(t, ObjectAt(w, i).value) then 1 else 0
  {
    var o := ObjectAt(w, i).value;
    assert CKA_LABEL in t ==> o.attrs[CKA_LABEL] == t[CKA_LABEL];
    assert CKA_ID in t ==> o.attrs[CKA_ID] == t[CKA_ID];
    assert CKA_CLASS in t ==> o.attrs[CKA_CLASS] == t[CKA_CLASS];
  }

  /** The handles are, once each, those of the slots that a linear scan would report. */
  ghost predicate ScanResult(w: World, t: Template, found: seq<Handle>)
    requires WordSized(w.table)
  {
    && (forall h <- found :: multiset(found)[h] == 1)
    && (forall i: nat :: IsLive(w.table, i) ==> (SlotHandle(w.table, i) in found <==> ScanHit(w, t, i)))
    && (forall h <- found :: exists i: nat :: IsLive(w.table, i) && SlotHandle(w.table, i) == h)
  }

  lemma SnapshotHolds(w: World, t: Template, snap: seq<(nat, Ref)>)
    requires IsSnapshot(w, t, snap)
    ensures HoldsWhatItSays(w, snap)
  {
    forall p <- snap ensures IsLive(w.table, p.0) && w.table.entries[p.0].ref == Some(p.1) {
      assert multiset(snap)[p] > 0;
    }
  }

  /** With exact indices, for every template: a slot is reported once if it matches and is findable, otherwise never. */
  lemma FindReports(w: World, t: Template, snap: seq<(nat, Ref)>, i: nat)
    requires Sound(w) && SlotSynced(w, i) && IsSnapshot(w, t, snap) && IsLive(w.table, i)
    ensures multiset(FindQuietly(w, t, snap))[SlotHandle(w.table, i)]
         == if ScanHit(w, t, i) && Findable(t, ObjectAt(w, i).value) then 1 else 0
  {
    SnapshotHolds(w, t, snap);
    ReportedCount(w, t, snap, i);
    if ScanHit(w, t, i) {
      CandidateExactly(w, t, i);
    }
  }

  ghost predicate AllFindable(w: World, t: Template) {
    forall i: nat :: ScanHit(w, t, i) ==> Findable(t, ObjectAt(w, i).value)
  }

  /** If all matches are findable, the search returns, without duplicates, exactly the handles of a linear scan. */
  lemma FindIsScan(w: World, t: Template, snap: seq<(nat, Ref)>)
    requires Sound(w) && Synced(w) && IsSnapshot(w, t, snap) && AllFindable(w, t)
    ensures ScanResult(w, t, FindQuietly(w, t, snap))
  {
    var found := FindQuietly(w, t, snap);
    var counts: multiset<Handle> := multiset(found);
    forall i: nat | IsLive(w.table, i)
      ensures counts[SlotHandle(w.table, i)] == if ScanHit(w, t, i) then 1 else 0
    {
      assert SlotSynced(w, i);
      FindReports(w, t, snap, i);
    }
    SnapshotHolds(w, t, snap);
    forall h <- found
      ensures multiset(found)[h] == 1 && exists i: nat :: IsLive(w.table, i) && SlotHandle(w.table, i) == h
    {
      ReportedSlots(w, t, snap, h);
      var i: nat :| IsLive(w.table, i) && SlotHandle(w.table, i) == h;
      assert counts[h] > 0;
    }
  }

  /** With exact indices and for every template, the search agrees with the scan exactly if all matches are findable. */
  lemma FindIsScanExactly(w: World, t: Template, snap: seq<(nat, Ref)>)
    requires Sound(w) && Synced(w) && IsSnapshot(w, t, snap)
    ensures ScanResult(w, t, FindQuietly(w, t, snap)) <==> AllFindable(w, t)
  {
    if AllFindable(w, t) {
      FindIsScan(w, t, snap);
    } else {
      var i: nat :| ScanHit(w, t, i) && !Findable(t, ObjectAt(w, i).value);
      assert SlotSynced(w, i);
      FindReports(w, t, snap, i);
      assert SlotHandle(w.table, i) !in FindQuietly(w, t, snap);
    }
  }

  /** The index entries of a slot with right entries, read off the object: attribute 3 is the label, 0x102 the id. */
  lemma EntriesExactly(w: World, i: nat, key: Bytes, n: nat)
    requires SlotSynced(w, i) && ObjectAt(w, i).Some?
    ensures var o := ObjectAt(w, i).value;
            && w.index.labels[(key, i)] == (if key != [] && 3 in o.attrs && o.attrs[3] == key then 1 else 0)
            && w.index.ids[(key, i)] ==
               (if key != [] && (if 0x102 in o.attrs && o.attrs[0x102] != [] then o.attrs[0x102] else o.id) == key
                then 1 else 0)
            && w.index.classes[(n, i)] == (if o.kind == n then 1 else 0)
  {
  }

  lemma NumberIsFindable(t: Template, o: HsmObject, n: nat)
    requires n < 0x1_0000_0000 && o.kind == n && 0 in t && t[0] == LittleEndian.Put(n, 8)
    requires forall a <- t :: a in o.attrs && o.attrs[a] == t[a]
    requires (3 in t ==> t[3] != []) && (0x102 in t ==> t[0x102] != [])
    ensures Matches(o, t) && Findable(t, o)
  {
    ClassOfNumber(n);
  }

  /**
   A search by class: an object whose type is the number n and which stores it as CKA_CLASS (attribute 0) in eight
   octets is reported, once, by every template with these octets whose other attributes it has; a label (attribute 3) or
   an id (attribute 0x102) among them is not empty.
   */
  lemma ClassSearchFinds(w: World, t: Template, snap: seq<(nat, Ref)>, i: nat, n: nat)
    requires Sound(w) && SlotSynced(w, i) && IsSnapshot(w, t, snap) && ObjectAt(w, i).Some?
    requires n < 0x1_0000_0000 && ObjectAt(w, i).value.kind == n && 0 in t && t[0] == LittleEndian.Put(n, 8)
    requires forall a <- t :: a in ObjectAt(w, i).value.attrs && ObjectAt(w, i).value.attrs[a] == t[a]
    requires (3 in t ==> t[3] != []) && (0x102 in t ==> t[0x102] != [])
    ensures multiset(FindQuietly(w, t, snap))[SlotHandle(w.table, i)] == 1
  {
    NumberIsFindable(t, ObjectAt(w, i).value, n);
    FindReports(w, t, snap, i);
  }

  /** An empty label or id is never indexed: a template that names one has no candidates. */
  lemma EmptyKeyFindsNothing(w: World, t: Template, snap: seq<(nat, Ref)>)
    requires Synced(w) && !Searchable(t) && IsSnapshot(w, t, snap)
    ensures snap == []
  {
    forall i: nat ensures CandidateCount(w.index, t, i) == 0 {
      assert SlotSynced(w, i);
      assert w.index.labels[([], i)] == 0 && w.index.ids[([], i)] == 0;
    }
    assert multiset(snap) == multiset{};
    assert |snap| == |multiset(snap)|;
  }

  // ---------------------------------------------------------------------------
  // Without the discipline: what is found, exactly
  // ---------------------------------------------------------------------------

  /** The index entries that a search for the object's own stored attributes goes through. */
  ghost predicate Reachable(w: World, i: nat) {
    match ObjectAt(w, i)
    case Some(o) =>
      && (CKA_LABEL in o.attrs && o.attrs[CKA_LABEL] != [] ==> w.index.labels[(o.attrs[CKA_LABEL], i)] > 0)
      && (CKA_ID in o.attrs && o.attrs[CKA_ID] != [] ==> w.index.ids[(o.attrs[CKA_ID], i)] > 0)
      && (CKA_CLASS in o.attrs && |o.attrs[CKA_CLASS]| == CLASS_SIZE ==>
            w.index.classes[(ClassValue(o.attrs[CKA_CLASS]), i)] > 0)
    case None => true
  }

  lemma ReachableIsCandidate(w: World, t: Template, i: nat)
    requires Reachable(w, i) && Searchable(t) && ScanHit(w, t, i)
    ensures CandidateCount(w.index, t, i) > 0
  {
    var o := ObjectAt(w, i).value;
    assert CKA_LABEL in t ==> o.attrs[CKA_LABEL] == t[CKA_LABEL];
    assert CKA_ID in t ==> o.attrs[CKA_ID] == t[CKA_ID];
    assert CKA_CLASS in t ==> o.attrs[CKA_CLASS] == t[CKA_CLASS];
  }

  /** No search misses the object in slot `i` exactly when its present attributes are in the indices. */
  lemma NeverMissedExactly(w: World, i: nat)
    ensures (forall t: Template :: Searchable(t) && ScanHit(w, t, i) ==> CandidateCount(w.index, t, i) > 0)
       <==> Reachable(w, i)
  {
    if Reachable(w, i) {
      forall t: Template | Searchable(t) && ScanHit(w, t, i) ensures CandidateCount(w.index, t, i) > 0 {
        ReachableIsCandidate(w, t, i);
      }
    }
    if forall t: Template :: Searchable(t) && ScanHit(w, t, i) ==> CandidateCount(w.index, t, i) > 0 {
      if ObjectAt(w, i).Some? {
        var o := ObjectAt(w, i).value;
        if CKA_LABEL in o.attrs && o.attrs[CKA_LABEL] != [] {
          var t: Template := map[CKA_LABEL := o.attrs[CKA_LABEL]];
          assert Searchable(t) && ScanHit(w, t, i);
        }
        if CKA_ID in o.attrs && o.attrs[CKA_ID] != [] {
          var t: Template := map[CKA_ID := o.attrs[CKA_ID]];
          assert Searchable(t) && ScanHit(w, t, i);
        }
        if CKA_CLASS in o.attrs && |o.attrs[CKA_CLASS]| == CLASS_SIZE {
          var t: Template := map[CKA_CLASS := o.attrs[CKA_CLASS]];
          assert Searchable(t) && ScanHit(w, t, i);
        }
      }
    }
  }

  /**
   `C_CreateObject` applies its template after the object was indexed and does not reindex: the new object
   matches a scan for its label, and no search by label can find it.
   */
  lemma CreatedObjectIsMissed(kind: nat, name: Bytes)
    requires name != []
    ensures var t: Template := map[CKA_LABEL := name];
            var w := DoAll(EMPTY, [Make(0, HsmObject(kind, map[], [])), Scribble(0, HsmObject(kind, t, []))]);
            ScanHit(w, t, 0) && CandidateCount(w.index, t, 0) == 0
  {
    var t: Template := map[CKA_LABEL := name];
    var o := HsmObject(kind, map[], []);
    var ops := [Make(0, o), Scribble(0, HsmObject(kind, t, []))];
    assert ops[..1] == [Make(0, o)] && ops[..1][..0] == [];
    assert DoAll(EMPTY, ops[..1][..0]) == EMPTY;
    var w1 := CreateObject(EMPTY, 0, o);
    assert DoAll(EMPTY, ops[..1]) == w1;
    var w := DoAll(EMPTY, ops);
    assert w == WriteObject(w1, 0, HsmObject(kind, t, []));
    assert ObjectAt(w, 0) == Some(HsmObject(kind, t, []));
  }
}
