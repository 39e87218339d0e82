/**
 `v_ObjectStore_M1` in the shape of src/keystore/object_store.{h,cpp}: fields updated in place,
 multimap buckets walked entry by entry. Each method is tied to the operation it carries out in
 `ObjectIndex`, where the properties of whole runs are proved.
 */
module ObjectStores {
  import opened Wrappers
  import opened Sums
  import opened Bytes
  import opened HandleTable
  import opened ObjectIndex
  import opened IndexRuns
  import opened SearchRuns
  import LittleEndian

  /** Whether every attribute of the template is stored with the same value. */
  method MatchTemplate(o: HsmObject, t: Template) returns (agrees: bool)
    ensures agrees <==> forall a <- t :: a in o.attrs && o.attrs[a] == t[a]
  {
    var rest := t.Keys;
    while rest != {}
      invariant rest <= t.Keys && forall a <- t.Keys - rest :: a in o.attrs && o.attrs[a] == t[a]
      decreases |rest|
    {
      var a :| a in rest;
      if a !in o.attrs || o.attrs[a] != t[a] {
        return false;
      }
      rest := rest - {a};
    }
    return true;
  }

  /** The slots filed under `key`, in any order, as often as they are filed. */
  method EqualRange<K(==, !new)>(m: multiset<(K, nat)>, key: K) returns (slots: seq<nat>)
    ensures forall i: nat :: multiset(slots)[i] == m[(key, i)]
  {
    var rest := m;
    slots := [];
    while rest != multiset{}
      invariant rest <= m
      invariant forall i: nat :: multiset(slots)[i] == m[(key, i)] - rest[(key, i)]
      decreases |rest|
    {
      var p :| p in rest;
      rest := rest - multiset{p};
      if p.0 == key {
        slots := slots + [p.1];
      }
    }
  }

  /** The multimap after erasing every entry for slot `i`. */
  method EraseSlot<K(==, !new)>(m: multiset<(K, nat)>, i: nat) returns (r: multiset<(K, nat)>)
    ensures r == Without(m, i)
  {
    var rest := m;
    r := multiset{};
    while rest != multiset{}
      invariant rest <= m
      invariant forall p: (K, nat) :: r[p] == if p.1 == i then 0 else m[p] - rest[p]
      decreases |rest|
    {
      var p :| p in rest;
      rest := rest - multiset{p};
      if p.1 != i {
        r := r + multiset{p};
      }
    }
  }

  /** The multimap after erasing one entry for slot `i` under `key`, if there is one. */
  method EraseEntry<K(==, !new)>(m: multiset<(K, nat)>, key: K, i: nat) returns (r: multiset<(K, nat)>)
    ensures r == m - multiset{(key, i)}
  {
    r := m;
    if (key, i) in m {
      r := m - multiset{(key, i)};
    }
  }

  /** The indices without one entry each for slot `i` under the keys of `o`. */
  method EraseObject(ix: Index, i: nat, o: HsmObject) returns (r: Index)
    ensures r == Remove(ix, i, o)
  {
    var labels, ids := ix.labels, ix.ids;
    if LabelKey(o) != [] {
      labels := EraseEntry(labels, LabelKey(o), i);
    }
    if IdKey(o) != [] {
      ids := EraseEntry(ids, IdKey(o), i);
    }
    var classes := EraseEntry(ix.classes, o.kind, i);
    r := Index(labels, ids, classes);
  }

  /** The indices without any entry for slot `i`. */
  method EraseAll(ix: Index, i: nat) returns (r: Index)
    ensures r == Purge(ix, i)
  {
    var labels := EraseSlot(ix.labels, i);
    var ids := EraseSlot(ix.ids, i);
    var classes := EraseSlot(ix.classes, i);
    r := Index(labels, ids, classes);
  }

  /** The entries of `range` that occur in `existing`. */
  method Intersect(range: seq<nat>, existing: seq<nat>) returns (r: seq<nat>)
    ensures forall i: nat :: multiset(r)[i] == if i in existing then multiset(range)[i] else 0
  {
    r := [];
    for k := 0 to |range|
      invariant forall i: nat :: multiset(r)[i] == if i in existing then multiset(range[..k])[i] else 0
    {
      assert range[..k + 1] == range[..k] + [range[k]];
      if range[k] in existing {
        r := r + [range[k]];
      }
    }
    assert range[..|range|] == range;
  }

  class ObjectStore {
    var table: seq<Entry>
    var freeHead: nat
    var labelIndex: multiset<(Bytes, nat)>
    var idIndex: multiset<(Bytes, nat)>
    var classIndex: multiset<(nat, nat)>

    // The objects the table points to; other holders of a pointer may write to them.
    var memory: Memory

    ghost function View(): World
      reads this
    {
      World(Table(table, freeHead), Index(labelIndex, idIndex, classIndex), memory)
    }

    constructor ()
      ensures View() == EMPTY
    {
      table, freeHead := [], END;
      labelIndex, idIndex, classIndex := multiset{}, multiset{}, multiset{};
      memory := map[];
    }

    method IndexInsert(i: nat, o: HsmObject)
      modifies this`labelIndex, this`idIndex, this`classIndex
      ensures View() == old(View()).(index := Insert(old(View()).index, i, o))
    {
      if LabelKey(o) != [] {
        labelIndex := labelIndex + multiset{(LabelKey(o), i)};
      }
      if IdKey(o) != [] {
        idIndex := idIndex + multiset{(IdKey(o), i)};
      }
      classIndex := classIndex + multiset{(o.kind, i)};
    }

    method SetIndices(ix: Index)
      modifies this`labelIndex, this`idIndex, this`classIndex
      ensures View() == old(View()).(index := ix)
    {
      labelIndex, idIndex, classIndex := ix.labels, ix.ids, ix.classes;
    }

    method IndexRemove(i: nat, o: HsmObject)
      modifies this`labelIndex, this`idIndex, this`classIndex
      ensures View() == old(View()).(index := Remove(old(View()).index, i, o))
    {
      var rest := EraseObject(Index(labelIndex, idIndex, classIndex), i, o);
      SetIndices(rest);
    }

    /** The slot for a new object: popped from the free list, or appended. */
    method TakeSlot(ref: Ref) returns (index: nat)
      requires CanAllocate(View().table)
      modifies this`table, this`freeHead
      ensures View() == old(View()).(table := Allocate(old(View()).table, ref)) && index == NextSlot(old(View()).table)
      ensures index < |table|
    {
      if freeHead != END {
        index := freeHead;
        freeHead := table[index].nextFree;
        var e := table[index];
        table := table[index := Entry(Some(ref), (e.version + 1) % WORD, false, e.nextFree)];
      } else {
        index := |table|;
        table := table + [Entry(Some(ref), 1, false, END)];
      }
    }

    /** `v_create_object`, for an object just constructed at a new address. */
    method Create(ref: Ref, o: HsmObject) returns (handle: Handle)
      requires Sound(View()) && CanAllocate(View().table) && ref !in memory
      modifies this
      ensures View() == CreateObject(old(View()), ref, o)
      ensures Sound(View()) && Resolve(View().table, handle) == Some(ref)
      ensures var i := NextSlot(old(View()).table);
              handle == i * 0x1_0000_0000 + if i < |old(table)| then (old(table)[i].version + 1) % 0x1_0000_0000 else 1
    {
      MakeKeeps(View(), ref, o);
      var index := TakeSlot(ref);
      memory := memory[ref := o];
      IndexInsert(index, o);
      assert table[index] in table;
      handle := Compose(index, table[index].version);
      ComposeExtract(index, table[index].version);
    }

    /** `v_get_object`. */
    method Get(handle: Handle) returns (ref: Option<Ref>)
      ensures ref == Resolve(View().table, handle)
    {
      var index, version := ExtractIndex(handle), ExtractVersion(handle);
      if index >= |table| || table[index].isFree {
        return None;
      }
      if table[index].version != version {
        return None;
      }
      return table[index].ref;
    }

    /** The destroyed slot goes to the head of the free list; its version stays. */
    method ReleaseSlot(i: nat)
      requires i < |table|
      modifies this`table, this`freeHead
      ensures View() == old(View()).(table := Free(old(View()).table, i))
    {
      table := table[i := Entry(None, table[i].version, true, freeHead)];
      freeHead := i;
    }

    /** `v_destroy_object`: false exactly for a handle that is not current. */
    method Destroy(handle: Handle) returns (ok: bool)
      requires Sound(View())
      modifies this
      ensures ok == Lookup(old(View()).table, handle).Some?
      ensures View() == DestroyObject(old(View()), handle)
      ensures Sound(View()) && Resolve(View().table, handle) == None
    {
      var index, version := ExtractIndex(handle), ExtractVersion(handle);
      if index >= |table| || table[index].isFree {
        return false;
      }
      if table[index].version != version {
        return false;
      }
      DropKeeps(View(), handle);
      IndexRemove(index, memory[table[index].ref.value]);
      ReleaseSlot(index);
      ok := true;
    }

    /** `v_get_object_count`. */
    method Count() returns (count: nat)
      requires Sound(View())
      ensures count == Sum(LiveWeight, (), table)
    {
      count := 0;
      for i := 0 to |table|
        invariant count == Sum(LiveWeight, (), table[..i])
      {
        SumAppend(LiveWeight, (), table[..i], table[i]);
        assert table[..i + 1] == table[..i] + [table[i]];
        if !table[i].isFree && table[i].ref.Some? {
          count := count + 1;
        }
      }
      assert table[..|table|] == table;
    }

    method PurgeSlot(i: nat)
      modifies this`labelIndex, this`idIndex, this`classIndex
      ensures View() == old(View()).(index := Purge(old(View()).index, i))
    {
      var rest := EraseAll(Index(labelIndex, idIndex, classIndex), i);
      SetIndices(rest);
    }

    /** `v_reindex`: whatever the entries of the slot were, they are exact afterwards. */
    method Refresh(handle: Handle)
      requires RefsKnown(View())
      modifies this`labelIndex, this`idIndex, this`classIndex
      ensures View() == Reindex(old(View()), handle)
    {
      var index, version := ExtractIndex(handle), ExtractVersion(handle);
      if index >= |table| || table[index].isFree || table[index].ref.None? {
        return;
      }
      if table[index].version != version {
        return;
      }
      PurgeSlot(index);
      IndexInsert(index, memory[table[index].ref.value]);
    }

    /** The candidate slots of a template that names an indexed attribute. */
    method Candidates(t: Template) returns (slots: seq<nat>)
      requires Indexed(t)
      ensures forall i: nat :: multiset(slots)[i] == CandidateCount(View().index, t, i)
    {
      slots := [];
      var hasIndexed := false;
      if ByClass(t) {
        var cls := LittleEndian.GetLoop(t[CKA_CLASS], CLASS_SIZE);
        ClassValueIsLow(t[CKA_CLASS]);
        slots := EqualRange(classIndex, cls % WORD);
        hasIndexed := true;
        if slots == [] {
          return;
        }
      }
      if CKA_LABEL in t {
        var range := EqualRange(labelIndex, t[CKA_LABEL]);
        if hasIndexed {
          slots := Intersect(range, slots);
        } else {
          slots := range;
          hasIndexed := true;
        }
        if slots == [] {
          return;
        }
      }
      if CKA_ID in t {
        var range := EqualRange(idIndex, t[CKA_ID]);
        if hasIndexed {
          slots := Intersect(range, slots);
        } else {
          slots := range;
        }
      }
    }

    /** Copies the live slots among `slots` together with the objects they hold. */
    method Snapshot(slots: seq<nat>) returns (snap: seq<(nat, Ref)>)
      ensures forall p: (nat, Ref) :: multiset(snap)[p] ==
                if IsLive(View().table, p.0) && table[p.0].ref == Some(p.1) then multiset(slots)[p.0] else 0
    {
      snap := [];
      for k := 0 to |slots|
        invariant forall p: (nat, Ref) :: multiset(snap)[p] ==
                    if IsLive(View().table, p.0) && table[p.0].ref == Some(p.1) then multiset(slots[..k])[p.0] else 0
      {
        assert slots[..k + 1] == slots[..k] + [slots[k]];
        var i := slots[k];
        if i < |table| && !table[i].isFree && table[i].ref.Some? {
          snap := snap + [(i, table[i].ref.value)];
        }
      }
      assert slots[..|slots|] == slots;
    }

    method AllSlots() returns (slots: seq<nat>)
      ensures forall i: nat :: multiset(slots)[i] == if i < |table| then 1 else 0
    {
      slots := [];
      for k := 0 to |table|
        invariant forall i: nat :: multiset(slots)[i] == if i < k then 1 else 0
      {
        slots := slots + [k];
      }
    }

    /** Other threads use the store for a while; the caller learns only that it is what some run makes of it. */
    method Yield(ghost w: World)
      requires Sound(View()) && Later(w, View())
      modifies this
      ensures Sound(View()) && Later(w, View())
    {
    }

    /**
     Matches a copied object against the whole template and looks at its slot again. Other threads run before
     either, as neither is under the lock that the copy was made under.
     */
    method Recheck(t: Template, p: (nat, Ref), ghost w: World) returns (hit: seq<Handle>, ghost x: World,
                   ghost y: World)
      requires Sound(View()) && Later(w, View())
      modifies this
      ensures Sound(View()) && Later(w, View())
      ensures Later(w, x) && Later(w, y) && WordSized(y.table)
      ensures hit == if Accepts(t, p, x.memory, y.table) then [SlotHandle(y.table, p.0)] else []
    {
      Yield(w);
      var (i, ref) := p;
      var matched := false;
      if ref in memory {
        matched := MatchTemplate(memory[ref], t);
      }
      x := View();
      Yield(w);
      y := View();
      hit := [];
      if matched && i < |table| && !table[i].isFree && table[i].ref == Some(ref) {
        hit := [SlotHandle(Table(table, freeHead), i)];
      }
    }

    /** Rechecks the copied entries one after another. */
    method Revalidate(t: Template, snap: seq<(nat, Ref)>, ghost w: World)
      returns (found: seq<Handle>, ghost mems: seq<Memory>, ghost tables: seq<Table>)
      requires Sound(View()) && Later(w, View())
      modifies this
      ensures Sound(View()) && Later(w, View()) && LookedAt(w, mems, tables) && |mems| == |snap|
      ensures (forall x <- tables :: WordSized(x)) && found == FindAll(t, snap, mems, tables)
    {
      found, mems, tables := [], [], [];
      for k := 0 to |snap|
        invariant Sound(View()) && Later(w, View()) && LookedAt(w, mems, tables) && |mems| == k
        invariant (forall x <- tables :: WordSized(x)) && found == FindAll(t, snap[..k], mems, tables)
      {
        var hit;
        ghost var x, y;
        hit, x, y := Recheck(t, snap[k], w);
        LookedAtMore(w, mems, tables, x, y);
        FindNext(t, snap, mems, tables, k, x.memory, y.table);
        found, mems, tables := found + hit, mems + [x.memory], tables + [y.table];
      }
      assert snap[..|snap|] == snap;
    }

    /** `v_all_handles`: the handles of the live slots in slot order, under one lock. */
    method AllHandles() returns (found: seq<Handle>)
      requires Sound(View())
      ensures found == LiveHandles(View().table, |table|)
    {
      found := [];
      for i := 0 to |table|
        invariant found == LiveHandles(View().table, i)
      {
        if !table[i].isFree && table[i].ref.Some? {
          found := found + [SlotHandle(Table(table, freeHead), i)];
        }
      }
    }

    /** The first part of the search, under one lock: the candidates that are live, with the objects they hold. */
    method TakeSnapshot(t: Template) returns (snap: seq<(nat, Ref)>)
      ensures IsSnapshot(View(), t, snap)
    {
      var slots;
      if Indexed(t) {
        slots := Candidates(t);
      } else {
        slots := AllSlots();
      }
      snap := Snapshot(slots);
    }

    /**
     `v_find_all_by_attributes`. A handle that is returned designated the matching object already when the snapshot was
     taken, whatever happened since; if nothing happened and the indices are exact, the result is that of a scan exactly
     if all matches are findable.
     */
    method FindAllByAttributes(t: Template)
      returns (found: seq<Handle>, ghost snap: seq<(nat, Ref)>, ghost mems: seq<Memory>, ghost tables: seq<Table>)
      requires Sound(View())
      modifies this
      ensures Sound(View()) && Later(old(View()), View())
      ensures t == map[] ==> found == LiveHandles(old(View()).table, |old(table)|)
      ensures t != map[] ==>
                && IsSnapshot(old(View()), t, snap) && LookedAt(old(View()), mems, tables)
                && |mems| == |snap| && (forall x <- tables :: WordSized(x))
                && found == FindAll(t, snap, mems, tables)
                && (forall h <- found ::
                      exists k: nat :: k < |snap| && FoundAs(t, snap[k], mems[k], old(View()).table, h))
                && (Undisturbed(old(View()), mems, tables) ==> found == FindQuietly(old(View()), t, snap))
      ensures t != map[] && Undisturbed(old(View()), mems, tables) && Synced(old(View())) ==>
                (ScanResult(old(View()), t, found) <==> AllFindable(old(View()), t))
    {
      ghost var w := View();
      LaterSelf(w);
      if t == map[] {
        found := AllHandles();
        snap, mems, tables := [], [], [];
        return;
      }
      var copy := TakeSnapshot(t);
      snap := copy;
      found, mems, tables := Revalidate(t, copy, w);
      forall h <- found ensures exists k: nat :: k < |snap| && FoundAs(t, snap[k], mems[k], w.table, h) {
        FoundWasThere(w, t, snap, mems, tables, h);
      }
      if Undisturbed(w, mems, tables) {
        UndisturbedIsQuiet(w, t, snap, mems, tables);
        if Synced(w) {
          FindIsScanExactly(w, t, snap);
        }
      }
    }

    /**
     `C_SetAttributeValue`, undisturbed: writes what it can, and calls `v_reindex` only if nothing was refused.
     False if a change was refused or the handle is not current.
     */
    method SetAttributeValue(handle: Handle, cs: seq<Change>) returns (ok: bool)
      requires Sound(View())
      modifies this
      ensures View() == SetAttributes(old(View()), handle, cs)
      ensures ok == (Resolve(old(View()).table, handle).Some? && AllFit(cs))
    {
      var found := Get(handle);
      if found.None? {
        return false;
      }
      var ref := found.value;
      ghost var w := View();
      ok := true;
      for k := 0 to |cs|
        invariant ref in w.memory && ref in memory && memory[ref] == Changed(w.memory[ref], cs[..k])
        invariant View() == WriteObject(w, ref, Changed(w.memory[ref], cs[..k]))
        invariant ok == AllFit(cs[..k])
        modifies this`memory
      {
        OneMoreChange(w.memory[ref], cs, k);
        var after := SetAttribute(memory[ref], cs[k]);
        if after.Some? {
          memory := memory[ref := after.value];
        } else {
          ok := false;
        }
      }
      assert cs[..|cs|] == cs;
      if ok {
        WriteKeeps(w, ref, Changed(w.memory[ref], cs), Lookup(w.table, handle).value);
        Refresh(handle);
      }
    }
  }
}
