/**
 Object handles (src/keystore/object_store.h, object_store.cpp): a table of slots with an
 intrusive free list, and a version per slot that tells a slot's tenants apart. A handle is
 the slot index in the upper 32 bits and the version in the lower 32.
 */
module HandleTable {
  import opened Wrappers
  import opened Sums
  import opened Widths

  /** Number of values of a 32-bit word. */
  const WORD := 0x1_0000_0000

  /** UINT32_MAX: the end of the free list, and the index no slot can have. */
  const END := 0xFFFF_FFFF

  /** 0 is never a handle. */
  const INVALID_HANDLE := 0

  type Handle = nat

  /** Identity of an object: what `shared_ptr::get` compares. An address is not reused while a pointer is held. */
  type Ref = nat

  datatype Entry = Entry(ref: Option<Ref>, version: nat, isFree: bool, nextFree: nat)

  datatype Table = Table(entries: seq<Entry>, freeHead: nat)

  function Compose(index: nat, version: nat): Handle
    requires index < WORD && version < WORD
  {
    index * WORD + version
  }

  function ExtractIndex(h: Handle): nat { (h / WORD) % WORD }

  function ExtractVersion(h: Handle): nat { h % WORD }

  lemma ComposeExtract(index: nat, version: nat)
    requires index < WORD && version < WORD
    ensures ExtractIndex(Compose(index, version)) == index
    ensures ExtractVersion(Compose(index, version)) == version
  {
  }

  predicate IsLive(t: Table, i: nat) {
    i < |t.entries| && !t.entries[i].isFree
  }

  /** The slot a handle designates, if the handle is current. */
  function Lookup(t: Table, h: Handle): Option<nat> {
    var i := ExtractIndex(h);
    if IsLive(t, i) && t.entries[i].version == ExtractVersion(h) then Some(i) else None
  }

  /** `v_get_object`. */
  function Resolve(t: Table, h: Handle): Option<Ref> {
    match Lookup(t, h)
    case Some(i) => t.entries[i].ref
    case None => None
  }

  /** A free-list head that can be followed, and room for one more slot. */
  predicate CanAllocate(t: Table) {
    if t.freeHead != END then t.freeHead < |t.entries| else |t.entries| < END
  }

  function NextSlot(t: Table): nat {
    if t.freeHead != END then t.freeHead else |t.entries|
  }

  /** The table part of `v_create_object`: pop the free list or append, then bump the version. */
  function Allocate(t: Table, ref: Ref): Table
    requires CanAllocate(t)
  {
    if t.freeHead != END then
      var e := t.entries[t.freeHead];
      Table(t.entries[t.freeHead := Entry(Some(ref), (e.version + 1) % WORD, false, e.nextFree)], e.nextFree)
    else
      Table(t.entries + [Entry(Some(ref), 1, false, END)], END)
  }

  /** The table part of `v_destroy_object`, for a handle that designates slot `i`. */
  function Free(t: Table, i: nat): Table
    requires i < |t.entries|
  {
    Table(t.entries[i := Entry(None, t.entries[i].version, true, t.freeHead)], i)
  }

  // ---------------------------------------------------------------------------
  // Runs, with the history that the properties speak about
  // ---------------------------------------------------------------------------

  /** The `ordinal`-th object placed in `slot`, counting from 1. */
  datatype Birth = Birth(slot: nat, ordinal: nat, ref: Ref)

  /** A table together with every object it ever issued a handle for. */
  datatype History = History(table: Table, births: seq<Birth>, uses: seq<nat>, free: seq<nat>, destroyed: nat)

  datatype Op = Create(ref: Ref) | Destroy(handle: Handle)

  const FRESH := History(Table([], END), [], [], [], 0)

  function IssuedHandle(b: Birth): Handle
    requires b.slot < WORD
  {
    Compose(b.slot, b.ordinal % WORD)
  }

  function Step(h: History, op: Op): History {
    match op
    case Create(ref) =>
      // 2^32 - 1 live objects: the source would append a slot whose index is the end marker.
      if !CanAllocate(h.table) then h else
      var i := NextSlot(h.table);
      var n := (if i < |h.uses| then h.uses[i] else 0) + 1;
      History(Allocate(h.table, ref), h.births + [Birth(i, n, ref)],
              if i < |h.uses| then h.uses[i := n] else h.uses + [n],
              if h.free != [] then h.free[1..] else [], h.destroyed)
    case Destroy(handle) =>
      match Lookup(h.table, handle)
      case Some(i) => h.(table := Free(h.table, i), free := [i] + h.free, destroyed := h.destroyed + 1)
      case None => h
  }

  // The invariant, one part per concern.

  /** What a link at position `k` of the walk has to be. */
  function WalkAt(free: seq<nat>, k: nat): nat {
    if k < |free| then free[k] else END
  }

  predicate Linked(t: Table, free: seq<nat>, k: nat)
    requires k < |free|
  {
    free[k] < |t.entries| && t.entries[free[k]].isFree && t.entries[free[k]].nextFree == WalkAt(free, k + 1)
  }

  /** `free` is the walk along the free list: every free slot once, and no live slot. */
  predicate IsFreeList(t: Table, free: seq<nat>) {
    && t.freeHead == WalkAt(free, 0)
    && (forall k: nat :: k < |free| ==> Linked(t, free, k))
    && (forall k, l :: 0 <= k < l < |free| ==> free[k] != free[l])
    && (forall i: nat :: i < |t.entries| && t.entries[i].isFree ==> i in free)
  }

  lemma HeadIsFree(t: Table, free: seq<nat>)
    requires IsFreeList(t, free)
    ensures t.freeHead != END ==> t.freeHead < |t.entries| && t.entries[t.freeHead].isFree
  {
    if t.freeHead != END {
      assert Linked(t, free, 0);
    }
  }

  /** The version of a slot is the number of its tenants so far, in 32 bits. */
  predicate VersionsCount(h: History) {
    && |h.uses| == |h.table.entries| <= END
    && forall i: nat :: i < |h.uses| ==>
         && h.uses[i] >= 1
         && h.table.entries[i].version == h.uses[i] % WORD
         && (h.table.entries[i].isFree <==> h.table.entries[i].ref.None?)
  }

  /** Each tenancy (slot, ordinal) occurs once among the births, up to the number of uses of the slot. */
  predicate BirthsDistinct(h: History) {
    && (forall k :: 0 <= k < |h.births| ==>
          h.births[k].slot < |h.uses| && 1 <= h.births[k].ordinal <= h.uses[h.births[k].slot])
    && (forall k, l :: 0 <= k < l < |h.births| ==>
          h.births[k].slot != h.births[l].slot || h.births[k].ordinal != h.births[l].ordinal)
  }

  predicate HasBirth(h: History, i: nat, n: nat) {
    exists b <- h.births :: b.slot == i && b.ordinal == n
  }

  predicate BirthsComplete(h: History) {
    forall i: nat, n: nat :: i < |h.uses| && 1 <= n <= h.uses[i] ==> HasBirth(h, i, n)
  }

  /** A live slot holds the object of its latest tenancy. */
  predicate TenantsKnown(h: History) {
    |h.uses| == |h.table.entries| &&
    forall b <- h.births ::
      b.slot < |h.uses| && h.uses[b.slot] == b.ordinal && IsLive(h.table, b.slot) ==>
        h.table.entries[b.slot].ref == Some(b.ref)
  }

  function LiveWeight(u: (), e: Entry): int { if e.isFree then 0 else 1 }

  predicate CountsAgree(h: History) {
    Sum(LiveWeight, (), h.table.entries) == |h.births| - h.destroyed
  }

  predicate Inv(h: History) {
    && IsFreeList(h.table, h.free) && VersionsCount(h)
    && BirthsDistinct(h) && BirthsComplete(h) && TenantsKnown(h) && CountsAgree(h)
  }

  // Every step keeps the invariant

  lemma CreateKeepsFreeList(t: Table, free: seq<nat>, ref: Ref)
    requires IsFreeList(t, free) && CanAllocate(t) && |t.entries| <= END
    ensures IsFreeList(Allocate(t, ref), if free != [] then free[1..] else [])
  {
    if free != [] {
      var t', rest := Allocate(t, ref), free[1..];
      assert Linked(t, free, 0);
      forall k: nat | k < |rest| ensures Linked(t', rest, k) {
        assert Linked(t, free, k + 1) && rest[k] == free[k + 1];
      }
      forall i: nat | i < |t'.entries| && t'.entries[i].isFree ensures i in rest {
        assert i in free && i != free[0];
      }
    }
  }

  lemma CreateKeepsBirths(h: History, h': History, b: Birth)
    requires Inv(h) && b.slot <= |h.uses| <= |h'.uses| && b.slot < |h'.uses|
    requires b.ordinal == (if b.slot < |h.uses| then h.uses[b.slot] else 0) + 1
    requires h'.births == h.births + [b]
    requires h'.uses == if b.slot < |h.uses| then h.uses[b.slot := b.ordinal] else h.uses + [b.ordinal]
    ensures BirthsDistinct(h') && BirthsComplete(h')
  {
    forall i: nat, n: nat | i < |h'.uses| && 1 <= n <= h'.uses[i] ensures HasBirth(h', i, n) {
      if i == b.slot && n == b.ordinal {
        assert b in h'.births;
      } else {
        assert HasBirth(h, i, n);
        var x :| x in h.births && x.slot == i && x.ordinal == n;
        assert x in h'.births;
      }
    }
  }

  lemma CreateKeepsTenants(h: History, h': History, b: Birth)
    requires BirthsDistinct(h) && TenantsKnown(h)
    requires CanAllocate(h.table) && b.slot == NextSlot(h.table)
    requires b.ordinal == (if b.slot < |h.uses| then h.uses[b.slot] else 0) + 1
    requires h'.table == Allocate(h.table, b.ref) && h'.births == h.births + [b]
    requires h'.uses == if b.slot < |h.uses| then h.uses[b.slot := b.ordinal] else h.uses + [b.ordinal]
    ensures TenantsKnown(h')
  {
    forall x <- h'.births | x.slot < |h'.uses| && h'.uses[x.slot] == x.ordinal && IsLive(h'.table, x.slot)
      ensures h'.table.entries[x.slot].ref == Some(x.ref)
    {
      var k :| 0 <= k < |h'.births| && h'.births[k] == x;
      if k < |h.births| {
        assert h.births[k] in h.births && x.slot != b.slot;
      }
    }
  }

  lemma CreateKeepsVersions(h: History, h': History, ref: Ref)
    requires IsFreeList(h.table, h.free) && VersionsCount(h) && CanAllocate(h.table)
    requires h'.table == Allocate(h.table, ref)
    requires var i := NextSlot(h.table);
             h'.uses == if i < |h.uses| then h.uses[i := h.uses[i] + 1] else h.uses + [1]
    ensures VersionsCount(h')
  {
  }

  lemma CreateKeepsInv(h: History, ref: Ref)
    requires Inv(h)
    ensures Inv(Step(h, Create(ref)))
  {
    if CanAllocate(h.table) {
      HeadIsFree(h.table, h.free);
      var h', i := Step(h, Create(ref)), NextSlot(h.table);
      var b := Birth(i, (if i < |h.uses| then h.uses[i] else 0) + 1, ref);
      CreateKeepsFreeList(h.table, h.free, ref);
      CreateKeepsVersions(h, h', ref);
      CreateKeepsBirths(h, h', b);
      CreateKeepsTenants(h, h', b);
      CreateCounts(h.table, ref);
    }
  }

  lemma CreateCounts(t: Table, ref: Ref)
    requires CanAllocate(t)
    requires t.freeHead != END ==> t.entries[t.freeHead].isFree
    ensures Sum(LiveWeight, (), Allocate(t, ref).entries) == Sum(LiveWeight, (), t.entries) + 1
  {
    if t.freeHead != END {
      SumUpdate(LiveWeight, (), t.entries, t.freeHead, Allocate(t, ref).entries[t.freeHead]);
    } else {
      SumAppend(LiveWeight, (), t.entries, Entry(Some(ref), 1, false, END));
    }
  }

  lemma DestroyKeepsFreeList(t: Table, free: seq<nat>, i: nat)
    requires IsFreeList(t, free) && IsLive(t, i)
    ensures IsFreeList(Free(t, i), [i] + free)
  {
    var t', free' := Free(t, i), [i] + free;
    forall k: nat | k < |free'| ensures Linked(t', free', k) {
      if k > 0 { assert Linked(t, free, k - 1); }
    }
    forall k: nat | k < |free| ensures free[k] != i {
      assert Linked(t, free, k);
    }
    forall j: nat | j < |t'.entries| && t'.entries[j].isFree ensures j in free' {
      assert j == i || j in free;
    }
  }

  lemma DestroyKeepsRest(h: History, h': History, i: nat)
    requires VersionsCount(h) && BirthsComplete(h) && TenantsKnown(h) && IsLive(h.table, i)
    requires h'.table == Free(h.table, i) && h'.births == h.births && h'.uses == h.uses
    ensures VersionsCount(h') && BirthsComplete(h') && TenantsKnown(h')
  {
    forall j: nat, n: nat | j < |h'.uses| && 1 <= n <= h'.uses[j] ensures HasBirth(h', j, n) {
      assert HasBirth(h, j, n);
    }
  }

  lemma DestroyKeepsInv(h: History, handle: Handle)
    requires Inv(h)
    ensures Inv(Step(h, Destroy(handle)))
  {
    match Lookup(h.table, handle)
    case None =>
    case Some(i) =>
      var h' := Step(h, Destroy(handle));
      DestroyKeepsFreeList(h.table, h.free, i);
      DestroyKeepsRest(h, h', i);
      SumUpdate(LiveWeight, (), h.table.entries, i, h'.table.entries[i]);
  }

  lemma StepKeepsInv(h: History, op: Op)
    requires Inv(h)
    ensures Inv(Step(h, op))
  {
    match op
    case Create(ref) => CreateKeepsInv(h, ref);
    case Destroy(handle) => DestroyKeepsInv(h, handle);
  }

  /** The history after a run. */
  function RunFrom(h: History, ops: seq<Op>): History {
    if ops == [] then h else Step(RunFrom(h, ops[..|ops| - 1]), ops[|ops| - 1])
  }

  function Run(ops: seq<Op>): History { RunFrom(FRESH, ops) }

  lemma {:induction false} RunFromKeepsInv(h: History, ops: seq<Op>)
    requires Inv(h)
    ensures Inv(RunFrom(h, ops))
  {
    if ops != [] {
      RunFromKeepsInv(h, ops[..|ops| - 1]);
      StepKeepsInv(RunFrom(h, ops[..|ops| - 1]), ops[|ops| - 1]);
    }
  }

  lemma FreshInv(h: History)
    requires h == FRESH
    ensures Inv(h)
  {
  }

  /** The invariant of every reachable state. */
  lemma RunKeepsInv(ops: seq<Op>)
    ensures Inv(Run(ops))
  {
    var h := FRESH;
    FreshInv(h);
    RunFromKeepsInv(h, ops);
  }

  /** The number of live objects is the number of objects created minus the number of successful destroys. */
  lemma LiveCount(ops: seq<Op>)
    ensures Sum(LiveWeight, (), Run(ops).table.entries) == |Run(ops).births| - Run(ops).destroyed
  {
    RunKeepsInv(ops);
  }

  // ---------------------------------------------------------------------------
  // What the invariant means for callers
  // ---------------------------------------------------------------------------

  /** The free list of every reachable table visits each free slot exactly once, and no live slot. */
  lemma FreeListExact(ops: seq<Op>) returns (free: seq<nat>)
    ensures IsFreeList(Run(ops).table, free)
    ensures forall i: nat :: i in free <==> i < |Run(ops).table.entries| && !IsLive(Run(ops).table, i)
  {
    RunKeepsInv(ops);
    free := Run(ops).free;
    var t := Run(ops).table;
    forall i: nat ensures i in free <==> i < |t.entries| && !IsLive(t, i) {
      if i in free {
        var k: nat :| k < |free| && free[k] == i;
        assert Linked(t, free, k);
      }
    }
  }

  predicate AllLive(t: Table) { forall i: nat :: i < |t.entries| ==> IsLive(t, i) }

  lemma HeadExactly(h: History)
    requires Inv(h)
    ensures h.table.freeHead == END <==> AllLive(h.table)
    ensures h.table.freeHead != END ==> h.table.freeHead < |h.table.entries| && !IsLive(h.table, h.table.freeHead)
    ensures CanAllocate(h.table) <==> !AllLive(h.table) || |h.table.entries| < 0xFFFF_FFFF
  {
    if h.free != [] {
      assert Linked(h.table, h.free, 0);
      assert !IsLive(h.table, h.free[0]);
    }
  }

  lemma CreatedIn(h: History, h': History, ref: Ref)
    requires Inv(h) && CanAllocate(h.table) && h' == Step(h, Create(ref))
    ensures |h'.births| == |h.births| + 1 && h'.births[..|h.births|] == h.births
    ensures var b := h'.births[|h.births|];
            && b.slot < WORD && b.ref == ref
            && (if AllLive(h.table)
                then IssuedHandle(b) == |h.table.entries| * 0x1_0000_0000 + 1
                     && |h'.table.entries| == |h.table.entries| + 1
                else IssuedHandle(b) / 0x1_0000_0000 < |h.table.entries| == |h'.table.entries|
                     && !IsLive(h.table, IssuedHandle(b) / 0x1_0000_0000))
  {
    HeadExactly(h);
    var b := h'.births[|h.births|];
    DivMod(IssuedHandle(b), WORD, b.slot, b.ordinal % WORD);
  }

  /**
   A new object takes a free slot if there is one; only otherwise does the table grow, and the handle is then the number
   of slots in the high half with version 1 in the low half. There is no room exactly with 2^32 - 1 live slots.
   */
  lemma NewHandle(ops: seq<Op>, ref: Ref)
    requires !AllLive(Run(ops).table) || |Run(ops).table.entries| < 0xFFFF_FFFF
    ensures var h, h' := Run(ops), Run(ops + [Create(ref)]);
            && |h'.births| == |h.births| + 1 && h'.births[..|h.births|] == h.births
            && var b := h'.births[|h.births|];
               && b.slot < WORD && b.ref == ref
               && (if AllLive(h.table)
                   then IssuedHandle(b) == |h.table.entries| * 0x1_0000_0000 + 1
                        && |h'.table.entries| == |h.table.entries| + 1
                   else IssuedHandle(b) / 0x1_0000_0000 < |h.table.entries| == |h'.table.entries|
                        && !IsLive(h.table, IssuedHandle(b) / 0x1_0000_0000))
  {
    RunKeepsInv(ops);
    HeadExactly(Run(ops));
    RunSnoc(FRESH, ops, Create(ref));
    CreatedIn(Run(ops), Run(ops + [Create(ref)]), ref);
  }

  lemma ReusedIn(h: History, handle: Handle, ref: Ref, h': History)
    requires Inv(h) && Lookup(h.table, handle).Some? && handle < 0x1_0000_0000_0000_0000
    requires h' == Step(Step(h, Destroy(handle)), Create(ref))
    ensures h'.births != [] && h'.births[|h'.births| - 1].slot < WORD
    ensures IssuedHandle(h'.births[|h'.births| - 1])
         == if handle % 0x1_0000_0000 == 0xFFFF_FFFF then handle - 0xFFFF_FFFF else handle + 1
  {
    var i := Lookup(h.table, handle).value;
    assert handle == i * WORD + handle % WORD;
    var n := h.uses[i];
    assert n % WORD == handle % WORD;
    NextVersion(n);
  }

  lemma NextVersion(n: nat)
    ensures (n + 1) % WORD == if n % WORD == WORD - 1 then 0 else n % WORD + 1
  {
  }

  /** The slot freed last is the first to be reused: the next handle is the old one with its version counted up. */
  lemma ReusedHandle(ops: seq<Op>, handle: Handle, ref: Ref)
    requires Lookup(Run(ops).table, handle).Some? && handle < 0x1_0000_0000_0000_0000
    ensures var h' := Run(ops + [Destroy(handle)] + [Create(ref)]);
            && h'.births != [] && h'.births[|h'.births| - 1].slot < WORD
            && IssuedHandle(h'.births[|h'.births| - 1])
               == if handle % 0x1_0000_0000 == 0xFFFF_FFFF then handle - 0xFFFF_FFFF else handle + 1
  {
    RunKeepsInv(ops);
    RunSnoc(FRESH, ops, Destroy(handle));
    RunSnoc(FRESH, ops + [Destroy(handle)], Create(ref));
    ReusedIn(Run(ops), handle, ref, Run(ops + [Destroy(handle)] + [Create(ref)]));
  }

  predicate SlotsInRange(h: History) {
    forall b <- h.births :: b.slot < WORD
  }

  ghost predicate HandlesDistinct(h: History)
    requires SlotsInRange(h)
  {
    forall k, l :: 0 <= k < l < |h.births| ==> IssuedHandle(h.births[k]) != IssuedHandle(h.births[l])
  }

  lemma SameHandle(b: Birth, c: Birth)
    requires b.slot < WORD && c.slot < WORD
    ensures IssuedHandle(b) == IssuedHandle(c) <==> b.slot == c.slot && b.ordinal % WORD == c.ordinal % WORD
  {
    ComposeExtract(b.slot, b.ordinal % WORD);
    ComposeExtract(c.slot, c.ordinal % WORD);
  }

  lemma DistinctIfFewUses(h: History, k: nat, l: nat)
    requires BirthsDistinct(h) && SlotsInRange(h) && k < l < |h.births|
    requires forall i: nat :: i < |h.uses| ==> h.uses[i] <= WORD
    ensures IssuedHandle(h.births[k]) != IssuedHandle(h.births[l])
  {
    SameHandle(h.births[k], h.births[l]);
  }

  lemma RepeatedIfManyUses(h: History, i: nat)
    requires BirthsComplete(h) && SlotsInRange(h) && i < |h.uses| && h.uses[i] > WORD
    ensures !HandlesDistinct(h)
  {
    assert HasBirth(h, i, 1) && HasBirth(h, i, WORD + 1);
    var k :| 0 <= k < |h.births| && h.births[k].slot == i && h.births[k].ordinal == 1;
    var l :| 0 <= l < |h.births| && h.births[l].slot == i && h.births[l].ordinal == WORD + 1;
    SameHandle(h.births[k], h.births[l]);
    if k < l {
      assert IssuedHandle(h.births[k]) == IssuedHandle(h.births[l]);
    } else {
      assert IssuedHandle(h.births[l]) == IssuedHandle(h.births[k]);
    }
  }

  /** No handle is ever issued twice exactly while no slot has been used more than 2^32 times. */
  lemma HandlesDistinctExactly(ops: seq<Op>)
    ensures var h := Run(ops);
            SlotsInRange(h) && (HandlesDistinct(h) <==> forall i: nat :: i < |h.uses| ==> h.uses[i] <= WORD)
  {
    var h := Run(ops);
    RunKeepsInv(ops);
    if i: nat :| i < |h.uses| && h.uses[i] > WORD {
      RepeatedIfManyUses(h, i);
    } else {
      forall k, l | 0 <= k < l < |h.births| ensures IssuedHandle(h.births[k]) != IssuedHandle(h.births[l]) {
        DistinctIfFewUses(h, k, l);
      }
    }
  }

  /** The reserved handle 0 is never issued exactly while slot 0 has been used fewer than 2^32 times. */
  lemma HandlesNonZeroExactly(ops: seq<Op>)
    ensures var h := Run(ops);
            (forall b <- h.births :: b.slot < WORD && IssuedHandle(b) != INVALID_HANDLE)
              <==> (h.uses == [] || h.uses[0] < WORD)
  {
    RunKeepsInv(ops);
    NonZeroIn(Run(ops));
  }

  lemma NonZeroIn(h: History)
    requires VersionsCount(h) && BirthsDistinct(h) && BirthsComplete(h)
    ensures (forall b <- h.births :: b.slot < WORD && IssuedHandle(b) != INVALID_HANDLE)
              <==> (h.uses == [] || h.uses[0] < WORD)
  {
    if h.uses != [] && h.uses[0] >= WORD {
      assert HasBirth(h, 0, WORD);
    } else {
      forall b <- h.births ensures b.slot < WORD && IssuedHandle(b) != INVALID_HANDLE {
        if b.slot == 0 { assert 1 <= b.ordinal < WORD; }
      }
    }
  }

  /**
   An issued handle resolves exactly when its slot is live and the slot has since been reused a multiple of
   2^32 times; with fewer reuses that means never reused, and the handle resolves to its own object.
   */
  lemma ResolvesExactly(ops: seq<Op>, b: Birth)
    requires b in Run(ops).births
    ensures var h := Run(ops);
            && b.slot < WORD && b.slot < |h.uses| && b.ordinal <= h.uses[b.slot]
            && var reuses := h.uses[b.slot] - b.ordinal;
               && (Resolve(h.table, IssuedHandle(b)).Some? <==> IsLive(h.table, b.slot) && reuses % WORD == 0)
               && (reuses < WORD ==>
                     Resolve(h.table, IssuedHandle(b)) ==
                       if IsLive(h.table, b.slot) && reuses == 0 then Some(b.ref) else None)
  {
    RunKeepsInv(ops);
    ResolvesIn(Run(ops), b);
  }

  lemma ResolvesIn(h: History, b: Birth)
    requires VersionsCount(h) && BirthsDistinct(h) && TenantsKnown(h) && b in h.births
    ensures var reuses := h.uses[b.slot] - b.ordinal;
            && b.slot < WORD
            && (Resolve(h.table, IssuedHandle(b)).Some? <==> IsLive(h.table, b.slot) && reuses % WORD == 0)
            && (reuses < WORD ==>
                  Resolve(h.table, IssuedHandle(b)) ==
                    if IsLive(h.table, b.slot) && reuses == 0 then Some(b.ref) else None)
  {
    ComposeExtract(b.slot, b.ordinal % WORD);
    assert h.table.entries[b.slot].version == h.uses[b.slot] % WORD;
    ModuloAgrees(h.uses[b.slot], b.ordinal);
  }

  lemma ModuloAgrees(x: nat, y: nat)
    requires y <= x
    ensures x % WORD == y % WORD <==> (x - y) % WORD == 0
  {
  }

  lemma TenantAfterStep(h: History, op: Op, i: nat, n: nat)
    requires Inv(h) && i < |h.uses| && n <= h.uses[i] && (IsLive(h.table, i) ==> n < h.uses[i])
    ensures var h' := Step(h, op);
            i < |h'.uses| && n <= h'.uses[i] && (IsLive(h'.table, i) ==> n < h'.uses[i])
  {
  }

  /** After a destroy the slot's later tenants all have a higher ordinal. */
  lemma {:induction false} LaterTenants(h: History, i: nat, later: seq<Op>)
    requires Inv(h) && i < |h.uses| && !IsLive(h.table, i)
    ensures var h' := RunFrom(h, later);
            i < |h'.uses| && h.uses[i] <= h'.uses[i] && (IsLive(h'.table, i) ==> h.uses[i] < h'.uses[i])
  {
    if later != [] {
      LaterTenants(h, i, later[..|later| - 1]);
      RunFromKeepsInv(h, later[..|later| - 1]);
      TenantAfterStep(RunFrom(h, later[..|later| - 1]), later[|later| - 1], i, h.uses[i]);
    }
  }

  lemma StaleVersion(h: History, handle: Handle, i: nat, n: nat)
    requires VersionsCount(h) && i < |h.uses| && (IsLive(h.table, i) ==> n < h.uses[i] < n + WORD)
    requires ExtractIndex(handle) == i && ExtractVersion(handle) == n % WORD
    ensures Resolve(h.table, handle) == None
  {
    if IsLive(h.table, i) {
      ModuloAgrees(h.uses[i], n);
    }
  }

  lemma DeadFrom(h: History, handle: Handle, later: seq<Op>, d: History, h': History, i: nat)
    requires Inv(h) && i == ExtractIndex(handle) && Lookup(h.table, handle) == Some(i)
    requires d == Step(h, Destroy(handle)) && Inv(d) && h' == RunFrom(d, later)
    ensures i < |h.uses| && i < |h'.uses| && (h'.uses[i] < h.uses[i] + WORD ==> Resolve(h'.table, handle) == None)
  {
    assert h.table.entries[i].version == h.uses[i] % WORD;
    LaterTenants(d, i, later);
    RunFromKeepsInv(d, later);
    if h'.uses[i] < h.uses[i] + WORD {
      StaleVersion(h', handle, i, h.uses[i]);
    }
  }

  /** A destroyed handle does not resolve again while its slot has been reused fewer than 2^32 times since. */
  lemma DestroyedStaysDead(ops: seq<Op>, handle: Handle, later: seq<Op>)
    requires Lookup(Run(ops).table, handle).Some?
    ensures var i := ExtractIndex(handle);
            var h' := RunFrom(Run(ops + [Destroy(handle)]), later);
            && i < |Run(ops).uses| && i < |h'.uses|
            && (h'.uses[i] < Run(ops).uses[i] + WORD ==> Resolve(h'.table, handle) == None)
  {
    var d := Run(ops + [Destroy(handle)]);
    RunSnoc(FRESH, ops, Destroy(handle));
    RunKeepsInv(ops);
    RunKeepsInv(ops + [Destroy(handle)]);
    DeadFrom(Run(ops), handle, later, d, RunFrom(d, later), ExtractIndex(handle));
  }

  // Past the 32-bit range the guarantee is gone: one slot created and destroyed 2^32 times.

  function Churn(n: nat): seq<Op> {
    if n == 0 then [] else Churn(n - 1) + [Create(n)] + [Destroy(Compose(0, n % WORD))]
  }

  lemma RunSnoc(h: History, ops: seq<Op>, op: Op)
    ensures RunFrom(h, ops + [op]) == Step(RunFrom(h, ops), op)
  {
    assert (ops + [op])[..|ops|] == ops;
  }

  /** A single slot in its `n`-th tenancy, whose first tenant was object 1. */
  predicate OneSlot(h: History, n: nat) {
    && h.uses == [n] && |h.table.entries| == 1 && h.free == (if h.table.entries[0].isFree then [0] else [])
    && h.births != [] && h.births[0] == Birth(0, 1, 1)
  }

  predicate NoSlot(h: History) {
    h.table.entries == [] && h.uses == [] && h.births == []
  }

  lemma ChurnFirst(h: History)
    requires Inv(h) && NoSlot(h)
    ensures var h' := Step(h, Create(1)); OneSlot(h', 1) && IsLive(h'.table, 0)
  {
    assert h.free == [] || Linked(h.table, h.free, 0);
    var h' := Step(h, Create(1));
    assert h'.uses == [1] && h'.births == [Birth(0, 1, 1)];
    assert |h'.table.entries| == 1 && !h'.table.entries[0].isFree && h'.free == [];
  }

  lemma ChurnAgain(h: History, n: nat)
    requires Inv(h) && OneSlot(h, n) && !IsLive(h.table, 0)
    ensures var h' := Step(h, Create(n + 1)); OneSlot(h', n + 1) && IsLive(h'.table, 0)
  {
    assert h.table.freeHead == 0;
    var h' := Step(h, Create(n + 1));
    assert h'.uses == [n + 1] && h'.births == h.births + [Birth(0, n + 1, n + 1)];
    assert |h'.table.entries| == 1 && !h'.table.entries[0].isFree && h'.free == [];
  }

  lemma ChurnDestroy(h: History, n: nat)
    requires Inv(h) && OneSlot(h, n) && IsLive(h.table, 0)
    ensures var h' := Step(h, Destroy(Compose(0, n % WORD))); OneSlot(h', n) && !IsLive(h'.table, 0)
  {
    ComposeExtract(0, n % WORD);
    assert h.table.entries[0].version == h.uses[0] % WORD;
  }

  predicate Churned(h: History, n: nat) {
    if n == 0 then NoSlot(h) else OneSlot(h, n) && !IsLive(h.table, 0)
  }

  lemma ChurnMore(h: History, n: nat)
    requires Inv(h) && Churned(h, n)
    ensures Inv(Step(h, Create(n + 1)))
    ensures Churned(Step(Step(h, Create(n + 1)), Destroy(Compose(0, (n + 1) % WORD))), n + 1)
  {
    if n == 0 {
      ChurnFirst(h);
    } else {
      ChurnAgain(h, n);
    }
    StepKeepsInv(h, Create(n + 1));
    ChurnDestroy(Step(h, Create(n + 1)), n + 1);
  }

  lemma TwoMore(xs: seq<Op>, a: Op, b: Op, h: History)
    requires h == Run(xs)
    ensures Run(xs + [a] + [b]) == Step(Step(h, a), b)
  {
    RunSnoc(FRESH, xs, a);
    RunSnoc(FRESH, xs + [a], b);
  }

  lemma ChurnRun(xs: seq<Op>, n: nat, h: History)
    requires h == Run(xs) && Churned(h, n)
    ensures Churned(Run(xs + [Create(n + 1)] + [Destroy(Compose(0, (n + 1) % WORD))]), n + 1)
  {
    RunKeepsInv(xs);
    ChurnMore(h, n);
    TwoMore(xs, Create(n + 1), Destroy(Compose(0, (n + 1) % WORD)), h);
  }

  lemma RunEmpty(xs: seq<Op>)
    requires xs == []
    ensures NoSlot(Run(xs))
  {
  }

  lemma {:induction false} ChurnUses(n: nat, xs: seq<Op>)
    requires xs == Churn(n)
    ensures Churned(Run(xs), n)
    decreases n
  {
    if n == 0 {
      RunEmpty(xs);
    } else {
      var before := Churn(n - 1);
      ChurnUses(n - 1, before);
      ChurnRun(before, n - 1, Run(before));
    }
  }

  lemma RevivedIn(h: History, n: nat, ref: Ref)
    requires Inv(h) && n == WORD && OneSlot(h, n) && !IsLive(h.table, 0)
    ensures var h' := Step(h, Create(ref));
            && h'.births != [] && h'.births[0] == Birth(0, 1, 1)
            && Resolve(h'.table, Compose(0, 1)) == Some(ref)
  {
    ComposeExtract(0, 1);
    assert Linked(h.table, h.free, 0) && h.table.entries[0].version == h.uses[0] % WORD;
  }

  lemma RevivedAfter(xs: seq<Op>, n: nat, ref: Ref, h: History, h': History)
    requires n == WORD && h == Run(xs) && Churned(h, n) && h' == Run(xs + [Create(ref)])
    ensures h'.births != [] && h'.births[0] == Birth(0, 1, 1) && Resolve(h'.table, Compose(0, 1)) == Some(ref)
  {
    RunSnoc(FRESH, xs, Create(ref));
    RunKeepsInv(xs);
    RevivedIn(h, n, ref);
  }

  /** The handle of a destroyed object designates another object once its slot was reused 2^32 times. */
  lemma VersionWrapRevivesHandle(n: nat, ref: Ref)
    requires n == WORD
    ensures var h := Run(Churn(n) + [Create(ref)]);
            h.births != [] && h.births[0] == Birth(0, 1, 1) && Resolve(h.table, Compose(0, 1)) == Some(ref)
  {
    ChurnUses(n, Churn(n));
    RevivedAfter(Churn(n), n, ref, Run(Churn(n)), Run(Churn(n) + [Create(ref)]));
  }
}
