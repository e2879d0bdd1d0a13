/** The generation-checked capability table (crates/tb-caps-core/src/table.rs).

    The first half gives every operation as a function on table values, and relates tables to
    `History`: what a holder of handles can observe (which handles were ever issued, and which
    of them still stand for which capability). The second half is the table as it runs, a class
    whose methods update the slot and free lists in place. */
module CapabilityTable {
  import opened Words
  import opened RightsAlgebra

  const MAX_GENERATION: u32 := 0xFFFF_FFFF

  /** An opaque 64-bit reference: generation in the high half, slot in the low half. */
  datatype Handle = Handle(raw: u64) {
    function Generation(): u32 {
      raw / TWO32
    }

    function Slot(): u32 {
      raw % TWO32
    }
  }

  function NewHandle(generation: u32, slot: u32): (h: Handle)
    ensures h.Generation() == generation && h.Slot() == slot
  {
    Handle(generation * TWO32 + slot)
  }

  /** A handle is determined by its two fields: the generation above 32 bits of slot. */
  lemma HandleIsItsFields(h: Handle)
    ensures NewHandle(h.Generation(), h.Slot()) == h
    ensures h.raw == h.Generation() * 0x1_0000_0000 + h.Slot()
  {
  }

  datatype SysStatus = BadCap | Stale

  datatype Cap<O> = Cap(obj: O, rights: Rights)

  datatype SlotCore<O> = SlotCore(generation: u32, rights: Rights, obj: Option<O>)

  datatype Table<O> = Table(slots: seq<SlotCore<O>>, free: seq<u32>, cap: nat) {

    predicate Occupied(i: nat) {
      i < |slots| && slots[i].obj.Some?
    }

    /** A slot whose generation ran out: vacant, and never to be reused. */
    predicate Retired(i: nat) {
      i < |slots| && slots[i].obj.None? && i !in free
    }

    /** The free list stays within the slots; nothing else is needed to run the operations. */
    ghost predicate Indexed() {
      forall k :: 0 <= k < |free| ==> free[k] < |slots|
    }

    /** Holds initially and after every operation, as long as slot indices fit in the handle's
        slot field. */
    ghost predicate Inv() {
      && |slots| <= cap
      && |slots| <= TWO32
      && Indexed()
      && (forall k :: 0 <= k < |free| ==> slots[free[k]].obj.None?)
      && (forall k, l :: 0 <= k < l < |free| ==> free[k] != free[l])
      && (forall i :: 0 <= i < |slots| ==> slots[i].generation >= 1)
      && (forall i :: 0 <= i < |slots| && Retired(i) ==> slots[i].generation == MAX_GENERATION)
    }

    function Live(h: Handle): Result<nat, SysStatus> {
      var i := h.Slot();
      if i >= |slots| then Err(BadCap)
      else if slots[i].obj.None? then Err(Stale)
      else if slots[i].generation != h.Generation() then Err(Stale)
      else Ok(i)
    }

    function CapAt(i: nat): Cap<O>
      requires Occupied(i)
    {
      Cap(slots[i].obj.value, slots[i].rights)
    }

    /** Reuses the most recently freed slot, else appends one; the appended slot's index is
        cast to 32 bits. */
    function Alloc(c: Cap<O>): (r: (Table<O>, Option<Handle>))
      requires Indexed()
      ensures r.0.Indexed()
    {
      if free != [] then
        var idx := free[|free| - 1];
        var s := slots[idx];
        (Table(slots[idx := s.(rights := c.rights, obj := Some(c.obj))], free[..|free| - 1], cap),
         Some(NewHandle(s.generation, idx)))
      else if |slots| >= cap then
        (this, None)
      else
        (Table(slots + [SlotCore(1, c.rights, Some(c.obj))], free, cap),
         Some(NewHandle(1, |slots| % TWO32)))
    }

    /** Vacates slot `i`; a slot at the last generation is retired instead of freed. */
    function FreeSlot(i: nat): (r: Table<O>)
      requires i < |slots|
      ensures Indexed() ==> r.Indexed()
    {
      var s := slots[i];
      if s.generation < MAX_GENERATION then
        Table(slots[i := s.(generation := s.generation + 1, obj := None)], free + [i % TWO32], cap)
      else
        Table(slots[i := s.(obj := None)], free, cap)
    }

    function Dup(h: Handle): (r: (Table<O>, Option<Handle>))
      requires Indexed()
      ensures r.0.Indexed()
    {
      match Live(h)
      case Err(_) => (this, None)
      case Ok(i) => Alloc(CapAt(i))
    }

    function Narrow(h: Handle, mask: Rights): (r: (Table<O>, Option<Handle>))
      requires Indexed()
      ensures r.0.Indexed()
    {
      match Live(h)
      case Err(_) => (this, None)
      case Ok(i) => Alloc(CapAt(i).(rights := CapAt(i).rights.Intersect(mask)))
    }

    function Revoke(h: Handle): (r: (Table<O>, Option<SysStatus>))
      ensures Indexed() ==> r.0.Indexed()
    {
      match Live(h)
      case Err(e) => (this, Some(e))
      case Ok(i) => (FreeSlot(i), None)
    }

    function Detach(h: Handle): (r: (Table<O>, Result<Cap<O>, SysStatus>))
      ensures Indexed() ==> r.0.Indexed()
    {
      match Live(h)
      case Err(e) => (this, Err(e))
      case Ok(i) => (FreeSlot(i), Ok(CapAt(i)))
    }

    /** Attach into the destination first; vacate the source only after that landed. */
    function TransferTo(h: Handle, dst: Table<O>): (r: (Table<O>, Table<O>, Option<Handle>))
      requires Indexed() && dst.Indexed()
      ensures r.0.Indexed() && r.1.Indexed()
    {
      match Live(h)
      case Err(_) => (this, dst, None)
      case Ok(i) =>
        var (dst', moved) := dst.Alloc(CapAt(i));
        if moved.None? then (this, dst, None) else (FreeSlot(i), dst', moved)
    }

    // ---- The table as seen through its handles -----------------------------

    ghost predicate IsLive(h: Handle) {
      Occupied(h.Slot()) && slots[h.Slot()].generation == h.Generation()
    }

    /** Handles that some allocation has returned: every generation below the slot's current
        one, and the current one unless the slot waits on the free list. */
    ghost predicate WasIssued(h: Handle) {
      var i := h.Slot();
      && i < |slots|
      && 1 <= h.Generation() <= slots[i].generation
      && (h.Generation() == slots[i].generation ==> i !in free)
    }

    ghost predicate Refines(hist: History<O>) {
      && (forall h: Handle :: h in hist.issued <==> WasIssued(h))
      && (forall h: Handle :: h in hist.live <==> IsLive(h))
      && (forall h: Handle :: h in hist.live ==> hist.live[h] == CapAt(h.Slot()))
    }
  }

  /** All that matters to holders of handles: a partial map from handles to capabilities, and
      the set of handles ever handed out. */
  datatype History<O> = History(issued: set<Handle>, live: map<Handle, Cap<O>>) {
    ghost function Issue(h: Handle, c: Cap<O>): History<O> {
      History(issued + {h}, live[h := c])
    }

    ghost function Free(h: Handle): History<O> {
      History(issued, live - {h})
    }
  }

  function EmptyTable<O>(cap: nat): Table<O> {
    Table([], [], cap)
  }

  lemma EmptyTableRefines<O>(cap: nat)
    ensures EmptyTable<O>(cap).Inv()
    ensures EmptyTable<O>(cap).Refines(History({}, map[]))
  {
  }

  /** `live` answers Ok exactly for the handles that stand for a capability; the two errors
      tell a slot that never existed from one that is vacant or has moved on. */
  lemma LiveMeansHeld<O>(t: Table<O>, hist: History<O>, h: Handle)
    requires t.Inv() && t.Refines(hist)
    ensures t.Live(h).Ok? <==> h in hist.live
    ensures t.Live(h).Ok? ==> t.Live(h).value == h.Slot() && t.CapAt(h.Slot()) == hist.live[h]
    ensures t.Live(h) == Err(BadCap) <==> h.Slot() >= |t.slots|
    ensures h in hist.issued && h !in hist.live ==> t.Live(h) == Err(Stale)
  {
  }

  lemma ReuseKeepsInv<O>(t: Table<O>, c: Cap<O>)
    requires t.Inv() && t.free != []
    ensures t.Alloc(c).0.Inv()
  {
    var t' := t.Alloc(c).0;
    var idx := t.free[|t.free| - 1];
    assert t.free == t'.free + [idx];
    forall i: nat | i < |t'.slots| && t'.Retired(i)
      ensures t.Retired(i)
    {
      assert i != idx;
      assert i !in t.free;
    }
  }

  /** The one handle whose standing changes when the free list is popped. */
  lemma ReuseChangesOneHandle<O>(t: Table<O>, c: Cap<O>, h: Handle)
    requires t.Inv() && t.free != []
    ensures !t.WasIssued(t.Alloc(c).1.value)
    ensures t.Alloc(c).0.WasIssued(h) <==> t.WasIssued(h) || h == t.Alloc(c).1.value
    ensures t.Alloc(c).0.IsLive(h) <==> t.IsLive(h) || h == t.Alloc(c).1.value
    ensures t.IsLive(h) ==> h != t.Alloc(c).1.value && t.Alloc(c).0.CapAt(h.Slot()) == t.CapAt(h.Slot())
  {
    var t' := t.Alloc(c).0;
    var idx := t.free[|t.free| - 1];
    assert t.free == t'.free + [idx];
    assert idx in t.free;
    HandleIsItsFields(h);
    if h.Slot() == idx {
      assert idx !in t'.free;
    } else {
      assert h.Slot() in t.free <==> h.Slot() in t'.free;
    }
  }

  /** Allocation from the free list: the slot's generation was bumped when it was freed, so
      the handle now returned is the one next in line for it. */
  lemma ReuseIssuesFresh<O>(t: Table<O>, hist: History<O>, c: Cap<O>)
    requires t.Inv() && t.Refines(hist) && t.free != []
    ensures t.Alloc(c).0.Inv()
    ensures t.Alloc(c).1.value !in hist.issued
    ensures t.Alloc(c).0.Refines(hist.Issue(t.Alloc(c).1.value, c))
  {
    ReuseKeepsInv(t, c);
    forall h: Handle {
      ReuseChangesOneHandle(t, c, h);
    }
  }

  lemma AppendChangesOneHandle<O>(t: Table<O>, c: Cap<O>, h: Handle)
    requires t.Inv() && t.free == [] && |t.slots| < t.cap && |t.slots| < TWO32
    ensures !t.WasIssued(t.Alloc(c).1.value)
    ensures t.Alloc(c).0.WasIssued(h) <==> t.WasIssued(h) || h == t.Alloc(c).1.value
    ensures t.Alloc(c).0.IsLive(h) <==> t.IsLive(h) || h == t.Alloc(c).1.value
    ensures t.IsLive(h) ==> h != t.Alloc(c).1.value && t.Alloc(c).0.CapAt(h.Slot()) == t.CapAt(h.Slot())
  {
    HandleIsItsFields(h);
  }

  lemma AppendIssuesFresh<O>(t: Table<O>, hist: History<O>, c: Cap<O>)
    requires t.Inv() && t.Refines(hist) && t.free == [] && |t.slots| < t.cap && |t.slots| < TWO32
    ensures t.Alloc(c).0.Inv()
    ensures t.Alloc(c).1.value !in hist.issued
    ensures t.Alloc(c).0.Refines(hist.Issue(t.Alloc(c).1.value, c))
  {
    forall h: Handle {
      AppendChangesOneHandle(t, c, h);
    }
  }

  /** While slot indices fit in the handle, an allocation either fails because every slot is
      occupied or retired, or returns a handle never issued before that stands for `c`; no
      other handle changes meaning. */
  lemma AllocIssuesFresh<O>(t: Table<O>, hist: History<O>, c: Cap<O>)
    requires t.Inv() && t.Refines(hist) && t.cap <= TWO32
    ensures t.Alloc(c).0.Inv() && t.Alloc(c).0.cap == t.cap
    ensures t.Alloc(c).1.None? <==> t.free == [] && |t.slots| == t.cap
    ensures t.Alloc(c).1.None? ==> t.Alloc(c).0 == t
    ensures t.Alloc(c).1.Some? ==>
              && t.Alloc(c).1.value !in hist.issued
              && t.Alloc(c).0.Refines(hist.Issue(t.Alloc(c).1.value, c))
  {
    if t.free != [] {
      ReuseIssuesFresh(t, hist, c);
    } else if |t.slots| < t.cap {
      AppendIssuesFresh(t, hist, c);
    }
  }

  /** When every index the handle can name is in use, the cast of the next index wraps to
      slot 0 and the table hands out a handle that was issued before. */
  lemma FreshUnlessIndexWraps<O>(t: Table<O>, hist: History<O>, c: Cap<O>)
    requires t.Inv() && t.Refines(hist) && t.Alloc(c).1.Some?
    ensures t.Alloc(c).1.value !in hist.issued <==> t.free != [] || |t.slots| < TWO32
  {
    if t.free != [] {
      ReuseIssuesFresh(t, hist, c);
    } else if |t.slots| < TWO32 {
      AppendIssuesFresh(t, hist, c);
    } else {
      assert t.WasIssued(NewHandle(1, 0));
    }
  }

  lemma FreeKeepsInv<O>(t: Table<O>, i: nat)
    requires t.Inv() && t.Occupied(i)
    ensures t.FreeSlot(i).Inv()
  {
    var t' := t.FreeSlot(i);
    assert i !in t.free;
    assert t.slots[i].generation < MAX_GENERATION ==> t'.free[|t.free|] == i;
    forall j: nat | j < |t'.slots| && t'.Retired(j) && j != i
      ensures t.Retired(j)
    {
      assert j in t.free ==> j in t'.free;
    }
  }

  /** Freeing any slot keeps the table well formed exactly when the slot is occupied, or vacant at
      the last generation; a vacant slot below it goes on the free list a second time. */
  lemma FreeKeepsInvIff<O>(t: Table<O>, i: nat)
    requires t.Inv() && i < |t.slots|
    ensures t.FreeSlot(i).Inv() <==> t.Occupied(i) || t.slots[i].generation == MAX_GENERATION
  {
    var t' := t.FreeSlot(i);
    if t.Occupied(i) {
      FreeKeepsInv(t, i);
    } else if t.slots[i].generation == MAX_GENERATION {
      assert t'.slots == t.slots;
    } else {
      assert !t.Retired(i);
      var k :| 0 <= k < |t.free| && t.free[k] == i;
      assert t'.free[k] == t'.free[|t.free|];
    }
  }

  lemma FreeChangesOneHandle<O>(t: Table<O>, h: Handle, g: Handle)
    requires t.Inv() && t.IsLive(h)
    ensures t.FreeSlot(h.Slot()).WasIssued(g) <==> t.WasIssued(g)
    ensures t.FreeSlot(h.Slot()).IsLive(g) <==> t.IsLive(g) && g != h
    ensures t.IsLive(g) && g != h ==> t.FreeSlot(h.Slot()).CapAt(g.Slot()) == t.CapAt(g.Slot())
  {
    var i := h.Slot();
    var t' := t.FreeSlot(i);
    HandleIsItsFields(g);
    HandleIsItsFields(h);
    assert i !in t.free;
    assert t.slots[i].generation < MAX_GENERATION ==> t'.free[|t.free|] == i;
    assert g.Slot() != i ==> (g.Slot() in t'.free <==> g.Slot() in t.free);
  }

  /** Vacating a live handle's slot kills that handle and no other, and forgets no handle. */
  lemma FreeKillsOne<O>(t: Table<O>, hist: History<O>, h: Handle)
    requires t.Inv() && t.Refines(hist) && t.IsLive(h)
    ensures t.FreeSlot(h.Slot()).Inv() && t.FreeSlot(h.Slot()).cap == t.cap
    ensures t.FreeSlot(h.Slot()).Refines(hist.Free(h))
  {
    FreeKeepsInv(t, h.Slot());
    forall g: Handle {
      FreeChangesOneHandle(t, h, g);
    }
  }

  // ---- Capacity accounting --------------------------------------------------

  ghost function OccupiedSlots<O>(t: Table<O>): set<nat> {
    set i: nat | i < |t.slots| && t.Occupied(i)
  }

  ghost function RetiredSlots<O>(t: Table<O>): set<nat> {
    set i: nat | i < |t.slots| && t.Retired(i)
  }

  ghost function Elements(s: seq<u32>): set<nat> {
    set x: nat | x in s
  }

  lemma {:induction false} DistinctCount(s: seq<u32>)
    requires forall k, l :: 0 <= k < l < |s| ==> s[k] != s[l]
    ensures |Elements(s)| == |s|
  {
    if s != [] {
      var n := |s| - 1;
      DistinctCount(s[..n]);
      assert s == s[..n] + [s[n]];
      assert Elements(s) == Elements(s[..n]) + {s[n]};
      assert s[n] !in s[..n];
    }
  }

  ghost function Indices(n: nat): (r: set<nat>)
    ensures |r| == n
    ensures forall i: nat :: i in r <==> i < n
  {
    if n == 0 then {} else Indices(n - 1) + {n - 1}
  }

  lemma SlotIsOneOfThree<O>(t: Table<O>, i: nat)
    requires t.Inv()
    ensures i < |t.slots| <==> i in OccupiedSlots(t) || i in Elements(t.free) || i in RetiredSlots(t)
    ensures !(i in OccupiedSlots(t) && i in Elements(t.free))
    ensures i in RetiredSlots(t) ==> i !in OccupiedSlots(t) && i !in Elements(t.free)
  {
  }

  lemma UnionCount(a: set<nat>, b: set<nat>, c: set<nat>, n: nat)
    requires forall i: nat :: i < n <==> i in a || i in b || i in c
    requires forall i: nat :: !(i in a && i in b) && (i in c ==> i !in a && i !in b)
    ensures |a| + |b| + |c| == n
  {
    assert a + b + c == Indices(n);
    assert |a + b| == |a| + |b| by {
      assert a !! b;
    }
    assert |a + b + c| == |a + b| + |c| by {
      assert (a + b) !! c;
    }
  }

  /** Every slot is occupied, free or retired, and the free list names each free slot once. */
  lemma SlotsPartition<O>(t: Table<O>)
    requires t.Inv()
    ensures |OccupiedSlots(t)| + |t.free| + |RetiredSlots(t)| == |t.slots| <= t.cap
  {
    DistinctCount(t.free);
    forall i: nat {
      SlotIsOneOfThree(t, i);
    }
    UnionCount(OccupiedSlots(t), Elements(t.free), RetiredSlots(t), |t.slots|);
  }

  /** Allocation fails exactly when occupied and retired slots use up the capacity. */
  lemma AllocFailsWhenFull<O>(t: Table<O>, c: Cap<O>)
    requires t.Inv()
    ensures t.Alloc(c).1.None? <==> |OccupiedSlots(t)| + |RetiredSlots(t)| == t.cap
  {
    SlotsPartition(t);
  }

  lemma {:induction false} SameSize<X, Y>(a: set<X>, b: set<Y>, f: X -> Y)
    requires forall x :: x in a ==> f(x) in b
    requires forall x, y :: x in a && y in a && f(x) == f(y) ==> x == y
    requires forall y :: y in b ==> exists x :: x in a && f(x) == y
    ensures |a| == |b|
    decreases |a|
  {
    if x :| x in a {
      SameSize(a - {x}, b - {f(x)}, f);
    } else if y :| y in b {
      assert false;
    }
  }

  /** Every occupied slot has its one live handle. */
  lemma LiveCount<O>(t: Table<O>, hist: History<O>)
    requires t.Inv() && t.Refines(hist)
    ensures |hist.live| == |OccupiedSlots(t)|
  {
    var slot := (h: Handle) => h.Slot() as nat;
    forall g: Handle, h: Handle | g in hist.live.Keys && h in hist.live.Keys && slot(g) == slot(h)
      ensures g == h
    {
      HandleIsItsFields(g);
      HandleIsItsFields(h);
    }
    forall i: nat | i in OccupiedSlots(t)
      ensures exists h: Handle :: h in hist.live.Keys && slot(h) == i
    {
      assert t.IsLive(NewHandle(t.slots[i].generation, i));
      assert slot(NewHandle(t.slots[i].generation, i)) == i;
    }
    SameSize(hist.live.Keys, OccupiedSlots(t), slot);
  }

  /** There is room for one more handle: live handles and retired slots do not use up the
      capacity. */
  ghost predicate HasRoom<O>(t: Table<O>, hist: History<O>) {
    |hist.live| + |RetiredSlots(t)| < t.cap
  }

  /** A copy, narrowed or not, is had exactly of a handle that resolves, while there is room; a
      refused one changes nothing. */
  lemma CopySucceedsIff<O>(t: Table<O>, hist: History<O>, h: Handle, mask: Rights)
    requires t.Inv() && t.Refines(hist)
    ensures t.Dup(h).1.Some? <==> h in hist.live && HasRoom(t, hist)
    ensures t.Narrow(h, mask).1.Some? <==> h in hist.live && HasRoom(t, hist)
    ensures t.Dup(h).1.Some? <==> t.Live(h).Ok? && |OccupiedSlots(t)| + |RetiredSlots(t)| < t.cap
    ensures t.Dup(h).1.None? ==> t.Dup(h).0 == t
    ensures t.Narrow(h, mask).1.None? ==> t.Narrow(h, mask).0 == t
  {
    LiveCount(t, hist);
    LiveMeansHeld(t, hist, h);
    SlotsPartition(t);
    if t.Live(h).Ok? {
      var c := t.CapAt(h.Slot());
      AllocFailsWhenFull(t, c);
      AllocFailsWhenFull(t, c.(rights := c.rights.Intersect(mask)));
    }
  }

  /** The free list is a stack: the slot freed last is the next to be handed out, one generation
      on, and what lay below it stays. */
  lemma FreedSlotComesNext<O>(t: Table<O>, h: Handle, c: Cap<O>)
    requires t.Inv() && t.IsLive(h) && h.Generation() < 0xFFFF_FFFF
    ensures var (t', out) := t.FreeSlot(h.Slot()).Alloc(c);
            && out == Some(NewHandle(h.Generation() + 1, h.Slot()))
            && t'.free == t.free && t'.CapAt(h.Slot()) == c
  {
    var t1 := t.FreeSlot(h.Slot());
    assert t1.free[..|t1.free| - 1] == t.free;
  }

  /** A move into a full table changes neither table; with room, moving is detaching and then
      attaching. */
  lemma TransferIsDetachThenAttach<O>(t: Table<O>, h: Handle, dst: Table<O>)
    requires t.Inv() && dst.Inv()
    ensures var (src', dst', moved) := t.TransferTo(h, dst);
            if t.Live(h).Ok? && |OccupiedSlots(dst)| + |RetiredSlots(dst)| < dst.cap then
              var (parked', out) := t.Detach(h);
              && moved.Some? && out.Ok?
              && src' == parked'
              && (dst', moved) == dst.Alloc(out.value)
            else
              moved.None? && src' == t && dst' == dst
  {
    if t.Live(h).Ok? {
      AllocFailsWhenFull(dst, t.CapAt(h.Slot()));
      SlotsPartition(dst);
    }
  }

  // ---- The table in place ----------------------------------------------------

  /** The per-principal table. `hist` records what its callers have been told so far. */
  class CapTable<O(==)> {
    var slots: seq<SlotCore<O>>
    var free: seq<u32>
    const cap: nat
    ghost var hist: History<O>

    ghost function State(): Table<O>
      reads this
    {
      Table(slots, free, cap)
    }

    /** The history is what the table says it is; slot indices fit in a handle. */
    ghost predicate Valid()
      reads this
    {
      State().Inv() && State().Refines(hist) && cap <= TWO32
    }

    /** What the operations need to run; it holds of every table, of any capacity. */
    ghost predicate Usable()
      reads this
    {
      State().Indexed()
    }

    constructor WithCapacity(cap: nat)
      ensures Usable() && this.cap == cap && (cap <= TWO32 ==> Valid())
      ensures State() == EmptyTable(cap) && hist == History({}, map[])
    {
      slots, free, this.cap := [], [], cap;
      hist := History({}, map[]);
    }

    method Live(h: Handle) returns (r: Result<nat, SysStatus>)
      ensures r == State().Live(h)
      ensures Valid() ==> (r.Ok? <==> h in hist.live)
      ensures Valid() && h in hist.issued && h !in hist.live ==> r == Err(Stale)
    {
      var i := h.Slot();
      if i >= |slots| {
        return Err(BadCap);
      }
      var s := slots[i];
      if s.obj.None? {
        return Err(Stale);
      }
      if s.generation != h.Generation() {
        return Err(Stale);
      }
      return Ok(i);
    }

    method Alloc(rights: Rights, obj: O) returns (r: Option<Handle>)
      requires Usable()
      modifies this
      ensures Usable() && (State(), r) == old(State()).Alloc(Cap(obj, rights))
      ensures hist == if r.None? then old(hist) else old(hist).Issue(r.value, Cap(obj, rights))
      ensures old(Valid()) ==>
                && Valid() && (r.Some? ==> r.value !in old(hist).issued)
                && (r.None? <==> |OccupiedSlots(old(State()))| + |RetiredSlots(old(State()))| == cap)
    {
      ghost var before, valid := State(), Valid();
      if valid {
        AllocIssuesFresh(before, hist, Cap(obj, rights));
        AllocFailsWhenFull(before, Cap(obj, rights));
      }
      if free != [] {
        var idx := free[|free| - 1];
        free := free[..|free| - 1];
        var s := slots[idx];
        slots := slots[idx := SlotCore(s.generation, rights, Some(obj))];
        r := Some(NewHandle(s.generation, idx));
      } else if |slots| >= cap {
        return None;
      } else {
        var idx := |slots| % TWO32;
        slots := slots + [SlotCore(1, rights, Some(obj))];
        r := Some(NewHandle(1, idx));
      }
      hist := hist.Issue(r.value, Cap(obj, rights));
    }

    /** Frees any slot. The handle that dies is the one its generation stands for. */
    method FreeSlot(i: nat)
      requires Usable() && i < |slots|
      modifies this
      ensures Usable() && State() == old(State()).FreeSlot(i)
      ensures hist == old(hist).Free(NewHandle(old(slots)[i].generation, i % TWO32))
      ensures old(Valid()) && old(State()).Occupied(i) ==> Valid()
    {
      ghost var before := State();
      ghost var h := NewHandle(slots[i].generation, i % TWO32);
      if Valid() && before.Occupied(i) {
        FreeKillsOne(before, hist, h);
      }
      var s := slots[i];
      if s.generation < MAX_GENERATION {
        slots := slots[i := SlotCore(s.generation + 1, s.rights, None)];
        free := free + [i % TWO32];
      } else {
        slots := slots[i := SlotCore(s.generation, s.rights, None)];
      }
      assert State() == before.FreeSlot(i);
      hist := hist.Free(h);
    }

    method RightsOf(h: Handle) returns (r: Option<Rights>)
      ensures r == match State().Live(h)
                   case Ok(i) => Some(State().CapAt(i).rights)
                   case Err(_) => None
      ensures Valid() ==> r == if h in hist.live then Some(hist.live[h].rights) else None
    {
      var l := Live(h);
      match l
      case Ok(i) => r := Some(slots[i].rights);
      case Err(_) => r := None;
    }

    method Attach(parked: Cap<O>) returns (r: Option<Handle>)
      requires Usable()
      modifies this
      ensures Usable() && (State(), r) == old(State()).Alloc(parked)
      ensures hist == if r.Some? then old(hist).Issue(r.value, parked) else old(hist)
      ensures old(Valid()) ==>
                && Valid() && (r.Some? ==> r.value !in old(hist).issued)
                && (r.Some? <==> HasRoom(old(State()), old(hist)))
    {
      if Valid() {
        LiveCount(State(), hist);
        SlotsPartition(State());
      }
      r := Alloc(parked.rights, parked.obj);
    }

    method Revoke(h: Handle) returns (e: Option<SysStatus>)
      requires Usable()
      modifies this
      ensures Usable() && (State(), e) == old(State()).Revoke(h)
      ensures hist == if e.None? then old(hist).Free(h) else old(hist)
      ensures old(Valid()) ==> Valid() && (e.None? <==> h in old(hist).live)
      ensures e.Some? ==> State() == old(State()) && e == Some(if h.Slot() >= |slots| then BadCap else Stale)
    {
      HandleIsItsFields(h);
      var l := Live(h);
      match l
      case Ok(i) =>
        FreeSlot(i);
        e := None;
      case Err(s) => e := Some(s);
    }

    method Dup(h: Handle) returns (r: Option<Handle>)
      requires Usable()
      modifies this
      ensures Usable() && (State(), r) == old(State()).Dup(h)
      ensures old(Valid()) ==>
                && Valid() && (r.Some? ==> h in old(hist).live && r.value !in old(hist).issued)
                && hist == if r.Some? then old(hist).Issue(r.value, old(hist).live[h]) else old(hist)
      ensures old(Valid()) ==> (r.Some? <==> h in old(hist).live && HasRoom(old(State()), old(hist)))
      ensures r.None? ==> State() == old(State())
    {
      if Valid() {
        CopySucceedsIff(State(), hist, h, Rights(0));
      }
      var l := Live(h);
      if l.Err? {
        return None;
      }
      var i := l.value;
      r := Alloc(slots[i].rights, slots[i].obj.value);
    }

    method Narrow(h: Handle, mask: Rights) returns (r: Option<Handle>)
      requires Usable()
      modifies this
      ensures Usable() && (State(), r) == old(State()).Narrow(h, mask)
      ensures old(Valid()) ==>
                && Valid() && (r.Some? ==> h in old(hist).live && r.value !in old(hist).issued)
                && hist == if r.Some? then old(hist).Issue(r.value,
                               Cap(old(hist).live[h].obj, old(hist).live[h].rights.Intersect(mask)))
                           else old(hist)
      ensures old(Valid()) ==> (r.Some? <==> h in old(hist).live && HasRoom(old(State()), old(hist)))
      ensures r.None? ==> State() == old(State())
    {
      if Valid() {
        CopySucceedsIff(State(), hist, h, mask);
      }
      var l := Live(h);
      if l.Err? {
        return None;
      }
      var i := l.value;
      r := Alloc(slots[i].rights.Intersect(mask), slots[i].obj.value);
    }

    /** Moves a capability; on failure, which is an unresolved handle or a full destination,
        neither table changes. */
    method TransferTo(h: Handle, dst: CapTable<O>) returns (r: Option<Handle>)
      requires Usable() && dst.Usable() && dst != this
      modifies this, dst
      ensures Usable() && dst.Usable()
      ensures (State(), dst.State(), r) == old(State()).TransferTo(h, old(dst.State()))
      ensures hist == if r.Some? then old(hist).Free(h) else old(hist)
      ensures r.None? ==> dst.hist == old(dst.hist)
      ensures old(Valid()) && old(dst.Valid()) ==>
                && Valid() && dst.Valid()
                && (r.Some? ==> h in old(hist).live && r.value !in old(dst.hist).issued
                                && dst.hist == old(dst.hist).Issue(r.value, old(hist).live[h]))
                && (r.Some? <==> h in old(hist).live && HasRoom(old(dst.State()), old(dst.hist)))
      ensures r.None? ==> State() == old(State()) && dst.State() == old(dst.State())
    {
      HandleIsItsFields(h);
      var l := Live(h);
      if l.Err? {
        return None;
      }
      var i := l.value;
      r := dst.Attach(Cap(slots[i].obj.value, slots[i].rights));
      if r.None? {
        return;
      }
      FreeSlot(i);
    }

    method Detach(h: Handle) returns (r: Result<Cap<O>, SysStatus>)
      requires Usable()
      modifies this
      ensures Usable() && (State(), r) == old(State()).Detach(h)
      ensures hist == if r.Ok? then old(hist).Free(h) else old(hist)
      ensures old(Valid()) ==>
                && Valid() && (r.Ok? <==> h in old(hist).live)
                && (r.Ok? ==> r.value == old(hist).live[h])
      ensures r.Err? ==> State() == old(State()) && r.error == if h.Slot() >= |slots| then BadCap else Stale
    {
      HandleIsItsFields(h);
      var l := Live(h);
      match l
      case Err(s) => r := Err(s);
      case Ok(i) =>
        r := Ok(Cap(slots[i].obj.value, slots[i].rights));
        FreeSlot(i);
    }
  }
}
