/** The split virtqueue walks of the console device (tb-vmm/src/virtio_mmio.rs, after sections
    2.7 and 2.7.8.2 of virtio v1.2), as functions on guest memory. */
module VirtQueue {
  import opened Words
  import opened GuestMemory

  /** The sizes a queue can have: none yet, or a power of two up to the offered maximum. */
  type QueueSize = n: u32 | n == 0 || n == 1 || n == 2 || n == 4

  /** Per-queue transport state: size, ready latch, ring addresses, free-running counters. */
  datatype Queue = Queue(num: QueueSize, ready: bool, desc: u64, driver: u64, device: u64,
                         nextAvail: u16, usedCount: u16)

  const UNUSED_QUEUE := Queue(0, false, 0, 0, 0, 0, 0)

  function Next16(x: u16): u16 {
    (x + 1) % 0x1_0000
  }

  /** Where a free-running counter points in a ring of `num` entries. */
  function RingSlot(counter: u16, num: u32): (slot: nat)
    requires num != 0
    ensures slot < num
  {
    counter % num
  }

  // ---- Rings and descriptors -------------------------------------------------

  function AvailIdxAt(q: Queue): u64 {
    Wrap64(q.driver + 2)
  }

  function AvailSlotAt(q: Queue, slot: nat): u64 {
    Wrap64(q.driver + 4 + 2 * slot)
  }

  function UsedIdxAt(q: Queue): u64 {
    Wrap64(q.device + 2)
  }

  function UsedSlotAt(q: Queue, slot: nat): u64 {
    Wrap64(q.device + 4 + 8 * slot)
  }

  datatype Desc = Desc(addr: u64, len: u32, flags: u16, next: u16) {
    predicate HasNext() {
      flags % 2 == 1
    }

    predicate Writable() {
      flags / 2 % 2 == 1
    }

    /** How many of `need` queued bytes this descriptor takes. */
    function Takes(need: nat): (n: nat)
      ensures n <= need && n <= len
    {
      if !Writable() then 0 else if len < need then len else need
    }
  }

  function DescAt(table: u64, idx: u16): u64 {
    Wrap64(table + 16 * idx)
  }

  function ReadDesc(ram: seq<byte>, table: u64, idx: u16): Option<Desc> {
    var d: nat := DescAt(table, idx);
    var addr, len := ReadWord(ram, d, 8), ReadWord(ram, Wrap64(d + 8), 4);
    var flags, next := ReadWord(ram, Wrap64(d + 12), 2), ReadWord(ram, Wrap64(d + 14), 2);
    WordBounds();
    if addr.None? || len.None? || flags.None? || next.None? then None
    else Some(Desc(addr.value, len.value, flags.value, next.value))
  }

  /** A table inside the address space does not wrap. */
  lemma DescriptorAddresses(table: u64, idx: u16)
    requires table + 16 * idx as int + 16 <= TWO64
    ensures var at := table + 16 * idx as int;
            && DescAt(table, idx) == at && Wrap64(at + 8) == at + 8 && Wrap64(at + 12) == at + 12 && Wrap64(at + 14) == at + 14
  {
  }

  /** The head of the next chain the driver made available, if the queue is usable, its ring is
      readable and there is one. */
  function NextHead(ram: seq<byte>, q: Queue): Option<u16> {
    if !q.ready || q.num == 0 then None else
    var avail := ReadWord(ram, AvailIdxAt(q), 2);
    if avail.None? || avail.value == q.nextAvail then None else
    WordBounds();
    ReadWord(ram, AvailSlotAt(q, RingSlot(q.nextAvail, q.num)), 2)
  }

  // ---- Walks -------------------------------------------------------------------

  /** The device-readable bytes of descriptor `idx`, and where the chain continues; none if the
      descriptor or its buffer is not in RAM. */
  function GatherOne(ram: seq<byte>, table: u64, idx: u16): Option<(seq<byte>, Option<u16>)> {
    var desc := ReadDesc(ram, table, idx);
    if desc.None? then None else
    var d := desc.value;
    var part := if d.Writable() then Some([]) else Read(ram, d.addr, d.len);
    if part.None? then None else Some((part.value, if d.HasNext() then Some(d.next) else None))
  }

  /** The device-readable bytes of the chain at `idx`, in chain order; none if the chain is
      longer than `hops` or leaves RAM. */
  function Gather(ram: seq<byte>, table: u64, idx: u16, hops: nat): Option<seq<byte>>
    decreases hops
  {
    if hops == 0 then None else
    var one := GatherOne(ram, table, idx);
    if one.None? then None
    else if one.value.1.None? then Some(one.value.0)
    else Prepend(one.value.0, Gather(ram, table, one.value.1.value, hops - 1))
  }

  function Prepend(part: seq<byte>, rest: Option<seq<byte>>): Option<seq<byte>> {
    if rest.None? then None else Some(part + rest.value)
  }

  lemma PrependTwice(a: seq<byte>, b: seq<byte>, rest: Option<seq<byte>>)
    ensures Prepend(a, Prepend(b, rest)) == Prepend(a + b, rest)
    ensures Prepend([], rest) == rest
  {
    if rest.Some? {
      assert a + (b + rest.value) == (a + b) + rest.value;
      assert [] + rest.value == rest.value;
    }
  }

  /** The descriptors of the chain at `idx`, as far as `hops` of them go, and its device-readable
      buffers lie in `g`. */
  ghost predicate ReadsInside(ram: seq<byte>, table: u64, idx: u16, hops: nat, g: set<nat>)
    decreases hops
  {
    hops == 0 || (
      && DescInside(table, idx, g)
      && (ReadDesc(ram, table, idx).Some? ==>
            var d := ReadDesc(ram, table, idx).value;
            && (!d.Writable() ==> Inside(d.addr, d.len, g))
            && (d.HasNext() ==> ReadsInside(ram, table, d.next, hops - 1, g))))
  }

  lemma GatherOneSame(ram: seq<byte>, ram': seq<byte>, table: u64, idx: u16, hops: nat, g: set<nat>)
    requires SameOn(ram, ram', g) && ReadsInside(ram, table, idx, hops, g) && hops > 0
    ensures ReadDesc(ram', table, idx) == ReadDesc(ram, table, idx)
    ensures GatherOne(ram', table, idx) == GatherOne(ram, table, idx)
  {
    hide ReadDesc, SameOn, ReadWord, DescInside;
    DescSame(ram, ram', table, idx, g);
    if ReadDesc(ram, table, idx).Some? {
      var d := ReadDesc(ram, table, idx).value;
      if !d.Writable() {
        ReadsSame(ram, ram', g, d.addr, d.len);
      }
    }
  }

  /** A transmit walk depends only on the bytes it reads. */
  lemma {:induction false} GatherSame(ram: seq<byte>, ram': seq<byte>, table: u64, idx: u16, hops: nat, g: set<nat>)
    requires SameOn(ram, ram', g) && ReadsInside(ram, table, idx, hops, g)
    ensures Gather(ram', table, idx, hops) == Gather(ram, table, idx, hops)
    ensures ReadsInside(ram', table, idx, hops, g)
    decreases hops
  {
    hide ReadDesc, SameOn, DescInside, Inside;
    if hops > 0 {
      GatherOneSame(ram, ram', table, idx, hops, g);
      if ReadDesc(ram, table, idx).Some? && ReadDesc(ram, table, idx).value.HasNext() {
        GatherSame(ram, ram', table, ReadDesc(ram, table, idx).value.next, hops - 1, g);
      }
    }
  }

  /** What a receive walk leaves behind: memory, the bytes still queued, and the number of
      bytes written if the walk came to a proper end. */
  datatype Walked = Walked(ram: seq<byte>, outbuf: seq<byte>, written: Option<nat>)

  /** One descriptor of a receive walk: what it leaves behind, and the descriptor to go on to
      if the chain continues and bytes are still queued. The bytes leave the queue before the
      guest write. */
  function ScatterOne(ram: seq<byte>, table: u64, outbuf: seq<byte>, idx: u16): (r: (Walked, Option<u16>))
    ensures |r.0.ram| == |ram|
    ensures |r.0.outbuf| <= |outbuf|
    ensures r.0.written.Some? ==> r.0.written.value == |outbuf| - |r.0.outbuf|
  {
    var desc := ReadDesc(ram, table, idx);
    if desc.None? then (Walked(ram, outbuf, None), None) else
    var d := desc.value;
    var n := d.Takes(|outbuf|);
    var (ram1, ok) := if d.Writable() && outbuf != [] then Write(ram, d.addr, outbuf[..n]) else (ram, true);
    if !ok then (Walked(ram1, outbuf[n..], None), None)
    else (Walked(ram1, outbuf[n..], Some(n)), if d.HasNext() && n < |outbuf| then Some(d.next) else None)
  }

  /** Moves queued bytes into the device-writable segments of the chain at `idx`, until the
      chain or the queue runs out. */
  function Scatter(ram: seq<byte>, table: u64, outbuf: seq<byte>, idx: u16, hops: nat): (w: Walked)
    ensures |w.ram| == |ram|
    ensures |w.outbuf| <= |outbuf|
    ensures w.written.Some? ==> w.written.value == |outbuf| - |w.outbuf|
    decreases hops
  {
    if hops == 0 then Walked(ram, outbuf, None) else
    var (w, next) := ScatterOne(ram, table, outbuf, idx);
    if next.None? then w else
    var rest := Scatter(w.ram, table, w.outbuf, next.value, hops - 1);
    rest.(written := if rest.written.None? then None else Some(|outbuf| - |rest.outbuf|))
  }

  ghost predicate IsTail(rest: seq<byte>, all: seq<byte>) {
    |rest| <= |all| && all == all[..|all| - |rest|] + rest
  }

  lemma TailOfTail(c: seq<byte>, b: seq<byte>, a: seq<byte>)
    requires IsTail(c, b) && IsTail(b, a)
    ensures IsTail(c, a)
  {
    assert a == (a[..|a| - |b|] + b[..|b| - |c|]) + c;
  }

  lemma TailOfItself(a: seq<byte>)
    ensures IsTail(a, a)
  {
    assert a == a[..0] + a;
  }

  lemma OneTakesFromFront(ram: seq<byte>, table: u64, outbuf: seq<byte>, idx: u16)
    ensures IsTail(ScatterOne(ram, table, outbuf, idx).0.outbuf, outbuf)
  {
    hide ReadDesc, Write;
  }

  /** A walk takes its bytes from the front of the queue and leaves the rest in order. */
  lemma {:induction false} ScatterTakesFromFront(ram: seq<byte>, table: u64, outbuf: seq<byte>, idx: u16, hops: nat)
    ensures IsTail(Scatter(ram, table, outbuf, idx, hops).outbuf, outbuf)
    decreases hops
  {
    hide ScatterOne, IsTail;
    TailOfItself(outbuf);
    if hops > 0 {
      OneTakesFromFront(ram, table, outbuf, idx);
      var (w, next) := ScatterOne(ram, table, outbuf, idx);
      if next.Some? {
        ScatterTakesFromFront(w.ram, table, w.outbuf, next.value, hops - 1);
        TailOfTail(Scatter(w.ram, table, w.outbuf, next.value, hops - 1).outbuf, w.outbuf, outbuf);
      }
    }
  }

  datatype Published = Published(ram: seq<byte>, q: Queue, visible: bool)

  /** Writes the used entry, then the used index. `visible` is whether the guest can see the
      entry, which takes all three writes. */
  function PublishUsed(ram: seq<byte>, q: Queue, id: u32, len: u32): Published
    requires q.num != 0
  {
    var entry := UsedSlotAt(q, RingSlot(q.usedCount, q.num));
    var (ram1, ok1) := Write(ram, entry, Le(id, 4));
    if !ok1 then Published(ram1, q, false) else
    var (ram2, ok2) := Write(ram1, Wrap64(entry + 4), Le(len, 4));
    if !ok2 then Published(ram2, q, false) else
    var (ram3, ok3) := Write(ram2, UsedIdxAt(q), Le(Next16(q.usedCount), 2));
    Published(ram3, q.(usedCount := Next16(q.usedCount)), ok3)
  }

  // ---- What a receive walk does, told before it starts ---------------------------

  datatype Segment = Segment(addr: nat, len: nat) {
    predicate Holds(a: int) {
      addr <= a < addr + len
    }
  }

  /** The segment descriptor `idx` would fill out of `need` queued bytes, and where the walk
      would go from there; none if the descriptor or the segment is not in RAM. */
  function PlanOne(ram: seq<byte>, table: u64, idx: u16, need: nat): (r: Option<(Segment, Option<u16>)>)
    ensures r.Some? ==> r.value.0.len <= need
    ensures r.Some? && r.value.0.len > 0 ==> r.value.0.addr + r.value.0.len <= |ram|
  {
    var desc := ReadDesc(ram, table, idx);
    if desc.None? then None else
    var d := desc.value;
    var n := d.Takes(need);
    if d.Writable() && need > 0 && d.addr + n > |ram| then None
    else Some((Segment(d.addr, n), if d.HasNext() && n < need then Some(d.next) else None))
  }

  /** The segments a receive walk would fill with `need` queued bytes, read off the descriptors
      beforehand; none if a descriptor or a segment is not in RAM, or the chain is too long. */
  function Plan(ram: seq<byte>, table: u64, idx: u16, hops: nat, need: nat): Option<seq<Segment>>
    decreases hops
  {
    if hops == 0 then None else
    var one := PlanOne(ram, table, idx, need);
    if one.None? then None
    else if one.value.1.None? then Some([one.value.0])
    else
      var rest := Plan(ram, table, one.value.1.value, hops - 1, need - one.value.0.len);
      if rest.None? then None else Some([one.value.0] + rest.value)
  }

  function Total(segs: seq<Segment>): nat {
    if segs == [] then 0 else segs[0].len + Total(segs[1..])
  }

  /** Lays `data` out over the segments, in order. */
  function Fill(ram: seq<byte>, segs: seq<Segment>, data: seq<byte>): seq<byte>
    requires Total(segs) <= |data|
    decreases |segs|
  {
    if segs == [] then ram
    else Fill(Write(ram, segs[0].addr, data[..segs[0].len]).0, segs[1..], data[segs[0].len..])
  }

  /** The bytes of descriptor `idx` lie in `g`. */
  ghost predicate DescInside(table: u64, idx: u16, g: set<nat>) {
    var d: nat := DescAt(table, idx);
    && Inside(d, 8, g)
    && Inside(Wrap64(d + 8), 4, g)
    && Inside(Wrap64(d + 12), 2, g)
    && Inside(Wrap64(d + 14), 2, g)
  }

  ghost predicate OneGuarded(ram: seq<byte>, table: u64, idx: u16, need: nat, g: set<nat>, h: set<nat>) {
    && DescInside(table, idx, g)
    && (ReadDesc(ram, table, idx).Some? ==>
          var d := ReadDesc(ram, table, idx).value;
          Outside(d.addr, d.Takes(need), h))
  }

  /** The walk reads its descriptors inside `g` and keeps its writes out of `h`. */
  ghost predicate WalkGuarded(ram: seq<byte>, table: u64, idx: u16, hops: nat, need: nat, g: set<nat>, h: set<nat>)
    decreases hops
  {
    hops == 0 || (
      && OneGuarded(ram, table, idx, need, g, h)
      && var one := PlanOne(ram, table, idx, need);
        (one.Some? && one.value.1.Some? ==>
          WalkGuarded(ram, table, one.value.1.value, hops - 1, need - one.value.0.len, g, h)))
  }

  lemma DescSame(ram: seq<byte>, ram': seq<byte>, table: u64, idx: u16, g: set<nat>)
    requires SameOn(ram, ram', g) && DescInside(table, idx, g)
    ensures ReadDesc(ram, table, idx) == ReadDesc(ram', table, idx)
  {
    var d: nat := DescAt(table, idx);
    ReadsSame(ram, ram', g, d, 8);
    ReadsSame(ram, ram', g, Wrap64(d + 8), 4);
    ReadsSame(ram, ram', g, Wrap64(d + 12), 2);
    ReadsSame(ram, ram', g, Wrap64(d + 14), 2);
  }

  lemma OneSame(ram: seq<byte>, ram': seq<byte>, table: u64, idx: u16, need: nat, g: set<nat>, h: set<nat>)
    requires SameOn(ram, ram', g) && OneGuarded(ram, table, idx, need, g, h)
    ensures PlanOne(ram, table, idx, need) == PlanOne(ram', table, idx, need)
    ensures OneGuarded(ram', table, idx, need, g, h)
  {
    DescSame(ram, ram', table, idx, g);
  }

  lemma {:induction false} PlanSame(ram: seq<byte>, ram': seq<byte>, table: u64, idx: u16, hops: nat, need: nat, g: set<nat>, h: set<nat>)
    requires SameOn(ram, ram', g) && WalkGuarded(ram, table, idx, hops, need, g, h)
    ensures Plan(ram, table, idx, hops, need) == Plan(ram', table, idx, hops, need)
    ensures WalkGuarded(ram', table, idx, hops, need, g, h)
    decreases hops
  {
    hide PlanOne;
    hide OneGuarded;
    if hops != 0 {
      OneSame(ram, ram', table, idx, need, g, h);
      var one := PlanOne(ram, table, idx, need);
      if one.Some? && one.value.1.Some? {
        PlanSame(ram, ram', table, one.value.1.value, hops - 1, need - one.value.0.len, g, h);
      }
    }
  }

  /** One descriptor: the step taken is the step planned. */
  lemma OneFollowsPlan(ram: seq<byte>, table: u64, outbuf: seq<byte>, idx: u16, g: set<nat>, h: set<nat>)
    requires g <= h && OneGuarded(ram, table, idx, |outbuf|, g, h)
    ensures var (w, next) := ScatterOne(ram, table, outbuf, idx);
            var one := PlanOne(ram, table, idx, |outbuf|);
            && SameOn(ram, w.ram, h) && SameOn(ram, w.ram, g)
            && (w.written.Some? <==> one.Some?)
            && (next.Some? <==> one.Some? && one.value.1.Some?)
            && (one.Some? ==>
                  var seg := one.value.0;
                  && w == Walked(Write(ram, seg.addr, outbuf[..seg.len]).0, outbuf[seg.len..], Some(seg.len))
                  && next == one.value.1)
  {
    if ReadDesc(ram, table, idx).Some? {
      var d := ReadDesc(ram, table, idx).value;
      var n := d.Takes(|outbuf|);
      WriteMisses(ram, d.addr, outbuf[..n], h);
      WriteNothing(ram, d.addr);
    }
  }

  /** A guarded walk writes nothing inside `h`. */
  lemma {:induction false} ScatterSpares(ram: seq<byte>, table: u64, outbuf: seq<byte>, idx: u16, hops: nat, g: set<nat>, h: set<nat>)
    requires g <= h && WalkGuarded(ram, table, idx, hops, |outbuf|, g, h)
    ensures SameOn(ram, Scatter(ram, table, outbuf, idx, hops).ram, h)
    decreases hops
  {
    hide PlanOne, ScatterOne, OneGuarded, Write;
    if hops != 0 {
      OneFollowsPlan(ram, table, outbuf, idx, g, h);
      var (w, next) := ScatterOne(ram, table, outbuf, idx);
      if next.Some? {
        PlanSame(ram, w.ram, table, next.value, hops - 1, |w.outbuf|, g, h);
        ScatterSpares(w.ram, table, w.outbuf, next.value, hops - 1, g, h);
      }
    }
  }

  /** Filling the first segment and then the others is filling them all. */
  lemma FillFirst(ram: seq<byte>, first: Segment, others: seq<Segment>, data: seq<byte>)
    requires first.len + Total(others) <= |data|
    ensures Total([first] + others) == first.len + Total(others)
    ensures Fill(ram, [first] + others, data)
         == Fill(Write(ram, first.addr, data[..first.len]).0, others, data[first.len..])
    ensures data[first.len..][Total(others)..] == data[Total([first] + others)..]
  {
    assert ([first] + others)[1..] == others;
  }

  /** When the walk keeps clear of its own descriptors it ends properly if and only if the plan
      exists, and then has written exactly the planned bytes. */
  lemma {:induction false} ScatterFollowsPlan(ram: seq<byte>, table: u64, outbuf: seq<byte>, idx: u16, hops: nat, g: set<nat>, h: set<nat>)
    requires g <= h && WalkGuarded(ram, table, idx, hops, |outbuf|, g, h)
    ensures var w := Scatter(ram, table, outbuf, idx, hops);
            var plan := Plan(ram, table, idx, hops, |outbuf|);
            && (w.written.Some? <==> plan.Some?)
            && (plan.Some? ==>
                  && Total(plan.value) <= |outbuf|
                  && w == Walked(Fill(ram, plan.value, outbuf), outbuf[Total(plan.value)..], Some(Total(plan.value))))
    decreases hops
  {
    hide PlanOne, ScatterOne, OneGuarded, Write, SameOn, Fill, Total;
    if hops != 0 {
      OneFollowsPlan(ram, table, outbuf, idx, g, h);
      var (w, next) := ScatterOne(ram, table, outbuf, idx);
      var one := PlanOne(ram, table, idx, |outbuf|);
      if next.Some? {
        PlanSame(ram, w.ram, table, next.value, hops - 1, |w.outbuf|, g, h);
        ScatterFollowsPlan(w.ram, table, w.outbuf, next.value, hops - 1, g, h);
        var rest := Plan(ram, table, next.value, hops - 1, |w.outbuf|);
        if rest.Some? {
          FillFirst(ram, one.value.0, rest.value, outbuf);
        }
      } else if one.Some? {
        NoSegments(w.ram, outbuf[one.value.0.len..]);
        FillFirst(ram, one.value.0, [], outbuf);
        assert [one.value.0] + [] == [one.value.0];
      }
    }
  }

  lemma NoSegments(ram: seq<byte>, data: seq<byte>)
    ensures Total([]) == 0 && Fill(ram, [], data) == ram && data[0..] == data
  {
  }

  // ---- What lands in the receive buffers -----------------------------------------

  ghost predicate InRam(ram: seq<byte>, segs: seq<Segment>) {
    forall i :: 0 <= i < |segs| && segs[i].len > 0 ==> segs[i].addr + segs[i].len <= |ram|
  }

  ghost predicate Disjoint(segs: seq<Segment>) {
    forall i, j, a :: 0 <= i < j < |segs| && segs[i].Holds(a) ==> !segs[j].Holds(a)
  }

  /** The bytes in the segments, in order. */
  ghost function Collect(ram: seq<byte>, segs: seq<Segment>): seq<byte>
    requires InRam(ram, segs)
  {
    if segs == [] then []
    else (if segs[0].len == 0 then [] else ram[segs[0].addr..segs[0].addr + segs[0].len]) + Collect(ram, segs[1..])
  }

  ghost predicate Covered(segs: seq<Segment>, a: int) {
    exists i :: 0 <= i < |segs| && segs[i].Holds(a)
  }

  lemma CoveredByTail(segs: seq<Segment>, a: int)
    requires segs != []
    ensures Covered(segs, a) <==> segs[0].Holds(a) || Covered(segs[1..], a)
  {
    if Covered(segs[1..], a) {
      var i :| 0 <= i < |segs[1..]| && segs[1..][i].Holds(a);
      assert segs[i + 1].Holds(a);
    }
    if Covered(segs, a) && !segs[0].Holds(a) {
      var i :| 0 <= i < |segs| && segs[i].Holds(a);
      assert segs[1..][i - 1].Holds(a);
    }
  }

  lemma {:induction false} FillSparesTheRest(ram: seq<byte>, segs: seq<Segment>, data: seq<byte>, a: nat)
    requires Total(segs) <= |data| && a < |ram| && !Covered(segs, a)
    ensures |Fill(ram, segs, data)| == |ram| && Fill(ram, segs, data)[a] == ram[a]
    decreases |segs|
  {
    if segs != [] {
      CoveredByTail(segs, a);
      FillSparesTheRest(Write(ram, segs[0].addr, data[..segs[0].len]).0, segs[1..], data[segs[0].len..], a);
    }
  }

  lemma {:induction false} FillKeepsSize(ram: seq<byte>, segs: seq<Segment>, data: seq<byte>)
    requires Total(segs) <= |data|
    ensures |Fill(ram, segs, data)| == |ram|
    decreases |segs|
  {
    if segs != [] {
      FillKeepsSize(Write(ram, segs[0].addr, data[..segs[0].len]).0, segs[1..], data[segs[0].len..]);
    }
  }

  /** The first segment survives the filling of the others. */
  lemma FirstSegmentStays(ram: seq<byte>, segs: seq<Segment>, data: seq<byte>)
    requires segs != [] && Total(segs) <= |data| && Disjoint(segs)
    requires segs[0].len > 0 ==> segs[0].addr + segs[0].len <= |ram|
    ensures |Fill(ram, segs, data)| == |ram|
    ensures segs[0].len > 0 ==>
              Fill(ram, segs, data)[segs[0].addr..segs[0].addr + segs[0].len] == data[..segs[0].len]
  {
    var s := segs[0];
    var ram1 := Write(ram, s.addr, data[..s.len]).0;
    FillKeepsSize(ram, segs, data);
    if s.len > 0 {
      forall a | s.addr <= a < s.addr + s.len
        ensures Fill(ram, segs, data)[a] == ram1[a]
      {
        assert s.Holds(a);
        forall j | 0 <= j < |segs[1..]|
          ensures !segs[1..][j].Holds(a)
        {
          assert segs[1..][j] == segs[j + 1];
        }
        FillSparesTheRest(ram1, segs[1..], data[s.len..], a);
      }
    }
  }

  /** Reading the segments back gives the bytes that were filled in. */
  lemma {:induction false} FillThenCollect(ram: seq<byte>, segs: seq<Segment>, data: seq<byte>)
    requires Total(segs) <= |data| && InRam(ram, segs) && Disjoint(segs)
    ensures |Fill(ram, segs, data)| == |ram|
    ensures Collect(Fill(ram, segs, data), segs) == data[..Total(segs)]
    decreases |segs|
  {
    FillKeepsSize(ram, segs, data);
    if segs != [] {
      var s, rest := segs[0], segs[1..];
      DisjointTail(segs);
      FirstSegmentStays(ram, segs, data);
      FillThenCollect(Write(ram, s.addr, data[..s.len]).0, rest, data[s.len..]);
      assert data[..s.len] + data[s.len..][..Total(rest)] == data[..Total(segs)];
    }
  }

  lemma DisjointTail(segs: seq<Segment>)
    requires segs != [] && Disjoint(segs)
    ensures Disjoint(segs[1..])
  {
    forall i, j, a | 0 <= i < j < |segs[1..]| && segs[1..][i].Holds(a)
      ensures !segs[1..][j].Holds(a)
    {
      assert segs[i + 1].Holds(a) && segs[1..][j] == segs[j + 1];
    }
  }

  lemma {:induction false} CollectSame(ram: seq<byte>, ram': seq<byte>, segs: seq<Segment>)
    requires |ram| == |ram'| && InRam(ram, segs)
    requires forall a: nat :: a < |ram| && Covered(segs, a) ==> ram[a] == ram'[a]
    ensures InRam(ram', segs) && Collect(ram, segs) == Collect(ram', segs)
  {
    hide Covered;
    if segs != [] {
      forall a: nat | a < |ram|
        ensures Covered(segs, a) <==> segs[0].Holds(a) || Covered(segs[1..], a)
      {
        CoveredByTail(segs, a);
      }
      CollectSame(ram, ram', segs[1..]);
      SegmentSame(ram, ram', segs[0]);
    }
  }

  lemma SegmentSame(ram: seq<byte>, ram': seq<byte>, s: Segment)
    requires |ram| == |ram'| && (s.len > 0 ==> s.addr + s.len <= |ram|)
    requires forall a: nat :: a < |ram| && s.Holds(a) ==> ram[a] == ram'[a]
    ensures s.len > 0 ==> ram[s.addr..s.addr + s.len] == ram'[s.addr..s.addr + s.len]
  {
    if s.len > 0 {
      forall a: nat | s.addr <= a < s.addr + s.len
        ensures ram[a] == ram'[a]
      {
        assert s.Holds(a);
      }
    }
  }

  lemma {:induction false} PlanIsInRam(ram: seq<byte>, table: u64, idx: u16, hops: nat, need: nat)
    requires Plan(ram, table, idx, hops, need).Some?
    ensures InRam(ram, Plan(ram, table, idx, hops, need).value)
    decreases hops
  {
    hide PlanOne;
    var one := PlanOne(ram, table, idx, need).value;
    if one.1.Some? {
      PlanIsInRam(ram, table, one.1.value, hops - 1, need - one.0.len);
    }
  }

  /** A receive walk over a chain whose segments do not overlap each other or their descriptors
      delivers: the buffers then hold the first bytes of the queue in order, as many as are
      reported written, and the rest of the queue stays queued. */
  lemma WalkDelivers(ram: seq<byte>, table: u64, outbuf: seq<byte>, idx: u16, hops: nat, g: set<nat>, h: set<nat>)
    requires g <= h && WalkGuarded(ram, table, idx, hops, |outbuf|, g, h)
    requires Plan(ram, table, idx, hops, |outbuf|).Some? && Disjoint(Plan(ram, table, idx, hops, |outbuf|).value)
    ensures var w := Scatter(ram, table, outbuf, idx, hops);
            var segs := Plan(ram, table, idx, hops, |outbuf|).value;
            && w.written == Some(Total(segs)) && Total(segs) <= |outbuf|
            && InRam(w.ram, segs)
            && Collect(w.ram, segs) + w.outbuf == outbuf
            && Total(segs) == |Collect(w.ram, segs)|
            && forall a :: 0 <= a < |ram| && !Covered(segs, a) ==> w.ram[a] == ram[a]
  {
    hide Plan, Scatter, Fill, Total, WalkGuarded, Disjoint, Covered;
    var segs := Plan(ram, table, idx, hops, |outbuf|).value;
    ScatterFollowsPlan(ram, table, outbuf, idx, hops, g, h);
    PlanIsInRam(ram, table, idx, hops, |outbuf|);
    FillThenCollect(ram, segs, outbuf);
    forall a | 0 <= a < |ram| && !Covered(segs, a)
      ensures Fill(ram, segs, outbuf)[a] == ram[a]
    {
      FillSparesTheRest(ram, segs, outbuf, a);
    }
  }

  lemma {:induction false} PlanKeepsOut(ram: seq<byte>, table: u64, idx: u16, hops: nat, need: nat, g: set<nat>, h: set<nat>)
    requires WalkGuarded(ram, table, idx, hops, need, g, h)
    requires Plan(ram, table, idx, hops, need).Some?
    ensures forall a: nat :: Covered(Plan(ram, table, idx, hops, need).value, a) ==> a !in h
    decreases hops
  {
    hide PlanOne, OneGuarded, Covered;
    var one := PlanOne(ram, table, idx, need).value;
    var segs := Plan(ram, table, idx, hops, need).value;
    SegmentKeepsOut(ram, table, idx, need, g, h);
    if one.1.Some? {
      PlanKeepsOut(ram, table, one.1.value, hops - 1, need - one.0.len, g, h);
      assert segs[1..] == Plan(ram, table, one.1.value, hops - 1, need - one.0.len).value;
    } else {
      assert segs[1..] == [];
      NothingCovered();
    }
    forall a: nat | Covered(segs, a)
      ensures a !in h
    {
      CoveredByTail(segs, a);
    }
  }

  lemma NothingCovered()
    ensures forall a: nat :: !Covered([], a)
  {
  }

  lemma SegmentKeepsOut(ram: seq<byte>, table: u64, idx: u16, need: nat, g: set<nat>, h: set<nat>)
    requires OneGuarded(ram, table, idx, need, g, h) && PlanOne(ram, table, idx, need).Some?
    ensures forall a: nat :: PlanOne(ram, table, idx, need).value.0.Holds(a) ==> a !in h
  {
  }
}
