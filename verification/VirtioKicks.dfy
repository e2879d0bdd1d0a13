/** What a kick does when the driver laid its rings out sanely: it ends, and the used ring
    mirrors the avail ring (tb-vmm/src/virtio_mmio.rs; section 2.7 of virtio v1.2). */
module VirtioKicks {
  import opened Words
  import opened GuestMemory
  import opened VirtQueue
  import opened VirtioDevice
  import opened VirtioLoops

  // ---- Layout --------------------------------------------------------------------

  ghost predicate Usable(q: Queue) {
    q.ready && q.num != 0
  }

  /** Equal but for the free-running counters. */
  ghost predicate SameRings(q: Queue, q': Queue) {
    q' == q.(nextAvail := q'.nextAvail, usedCount := q'.usedCount)
  }

  /** The avail ring lies in `g`; the used ring is in RAM, in `h`, and clear of `g`. */
  ghost predicate RingsPlaced(ram: seq<byte>, q: Queue, g: set<nat>, h: set<nat>) {
    && q.num != 0
    && Inside(AvailIdxAt(q), 2, g)
    && (forall slot :: 0 <= slot < q.num ==> Inside(AvailSlotAt(q, slot), 2, g))
    && q.device + 4 + 8 * q.num <= |ram| <= TWO64
    && Outside(q.device + 2, 2 + 8 * q.num, g)
    && Inside(q.device + 2, 2 + 8 * q.num, h)
  }

  ghost predicate UsedRingsApart(q: Queue, r: Queue) {
    q.device + 4 + 8 * q.num <= r.device + 2 || r.device + 4 + 8 * r.num <= q.device + 2
  }

  function AvailHead(ram: seq<byte>, q: Queue, slot: nat): Option<u16> {
    WordBounds();
    ReadWord(ram, AvailSlotAt(q, slot), 2)
  }

  /** Receive walks from ring slot `slot` read descriptors in `g` and write outside of `h`. */
  ghost predicate BufferPlaced(ram: seq<byte>, q: Queue, slot: nat, need: nat, g: set<nat>, h: set<nat>) {
    AvailHead(ram, q, slot).Some? ==>
      WalkGuarded(ram, q.desc, AvailHead(ram, q, slot).value, q.num, need, g, h)
  }

  /** The driver has posted a chain at ring slot `slot` that is not yet consumed. */
  ghost predicate Posted(ram: seq<byte>, q: Queue, slot: nat)
    requires q.num != 0
  {
    exists j: nat :: j < Backlog(ram, q) && slot == PostedSlot(q, j)
  }

  function PostedSlot(q: Queue, j: nat): nat
    requires q.num != 0
  {
    RingSlot(Advance(q.nextAvail, j), q.num)
  }

  /** The driver's side of the bargain. `g` holds the avail rings and the posted receive
      descriptors; `h` adds the used rings. The device's writes stay out of `g`, and what it writes to
      receive buffers also stays out of the used rings. */
  ghost predicate Layout(ram: seq<byte>, qs: Queues, g: set<nat>, h: set<nat>) {
    && g <= h
    && (Usable(qs[RXQ]) ==> RingsPlaced(ram, qs[RXQ], g, h))
    && (Usable(qs[TXQ]) ==> RingsPlaced(ram, qs[TXQ], g, h))
    && (Usable(qs[RXQ]) && Usable(qs[TXQ]) ==> UsedRingsApart(qs[RXQ], qs[TXQ]))
    && (Usable(qs[RXQ]) ==>
          forall slot: nat, need: nat :: slot < qs[RXQ].num && Posted(ram, qs[RXQ], slot) ==>
            BufferPlaced(ram, qs[RXQ], slot, need, g, h))
  }

  lemma HeadSame(ram: seq<byte>, ram': seq<byte>, q: Queue, slot: nat, g: set<nat>)
    requires SameOn(ram, ram', g) && Inside(AvailSlotAt(q, slot), 2, g)
    ensures AvailHead(ram, q, slot) == AvailHead(ram', q, slot)
  {
    ReadsSame(ram, ram', g, AvailSlotAt(q, slot), 2);
  }

  lemma RingsPlacedSame(ram: seq<byte>, ram': seq<byte>, q: Queue, q': Queue, g: set<nat>, h: set<nat>)
    requires RingsPlaced(ram, q, g, h) && |ram| == |ram'| && SameRings(q, q')
    ensures RingsPlaced(ram', q', g, h)
  {
    hide Inside, Outside, Wrap64;
    forall slot | 0 <= slot < q'.num
      ensures Inside(AvailSlotAt(q', slot), 2, g)
    {
      assert AvailSlotAt(q', slot) == AvailSlotAt(q, slot);
    }
  }

  lemma BuffersPlacedSame(ram: seq<byte>, ram': seq<byte>, q: Queue, q': Queue, slot: nat, need: nat, g: set<nat>, h: set<nat>)
    requires SameOn(ram, ram', g) && SameRings(q, q') && Inside(AvailSlotAt(q, slot), 2, g)
    requires BufferPlaced(ram, q, slot, need, g, h)
    ensures BufferPlaced(ram', q', slot, need, g, h)
  {
    hide AvailHead, WalkGuarded, SameOn;
    HeadSame(ram, ram', q, slot, g);
    HeadIgnoresCounters(ram', q, q', slot);
    if AvailHead(ram, q, slot).Some? {
      PlanSame(ram, ram', q.desc, AvailHead(ram, q, slot).value, q.num, need, g, h);
    }
  }

  /** The counters of `q` stayed, or moved past one posted chain. */
  ghost predicate MovedOn(ram: seq<byte>, q: Queue, q': Queue) {
    SameRings(q, q') &&
    (q'.nextAvail == q.nextAvail || (q'.nextAvail == Next16(q.nextAvail) && Backlog(ram, q) > 0))
  }

  lemma BacklogMoves(ram: seq<byte>, ram': seq<byte>, q: Queue, q': Queue, g: set<nat>)
    requires SameOn(ram, ram', g) && Inside(AvailIdxAt(q), 2, g) && MovedOn(ram, q, q')
    ensures Backlog(ram', q') == Backlog(ram, q) - if q'.nextAvail == q.nextAvail then 0 else 1
  {
    hide FromLe, Inside, SameOn, Wrap64;
    ReadsSame(ram, ram', g, AvailIdxAt(q), 2);
    WordBounds();
  }

  /** No chain is newly posted by the device's own doing. */
  lemma PostedShrinks(ram: seq<byte>, ram': seq<byte>, q: Queue, q': Queue, slot: nat, g: set<nat>)
    requires SameOn(ram, ram', g) && Inside(AvailIdxAt(q), 2, g) && q.num != 0
    requires MovedOn(ram, q, q') && Posted(ram', q', slot)
    ensures Posted(ram, q, slot)
  {
    hide Backlog, RingSlot, Inside, SameOn, AvailIdxAt;
    BacklogMoves(ram, ram', q, q', g);
    var j: nat :| j < Backlog(ram', q') && slot == PostedSlot(q', j);
    if q'.nextAvail == q.nextAvail {
      assert slot == PostedSlot(q, j);
    } else {
      AdvanceFrom(q.nextAvail, j);
      assert slot == PostedSlot(q, j + 1);
    }
  }

  lemma AdvanceFrom(counter: u16, n: nat)
    ensures Advance(Next16(counter), n) == Advance(counter, n + 1)
  {
  }

  lemma LayoutSame(ram: seq<byte>, ram': seq<byte>, qs: Queues, qs': Queues, g: set<nat>, h: set<nat>)
    requires Layout(ram, qs, g, h) && SameOn(ram, ram', g)
    requires Usable(qs[RXQ]) ==> MovedOn(ram, qs[RXQ], qs'[RXQ])
    requires SameRings(qs[RXQ], qs'[RXQ]) && SameRings(qs[TXQ], qs'[TXQ])
    ensures Layout(ram', qs', g, h)
  {
    hide BufferPlaced, Posted, MovedOn;
    if Usable(qs[RXQ]) {
      RingsPlacedSame(ram, ram', qs[RXQ], qs'[RXQ], g, h);
      forall slot: nat, need: nat | slot < qs[RXQ].num && Posted(ram', qs'[RXQ], slot)
        ensures BufferPlaced(ram', qs'[RXQ], slot, need, g, h)
      {
        PostedShrinks(ram, ram', qs[RXQ], qs'[RXQ], slot, g);
        BuffersPlacedSame(ram, ram', qs[RXQ], qs'[RXQ], slot, need, g, h);
      }
    }
    if Usable(qs[TXQ]) {
      RingsPlacedSame(ram, ram', qs[TXQ], qs'[TXQ], g, h);
    }
  }

  lemma HeadIgnoresCounters(ram: seq<byte>, q: Queue, q': Queue, slot: nat)
    requires SameRings(q, q')
    ensures AvailHead(ram, q', slot) == AvailHead(ram, q, slot)
  {
  }

  // ---- Publishing -------------------------------------------------------------------

  function UsedAt(ram: seq<byte>, q: Queue, slot: nat): Option<Used> {
    var id := ReadWord(ram, UsedSlotAt(q, slot), 4);
    var len := ReadWord(ram, Wrap64(UsedSlotAt(q, slot) as nat + 4), 4);
    if id.None? || len.None? then None else Some(Used(id.value, len.value))
  }

  /** A used ring inside the address space does not wrap. */
  lemma UsedAddresses(q: Queue, slot: nat)
    requires q.device + 4 + 8 * q.num <= TWO64 && slot < q.num
    ensures UsedSlotAt(q, slot) == q.device + 4 + 8 * slot
    ensures Wrap64(UsedSlotAt(q, slot) as nat + 4) == q.device + 8 + 8 * slot
    ensures UsedIdxAt(q) == q.device + 2
  {
  }

  /** The memory after a publish, address by address. */
  lemma PublishWrites(ram: seq<byte>, q: Queue, id: u32, len: u32, g: set<nat>, h: set<nat>)
    requires RingsPlaced(ram, q, g, h)
    ensures var p := PublishUsed(ram, q, id, len);
            var at := q.device + 4 + 8 * RingSlot(q.usedCount, q.num);
            && p.visible && p.q == q.(usedCount := Next16(q.usedCount))
            && |p.ram| == |ram|
            && p.ram[at..at + 4] == Le(id, 4) && p.ram[at + 4..at + 8] == Le(len, 4)
            && p.ram[q.device + 2..q.device + 4] == Le(Next16(q.usedCount), 2)
            && (forall a :: 0 <= a < |ram| && !(at <= a < at + 8) && !(q.device + 2 <= a < q.device + 4) ==>
                  p.ram[a] == ram[a])
  {
    hide Le, RingSlot, Wrap64, Inside, Outside, UsedSlotAt, UsedIdxAt, Write, Next16;
    UsedAddresses(q, RingSlot(q.usedCount, q.num));
    var at: nat := q.device + 4 + 8 * RingSlot(q.usedCount, q.num);
    ThreeWrites(ram, at, Le(id, 4), Le(len, 4), q.device + 2, Le(Next16(q.usedCount), 2));
  }

  lemma ThreeWrites(ram: seq<byte>, at: nat, a: seq<byte>, b: seq<byte>, at': nat, c: seq<byte>)
    requires |a| == |b| == 4 && |c| == 2 && at' + 2 <= at && at + 8 <= |ram|
    ensures var ram3 := Write(Write(Write(ram, at, a).0, at + 4, b).0, at', c).0;
            && |ram3| == |ram|
            && ram3[at..at + 4] == a && ram3[at + 4..at + 8] == b && ram3[at'..at' + 2] == c
            && (forall i :: 0 <= i < |ram| && !(at <= i < at + 8) && !(at' <= i < at' + 2) ==> ram3[i] == ram[i])
  {
    hide Splice;
    var ram1 := Write(ram, at, a).0;
    var ram2 := Write(ram1, at + 4, b).0;
    SpliceBytes(ram, at, a);
    SpliceBytes(ram1, at + 4, b);
    SpliceBytes(ram2, at', c);
  }

  /** Publishing writes one entry and the index of the used ring, and nothing else. */
  lemma PublishLands(ram: seq<byte>, q: Queue, id: u32, len: u32, g: set<nat>, h: set<nat>)
    requires RingsPlaced(ram, q, g, h)
    ensures var p := PublishUsed(ram, q, id, len);
            && p.visible && p.q == q.(usedCount := Next16(q.usedCount))
            && SameOutsideUsed(ram, p.ram, q)
            && UsedAt(p.ram, q, RingSlot(q.usedCount, q.num)) == Some(Used(id, len))
            && ReadWord(p.ram, UsedIdxAt(q), 2) == Some(Next16(q.usedCount))
            && (forall slot :: 0 <= slot < q.num && slot != RingSlot(q.usedCount, q.num) ==>
                  UsedAt(p.ram, q, slot) == UsedAt(ram, q, slot))
  {
    hide Le, PublishUsed, FromLe, RingSlot, Wrap64, Inside, Outside, UsedSlotAt, UsedIdxAt;
    UsedAddresses(q, RingSlot(q.usedCount, q.num));
    var p := PublishUsed(ram, q, id, len);
    PublishWrites(ram, q, id, len, g, h);
    WordBounds();
    FromLeOfLe(id, 4);
    FromLeOfLe(len, 4);
    FromLeOfLe(Next16(q.usedCount), 2);
    forall slot | 0 <= slot < q.num && slot != RingSlot(q.usedCount, q.num)
      ensures UsedAt(p.ram, q, slot) == UsedAt(ram, q, slot)
    {
      UsedAtSame(ram, p.ram, q, slot);
    }
  }

  /** Nothing changed but, perhaps, the used ring of `q`. */
  ghost predicate SameOutsideUsed(ram: seq<byte>, ram': seq<byte>, q: Queue) {
    && |ram'| == |ram|
    && forall a :: 0 <= a < |ram| && !(q.device + 2 <= a < q.device + 4 + 8 * q.num) ==> ram'[a] == ram[a]
  }

  lemma UsedAtSame(ram: seq<byte>, ram': seq<byte>, q: Queue, slot: nat)
    requires slot < q.num && q.device + 4 + 8 * q.num <= |ram| <= TWO64 && |ram'| == |ram|
    requires forall a :: q.device + 4 + 8 * slot <= a < q.device + 12 + 8 * slot ==> ram'[a] == ram[a]
    ensures UsedAt(ram', q, slot) == UsedAt(ram, q, slot)
  {
    hide FromLe, Wrap64, UsedSlotAt;
    UsedAddresses(q, slot);
    var o: nat := q.device + 4 + 8 * slot;
    assert ram'[o..o + 4] == ram[o..o + 4];
    assert ram'[o + 4..o + 8] == ram[o + 4..o + 8];
  }

  /** Where publishing breaks off, wherever the used ring lies: the counter moves on if both halves of the entry
      are in RAM, and the guest can see the entry if the index is too. */
  lemma PublishIff(ram: seq<byte>, q: Queue, id: u32, len: u32)
    requires q.num != 0
    ensures var at: nat := (q.device + 4 + 8 * (q.usedCount % q.num)) % 0x1_0000_0000_0000_0000;
            var high: nat := (at + 4) % 0x1_0000_0000_0000_0000;
            var p := PublishUsed(ram, q, id, len);
            var entered := at + 4 <= |ram| && high + 4 <= |ram|;
            && p.q == (if entered then q.(usedCount := (q.usedCount + 1) % 0x1_0000) else q)
            && (p.visible <==> entered && (q.device + 2) % 0x1_0000_0000_0000_0000 + 2 <= |ram|)
  {
    hide Write, Le;
  }

  /** The next head, from the bytes of an avail ring that does not wrap: none unless the queue is ready and the
      index at 2 has moved on; then the entry that the counter, modulo the queue size, points to. */
  lemma NextHeadIs(ram: seq<byte>, q: Queue)
    requires q.num != 0 && q.driver + 4 + 2 * q.num as int <= TWO64
    ensures var at := q.driver + 4 + 2 * (q.nextAvail % q.num);
            var head := NextHead(ram, q);
            && (head.Some? <==> && q.ready && at + 2 <= |ram|
                                && ram[q.driver + 2..q.driver + 4] != Le(q.nextAvail, 2))
            && (head.Some? ==> ram[at..at + 2] == Le(head.value, 2))
  {
    hide Le, FromLe, Wrap64, ReadWord, AvailIdxAt, AvailSlotAt;
    var slot := RingSlot(q.nextAvail, q.num);
    AvailAddresses(q, slot);
    WordBounds();
    ReadWordIs(ram, q.driver + 2, 2);
    ReadWordIs(ram, q.driver + 4 + 2 * slot, 2);
    if q.driver + 4 <= |ram| {
      SameWord(ReadWord(ram, q.driver + 2, 2).value, q.nextAvail);
    }
  }

  lemma AvailAddresses(q: Queue, slot: nat)
    requires slot < q.num && q.driver + 4 + 2 * q.num as int <= TWO64
    ensures AvailIdxAt(q) == q.driver + 2 && AvailSlotAt(q, slot) == q.driver + 4 + 2 * slot
  {
  }

  lemma SameWord(x: nat, y: nat)
    requires x < 0x1_0000 && y < 0x1_0000
    ensures Le(x, 2) == Le(y, 2) <==> x == y
  {
    hide Le;
    WordBounds();
    FromLeOfLe(x, 2);
    FromLeOfLe(y, 2);
  }

  // ---- One pass -----------------------------------------------------------------------

  /** Chains made available and not yet consumed. */
  function Backlog(ram: seq<byte>, q: Queue): nat {
    var avail := ReadWord(ram, AvailIdxAt(q), 2);
    if avail.None? then 0 else (avail.value + 0x1_0000 - q.nextAvail) % 0x1_0000
  }

  /** The used ring of `q`, its index included, reads the same. */
  ghost predicate SameUsed(ram: seq<byte>, ram': seq<byte>, q: Queue) {
    && |ram| == |ram'|
    && forall a :: q.device + 2 <= a < q.device + 4 + 8 * q.num && a < |ram| ==> ram'[a] == ram[a]
  }

  /** From `d` to `d'` queue `qi` served one chain: the next available head became the next used
      entry `u`, both counters moved on, and the rest of that used ring stayed. */
  ghost predicate Advanced<S>(d: Device<S>, d': Device<S>, qi: nat, u: Used)
    requires qi < 2
  {
    var q := d.queues[qi];
    && Usable(q)
    && d'.queues == d.queues[qi := q.(nextAvail := Next16(q.nextAvail), usedCount := Next16(q.usedCount))]
    && AvailHead(d.ram, q, RingSlot(q.nextAvail, q.num)) == Some(u.id)
    && UsedAt(d'.ram, q, RingSlot(q.usedCount, q.num)) == Some(u)
    && ReadWord(d'.ram, UsedIdxAt(q), 2) == Some(Next16(q.usedCount))
    && (forall slot :: 0 <= slot < q.num && slot != RingSlot(q.usedCount, q.num) ==>
          UsedAt(d'.ram, q, slot) == UsedAt(d.ram, q, slot))
  }

  lemma PublishSparesGuard(ram: seq<byte>, ram': seq<byte>, q: Queue, g: set<nat>, h: set<nat>)
    requires RingsPlaced(ram, q, g, h) && SameOutsideUsed(ram, ram', q)
    ensures SameOn(ram, ram', g)
  {
  }

  lemma TxPassAdvances<S>(d: Device<S>, g: set<nat>, h: set<nat>)
    requires Layout(d.ram, d.queues, g, h) && TxPass(d).again
    ensures var d' := TxPass(d).dev;
            && d'.log.served == d.log.served + [d'.log.served[|d.log.served|]]
            && d'.log.walks == d.log.walks && d'.log.served[|d.log.served|].len == 0
            && Advanced(d, d', TXQ, d'.log.served[|d.log.served|])
            && SameOn(d.ram, d'.ram, g)
            && (Usable(d.queues[RXQ]) ==> SameUsed(d.ram, d'.ram, d.queues[RXQ]))
            && Layout(d'.ram, d'.queues, g, h)
  {
    hide Gather, PublishUsed, RingSlot, BufferPlaced, UsedAt, ReadWord, Next16, AvailIdxAt, AvailSlotAt, UsedIdxAt, Inside, Outside;
    var q := d.queues[TXQ];
    var q1 := q.(nextAvail := Next16(q.nextAvail));
    var head := NextHead(d.ram, q).value;
    PublishLands(d.ram, q1, head, 0, g, h) by {
      RingsPlacedSame(d.ram, d.ram, q, q1, g, h);
    }
    var d' := TxPass(d).dev;
    PublishSparesGuard(d.ram, d'.ram, q, g, h);
    UsedIgnoresCounters(d'.ram, q, q1);
    UsedIgnoresCounters(d.ram, q, q1);
    LayoutSame(d.ram, d'.ram, d.queues, d'.queues, g, h);
  }

  lemma UsedIgnoresCounters(ram: seq<byte>, q: Queue, q': Queue)
    requires SameRings(q, q')
    ensures UsedIdxAt(q') == UsedIdxAt(q)
    ensures forall slot: nat :: UsedAt(ram, q', slot) == UsedAt(ram, q, slot)
  {
  }

  /** The chain a pass takes is a posted one. */
  lemma NextIsPosted(ram: seq<byte>, q: Queue)
    requires NextHead(ram, q).Some?
    ensures Backlog(ram, q) > 0 && Posted(ram, q, RingSlot(q.nextAvail, q.num))
  {
    hide RingSlot, ReadWord, AvailIdxAt, AvailSlotAt;
    WordBounds();
    AdvanceStep(q.nextAvail, 0);
    assert PostedSlot(q, 0) == RingSlot(q.nextAvail, q.num);
  }

  /** The receive walk of a pass, and that it is guarded. */
  lemma RxWalkIsGuarded<S>(d: Device<S>, head: u16, g: set<nat>, h: set<nat>)
    requires Layout(d.ram, d.queues, g, h) && NextHead(d.ram, d.queues[RXQ]) == Some(head)
    ensures WalkGuarded(d.ram, d.queues[RXQ].desc, head, d.queues[RXQ].num, |d.outbuf|, g, h)
  {
    hide WalkGuarded, RingsPlaced, ReadWord, RingSlot, AvailSlotAt, AvailIdxAt;
    var q := d.queues[RXQ];
    NextIsPosted(d.ram, q);
    assert BufferPlaced(d.ram, q, RingSlot(q.nextAvail, q.num), |d.outbuf|, g, h);
  }

  lemma UsedInsideSame(ram: seq<byte>, ram': seq<byte>, q: Queue, g: set<nat>, h: set<nat>)
    requires RingsPlaced(ram, q, g, h) && SameOn(ram, ram', h)
    ensures SameUsed(ram, ram', q)
    ensures forall slot :: 0 <= slot < q.num ==> UsedAt(ram', q, slot) == UsedAt(ram, q, slot)
  {
    hide UsedAt;
    assert SameUsed(ram, ram', q);
    forall slot | 0 <= slot < q.num
      ensures UsedAt(ram', q, slot) == UsedAt(ram, q, slot)
    {
      UsedAtSame(ram, ram', q, slot);
    }
  }

  lemma RxPassAdvances<S>(d: Device<S>, g: set<nat>, h: set<nat>)
    requires Layout(d.ram, d.queues, g, h) && RxPass(d).again
    ensures var d' := RxPass(d).dev;
            && |d'.log.walks| == |d.log.walks| + 1
            && d'.log.served == d.log.served
            && (var walk := d'.log.walks[|d.log.walks|];
                && d'.log.walks == d.log.walks + [walk] && walk.completed
                && Advanced(d, d', RXQ, Used(walk.head, |walk.bytes| % TWO32)))
            && SameOn(d.ram, d'.ram, g)
            && (Usable(d.queues[TXQ]) ==> SameUsed(d.ram, d'.ram, d.queues[TXQ]))
            && Layout(d'.ram, d'.queues, g, h)
  {
    hide Scatter, PublishUsed, RingSlot, BufferPlaced, WalkGuarded, UsedAt, ReadWord, Next16, AvailIdxAt, AvailSlotAt,
      UsedIdxAt, Inside, Outside;
    var q := d.queues[RXQ];
    var q1 := q.(nextAvail := Next16(q.nextAvail));
    var head := NextHead(d.ram, q).value;
    RxWalkIsGuarded(d, head, g, h);
    var w := Scatter(d.ram, q.desc, d.outbuf, head, q.num);
    ScatterSpares(d.ram, q.desc, d.outbuf, head, q.num, g, h);
    var d' := RxPass(d).dev;
    PublishLands(w.ram, q1, head, w.written.value % TWO32, g, h) by {
      RingsPlacedSame(d.ram, w.ram, q, q1, g, h);
    }
    PublishSparesGuard(w.ram, d'.ram, q, g, h) by {
      RingsPlacedSame(d.ram, w.ram, q, q, g, h);
    }
    UsedIgnoresCounters(d'.ram, q, q1);
    UsedIgnoresCounters(w.ram, q, q1);
    UsedInsideSame(d.ram, w.ram, q, g, h);
    if Usable(d.queues[TXQ]) {
      UsedInsideSame(d.ram, w.ram, d.queues[TXQ], g, h);
    }
    LayoutSame(d.ram, d'.ram, d.queues, d'.queues, g, h);
  }

  /** The pass that ends the receive loop may abandon a walk, but then it moves no counter and
      writes nothing inside `h`. */
  lemma RxPassEnds<S>(d: Device<S>, g: set<nat>, h: set<nat>)
    requires Layout(d.ram, d.queues, g, h) && !RxPass(d).again
    ensures var d' := RxPass(d).dev;
            && d'.queues == d.queues && d'.log.served == d.log.served
            && SameOn(d.ram, d'.ram, h) && Layout(d'.ram, d'.queues, g, h)
            && (d' == d || exists walk: Walk :: d'.log.walks == d.log.walks + [walk] && !walk.completed)
  {
    hide Scatter, WalkGuarded, BufferPlaced, RingsPlaced, NextHead;
    var q := d.queues[RXQ];
    var head := NextHead(d.ram, q);
    if d.outbuf != [] && head.Some? {
      RxWalkIsGuarded(d, head.value, g, h);
      ScatterSpares(d.ram, q.desc, d.outbuf, head.value, q.num, g, h);
      var d' := RxPass(d).dev;
      LayoutSame(d.ram, d'.ram, d.queues, d'.queues, g, h);
      assert !d'.log.walks[|d.log.walks|].completed;
    }
  }

  /** A guarded receive walk is abandoned exactly when the chain has no plan in guest memory as it was
      before the walk, and then moves no counter. Otherwise it is completed and its queue moves on by
      one; and if its segments do not overlap, the buffers then hold the walk's bytes. */
  lemma RxPassFollowsPlan<S>(d: Device<S>, head: u16, g: set<nat>, h: set<nat>)
    requires d.outbuf != [] && NextHead(d.ram, d.queues[RXQ]) == Some(head)
    requires g <= h && RingsPlaced(d.ram, d.queues[RXQ], g, h)
    requires WalkGuarded(d.ram, d.queues[RXQ].desc, head, d.queues[RXQ].num, |d.outbuf|, g, h)
    ensures var q, d' := d.queues[RXQ], RxPass(d).dev;
            var plan := Plan(d.ram, q.desc, head, q.num, |d.outbuf|);
            && (RxPass(d).again <==> plan.Some?)
            && d'.queues[RXQ] == (if plan.Some? then q.(nextAvail := Next16(q.nextAvail), usedCount := Next16(q.usedCount)) else q)
            && |d'.log.walks| == |d.log.walks| + 1
            && var walk := d'.log.walks[|d.log.walks|];
               && d'.log.walks == d.log.walks + [walk] && walk.bytes + d'.outbuf == d.outbuf
               && (walk.completed <==> plan.Some?)
               && (plan.Some? ==> |walk.bytes| == Total(plan.value))
               && (plan.Some? && Disjoint(plan.value) ==>
                     InRam(d'.ram, plan.value) && Collect(d'.ram, plan.value) == walk.bytes)
  {
    hide Scatter, Plan, PublishUsed, RingSlot, WalkGuarded, RingsPlaced, NextHead, Fill, Total, Collect, Covered,
      Disjoint, Inside, Outside;
    var q := d.queues[RXQ];
    ScatterFollowsPlan(d.ram, q.desc, d.outbuf, head, q.num, g, h);
    ScatterTakesFromFront(d.ram, q.desc, d.outbuf, head, q.num);
    var plan := Plan(d.ram, q.desc, head, q.num, |d.outbuf|);
    if plan.Some? {
      var w := Scatter(d.ram, q.desc, d.outbuf, head, q.num);
      var q1 := q.(nextAvail := Next16(q.nextAvail));
      UsableIfNext(d.ram, q);
      PublishLands(w.ram, q1, head, w.written.value % TWO32, g, h) by {
        RingsPlacedSame(d.ram, w.ram, q, q1, g, h);
      }
      if Disjoint(plan.value) {
        var d' := RxPass(d).dev;
        WalkDelivers(d.ram, q.desc, d.outbuf, head, q.num, g, h);
        PlanKeepsOut(d.ram, q.desc, head, q.num, |d.outbuf|, g, h);
        UsedRingIsInside(d.ram, q, g, h);
        CollectSame(w.ram, d'.ram, plan.value);
        assert Collect(w.ram, plan.value) == d.outbuf[..|d.outbuf| - |w.outbuf|];
      }
    }
  }

  /** The same of any receive pass that meets a sane layout. */
  lemma WalkCompletesIffPlanned<S>(d: Device<S>, g: set<nat>, h: set<nat>)
    requires Layout(d.ram, d.queues, g, h) && d.outbuf != [] && NextHead(d.ram, d.queues[RXQ]).Some?
    ensures var q := d.queues[RXQ];
            var plan := Plan(d.ram, q.desc, NextHead(d.ram, q).value, q.num, |d.outbuf|);
            var d' := RxPass(d).dev;
            && |d'.log.walks| == |d.log.walks| + 1
            && var walk := d'.log.walks[|d.log.walks|];
               && (walk.completed <==> plan.Some?)
               && (plan.Some? ==> |walk.bytes| == Total(plan.value) && walk.bytes + d'.outbuf == d.outbuf)
               && (plan.Some? && Disjoint(plan.value) ==>
                     InRam(d'.ram, plan.value) && Collect(d'.ram, plan.value) == walk.bytes)
  {
    hide RxPass, Plan, BufferPlaced, WalkGuarded, RingsPlaced, NextHead, Total, Collect, Disjoint, InRam;
    var head := NextHead(d.ram, d.queues[RXQ]).value;
    UsableIfNext(d.ram, d.queues[RXQ]);
    RxWalkIsGuarded(d, head, g, h);
    RxPassFollowsPlan(d, head, g, h);
  }

  lemma UsableIfNext(ram: seq<byte>, q: Queue)
    requires NextHead(ram, q).Some?
    ensures Usable(q)
  {
  }

  lemma UsedRingIsInside(ram: seq<byte>, q: Queue, g: set<nat>, h: set<nat>)
    requires RingsPlaced(ram, q, g, h)
    ensures forall a: nat :: q.device + 2 <= a < q.device + 4 + 8 * q.num ==> a in h
  {
  }

  // ---- Whole loops --------------------------------------------------------------------

  /** A free-running counter `n` steps on. */
  function Advance(counter: u16, n: nat): u16 {
    (counter + n) % 0x1_0000
  }

  /** From `d0` to `d` queue `qi` served the chains `us`: one per available head in ring order,
      each head once, across the counters' wrap; the last of them stand in the used ring, as
      many as it holds, each in the slot its avail entry came from when the counters agree. */
  ghost predicate Served<S>(d0: Device<S>, d: Device<S>, qi: nat, us: seq<Used>)
    requires qi < 2
  {
    var q := d0.queues[qi];
    var n := |us|;
    && d.queues[qi] == q.(nextAvail := Advance(q.nextAvail, n), usedCount := Advance(q.usedCount, n))
    && (n > 0 ==> Usable(q) && ReadWord(d.ram, UsedIdxAt(q), 2) == Some(Advance(q.usedCount, n)))
    && (forall j :: 0 <= j < n ==>
          AvailHead(d0.ram, q, RingSlot(Advance(q.nextAvail, j), q.num)) == Some(us[j].id))
    && (forall j :: 0 <= j < n <= j + q.num ==>
          UsedAt(d.ram, q, RingSlot(Advance(q.usedCount, j), q.num)) == Some(us[j]))
  }

  lemma SlotsDiffer(counter: u16, i: nat, j: nat, num: QueueSize)
    requires num != 0
    requires i < j < i + num
    ensures RingSlot(Advance(counter, i), num) != RingSlot(Advance(counter, j), num)
  {
    SlotOfAdvance(counter, i, num);
    SlotOfAdvance(counter, j, num);
    StepsDiffer(counter + i, j - i, num);
  }

  lemma StepsDiffer(x: nat, n: nat, num: QueueSize)
    requires num != 0
    requires 0 < n < num
    ensures x % num != (x + n) % num
  {
    if num == 2 {
      assert x % 2 != (x + 1) % 2;
    } else {
      assert x % 4 != (x + 1) % 4 && x % 4 != (x + 2) % 4 && x % 4 != (x + 3) % 4;
    }
  }

  /** Ring sizes divide 2^16, so the wrap of a counter does not disturb its ring slot. */
  lemma SlotOfAdvance(counter: u16, n: nat, num: QueueSize)
    requires num != 0
    ensures RingSlot(Advance(counter, n), num) == (counter + n) % num
  {
    if num == 1 {
      assert RingSlot(Advance(counter, n), 1) == 0;
    } else if num == 2 {
      WrapKeepsParity(counter + n);
      assert RingSlot(Advance(counter, n), 2) == (counter + n) % 2;
    } else {
      WrapKeepsParity(counter + n);
      assert RingSlot(Advance(counter, n), 4) == (counter + n) % 4;
    }
  }

  lemma WrapKeepsParity(x: nat)
    ensures x % 0x1_0000 % 2 == x % 2
    ensures x % 0x1_0000 % 4 == x % 4
  {
    var k, r := x / 0x1_0000, x % 0x1_0000;
    assert (2 * (0x8000 * k) + r) % 2 == r % 2;
    assert (4 * (0x4000 * k) + r) % 4 == r % 4;
  }

  lemma ServedNothing<S>(d: Device<S>, qi: nat)
    requires qi < 2
    ensures Served(d, d, qi, [])
  {
  }

  lemma ServedMore<S>(d0: Device<S>, d: Device<S>, d': Device<S>, qi: nat, us: seq<Used>, u: Used, g: set<nat>, h: set<nat>)
    requires qi < 2 && Served(d0, d, qi, us) && Advanced(d, d', qi, u)
    requires RingsPlaced(d0.ram, d0.queues[qi], g, h) && SameOn(d0.ram, d.ram, g)
    ensures Served(d0, d', qi, us + [u])
  {
    hide AvailHead, UsedAt, RingSlot, ReadWord, UsedIdxAt, AvailSlotAt, AvailIdxAt, Inside, Outside, Advance, Next16;
    var q, q1 := d0.queues[qi], d.queues[qi];
    var n := |us|;
    AdvanceStep(q.nextAvail, n);
    AdvanceStep(q.usedCount, n);
    UsedIgnoresCounters(d.ram, q, q1);
    UsedIgnoresCounters(d'.ram, q, q1);
    var slot := RingSlot(q1.nextAvail, q.num);
    HeadIgnoresCounters(d.ram, q, q1, slot);
    HeadSame(d0.ram, d.ram, q, slot, g);
    forall j | 0 <= j < n + 1 <= j + q.num
      ensures UsedAt(d'.ram, q, RingSlot(Advance(q.usedCount, j), q.num)) == Some((us + [u])[j])
    {
      if j < n {
        SlotsDiffer(q.usedCount, j, n, q.num);
      }
    }
  }

  lemma AdvanceStep(counter: u16, n: nat)
    ensures Next16(Advance(counter, n)) == Advance(counter, n + 1)
    ensures Advance(counter, 0) == counter
  {
  }

  /** Each chain served shortens the backlog by one, so a kick loop goes round at most as often
      as there are chains available. */
  lemma BacklogShrinks<S>(d: Device<S>, d': Device<S>, qi: nat, u: Used, g: set<nat>, h: set<nat>)
    requires qi < 2 && Advanced(d, d', qi, u) && NextHead(d.ram, d.queues[qi]).Some?
    requires RingsPlaced(d.ram, d.queues[qi], g, h) && SameOn(d.ram, d'.ram, g)
    ensures Backlog(d'.ram, d'.queues[qi]) == Backlog(d.ram, d.queues[qi]) - 1
  {
    hide UsedAt, AvailHead, RingSlot, Wrap64, FromLe;
    ReadsSame(d.ram, d'.ram, g, AvailIdxAt(d.queues[qi]), 2);
    WordBounds();
  }

  /** What the transmit loop has done so far, counted from `d0`. */
  ghost predicate TxProgress<S>(d0: Device<S>, d: Device<S>, g: set<nat>, h: set<nat>) {
    && Layout(d0.ram, d0.queues, g, h) && Layout(d.ram, d.queues, g, h) && SameOn(d0.ram, d.ram, g)
    && d0.log.served <= d.log.served
    && Served(d0, d, TXQ, d.log.served[|d0.log.served|..])
    && (forall j :: |d0.log.served| <= j < |d.log.served| ==> d.log.served[j].len == 0)
    && d.queues[RXQ] == d0.queues[RXQ] && d.log.walks == d0.log.walks
    && (Usable(d0.queues[RXQ]) ==> SameUsed(d0.ram, d.ram, d0.queues[RXQ]))
  }

  lemma TxProgressStarts<S>(d: Device<S>, g: set<nat>, h: set<nat>)
    requires Layout(d.ram, d.queues, g, h)
    ensures TxProgress(d, d, g, h)
  {
    hide Layout;
    ServedNothing(d, TXQ);
    assert d.log.served[|d.log.served|..] == [];
  }

  lemma TxPassProgresses<S>(d0: Device<S>, d: Device<S>, g: set<nat>, h: set<nat>)
    requires TxProgress(d0, d, g, h) && TxPass(d).again
    ensures TxProgress(d0, TxPass(d).dev, g, h)
    ensures Backlog(TxPass(d).dev.ram, TxPass(d).dev.queues[TXQ]) < Backlog(d.ram, d.queues[TXQ])
  {
    hide TxPass, Served, BufferPlaced, RingsPlaced, Backlog, NextHead, UsedAt;
    TxPassAdvances(d, g, h);
    TxAgainHasHead(d);
    var d' := TxPass(d).dev;
    var u := d'.log.served[|d.log.served|];
    SameRingsBy(d0, d, TXQ);
    ServedMore(d0, d, d', TXQ, d.log.served[|d0.log.served|..], u, g, h);
    BacklogShrinks(d, d', TXQ, u, g, h);
    assert d'.log.served[|d0.log.served|..] == d.log.served[|d0.log.served|..] + [u];
  }

  lemma TxAgainHasHead<S>(d: Device<S>)
    requires TxPass(d).again
    ensures NextHead(d.ram, d.queues[TXQ]).Some?
  {
  }

  lemma SameRingsBy<S>(d0: Device<S>, d: Device<S>, qi: nat)
    requires qi < 2 && exists us :: Served(d0, d, qi, us)
    ensures SameRings(d0.queues[qi], d.queues[qi]) && Usable(d.queues[qi]) == Usable(d0.queues[qi])
  {
  }

  /** The transmit loop ends, and keeps its progress to the end. */
  lemma {:induction false} TxLoopProgresses<S>(d0: Device<S>, d: Device<S>, g: set<nat>, h: set<nat>)
    requires TxProgress(d0, d, g, h)
    ensures TxEnds(d) && TxProgress(d0, TxLoop(d), g, h) && !TxPass(TxLoop(d)).again
    decreases Backlog(d.ram, d.queues[TXQ])
  {
    hide TxProgress, TxPass, TxEnds, TxLoop;
    TxLoopUnfolds(d);
    if TxPass(d).again {
      TxPassProgresses(d0, d, g, h);
      TxLoopProgresses(d0, TxPass(d).dev, g, h);
    }
  }

  /** The used entries that a list of receive walks amounts to. */
  function Completions(walks: seq<Walk>): seq<Used> {
    if walks == [] then []
    else
      var w := walks[|walks| - 1];
      Completions(walks[..|walks| - 1]) + if w.completed then [Used(w.head, |w.bytes| % TWO32)] else []
  }

  lemma CompletionsGrow(walks: seq<Walk>, w: Walk)
    ensures Completions(walks + [w]) == Completions(walks) + if w.completed then [Used(w.head, |w.bytes| % TWO32)] else []
  {
    assert (walks + [w])[..|walks + [w]| - 1] == walks;
  }

  /** What the receive loop has done so far, counted from `d0`. */
  ghost predicate RxProgress<S>(d0: Device<S>, d: Device<S>, g: set<nat>, h: set<nat>) {
    && Layout(d0.ram, d0.queues, g, h) && Layout(d.ram, d.queues, g, h) && SameOn(d0.ram, d.ram, g)
    && d0.log.walks <= d.log.walks
    && Served(d0, d, RXQ, Completions(d.log.walks[|d0.log.walks|..]))
    && d.queues[TXQ] == d0.queues[TXQ] && d.log.served == d0.log.served
    && (Usable(d0.queues[TXQ]) ==> SameUsed(d0.ram, d.ram, d0.queues[TXQ]))
  }

  lemma RxProgressStarts<S>(d: Device<S>, g: set<nat>, h: set<nat>)
    requires Layout(d.ram, d.queues, g, h)
    ensures RxProgress(d, d, g, h)
  {
    hide Layout;
    ServedNothing(d, RXQ);
    assert d.log.walks[|d.log.walks|..] == [];
  }

  lemma RxPassProgresses<S>(d0: Device<S>, d: Device<S>, g: set<nat>, h: set<nat>)
    requires RxProgress(d0, d, g, h) && RxPass(d).again
    ensures RxProgress(d0, RxPass(d).dev, g, h)
    ensures Backlog(RxPass(d).dev.ram, RxPass(d).dev.queues[RXQ]) < Backlog(d.ram, d.queues[RXQ])
  {
    hide RxPass, Served, BufferPlaced, RingsPlaced, Backlog, NextHead, UsedAt;
    RxPassAdvances(d, g, h);
    RxAgainHasHead(d);
    var d' := RxPass(d).dev;
    var walk := d'.log.walks[|d.log.walks|];
    var before := d.log.walks[|d0.log.walks|..];
    SameRingsBy(d0, d, RXQ);
    CompletionsGrow(before, walk);
    ServedMore(d0, d, d', RXQ, Completions(before), Used(walk.head, |walk.bytes| % TWO32), g, h);
    BacklogShrinks(d, d', RXQ, Used(walk.head, |walk.bytes| % TWO32), g, h);
    assert d'.log.walks[|d0.log.walks|..] == before + [walk];
  }

  lemma RxAgainHasHead<S>(d: Device<S>)
    requires RxPass(d).again
    ensures NextHead(d.ram, d.queues[RXQ]).Some?
  {
  }

  /** The last pass changes no ring, whether it finds nothing to do or abandons a walk. */
  lemma RxEndProgresses<S>(d0: Device<S>, d: Device<S>, g: set<nat>, h: set<nat>)
    requires RxProgress(d0, d, g, h) && !RxPass(d).again
    ensures RxProgress(d0, RxPass(d).dev, g, h)
  {
    hide RxPass, BufferPlaced, RingsPlaced, Backlog, NextHead, UsedAt, AvailHead, RingSlot, Served, Completions;
    RxPassEnds(d, g, h);
    var d' := RxPass(d).dev;
    var before := d.log.walks[|d0.log.walks|..];
    if d' != d {
      var walk: Walk :| d'.log.walks == d.log.walks + [walk] && !walk.completed;
      CompletionsGrow(before, walk);
      assert d'.log.walks[|d0.log.walks|..] == before + [walk];
    }
    var before' := d'.log.walks[|d0.log.walks|..];
    assert Completions(before') == Completions(before);
    forall qi | 0 <= qi < 2 && Usable(d0.queues[qi])
      ensures RingsPlaced(d.ram, d0.queues[qi], g, h) && SameUsed(d.ram, d'.ram, d0.queues[qi])
    {
      RingsPlacedSame(d0.ram, d.ram, d0.queues[qi], d0.queues[qi], g, h);
      UsedInsideSame(d.ram, d'.ram, d0.queues[qi], g, h);
    }
    ServedSame(d0, d, d', RXQ, Completions(before), g, h);
  }

  /** Served chains stay served while the used ring is left alone. */
  lemma ServedSame<S>(d0: Device<S>, d: Device<S>, d': Device<S>, qi: nat, us: seq<Used>, g: set<nat>, h: set<nat>)
    requires qi < 2 && Served(d0, d, qi, us) && d'.queues[qi] == d.queues[qi]
    requires Usable(d0.queues[qi]) ==>
               RingsPlaced(d.ram, d0.queues[qi], g, h) && SameUsed(d.ram, d'.ram, d0.queues[qi])
    ensures Served(d0, d', qi, us)
  {
    hide AvailHead, UsedAt, RingSlot, ReadWord, Inside, Outside, UsedIdxAt, AvailIdxAt, AvailSlotAt, Advance;
    var q := d0.queues[qi];
    if us != [] {
      UsedReadsSame(d.ram, d'.ram, q, g, h);
      assert ReadWord(d.ram, UsedIdxAt(q), 2) == Some(Advance(q.usedCount, |us|));
    }
  }

  lemma UsedReadsSame(ram: seq<byte>, ram': seq<byte>, q: Queue, g: set<nat>, h: set<nat>)
    requires RingsPlaced(ram, q, g, h) && SameUsed(ram, ram', q)
    ensures ReadWord(ram', UsedIdxAt(q), 2) == ReadWord(ram, UsedIdxAt(q), 2)
    ensures forall slot :: 0 <= slot < q.num ==> UsedAt(ram', q, slot) == UsedAt(ram, q, slot)
  {
    hide UsedAt, FromLe;
    assert ram'[q.device + 2..q.device + 4] == ram[q.device + 2..q.device + 4];
    assert UsedIdxAt(q) == q.device + 2;
    forall slot | 0 <= slot < q.num
      ensures UsedAt(ram', q, slot) == UsedAt(ram, q, slot)
    {
      UsedAtSame(ram, ram', q, slot);
    }
  }

  /** Why the receive loop that started at `d0` stops: nothing queued, no buffer posted, or the
      posted chain was malformed and its walk, one of this loop, abandoned. */
  ghost predicate RxStopped<S>(d0: Device<S>, d: Device<S>) {
    || d.outbuf == []
    || NextHead(d.ram, d.queues[RXQ]).None?
    || (|d.log.walks| > |d0.log.walks| && !d.log.walks[|d.log.walks| - 1].completed)
  }

  lemma RxEndStops<S>(d0: Device<S>, d: Device<S>)
    requires !RxPass(d).again && d0.log.walks <= d.log.walks
    ensures RxStopped(d0, RxPass(d).dev)
  {
    hide Scatter, PublishUsed, NextHead;
  }

  /** The receive loop ends, and keeps its progress to the end. */
  lemma {:induction false} RxLoopProgresses<S>(d0: Device<S>, d: Device<S>, g: set<nat>, h: set<nat>)
    requires RxProgress(d0, d, g, h)
    ensures RxEnds(d) && RxProgress(d0, RxLoop(d), g, h) && RxStopped(d0, RxLoop(d))
    decreases Backlog(d.ram, d.queues[RXQ])
  {
    hide RxProgress, RxPass, RxStopped, RxEnds, RxLoop;
    RxLoopUnfolds(d);
    if RxPass(d).again {
      RxPassProgresses(d0, d, g, h);
      RxLoopProgresses(d0, RxPass(d).dev, g, h);
    } else {
      RxEndProgresses(d0, d, g, h);
      WalksKept(d0, d, g, h);
      RxEndStops(d0, d);
    }
  }

  lemma WalksKept<S>(d0: Device<S>, d: Device<S>, g: set<nat>, h: set<nat>)
    requires RxProgress(d0, d, g, h)
    ensures d0.log.walks <= d.log.walks
  {
    hide Served, Layout;
  }

  /** Why the transmit loop stops: nothing available, or the next chain is malformed. */
  ghost predicate TxStopped<S>(d: Device<S>) {
    var q := d.queues[TXQ];
    || NextHead(d.ram, q).None?
    || Gather(d.ram, q.desc, NextHead(d.ram, q).value, q.num).None?
  }

  // ---- Kicks -----------------------------------------------------------------------------

  /** Serving counts from the start of the kick, whatever the other queue's loop did before. */
  lemma ServedFromEarlier<S>(d: Device<S>, d1: Device<S>, d2: Device<S>, us: seq<Used>, g: set<nat>, h: set<nat>)
    requires TxProgress(d, d1, g, h) && Served(d1, d2, RXQ, us)
    ensures Served(d, d2, RXQ, us)
  {
    hide UsedAt, AvailHead, ReadWord, TxStopped, BufferPlaced, Inside, Outside;
    var q := d.queues[RXQ];
    if us != [] {
      forall j | 0 <= j < |us|
        ensures AvailHead(d.ram, q, RingSlot(Advance(q.nextAvail, j), q.num)) == Some(us[j].id)
      {
        HeadSame(d.ram, d1.ram, q, RingSlot(Advance(q.nextAvail, j), q.num), g);
      }
    }
  }

  /** A transmit kick, with the rings laid out as the driver must: both loops end, each queue's
      available chains are served in order and once, the served chains appear in the used rings
      with their lengths, and both loops stop only for lack of work or at a malformed chain. */
  lemma KickMirrorsRings<S>(d: Device<S>, g: set<nat>, h: set<nat>)
    requires Layout(d.ram, d.queues, g, h) && HasBit(d.regs.status, S_DRIVER_OK)
    ensures KickEnds(d, TXQ)
    ensures var d1 := TxLoop(d);
            var d2 := Notify(d, TXQ);
            && d.log.served <= d2.log.served && d.log.walks <= d2.log.walks
            && Served(d, d2, TXQ, d2.log.served[|d.log.served|..])
            && (forall j :: |d.log.served| <= j < |d2.log.served| ==> d2.log.served[j].len == 0)
            && Served(d, d2, RXQ, Completions(d2.log.walks[|d.log.walks|..]))
            && TxStopped(d1) && RxStopped(d, d2)
            && Layout(d2.ram, d2.queues, g, h)
  {
    hide TxLoop, RxLoop, TxEnds, RxEnds, Served, Completions, RxStopped, BufferPlaced, RingsPlaced, UsedAt;
    TxProgressStarts(d, g, h);
    TxLoopProgresses(d, d, g, h);
    var d1 := TxLoop(d);
    RxProgressStarts(d1, g, h);
    RxLoopProgresses(d1, d1, g, h);
    var d2 := RxLoop(d1);
    SameWalksStop(d, d1, d2);
    SameRingsBy(d, d1, TXQ);
    ServedSame(d, d1, d2, TXQ, d1.log.served[|d.log.served|..], g, h) by {
      if Usable(d.queues[TXQ]) {
        RingsPlacedSame(d.ram, d1.ram, d.queues[TXQ], d.queues[TXQ], g, h);
        SameUsedIgnoresCounters(d1.ram, d2.ram, d.queues[TXQ], d1.queues[TXQ]);
      }
    }
    ServedFromEarlier(d, d1, d2, Completions(d2.log.walks[|d.log.walks|..]), g, h);
  }

  /** A receive kick: the same for the receive queue alone. */
  lemma ReceiveKickMirrorsRing<S>(d: Device<S>, g: set<nat>, h: set<nat>)
    requires Layout(d.ram, d.queues, g, h) && HasBit(d.regs.status, S_DRIVER_OK)
    ensures KickEnds(d, RXQ)
    ensures var d1 := Notify(d, RXQ);
            && d1.log.served == d.log.served && d.log.walks <= d1.log.walks
            && d1.queues[TXQ] == d.queues[TXQ]
            && Served(d, d1, RXQ, Completions(d1.log.walks[|d.log.walks|..]))
            && RxStopped(d, d1)
            && Layout(d1.ram, d1.queues, g, h)
  {
    hide RxLoop, RxEnds, Served, Completions, RxStopped, Layout;
    RxProgressStarts(d, g, h);
    RxLoopProgresses(d, d, g, h);
  }

  lemma SameWalksStop<S>(d: Device<S>, d1: Device<S>, d2: Device<S>)
    requires RxStopped(d1, d2) && d1.log.walks == d.log.walks
    ensures RxStopped(d, d2)
  {
  }

  lemma SameUsedIgnoresCounters(ram: seq<byte>, ram': seq<byte>, q: Queue, q': Queue)
    requires SameRings(q, q') && SameUsed(ram, ram', q')
    ensures SameUsed(ram, ram', q)
  {
  }

  // ---- The two counters ---------------------------------------------------------------------

  /** `next_avail` and `used_count` agree: every consumed chain was published. */
  ghost predicate Synced<S>(d: Device<S>) {
    forall qi :: 0 <= qi < 2 ==> d.queues[qi].nextAvail == d.queues[qi].usedCount
  }

  lemma SyncedStays<S>(d: Device<S>, e: Event, g: set<nat>, h: set<nat>)
    requires Synced(d)
    requires e.TransmitPass? || e.ReceivePass? ==> Layout(d.ram, d.queues, g, h)
    ensures Synced(Next(d, e))
  {
    hide TxPass, RxPass, Layout, UsedAt, AvailHead, ReadWord;
    match e
    case TransmitPass =>
      if TxPass(d).again {
        TxPassAdvances(d, g, h);
      } else {
        TxEndsUnchanged(d);
      }
    case ReceivePass =>
      if RxPass(d).again {
        RxPassAdvances(d, g, h);
      } else {
        RxPassEnds(d, g, h);
      }
    case GuestWrites(_, _) =>
    case RegWrite(offset, v) =>
  }

  /** Every pass of the run meets a sane layout. */
  ghost predicate LaidOut<S>(d: Device<S>, events: seq<Event>)
    decreases |events|
  {
    events == [] || (
      && (events[0].TransmitPass? || events[0].ReceivePass? ==>
            exists g: set<nat>, h: set<nat> :: Layout(d.ram, d.queues, g, h))
      && LaidOut(Next(d, events[0]), events[1..]))
  }

  /** Over every run whose passes meet a sane layout, resets and register writes included, the
      two counters of each queue agree. */
  lemma {:induction false} CountersAgree<S>(d: Device<S>, events: seq<Event>)
    requires Synced(d) && LaidOut(d, events)
    ensures Synced(Run(d, events))
    decreases |events|
  {
    hide Next, Layout, Synced;
    if events != [] {
      var g, h := {}, {};
      if events[0].TransmitPass? || events[0].ReceivePass? {
        g, h :| Layout(d.ram, d.queues, g, h);
      }
      SyncedStays(d, events[0], g, h);
      CountersAgree(Next(d, events[0]), events[1..]);
    }
  }
}
