/** What a whole kick moves between guest memory and the peer (tb-vmm/src/virtio_mmio.rs), told from
    memory as it stood before the kick: the bytes of the available transmit chains go to the peer,
    and its answer comes to stand in the posted receive buffers, in order. */
module VirtioDelivery {
  import opened Words
  import opened GuestMemory
  import opened VirtQueue
  import opened VirtioDevice
  import opened VirtioLoops
  import opened VirtioKicks
  import opened VirtioEnds
  import opened VirtioStream

  /** The queue with one more chain consumed. */
  function Past(q: Queue): Queue {
    q.(nextAvail := Next16(q.nextAvail))
  }

  lemma PastShrinks(ram: seq<byte>, q: Queue)
    requires NextHead(ram, q).Some?
    ensures Backlog(ram, q) > 0 && Backlog(ram, Past(q)) == Backlog(ram, q) - 1
  {
    hide SameOn, IdxBytes, Backlog, NextHead;
    SameOnItself(ram, IdxBytes(q));
    MovedOnShrinks(ram, ram, q, Past(q));
  }

  /** The avail ring lies in `g`. */
  ghost predicate AvailInside(q: Queue, g: set<nat>) {
    && q.num != 0
    && Inside(AvailIdxAt(q), 2, g)
    && forall slot :: 0 <= slot < q.num ==> Inside(AvailSlotAt(q, slot), 2, g)
  }

  /** Queues that differ in nothing but what was published look the same to a walk. */
  ghost predicate SameView(q: Queue, q': Queue) {
    q' == q.(usedCount := q'.usedCount)
  }

  lemma NextHeadSame(ram: seq<byte>, ram': seq<byte>, q: Queue, q': Queue, g: set<nat>)
    requires SameOn(ram, ram', g) && AvailInside(q, g) && SameView(q, q')
    ensures NextHead(ram', q') == NextHead(ram, q) && Backlog(ram', q') == Backlog(ram, q)
    ensures AvailInside(q', g) && SameView(Past(q), Past(q')) && AvailInside(Past(q), g)
  {
    hide ReadWord, SameOn, Inside, RingSlot, Wrap64;
    ReadsSame(ram, ram', g, AvailIdxAt(q), 2);
    ReadsSame(ram, ram', g, AvailSlotAt(q, RingSlot(q.nextAvail, q.num)), 2);
    forall slot | 0 <= slot < q.num
      ensures Inside(AvailSlotAt(q', slot), 2, g) && Inside(AvailSlotAt(Past(q), slot), 2, g)
    {
      assert AvailSlotAt(q', slot) == AvailSlotAt(q, slot) == AvailSlotAt(Past(q), slot);
    }
  }

  // ---- The transmit direction ----------------------------------------------------------------

  /** The bytes of the available transmit chains, in ring order, up to the first malformed chain. */
  function Outgoing(ram: seq<byte>, q: Queue): seq<byte>
    decreases Backlog(ram, q)
  {
    var head := NextHead(ram, q);
    if head.None? then [] else
    var bytes := Gather(ram, q.desc, head.value, q.num);
    if bytes.None? then [] else
    PastShrinks(ram, q);
    bytes.value + Outgoing(ram, Past(q))
  }

  /** Those chains and their buffers lie in `g`. */
  ghost predicate OutgoingInside(ram: seq<byte>, q: Queue, g: set<nat>)
    decreases Backlog(ram, q)
  {
    var head := NextHead(ram, q);
    head.Some? ==>
      && ReadsInside(ram, q.desc, head.value, q.num, g)
      && (Gather(ram, q.desc, head.value, q.num).Some? ==>
            (PastShrinks(ram, q);
             OutgoingInside(ram, Past(q), g)))
  }

  lemma {:induction false} OutgoingSame(ram: seq<byte>, ram': seq<byte>, q: Queue, q': Queue, g: set<nat>)
    requires SameOn(ram, ram', g) && AvailInside(q, g) && SameView(q, q') && OutgoingInside(ram, q, g)
    ensures Outgoing(ram', q') == Outgoing(ram, q) && OutgoingInside(ram', q', g)
    decreases Backlog(ram, q)
  {
    hide NextHead, Gather, ReadsInside, SameOn, AvailInside, Backlog;
    NextHeadSame(ram, ram', q, q', g);
    if NextHead(ram, q).Some? {
      var head := NextHead(ram, q).value;
      GatherSame(ram, ram', q.desc, head, q.num, g);
      if Gather(ram, q.desc, head, q.num).Some? {
        PastShrinks(ram, q);
        OutgoingSame(ram, ram', Past(q), Past(q'), g);
      }
    }
  }

  /** The transmit ring and the chains it offers lie in `g`, which the device's used-ring writes miss. */
  ghost predicate TransmitClear<S>(d: Device<S>, g: set<nat>) {
    var q := d.queues[TXQ];
    Usable(q) ==> AvailInside(q, g) && UsedMisses(q, g) && OutgoingInside(d.ram, q, g)
  }

  lemma TransmitClearEnds<S>(d: Device<S>, g: set<nat>)
    requires TransmitClear(d, g)
    ensures TxEnds(d)
  {
    hide UsedMisses, OutgoingInside, IdxBytes, TxEnds;
    var q := d.queues[TXQ];
    if Usable(q) {
      IdxBytesInside(q, g);
      MissesLess(q, IdxBytes(q), g);
    }
    TransmitLoopEnds(d);
  }

  /** A pass takes the first of the outgoing chains to the peer and leaves the others as they were. */
  lemma TxPassSends<S>(d: Device<S>, g: set<nat>)
    requires TransmitClear(d, g) && TxPass(d).again
    ensures var q, d' := d.queues[TXQ], TxPass(d).dev;
            && TransmitClear(d', g)
            && NextHead(d.ram, q).Some? && Gather(d.ram, q.desc, NextHead(d.ram, q).value, q.num).Some?
            && var bytes := Gather(d.ram, q.desc, NextHead(d.ram, q).value, q.num).value;
               && Outgoing(d.ram, q) == bytes + Outgoing(d'.ram, d'.queues[TXQ])
               && d'.log.sent == d.log.sent + bytes
               && (d'.peer, d'.outbuf) == (d.peer.Push(bytes).0, d.outbuf + d.peer.Push(bytes).1)
  {
    hide NextHead, Gather, PublishUsed, SameOn, UsedMisses, ReadsInside, Backlog, Inside, Next16;
    var q, d' := d.queues[TXQ], TxPass(d).dev;
    UnusableStops(d);
    TxPassMisses(d, g);
    UsedMissesSame(q, d'.queues[TXQ], g);
    TxMovesOn(d);
    NextHeadSame(d.ram, d.ram, q, q, g) by { SameOnItself(d.ram, g); }
    OutgoingSame(d.ram, d'.ram, Past(q), d'.queues[TXQ], g);
    NextHeadSame(d.ram, d'.ram, Past(q), d'.queues[TXQ], g);
  }

  /** The transmit loop takes exactly the outgoing chains to the peer, whose answer is queued. */
  lemma {:induction false} TxLoopSends<S>(d: Device<S>, g: set<nat>)
    requires TransmitClear(d, g) && TxEnds(d)
    ensures var d1, bytes := TxLoop(d), Outgoing(d.ram, d.queues[TXQ]);
            && d1.log.sent == d.log.sent + bytes
            && (d1.peer, d1.outbuf) == (d.peer.Push(bytes).0, d.outbuf + d.peer.Push(bytes).1)
            && d1.log.walks == d.log.walks && d1.queues[RXQ] == d.queues[RXQ]
    decreases TxCount(d)
  {
    hide TxPass, TxEnds, TxEndsIn, TxLoop, TransmitClear, Outgoing, Peer.Push, NextHead, Gather;
    TxLoopUnfolds(d);
    if TxPass(d).again {
      var d' := TxPass(d).dev;
      TxPassSends(d, g);
      TxMovesOn(d);
      TxKeepsWalks(d);
      TxLoopSends(d', g);
      var q := d.queues[TXQ];
      var bytes := Gather(d.ram, q.desc, NextHead(d.ram, q).value, q.num).value;
      var others := Outgoing(d'.ram, d'.queues[TXQ]);
      PushInParts(d.peer, bytes, others);
      assert d.outbuf + (d.peer.Push(bytes).1 + d'.peer.Push(others).1)
          == (d.outbuf + d.peer.Push(bytes).1) + d'.peer.Push(others).1;
    } else {
      NothingOutgoing(d);
    }
  }

  lemma NothingOutgoing<S>(d: Device<S>)
    requires !TxPass(d).again
    ensures Outgoing(d.ram, d.queues[TXQ]) == []
    ensures d.peer.Push([]) == (d.peer, []) && d.outbuf + [] == d.outbuf && d.log.sent + [] == d.log.sent
  {
    hide Gather, NextHead, PublishUsed;
  }

  // ---- The receive direction -----------------------------------------------------------------

  lemma {:induction false} PlanWithin(ram: seq<byte>, table: u64, idx: u16, hops: nat, need: nat)
    requires Plan(ram, table, idx, hops, need).Some?
    ensures Total(Plan(ram, table, idx, hops, need).value) <= need
    decreases hops
  {
    hide PlanOne;
    var one := PlanOne(ram, table, idx, need).value;
    if one.1.Some? {
      PlanWithin(ram, table, one.1.value, hops - 1, need - one.0.len);
      assert Plan(ram, table, idx, hops, need).value[1..] == Plan(ram, table, one.1.value, hops - 1, need - one.0.len).value;
    } else {
      assert [one.0][1..] == [];
    }
  }

  /** The segments that `need` queued bytes fill, over the posted receive chains in ring order, up to
      the first malformed chain. */
  function Incoming(ram: seq<byte>, q: Queue, need: nat): seq<Segment>
    decreases Backlog(ram, q)
  {
    var head := NextHead(ram, q);
    if need == 0 || head.None? then [] else
    var plan := Plan(ram, q.desc, head.value, q.num, need);
    if plan.None? then [] else
    PlanWithin(ram, q.desc, head.value, q.num, need);
    PastShrinks(ram, q);
    plan.value + Incoming(ram, Past(q), need - Total(plan.value))
  }

  ghost function Cells(ram: seq<byte>, segs: seq<Segment>): set<nat> {
    set a: nat | a < |ram| && Covered(segs, a)
  }

  /** Each walk over those chains reads its descriptors in `g` and writes neither in `h` nor where an
      earlier walk, or an earlier segment of its own, has written. */
  ghost predicate IncomingApart(ram: seq<byte>, q: Queue, need: nat, g: set<nat>, h: set<nat>)
    decreases Backlog(ram, q)
  {
    var head := NextHead(ram, q);
    need > 0 && head.Some? ==>
      && WalkGuarded(ram, q.desc, head.value, q.num, need, g, h)
      && var plan := Plan(ram, q.desc, head.value, q.num, need);
        (plan.Some? ==>
           && Disjoint(plan.value)
           && (PlanWithin(ram, q.desc, head.value, q.num, need);
               PastShrinks(ram, q);
               IncomingApart(ram, Past(q), need - Total(plan.value), g, h + Cells(ram, plan.value))))
  }

  lemma {:induction false} IncomingSame(ram: seq<byte>, ram': seq<byte>, q: Queue, q': Queue, need: nat, g: set<nat>, h: set<nat>)
    requires SameOn(ram, ram', g) && AvailInside(q, g) && SameView(q, q') && IncomingApart(ram, q, need, g, h)
    ensures Incoming(ram', q', need) == Incoming(ram, q, need) && IncomingApart(ram', q', need, g, h)
    decreases Backlog(ram, q)
  {
    hide NextHead, Plan, WalkGuarded, SameOn, AvailInside, Backlog, Disjoint, Total, Covered;
    NextHeadSame(ram, ram', q, q', g);
    if need > 0 && NextHead(ram, q).Some? {
      var head := NextHead(ram, q).value;
      PlanSame(ram, ram', q.desc, head, q.num, need, g, h);
      var plan := Plan(ram, q.desc, head, q.num, need);
      if plan.Some? {
        SameSize(ram, ram', g);
        PlanWithin(ram, q.desc, head, q.num, need);
        PastShrinks(ram, q);
        IncomingSame(ram, ram', Past(q), Past(q'), need - Total(plan.value), g, h + Cells(ram, plan.value));
        assert Cells(ram', plan.value) == Cells(ram, plan.value);
      }
    }
  }

  lemma SameSize(ram: seq<byte>, ram': seq<byte>, g: set<nat>)
    requires SameOn(ram, ram', g)
    ensures |ram| == |ram'|
  {
  }

  /** The receive rings are placed, and the chains about to be filled are apart from each other. */
  ghost predicate ReceiveClear<S>(d: Device<S>, g: set<nat>, h: set<nat>) {
    var q := d.queues[RXQ];
    g <= h && (Usable(q) ==> RingsPlaced(d.ram, q, g, h) && IncomingApart(d.ram, q, |d.outbuf|, g, h))
  }

  /** The used ring of `q` keeps out of `k`. */
  ghost predicate UsedOutside(q: Queue, k: set<nat>) {
    Usable(q) ==> Outside(q.device + 2, 2 + 8 * q.num, k)
  }

  /** No pass writes in `h` but in the used ring. */
  lemma RxPassKeeps<S>(d: Device<S>, g: set<nat>, h: set<nat>, k: set<nat>)
    requires ReceiveClear(d, g, h) && k <= h && UsedOutside(d.queues[RXQ], k)
    ensures SameOn(d.ram, RxPass(d).dev.ram, k)
    ensures SameRings(d.queues[RXQ], RxPass(d).dev.queues[RXQ])
  {
    hide NextHead, Scatter, PublishUsed, RingsPlaced, WalkGuarded, SameOn, UsedMisses, Outside, Plan;
    var q := d.queues[RXQ];
    var head := NextHead(d.ram, q);
    SameOnItself(d.ram, k);
    if d.outbuf != [] && head.Some? {
      UsableIfNext(d.ram, q);
      var w := Scatter(d.ram, q.desc, d.outbuf, head.value, q.num);
      ScatterSpares(d.ram, q.desc, d.outbuf, head.value, q.num, g, h);
      SparesLess(d.ram, w.ram, h, k);
      if w.written.Some? {
        var q1 := Past(q);
        UsedRingFits(d.ram, q, g, h);
        RangeMisses(q, k);
        UsedMissesSame(q, q1, k);
        PublishMisses(w.ram, q1, head.value, w.written.value % TWO32, k);
        PublishKeepsRings(w.ram, q1, head.value, w.written.value % TWO32);
        SameOnInTurn(d.ram, w.ram, RxPass(d).dev.ram, k);
      }
    }
  }

  lemma SparesLess(ram: seq<byte>, ram': seq<byte>, h: set<nat>, k: set<nat>)
    requires SameOn(ram, ram', h) && k <= h
    ensures SameOn(ram, ram', k)
  {
  }

  lemma UsedRingFits(ram: seq<byte>, q: Queue, g: set<nat>, h: set<nat>)
    requires RingsPlaced(ram, q, g, h)
    ensures q.device + 4 + 8 * q.num <= TWO64 && UsedOutside(q, g) && AvailInside(q, g)
  {
  }

  lemma PublishKeepsRings(ram: seq<byte>, q: Queue, id: u32, len: u32)
    requires q.num != 0
    ensures SameRings(q, PublishUsed(ram, q, id, len).q)
  {
    hide Write, Le, Next16;
  }

  /** What one pass does when it goes round: the first of the incoming chains gets the first bytes of
      the queue, and the others stay as they were. */
  ghost predicate FillsFirst<S>(d: Device<S>, d': Device<S>, segs: seq<Segment>, walk: Walk) {
    && Incoming(d.ram, d.queues[RXQ], |d.outbuf|) == segs + Incoming(d'.ram, d'.queues[RXQ], |d'.outbuf|)
    && d'.log.walks == d.log.walks + [walk] && walk.completed && walk.bytes + d'.outbuf == d.outbuf
    && InRam(d'.ram, segs) && Collect(d'.ram, segs) == walk.bytes
    && Backlog(d'.ram, d'.queues[RXQ]) < Backlog(d.ram, d.queues[RXQ])
  }

  lemma RxPassFills<S>(d: Device<S>, g: set<nat>, h: set<nat>) returns (segs: seq<Segment>, walk: Walk)
    requires ReceiveClear(d, g, h) && RxPass(d).again
    ensures FillsFirst(d, RxPass(d).dev, segs, walk)
    ensures ReceiveClear(RxPass(d).dev, g, h + Cells(d.ram, segs))
    ensures UsedOutside(d.queues[RXQ], Cells(d.ram, segs)) && |RxPass(d).dev.ram| == |d.ram|
  {
    hide NextHead, Scatter, PublishUsed, RingsPlaced, WalkGuarded, SameOn, UsedMisses, Outside, Plan, Inside, Disjoint,
      InRam, Collect, Total, RxPass, AvailInside, Covered, Next16, Backlog;
    var q, d' := d.queues[RXQ], RxPass(d).dev;
    RxAgainHasBytes(d);
    var head := NextHead(d.ram, q).value;
    UsableIfNext(d.ram, q);
    RxPassFollowsPlan(d, head, g, h);
    segs := Plan(d.ram, q.desc, head, q.num, |d.outbuf|).value;
    walk := d'.log.walks[|d.log.walks|];
    PlanWithin(d.ram, q.desc, head, q.num, |d.outbuf|);
    PastShrinks(d.ram, q);
    UsedRingFits(d.ram, q, g, h);
    RxPassKeeps(d, g, h, g);
    SameSize(d.ram, d'.ram, g);
    NextHeadSame(d.ram, d.ram, q, q, g) by { SameOnItself(d.ram, g); }
    IncomingSame(d.ram, d'.ram, Past(q), d'.queues[RXQ], |d'.outbuf|, g, h + Cells(d.ram, segs));
    NextHeadSame(d.ram, d'.ram, Past(q), d'.queues[RXQ], g);
    RingsPlacedSame(d.ram, d'.ram, q, d'.queues[RXQ], g, h);
    MorePlaced(d'.ram, d'.queues[RXQ], g, h, Cells(d.ram, segs));
    PlanKeepsOut(d.ram, q.desc, head, q.num, |d.outbuf|, g, h);
    CellsApart(d.ram, q, segs, g, h);
  }

  lemma RxAgainHasBytes<S>(d: Device<S>)
    requires RxPass(d).again
    ensures d.outbuf != [] && NextHead(d.ram, d.queues[RXQ]).Some?
  {
    hide NextHead, Scatter, PublishUsed;
  }

  lemma MorePlaced(ram: seq<byte>, q: Queue, g: set<nat>, h: set<nat>, k: set<nat>)
    requires RingsPlaced(ram, q, g, h)
    ensures RingsPlaced(ram, q, g, h + k)
  {
    hide Outside, AvailSlotAt, AvailIdxAt;
  }

  lemma CellsApart(ram: seq<byte>, q: Queue, segs: seq<Segment>, g: set<nat>, h: set<nat>)
    requires RingsPlaced(ram, q, g, h)
    requires forall a: nat :: Covered(segs, a) ==> a !in h
    ensures UsedOutside(q, Cells(ram, segs))
  {
    hide Covered, AvailSlotAt, AvailIdxAt;
  }

  /** The receive loop writes nothing in `h` but its used ring. */
  lemma {:induction false} RxLoopKeeps<S>(d: Device<S>, g: set<nat>, h: set<nat>, k: set<nat>)
    requires ReceiveClear(d, g, h) && k <= h && UsedOutside(d.queues[RXQ], k)
    ensures RxEnds(d) && SameOn(d.ram, RxLoop(d).ram, k)
    decreases Backlog(d.ram, d.queues[RXQ])
  {
    hide RxPass, ReceiveClear, SameOn, Backlog, RxEnds, RxLoop, Outside, Incoming, Collect, InRam;
    RxLoopUnfolds(d);
    RxPassKeeps(d, g, h, k);
    if RxPass(d).again {
      var d' := RxPass(d).dev;
      var segs, walk := RxPassFills(d, g, h);
      RxLoopKeeps(d', g, h + Cells(d.ram, segs), k);
      SameOnInTurn(d.ram, d'.ram, RxLoop(d).ram, k);
    }
  }

  lemma InRamInParts(ram: seq<byte>, a: seq<Segment>, b: seq<Segment>)
    requires InRam(ram, a) && InRam(ram, b)
    ensures InRam(ram, a + b) && (a != [] ==> InRam(ram, a[1..]))
  {
  }

  lemma {:induction false} CollectInParts(ram: seq<byte>, a: seq<Segment>, b: seq<Segment>)
    requires InRam(ram, a) && InRam(ram, b)
    ensures InRam(ram, a + b) && Collect(ram, a + b) == Collect(ram, a) + Collect(ram, b)
    decreases |a|
  {
    hide InRam;
    InRamInParts(ram, a, b);
    if a == [] {
      assert a + b == b;
      assert Collect(ram, a) == [];
    } else {
      CollectInParts(ram, a[1..], b);
      CollectStep(ram, a);
      CollectStep(ram, a + b);
      assert (a + b)[1..] == a[1..] + b && (a + b)[0] == a[0];
      var first := Held(ram, a[0]);
      assert first + (Collect(ram, a[1..]) + Collect(ram, b)) == (first + Collect(ram, a[1..])) + Collect(ram, b);
    }
  }

  /** The bytes of one segment. */
  ghost function Held(ram: seq<byte>, s: Segment): seq<byte> {
    if s.len == 0 || s.addr + s.len > |ram| then [] else ram[s.addr..s.addr + s.len]
  }

  lemma CollectStep(ram: seq<byte>, segs: seq<Segment>)
    requires InRam(ram, segs) && segs != []
    ensures InRam(ram, segs[1..]) && Collect(ram, segs) == Held(ram, segs[0]) + Collect(ram, segs[1..])
  {
  }

  lemma {:induction false} DeliveredFirst(w: Walk, walks: seq<Walk>)
    ensures Delivered([w] + walks) == (if w.completed then w.bytes else []) + Delivered(walks)
    ensures NothingLost([w] + walks) <==> (!w.completed ==> w.bytes == []) && NothingLost(walks)
    decreases |walks|
  {
    hide NothingLost;
    if walks == [] {
      assert [w] + walks == [] + [w];
      TakenGrows([], w);
      LostIn([], w);
      NothingLostInNothing();
    } else {
      var n := |walks| - 1;
      assert [w] + walks == ([w] + walks[..n]) + [walks[n]];
      assert walks == walks[..n] + [walks[n]];
      DeliveredFirst(w, walks[..n]);
      TakenGrows([w] + walks[..n], walks[n]);
      TakenGrows(walks[..n], walks[n]);
      LostIn([w] + walks[..n], walks[n]);
      LostIn(walks[..n], walks[n]);
    }
  }

  lemma NothingLostInNothing()
    ensures NothingLost([])
  {
  }

  /** From `d` to `d1` the first bytes of the queue came to stand in `segs`, in order; what of the
      queue is neither there nor still queued was lost. */
  ghost predicate Filled<S>(d: Device<S>, d1: Device<S>, segs: seq<Segment>) {
    && d.log.walks <= d1.log.walks
    && InRam(d1.ram, segs)
    && var walks := d1.log.walks[|d.log.walks|..];
       && Collect(d1.ram, segs) == Delivered(walks) <= d.outbuf
       && (NothingLost(walks) <==> Delivered(walks) + d1.outbuf == d.outbuf)
  }

  /** The receive loop fills the posted buffers, when they are apart from each other, in order. */
  lemma {:induction false} RxLoopFills<S>(d: Device<S>, g: set<nat>, h: set<nat>)
    requires ReceiveClear(d, g, h)
    ensures RxEnds(d) && Filled(d, RxLoop(d), Incoming(d.ram, d.queues[RXQ], |d.outbuf|))
    decreases Backlog(d.ram, d.queues[RXQ])
  {
    hide RxPass, ReceiveClear, SameOn, Backlog, RxEnds, RxLoop, UsedOutside, Incoming, Collect, InRam, Delivered, NothingLost, Cells;
    RxLoopUnfolds(d);
    if RxPass(d).again {
      var d' := RxPass(d).dev;
      var segs, walk := RxPassFills(d, g, h);
      RxLoopFills(d', g, h + Cells(d.ram, segs));
      RingsOfPass(d, g, h);
      UsedOutsideSame(d.queues[RXQ], d'.queues[RXQ], Cells(d.ram, segs));
      RxLoopKeeps(d', g, h + Cells(d.ram, segs), Cells(d.ram, segs));
      FillsInTurn(d, d', RxLoop(d), segs, walk);
    } else {
      LastPassFills(d, g, h);
    }
  }

  lemma RingsOfPass<S>(d: Device<S>, g: set<nat>, h: set<nat>)
    requires ReceiveClear(d, g, h)
    ensures SameRings(d.queues[RXQ], RxPass(d).dev.queues[RXQ])
  {
    hide RxPass, Incoming, WalkGuarded, Plan, AvailSlotAt, AvailIdxAt, UsedSlotAt;
    RxPassKeeps(d, g, h, {});
  }

  lemma UsedOutsideSame(q: Queue, q': Queue, k: set<nat>)
    requires UsedOutside(q, k) && SameRings(q, q')
    ensures UsedOutside(q', k)
  {
  }

  lemma FillsInTurn<S>(d: Device<S>, d': Device<S>, d1: Device<S>, segs: seq<Segment>, walk: Walk)
    requires FillsFirst(d, d', segs, walk) && |d'.ram| == |d.ram|
    requires Filled(d', d1, Incoming(d'.ram, d'.queues[RXQ], |d'.outbuf|)) && SameOn(d'.ram, d1.ram, Cells(d.ram, segs))
    ensures Filled(d, d1, Incoming(d.ram, d.queues[RXQ], |d.outbuf|))
  {
    hide Incoming, Collect, InRam, Delivered, NothingLost, Backlog, Covered;
    var others := Incoming(d'.ram, d'.queues[RXQ], |d'.outbuf|);
    CollectSame(d'.ram, d1.ram, segs);
    CollectInParts(d1.ram, segs, others);
    var walks := d1.log.walks[|d'.log.walks|..];
    DeliveredFirst(walk, walks);
    assert d1.log.walks[|d.log.walks|..] == [walk] + walks;
    assert walk.bytes + (Delivered(walks) + d1.outbuf) == (walk.bytes + Delivered(walks)) + d1.outbuf;
    SameFirst(walk.bytes, Delivered(walks) + d1.outbuf, d'.outbuf);
  }

  lemma SameFirst(a: seq<byte>, b: seq<byte>, c: seq<byte>)
    ensures a + b == a + c <==> b == c
  {
    if a + b == a + c {
      assert b == (a + b)[|a|..] && c == (a + c)[|a|..];
    }
  }

  lemma LastPassFills<S>(d: Device<S>, g: set<nat>, h: set<nat>)
    requires ReceiveClear(d, g, h) && !RxPass(d).again
    ensures Filled(d, RxPass(d).dev, Incoming(d.ram, d.queues[RXQ], |d.outbuf|))
  {
    hide NextHead, Scatter, PublishUsed, RingsPlaced, WalkGuarded, Plan, Delivered, NothingLost, Disjoint, Total;
    var q, d1 := d.queues[RXQ], RxPass(d).dev;
    var head := NextHead(d.ram, q);
    NothingDeliveredYet();
    if d.outbuf != [] && head.Some? {
      UsableIfNext(d.ram, q);
      RxPassFollowsPlan(d, head.value, g, h);
      var walk := d1.log.walks[|d.log.walks|];
      DeliveredFirst(walk, []);
      assert d1.log.walks[|d.log.walks|..] == [walk] + [];
      SameFirst(walk.bytes, d1.outbuf, d1.outbuf);
      assert walk.bytes == [] <==> d1.outbuf == d.outbuf;
    } else {
      assert d1.log.walks[|d.log.walks|..] == [];
    }
  }

  lemma NothingDeliveredYet()
    ensures Delivered([]) == [] && NothingLost([])
  {
  }

  // ---- Whole kicks ---------------------------------------------------------------------------

  /** A kick of the receive queue: the posted buffers then hold the queued bytes, in order. */
  lemma ReceiveKickFills<S>(d: Device<S>, g: set<nat>, h: set<nat>)
    requires Kicks(d, RXQ) && ReceiveClear(d, g, h)
    ensures KickEnds(d, RXQ) && Filled(d, Notify(d, RXQ), Incoming(d.ram, d.queues[RXQ], |d.outbuf|))
  {
    hide ReceiveClear, Filled, RxEnds, RxLoop, Incoming;
    RxLoopFills(d, g, h);
  }

  /** Rings and buffers are placed so that a transmit kick, which takes the outgoing chains to the peer
      and queues its answer, writes neither where its walks read nor twice to the same place. */
  ghost predicate KickClear<S>(d: Device<S>, t: set<nat>, g: set<nat>, h: set<nat>) {
    && TransmitClear(d, t)
    && (Usable(d.queues[TXQ]) ==> UsedMisses(d.queues[TXQ], g))
    && ReceiveClear(Answering(d), g, h)
  }

  /** The device once the outgoing chains reached the peer, as far as the receive side can tell. */
  ghost function Answering<S>(d: Device<S>): Device<S> {
    d.(outbuf := d.outbuf + d.peer.Push(Outgoing(d.ram, d.queues[TXQ])).1)
  }

  /** A kick of the transmit queue: exactly the bytes of the outgoing chains reach the peer, and the
      posted buffers then hold what was queued and the peer's answer, in order. All of it is told from
      memory as it stood before the kick. */
  lemma TransmitKickDelivers<S>(d: Device<S>, t: set<nat>, g: set<nat>, h: set<nat>)
    requires Kicks(d, TXQ) && KickClear(d, t, g, h)
    ensures KickEnds(d, TXQ)
    ensures var d0, d2 := Answering(d), Notify(d, TXQ);
            && d2.log.sent == d.log.sent + Outgoing(d.ram, d.queues[TXQ])
            && Filled(d0, d2, Incoming(d0.ram, d0.queues[RXQ], |d0.outbuf|))
  {
    hide Filled, TxEnds, RxEnds, TxLoop, RxLoop, Incoming, IncomingApart, TransmitClear, UsedMisses, RingsPlaced, SameOn,
      Outgoing, Peer.Push, AvailInside;
    TransmitClearEnds(d, t);
    TxLoopSends(d, t);
    TxLoopMisses(d, g);
    var d0, d1 := Answering(d), TxLoop(d);
    var q := d.queues[RXQ];
    SameSize(d.ram, d1.ram, g);
    if Usable(q) {
      UsedRingFits(d.ram, q, g, h);
      IncomingSame(d.ram, d1.ram, q, q, |d0.outbuf|, g, h);
      RingsPlacedSame(d.ram, d1.ram, q, q, g, h);
    } else {
      NoIncoming(d.ram, q, |d0.outbuf|);
      NoIncoming(d1.ram, q, |d0.outbuf|);
    }
    RxLoopFills(d1, g, h);
    RxLoopSends(d1);
    FilledFrom(d0, d1, RxLoop(d1), Incoming(d0.ram, q, |d0.outbuf|));
  }

  lemma NoIncoming(ram: seq<byte>, q: Queue, need: nat)
    requires !Usable(q)
    ensures Incoming(ram, q, need) == []
  {
  }

  lemma FilledFrom<S>(d0: Device<S>, d1: Device<S>, d2: Device<S>, segs: seq<Segment>)
    requires Filled(d1, d2, segs) && d0.log.walks == d1.log.walks && d0.outbuf == d1.outbuf
    ensures Filled(d0, d2, segs)
  {
    hide Collect, Delivered, InRam;
  }

  lemma {:induction false} RxLoopSends<S>(d: Device<S>)
    requires RxEnds(d)
    ensures RxLoop(d).log.sent == d.log.sent
    decreases RxCount(d)
  {
    hide RxPass, RxEnds, RxEndsIn, RxLoop;
    RxLoopUnfolds(d);
    RxPassSends(d);
    if RxPass(d).again {
      RxLoopSends(RxPass(d).dev);
    }
  }

  lemma RxPassSends<S>(d: Device<S>)
    ensures RxPass(d).dev.log.sent == d.log.sent
  {
    hide NextHead, Scatter, PublishUsed;
  }
}
