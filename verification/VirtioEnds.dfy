/** When a kick ends (tb-vmm/src/virtio_mmio.rs). Every pass of a loop moves on to the next
    available chain, so a loop goes on for ever only by rewriting, again and again, the index
    that says how many there are. */
module VirtioEnds {
  import opened Words
  import opened GuestMemory
  import opened VirtQueue
  import opened VirtioDevice
  import opened VirtioLoops
  import opened VirtioKicks

  /** The two bytes of the avail index. */
  ghost function IdxBytes(q: Queue): (g: set<nat>)
    ensures Inside(AvailIdxAt(q), 2, g)
  {
    var at: nat := AvailIdxAt(q);
    {at, at + 1}
  }

  lemma MovedOnShrinks(ram: seq<byte>, ram': seq<byte>, q: Queue, q': Queue)
    requires NextHead(ram, q).Some? && SameRings(q, q') && q'.nextAvail == Next16(q.nextAvail)
    requires SameOn(ram, ram', IdxBytes(q))
    ensures Backlog(ram, q) > 0 && Backlog(ram', q') == Backlog(ram, q) - 1
  {
    hide Backlog, SameOn, IdxBytes, Inside, NextHead, AvailIdxAt, RingSlot;
    NextIsPosted(ram, q);
    NextDiffers(q.nextAvail);
    BacklogMoves(ram, ram', q, q', IdxBytes(q));
  }

  lemma NextDiffers(counter: u16)
    ensures Next16(counter) != counter
  {
  }

  // ---- The transmit loop -------------------------------------------------------------------

  /** None of the next `n` passes of the transmit loop changes the avail index. */
  ghost predicate TxSpares<S>(d: Device<S>, n: nat)
    decreases n
  {
    n == 0 || (TxPass(d).again ==>
                 && SameOn(d.ram, TxPass(d).dev.ram, IdxBytes(d.queues[TXQ]))
                 && TxSpares(TxPass(d).dev, n - 1))
  }

  lemma TxMovesOn<S>(d: Device<S>)
    requires TxPass(d).again
    ensures var q, q' := d.queues[TXQ], TxPass(d).dev.queues[TXQ];
            && NextHead(d.ram, q).Some? && SameRings(q, q') && q'.nextAvail == Next16(q.nextAvail)
    ensures TxPass(d).dev.queues[RXQ] == d.queues[RXQ]
  {
    hide NextHead, Gather, Write, Next16;
  }

  /** A transmit loop that leaves the avail index alone ends within as many passes as there are
      chains available. */
  lemma {:induction false} TxSparedEnds<S>(d: Device<S>)
    requires TxSpares(d, Backlog(d.ram, d.queues[TXQ]))
    ensures TxEnds(d) && TxCount(d) <= Backlog(d.ram, d.queues[TXQ])
    decreases Backlog(d.ram, d.queues[TXQ])
  {
    hide TxPass, TxEnds, TxEndsIn, Backlog, NextHead, SameOn, IdxBytes;
    TxLoopUnfolds(d);
    if TxPass(d).again {
      TxMovesOn(d);
      TxBacklogPositive(d);
      MovedOnShrinks(d.ram, TxPass(d).dev.ram, d.queues[TXQ], TxPass(d).dev.queues[TXQ]);
      TxSparedEnds(TxPass(d).dev);
    }
  }

  lemma TxBacklogPositive<S>(d: Device<S>)
    requires TxPass(d).again
    ensures Backlog(d.ram, d.queues[TXQ]) > 0
  {
    hide TxPass, Backlog;
    TxMovesOn(d);
    NextIsPosted(d.ram, d.queues[TXQ]);
  }

  /** After at most `n` passes the transmit loop leaves the avail index alone for as many passes as
      chains are then available. */
  ghost predicate TxSettles<S>(d: Device<S>, n: nat)
    decreases n
  {
    if n == 0 then TxSpares(d, Backlog(d.ram, d.queues[TXQ]))
    else TxPass(d).again ==> TxSettles(TxPass(d).dev, n - 1)
  }

  lemma {:induction false} TxSettledEnds<S>(d: Device<S>, n: nat)
    requires TxSettles(d, n)
    ensures TxEnds(d)
    decreases n
  {
    hide TxPass, TxEnds, Backlog, TxSpares;
    TxLoopUnfolds(d);
    if n == 0 {
      TxSparedEnds(d);
    } else if TxPass(d).again {
      TxSettledEnds(TxPass(d).dev, n - 1);
    }
  }

  lemma {:induction false} TxEndSettles<S>(d: Device<S>, n: nat)
    requires TxEndsIn(d, n)
    ensures TxSettles(d, n)
    decreases n
  {
    hide TxPass, Backlog;
    if n > 0 {
      TxEndSettles(TxPass(d).dev, n - 1);
    }
  }

  /** On any device the transmit loop fails to end exactly when it rewrites its avail index over and
      over. */
  lemma TxEndsIffSettles<S>(d: Device<S>)
    ensures TxEnds(d) <==> exists n: nat :: TxSettles(d, n)
  {
    hide TxPass, TxSettles, TxEndsIn;
    if TxEnds(d) {
      TxEndSettles(d, TxCount(d));
    }
    if n: nat :| TxSettles(d, n) {
      TxSettledEnds(d, n);
    }
  }

  // ---- The receive loop --------------------------------------------------------------------

  ghost predicate RxSpares<S>(d: Device<S>, n: nat)
    decreases n
  {
    n == 0 || (RxPass(d).again ==>
                 && SameOn(d.ram, RxPass(d).dev.ram, IdxBytes(d.queues[RXQ]))
                 && RxSpares(RxPass(d).dev, n - 1))
  }

  lemma RxMovesOn<S>(d: Device<S>)
    requires RxPass(d).again
    ensures var q, q' := d.queues[RXQ], RxPass(d).dev.queues[RXQ];
            && NextHead(d.ram, q).Some? && SameRings(q, q') && q'.nextAvail == Next16(q.nextAvail)
  {
    hide NextHead, Scatter, Write, Next16;
  }

  lemma {:induction false} RxSparedEnds<S>(d: Device<S>)
    requires RxSpares(d, Backlog(d.ram, d.queues[RXQ]))
    ensures RxEnds(d) && RxCount(d) <= Backlog(d.ram, d.queues[RXQ])
    decreases Backlog(d.ram, d.queues[RXQ])
  {
    hide RxPass, RxEnds, RxEndsIn, Backlog, NextHead, SameOn, IdxBytes;
    RxLoopUnfolds(d);
    if RxPass(d).again {
      RxMovesOn(d);
      RxBacklogPositive(d);
      MovedOnShrinks(d.ram, RxPass(d).dev.ram, d.queues[RXQ], RxPass(d).dev.queues[RXQ]);
      RxSparedEnds(RxPass(d).dev);
    }
  }

  lemma RxBacklogPositive<S>(d: Device<S>)
    requires RxPass(d).again
    ensures Backlog(d.ram, d.queues[RXQ]) > 0
  {
    hide RxPass, Backlog;
    RxMovesOn(d);
    NextIsPosted(d.ram, d.queues[RXQ]);
  }

  ghost predicate RxSettles<S>(d: Device<S>, n: nat)
    decreases n
  {
    if n == 0 then RxSpares(d, Backlog(d.ram, d.queues[RXQ]))
    else RxPass(d).again ==> RxSettles(RxPass(d).dev, n - 1)
  }

  lemma {:induction false} RxSettledEnds<S>(d: Device<S>, n: nat)
    requires RxSettles(d, n)
    ensures RxEnds(d)
    decreases n
  {
    hide RxPass, RxEnds, Backlog, RxSpares;
    RxLoopUnfolds(d);
    if n == 0 {
      RxSparedEnds(d);
    } else if RxPass(d).again {
      RxSettledEnds(RxPass(d).dev, n - 1);
    }
  }

  lemma {:induction false} RxEndSettles<S>(d: Device<S>, n: nat)
    requires RxEndsIn(d, n)
    ensures RxSettles(d, n)
    decreases n
  {
    hide RxPass, Backlog;
    if n > 0 {
      RxEndSettles(RxPass(d).dev, n - 1);
    }
  }

  /** The same for the receive loop, whether the index is hit by a used-ring write or by a receive
      buffer. */
  lemma RxEndsIffSettles<S>(d: Device<S>)
    ensures RxEnds(d) <==> exists n: nat :: RxSettles(d, n)
  {
    hide RxPass, RxSettles, RxEndsIn;
    if RxEnds(d) {
      RxEndSettles(d, RxCount(d));
    }
    if n: nat :| RxSettles(d, n) {
      RxSettledEnds(d, n);
    }
  }

  // ---- A condition on the registers and the posted chains ------------------------------------

  /** No used-ring write of `q`, at whichever entry and wherever the ring lies, touches `g`. */
  ghost predicate UsedMisses(q: Queue, g: set<nat>) {
    && Outside(UsedIdxAt(q), 2, g)
    && forall slot :: 0 <= slot < q.num ==>
         Outside(UsedSlotAt(q, slot), 4, g) && Outside(Wrap64(UsedSlotAt(q, slot) as nat + 4), 4, g)
  }

  lemma SameOnInTurn(ram: seq<byte>, ram1: seq<byte>, ram2: seq<byte>, g: set<nat>)
    requires SameOn(ram, ram1, g) && SameOn(ram1, ram2, g)
    ensures SameOn(ram, ram2, g)
  {
  }

  /** So publishing leaves `g` alone, also when it breaks off half way. */
  lemma PublishMisses(ram: seq<byte>, q: Queue, id: u32, len: u32, g: set<nat>)
    requires q.num != 0 && UsedMisses(q, g)
    ensures SameOn(ram, PublishUsed(ram, q, id, len).ram, g)
  {
    hide Write, SameOn, Le, RingSlot, Outside, UsedIdxAt, UsedSlotAt, Wrap64, Next16;
    var slot := RingSlot(q.usedCount, q.num);
    var entry: nat := UsedSlotAt(q, slot);
    var ram1 := Write(ram, entry, Le(id, 4)).0;
    var ram2 := Write(ram1, Wrap64(entry + 4), Le(len, 4)).0;
    WriteMisses(ram, entry, Le(id, 4), g);
    WriteMisses(ram1, Wrap64(entry + 4), Le(len, 4), g);
    WriteMisses(ram2, UsedIdxAt(q), Le(Next16(q.usedCount), 2), g);
    SameOnInTurn(ram, ram1, ram2, g);
    SameOnInTurn(ram, ram2, Write(ram2, UsedIdxAt(q), Le(Next16(q.usedCount), 2)).0, g);
  }

  lemma TxPassMisses<S>(d: Device<S>, g: set<nat>)
    requires UsedMisses(d.queues[TXQ], g)
    ensures SameOn(d.ram, TxPass(d).dev.ram, g)
    ensures SameRings(d.queues[TXQ], TxPass(d).dev.queues[TXQ]) && TxPass(d).dev.queues[RXQ] == d.queues[RXQ]
  {
    hide Gather, PublishUsed, SameOn, UsedMisses;
    if TxPass(d).again {
      TxMovesOn(d);
      var q := d.queues[TXQ];
      var q1 := q.(nextAvail := Next16(q.nextAvail));
      UsedMissesSame(q, q1, g);
      PublishMisses(d.ram, q1, NextHead(d.ram, q).value, 0, g);
    } else {
      TxEndsUnchanged(d);
      SameOnItself(d.ram, g);
    }
  }

  lemma SameOnItself(ram: seq<byte>, g: set<nat>)
    ensures SameOn(ram, ram, g)
  {
  }

  lemma UsedMissesSame(q: Queue, q': Queue, g: set<nat>)
    requires UsedMisses(q, g) && SameRings(q, q')
    ensures UsedMisses(q', g) && IdxBytes(q') == IdxBytes(q)
  {
    hide Outside, Wrap64;
    forall slot | 0 <= slot < q'.num
      ensures Outside(UsedSlotAt(q', slot), 4, g) && Outside(Wrap64(UsedSlotAt(q', slot) as nat + 4), 4, g)
    {
      assert UsedSlotAt(q', slot) == UsedSlotAt(q, slot);
    }
  }

  lemma {:induction false} TxMissesSpares<S>(d: Device<S>, n: nat)
    requires UsedMisses(d.queues[TXQ], IdxBytes(d.queues[TXQ]))
    ensures TxSpares(d, n)
    decreases n
  {
    hide TxPass, UsedMisses, IdxBytes, SameOn;
    if n > 0 && TxPass(d).again {
      TxPassMisses(d, IdxBytes(d.queues[TXQ]));
      UsedMissesSame(d.queues[TXQ], TxPass(d).dev.queues[TXQ], IdxBytes(d.queues[TXQ]));
      TxMissesSpares(TxPass(d).dev, n - 1);
    }
  }

  /** The transmit loop ends whenever its used-ring writes miss its avail index. Nothing is asked of
      the rest of the avail ring, of the chains, or of the used ring lying in RAM. */
  lemma TransmitLoopEnds<S>(d: Device<S>)
    requires Usable(d.queues[TXQ]) ==> UsedMisses(d.queues[TXQ], IdxBytes(d.queues[TXQ]))
    ensures TxEnds(d)
  {
    hide TxPass, TxEnds, TxSpares, UsedMisses, IdxBytes, Backlog;
    if Usable(d.queues[TXQ]) {
      TxMissesSpares(d, Backlog(d.ram, d.queues[TXQ]));
      TxSparedEnds(d);
    } else {
      UnusableStops(d);
      TxLoopUnfolds(d);
    }
  }

  lemma UnusableStops<S>(d: Device<S>)
    ensures !Usable(d.queues[TXQ]) ==> !TxPass(d).again
    ensures !Usable(d.queues[RXQ]) ==> !RxPass(d).again
  {
    hide Gather, Scatter, PublishUsed;
  }

  lemma {:induction false} TxLoopMisses<S>(d: Device<S>, g: set<nat>)
    requires TxEnds(d) && (Usable(d.queues[TXQ]) ==> UsedMisses(d.queues[TXQ], g))
    ensures SameOn(d.ram, TxLoop(d).ram, g) && TxLoop(d).queues[RXQ] == d.queues[RXQ]
    decreases TxCount(d)
  {
    hide TxPass, TxEnds, TxEndsIn, UsedMisses, SameOn, TxLoop;
    TxLoopUnfolds(d);
    if TxPass(d).again {
      UnusableStops(d);
      TxPassMisses(d, g);
      UsedMissesSame(d.queues[TXQ], TxPass(d).dev.queues[TXQ], g);
      TxLoopMisses(TxPass(d).dev, g);
      SameOnInTurn(d.ram, TxPass(d).dev.ram, TxLoop(d).ram, g);
    } else {
      SameOnItself(d.ram, g);
    }
  }

  /** `g` holds the avail ring of the receive queue and the posted descriptors; neither its used ring
      nor the posted buffers touch `g`. */
  ghost predicate ReceiveSpared(ram: seq<byte>, q: Queue, g: set<nat>) {
    && q.num != 0
    && Inside(AvailIdxAt(q), 2, g)
    && (forall slot :: 0 <= slot < q.num ==> Inside(AvailSlotAt(q, slot), 2, g))
    && UsedMisses(q, g)
    && forall slot: nat, need: nat :: slot < q.num && Posted(ram, q, slot) ==> BufferPlaced(ram, q, slot, need, g, g)
  }

  lemma ReceiveSparedSame(ram: seq<byte>, ram': seq<byte>, q: Queue, q': Queue, g: set<nat>)
    requires ReceiveSpared(ram, q, g) && SameOn(ram, ram', g) && MovedOn(ram, q, q')
    ensures ReceiveSpared(ram', q', g)
  {
    hide BufferPlaced, Posted, MovedOn, SameOn, UsedMisses, Inside, Backlog, Wrap64;
    assert SameRings(q, q') by { MovedOnKeepsRings(ram, q, q'); }
    UsedMissesSame(q, q', g);
    forall slot | 0 <= slot < q'.num
      ensures Inside(AvailSlotAt(q', slot), 2, g)
    {
      assert AvailSlotAt(q', slot) == AvailSlotAt(q, slot);
    }
    forall slot: nat, need: nat | slot < q'.num && Posted(ram', q', slot)
      ensures BufferPlaced(ram', q', slot, need, g, g)
    {
      PostedShrinks(ram, ram', q, q', slot, g);
      BuffersPlacedSame(ram, ram', q, q', slot, need, g, g);
    }
  }

  lemma MovedOnKeepsRings(ram: seq<byte>, q: Queue, q': Queue)
    requires MovedOn(ram, q, q')
    ensures SameRings(q, q')
  {
  }

  lemma RxPassMisses<S>(d: Device<S>, g: set<nat>)
    requires ReceiveSpared(d.ram, d.queues[RXQ], g) && RxPass(d).again
    ensures SameOn(d.ram, RxPass(d).dev.ram, g)
    ensures ReceiveSpared(RxPass(d).dev.ram, RxPass(d).dev.queues[RXQ], g)
  {
    hide Scatter, PublishUsed, SameOn, UsedMisses, Inside, WalkGuarded, Backlog, RingSlot, AvailSlotAt, AvailIdxAt, ReadWord;
    RxMovesOn(d);
    var q := d.queues[RXQ];
    var q1 := q.(nextAvail := Next16(q.nextAvail));
    var head := NextHead(d.ram, q).value;
    NextIsPosted(d.ram, q);
    assert BufferPlaced(d.ram, q, RingSlot(q.nextAvail, q.num), |d.outbuf|, g, g);
    ScatterSpares(d.ram, q.desc, d.outbuf, head, q.num, g, g);
    var w := Scatter(d.ram, q.desc, d.outbuf, head, q.num);
    UsedMissesSame(q, q1, g);
    PublishMisses(w.ram, q1, head, w.written.value % TWO32, g);
    SameOnInTurn(d.ram, w.ram, RxPass(d).dev.ram, g);
    ReceiveSparedSame(d.ram, RxPass(d).dev.ram, q, RxPass(d).dev.queues[RXQ], g);
  }

  lemma SameOnLess(ram: seq<byte>, ram': seq<byte>, g: set<nat>, q: Queue)
    requires SameOn(ram, ram', g) && Inside(AvailIdxAt(q), 2, g)
    ensures SameOn(ram, ram', IdxBytes(q))
  {
  }

  lemma {:induction false} RxMissesSpares<S>(d: Device<S>, n: nat, g: set<nat>)
    requires ReceiveSpared(d.ram, d.queues[RXQ], g)
    ensures RxSpares(d, n)
    decreases n
  {
    hide RxPass, UsedMisses, BufferPlaced, Posted, IdxBytes, SameOn, Inside;
    if n > 0 && RxPass(d).again {
      RxPassMisses(d, g);
      SameOnLess(d.ram, RxPass(d).dev.ram, g, d.queues[RXQ]);
      RxMissesSpares(RxPass(d).dev, n - 1, g);
    }
  }

  /** The receive loop ends whenever the device's receive writes keep off the avail ring and the
      posted descriptors. */
  lemma ReceiveLoopEnds<S>(d: Device<S>, g: set<nat>)
    requires Usable(d.queues[RXQ]) ==> ReceiveSpared(d.ram, d.queues[RXQ], g)
    ensures RxEnds(d)
  {
    hide RxPass, RxEnds, RxSpares, ReceiveSpared, Backlog;
    if Usable(d.queues[RXQ]) {
      RxMissesSpares(d, Backlog(d.ram, d.queues[RXQ]), g);
      RxSparedEnds(d);
    } else {
      UnusableStops(d);
      RxLoopUnfolds(d);
    }
  }

  /** The device's writes miss what its loops go by. */
  ghost predicate Sparing<S>(d: Device<S>, g: set<nat>) {
    && (Usable(d.queues[TXQ]) ==> UsedMisses(d.queues[TXQ], IdxBytes(d.queues[TXQ])))
    && (Usable(d.queues[RXQ]) ==> ReceiveSpared(d.ram, d.queues[RXQ], g))
    && (Usable(d.queues[TXQ]) && Usable(d.queues[RXQ]) ==> UsedMisses(d.queues[TXQ], g))
  }

  /** A kick of either queue then ends, wherever the used rings lie and whatever the chains are. */
  lemma KicksEnd<S>(d: Device<S>, q: u32, g: set<nat>)
    requires Kicks(d, q) ==> Sparing(d, g)
    ensures KickEnds(d, q)
  {
    hide TxEnds, RxEnds, TxLoop, UsedMisses, ReceiveSpared, IdxBytes, SameOn, Backlog;
    if Kicks(d, q) {
      if q == TXQ {
        TransmitLoopEnds(d);
        if Usable(d.queues[RXQ]) {
          TxLoopMisses(d, g);
          SameQueueMovedOn(d.ram, d.queues[RXQ]);
          ReceiveSparedSame(d.ram, TxLoop(d).ram, d.queues[RXQ], d.queues[RXQ], g);
          ReceiveLoopEnds(TxLoop(d), g);
        } else {
          TxLoopMisses(d, {}) by { MissesNothing(d.queues[TXQ]); }
          ReceiveLoopEnds(TxLoop(d), g);
        }
      } else {
        ReceiveLoopEnds(d, g);
      }
    }
  }

  lemma SameQueueMovedOn(ram: seq<byte>, q: Queue)
    ensures MovedOn(ram, q, q)
  {
  }

  lemma MissesNothing(q: Queue)
    ensures UsedMisses(q, {})
  {
  }

  // ---- A sane layout is more than enough --------------------------------------------------------

  lemma {:induction false} GuardLess(ram: seq<byte>, table: u64, idx: u16, hops: nat, need: nat, g: set<nat>, h: set<nat>)
    requires g <= h && WalkGuarded(ram, table, idx, hops, need, g, h)
    ensures WalkGuarded(ram, table, idx, hops, need, g, g)
    decreases hops
  {
    hide PlanOne, DescInside, ReadDesc;
    if hops > 0 {
      var one := PlanOne(ram, table, idx, need);
      if one.Some? && one.value.1.Some? {
        GuardLess(ram, table, one.value.1.value, hops - 1, need - one.value.0.len, g, h);
      }
    }
  }

  lemma RangeMisses(q: Queue, g: set<nat>)
    requires q.num != 0 && q.device + 4 + 8 * q.num <= TWO64 && Outside(q.device + 2, 2 + 8 * q.num, g)
    ensures UsedMisses(q, g)
  {
    hide UsedSlotAt, UsedIdxAt, Wrap64;
    forall slot | 0 <= slot < q.num
      ensures Outside(UsedSlotAt(q, slot), 4, g) && Outside(Wrap64(UsedSlotAt(q, slot) as nat + 4), 4, g)
    {
      UsedAddresses(q, slot);
    }
    UsedAddresses(q, 0);
  }

  lemma PlacedMisses(ram: seq<byte>, q: Queue, g: set<nat>, h: set<nat>)
    requires RingsPlaced(ram, q, g, h)
    ensures UsedMisses(q, g) && UsedMisses(q, IdxBytes(q))
  {
    hide UsedMisses, IdxBytes, Outside, Inside;
    RangeMisses(q, g);
    IdxBytesInside(q, g);
    MissesLess(q, IdxBytes(q), g);
  }

  lemma IdxBytesInside(q: Queue, g: set<nat>)
    requires Inside(AvailIdxAt(q), 2, g)
    ensures IdxBytes(q) <= g
  {
  }

  lemma MissesLess(q: Queue, g: set<nat>, h: set<nat>)
    requires g <= h && UsedMisses(q, h)
    ensures UsedMisses(q, g)
  {
    hide UsedSlotAt, UsedIdxAt, Wrap64;
  }

  lemma LayoutSpares<S>(d: Device<S>, g: set<nat>, h: set<nat>)
    requires Layout(d.ram, d.queues, g, h)
    ensures Sparing(d, g)
  {
    hide UsedMisses, RingsPlaced, IdxBytes, WalkGuarded, Posted, AvailHead, UsedRingsApart;
    if Usable(d.queues[TXQ]) {
      PlacedMisses(d.ram, d.queues[TXQ], g, h);
    }
    if Usable(d.queues[RXQ]) {
      var q := d.queues[RXQ];
      PlacedMisses(d.ram, q, g, h);
      PlacedAvail(d.ram, q, g, h);
      forall slot: nat, need: nat | slot < q.num && Posted(d.ram, q, slot)
        ensures BufferPlaced(d.ram, q, slot, need, g, g)
      {
        assert BufferPlaced(d.ram, q, slot, need, g, h);
        if AvailHead(d.ram, q, slot).Some? {
          GuardLess(d.ram, q.desc, AvailHead(d.ram, q, slot).value, q.num, need, g, h);
        }
      }
    }
  }

  lemma PlacedAvail(ram: seq<byte>, q: Queue, g: set<nat>, h: set<nat>)
    requires RingsPlaced(ram, q, g, h)
    ensures Inside(AvailIdxAt(q), 2, g)
    ensures forall slot :: 0 <= slot < q.num ==> Inside(AvailSlotAt(q, slot), 2, g)
  {
  }

  /** Every kick of a device with a sane layout ends. */
  lemma LaidOutKicksEnd<S>(d: Device<S>, q: u32, g: set<nat>, h: set<nat>)
    requires Layout(d.ram, d.queues, g, h)
    ensures KickEnds(d, q)
  {
    hide Layout, KickEnds, Sparing;
    LayoutSpares(d, g, h);
    KicksEnd(d, q, g);
  }
}
