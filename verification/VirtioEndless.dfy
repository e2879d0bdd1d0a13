/** A kick that never ends (tb-vmm/src/virtio_mmio.rs): a transmit queue of size 1 whose used ring
    lies on its avail ring, so that publishing a chain makes another one available. */
module VirtioEndless {
  import opened Words
  import opened GuestMemory
  import opened VirtQueue
  import opened VirtioDevice
  import opened VirtioLoops
  import opened VirtioKicks
  import opened VirtioWitness

  // ---- One ring for both ---------------------------------------------------------------------

  /** The transmit queue has size 1 and one ring, in RAM, for both directions; the next chain and its
      buffers lie in `g`, clear of it. */
  ghost predicate Shared<S>(d: Device<S>, g: set<nat>) {
    var q := d.queues[TXQ];
    && q.ready && q.num == 1 && q.device == q.driver && q.driver + 12 <= |d.ram| <= TWO64
    && Outside(q.driver + 2, 10, g)
    && (NextHead(d.ram, q).Some? ==> ReadsInside(d.ram, q.desc, NextHead(d.ram, q).value, 1, g))
  }

  lemma SharedAddresses(q: Queue)
    requires q.driver + 12 <= TWO64 && q.device == q.driver && q.num == 1
    ensures AvailIdxAt(q) == q.driver + 2 && UsedIdxAt(q) == q.driver + 2
    ensures AvailSlotAt(q, 0) == q.driver + 4 && UsedSlotAt(q, 0) == q.driver + 4
    ensures Wrap64(UsedSlotAt(q, 0) as nat + 4) == q.driver + 8
    ensures RingSlot(q.nextAvail, 1) == 0 && RingSlot(q.usedCount, 1) == 0
  {
  }

  /** Publishing in the shared ring: the used index is the avail index, and the used entry begins
      with the head that the avail ring held. */
  lemma SharedPublish(ram: seq<byte>, q: Queue, head: u16, g: set<nat>)
    requires q.num == 1 && q.device == q.driver && q.driver + 12 <= |ram| <= TWO64 && Outside(q.driver + 2, 10, g)
    ensures var p := PublishUsed(ram, q, head, 0);
            && p.q == q.(usedCount := Next16(q.usedCount)) && SameOn(ram, p.ram, g) && |p.ram| == |ram|
            && ReadWord(p.ram, AvailIdxAt(q), 2) == Some(Next16(q.usedCount))
            && ReadWord(p.ram, AvailSlotAt(q, 0), 2) == Some(head)
  {
    hide Le, FromLe, Write, RingSlot, Wrap64, AvailIdxAt, UsedIdxAt, AvailSlotAt, UsedSlotAt, Next16;
    SharedAddresses(q);
    var at: nat := q.driver + 4;
    var p := PublishUsed(ram, q, head, 0);
    ThreeWrites(ram, at, Le(head, 4), Le(0, 4), q.driver + 2, Le(Next16(q.usedCount), 2));
    WordBounds();
    FromLeOfLe(Next16(q.usedCount), 2);
    FromLeOfLe(head, 2);
    LowHalf(head);
    assert p.ram[at..at + 2] == p.ram[at..at + 4][..2];
  }

  lemma LowHalf(v: u16)
    ensures Le(v, 4)[..2] == Le(v, 2)
  {
    assert Le(v, 4) == [v % 256] + Le(v / 256, 3);
    assert Le(v / 256, 3) == [v / 256 % 256] + Le(v / 256 / 256, 2);
    assert Le(v, 2) == [v % 256] + Le(v / 256, 1);
    assert Le(v / 256, 1) == [v / 256 % 256] + Le(v / 256 / 256, 0);
  }

  /** A pass over a shared ring leaves it shared, with the same head standing in it; another chain
      seems available exactly if the two counters differ. */
  lemma SharedPass<S>(d: Device<S>, g: set<nat>)
    requires Shared(d, g) && TxPass(d).again
    ensures var q, d' := d.queues[TXQ], TxPass(d).dev;
            && Shared(d', g)
            && d'.queues[TXQ] == q.(nextAvail := Next16(q.nextAvail), usedCount := Next16(q.usedCount))
            && (TxPass(d').again <==> q.nextAvail != q.usedCount)
  {
    hide Gather, PublishUsed, ReadWord, ReadsInside, SameOn, Inside, Outside, RingSlot, AvailIdxAt, AvailSlotAt, Next16;
    var q, d' := d.queues[TXQ], TxPass(d).dev;
    var q1 := q.(nextAvail := Next16(q.nextAvail));
    var head := NextHead(d.ram, q).value;
    SharedPublish(d.ram, q1, head, g);
    SharedAddresses(q1);
    SharedAddresses(q);
    SharedAddresses(d'.queues[TXQ]);
    GatherSame(d.ram, d'.ram, q.desc, head, 1, g);
    NextsDiffer(q.nextAvail, q.usedCount);
  }

  lemma NextsDiffer(x: u16, y: u16)
    ensures Next16(x) == Next16(y) <==> x == y
  {
  }

  lemma {:induction false} NeverStops<S>(d: Device<S>, g: set<nat>, n: nat)
    requires Shared(d, g) && TxPass(d).again && d.queues[TXQ].nextAvail != d.queues[TXQ].usedCount
    ensures !TxEndsIn(d, n)
    decreases n
  {
    hide TxPass, Shared, Next16;
    if n > 0 {
      var q := d.queues[TXQ];
      SharedPass(d, g);
      NextsDiffer(q.nextAvail, q.usedCount);
      NeverStops(TxPass(d).dev, g, n - 1);
    }
  }

  /** On a shared ring the transmit loop ends exactly if it finds nothing to do at once or the two
      counters agree. */
  lemma SharedRingEndsIff<S>(d: Device<S>, g: set<nat>)
    requires Shared(d, g)
    ensures TxEnds(d) <==> !TxPass(d).again || d.queues[TXQ].nextAvail == d.queues[TXQ].usedCount
  {
    hide TxPass, Shared, TxEndsIn, Next16;
    TxLoopUnfolds(d);
    if TxPass(d).again {
      if d.queues[TXQ].nextAvail == d.queues[TXQ].usedCount {
        SharedPass(d, g);
        TxLoopUnfolds(TxPass(d).dev);
      } else {
        forall n: nat
          ensures !TxEndsIn(d, n)
        {
          NeverStops(d, g, n);
        }
      }
    }
  }

  // ---- A session that gets there ----------------------------------------------------------------

  const BEYOND_RAM := 4096

  /** The transmit queue alone: its avail ring at 40, its used ring first beyond RAM, then at 40. */
  function Lone(device: u64, nextAvail: u16): Queues {
    [UNUSED_QUEUE, Queue(1, true, 16, 40, device, nextAvail, 0)]
  }

  const LONE_SET_UP: seq<Command> :=
    [WriteRegister(R_QUEUE_SEL, 1), WriteRegister(R_QUEUE_NUM, 1), WriteRegister(R_QUEUE_DESC_LOW, 16),
     WriteRegister(R_QUEUE_DRIVER_LOW, 40), WriteRegister(R_QUEUE_DEVICE_LOW, BEYOND_RAM),
     WriteRegister(R_QUEUE_READY, 1), WriteRegister(R_STATUS, S_DRIVER_OK)]

  /** Then the used ring moves onto the avail ring, and another chain is made available. */
  const MOVE_RING: seq<Command> := [WriteRegister(R_QUEUE_DEVICE_LOW, 40), Store(42, Le(2, 2))]

  const ENDLESS: seq<Command> := LONE_SET_UP + [KICK] + MOVE_RING

  /** After the commands `cs`, all of which end, the device is `d`. */
  ghost predicate Comes(ram: seq<byte>, cs: seq<Command>, d: Device<int>) {
    AllEnd(NewDevice(ram, PEER), cs) && Session(NewDevice(ram, PEER), cs) == d
  }

  lemma OneMore(ram: seq<byte>, cs: seq<Command>, d: Device<int>, c: Command)
    requires Comes(ram, cs, d) && Ends(d, c)
    ensures Comes(ram, cs + [c], Do(d, c))
  {
    hide Ends, Do, AllEnd, Session;
    SessionGrows(NewDevice(ram, PEER), cs, c);
  }

  lemma OneWrite(ram: seq<byte>, cs: seq<Command>, d: Device<int>, offset: nat, v: u32)
    requires Comes(ram, cs, d) && offset != R_QUEUE_NOTIFY
    ensures Comes(ram, cs + [WriteRegister(offset, v)], WriteReg(d, offset, v))
  {
    hide WriteReg, Comes, KickEnds, Notify;
    OneMore(ram, cs, d, WriteRegister(offset, v));
  }

  const HALF_SET_UP: Queues := [UNUSED_QUEUE, Queue(1, false, 16, 40, 0, 0, 0)]

  lemma LoneQueueHalfSetUp(ram: seq<byte>)
    ensures Comes(ram, LONE_SET_UP[..4], Stage(ram, SELECTED, HALF_SET_UP))
  {
    hide Comes;
    var cs: seq<Command>, d := [], NewDevice(ram, PEER);
    NothingCommanded(ram);
    OneWrite(ram, cs, d, R_QUEUE_SEL, 1);
    cs, d := cs + [WriteRegister(R_QUEUE_SEL, 1)], WriteReg(d, R_QUEUE_SEL, 1);
    OneWrite(ram, cs, d, R_QUEUE_NUM, 1);
    cs, d := cs + [WriteRegister(R_QUEUE_NUM, 1)], WriteReg(d, R_QUEUE_NUM, 1);
    OneWrite(ram, cs, d, R_QUEUE_DESC_LOW, 16);
    cs, d := cs + [WriteRegister(R_QUEUE_DESC_LOW, 16)], WriteReg(d, R_QUEUE_DESC_LOW, 16);
    OneWrite(ram, cs, d, R_QUEUE_DRIVER_LOW, 40);
    assert cs + [WriteRegister(R_QUEUE_DRIVER_LOW, 40)] == LONE_SET_UP[..4];
    assert WriteReg(d, R_QUEUE_DRIVER_LOW, 40) == Stage(ram, SELECTED, HALF_SET_UP);
  }

  lemma NothingCommanded(ram: seq<byte>)
    ensures Comes(ram, [], NewDevice(ram, PEER))
  {
  }

  lemma LoneQueueSetUp(ram: seq<byte>)
    ensures Comes(ram, LONE_SET_UP, Stage(ram, DRIVEN, Lone(BEYOND_RAM, 0)))
  {
    hide Comes;
    var cs, d := LONE_SET_UP[..4], Stage(ram, SELECTED, HALF_SET_UP);
    LoneQueueHalfSetUp(ram);
    OneWrite(ram, cs, d, R_QUEUE_DEVICE_LOW, BEYOND_RAM);
    cs, d := cs + [WriteRegister(R_QUEUE_DEVICE_LOW, BEYOND_RAM)], WriteReg(d, R_QUEUE_DEVICE_LOW, BEYOND_RAM);
    OneWrite(ram, cs, d, R_QUEUE_READY, 1);
    cs, d := cs + [WriteRegister(R_QUEUE_READY, 1)], WriteReg(d, R_QUEUE_READY, 1);
    OneWrite(ram, cs, d, R_STATUS, S_DRIVER_OK);
    assert cs + [WriteRegister(R_STATUS, S_DRIVER_OK)] == LONE_SET_UP;
    assert WriteReg(d, R_STATUS, S_DRIVER_OK) == Stage(ram, DRIVEN, Lone(BEYOND_RAM, 0));
  }

  const MEMORY: seq<byte> := Ram(4, WRITABLE)

  lemma MemoryHolds()
    ensures |MEMORY| == 128
    ensures ReadWord(MEMORY, 42, 2) == Some(1) && ReadWord(MEMORY, 44, 2) == Some(0)
    ensures Gather(MEMORY, 16, 0, 1) == Some([MEMORY[96]])
  {
    hide Ram, ReadWord, Gather, Le;
    FieldOffsets(4, WRITABLE);
    WordBounds();
    Word(4, WRITABLE, 13, 1, 2);
    Word(4, WRITABLE, 14, 0, 2);
    GathersOneByte(4, WRITABLE);
  }

  lemma LoneHead(ram: seq<byte>, device: u64, nextAvail: u16, avail: u16)
    requires ReadWord(ram, 42, 2) == Some(avail) && ReadWord(ram, 44, 2) == Some(0)
    ensures NextHead(ram, Lone(device, nextAvail)[TXQ]) == if avail == nextAvail then None else Some(0)
  {
    hide ReadWord;
    var q := Lone(device, nextAvail)[TXQ];
    assert RingSlot(q.nextAvail, 1) == 0;
    assert AvailIdxAt(q) == 42 && AvailSlotAt(q, 0) == 44;
  }

  lemma PublishBeyond(ram: seq<byte>, q: Queue, id: u32, len: u32)
    requires q.num == 1 && q.device == BEYOND_RAM && |ram| == 128
    ensures PublishUsed(ram, q, id, len) == Published(ram, q, false)
  {
    hide Le;
    assert RingSlot(q.usedCount, 1) == 0;
    assert UsedSlotAt(q, 0) == BEYOND_RAM + 4;
  }

  /** The device once its lone chain was consumed. */
  function Consumed(ram: seq<byte>, device: u64, sent: byte): Device<int> {
    Device(ram, PEER, [1, 2], DRIVEN, Lone(device, 1), Log([sent], [1, 2], [], [Used(0, 0)]))
  }

  lemma FirstChain()
    requires |MEMORY| == 128
    ensures TxPass(Stage(MEMORY, DRIVEN, Lone(BEYOND_RAM, 0))) == Pass(Consumed(MEMORY, BEYOND_RAM, MEMORY[96]), true)
  {
    hide Ram, Gather, NextHead, PublishUsed, PEER, Peer.Push;
    MemoryHolds();
    LoneHead(MEMORY, BEYOND_RAM, 0, 1);
    PeerAnswers(MEMORY[96]);
    PublishBeyond(MEMORY, Lone(BEYOND_RAM, 1)[TXQ], 0, 0);
    assert [] + [1, 2] == [1, 2];
    assert [] + [MEMORY[96]] == [MEMORY[96]];
    assert [] + [Used(0, 0)] == [Used(0, 0)];
  }

  lemma NothingMore()
    requires |MEMORY| == 128
    ensures var d := Consumed(MEMORY, BEYOND_RAM, MEMORY[96]);
            !TxPass(d).again && RxPass(d) == Pass(d, false)
  {
    hide Ram, Gather, NextHead, PublishUsed, Scatter;
    MemoryHolds();
    LoneHead(MEMORY, BEYOND_RAM, 1, 1);
    assert NextHead(MEMORY, UNUSED_QUEUE).None? by { NoHead(MEMORY); }
  }

  lemma NoHead(ram: seq<byte>)
    ensures NextHead(ram, UNUSED_QUEUE).None?
  {
  }

  /** The first kick consumes the chain but cannot publish it, so the counters part. */
  lemma FirstKick()
    requires |MEMORY| == 128
    ensures var d := Stage(MEMORY, DRIVEN, Lone(BEYOND_RAM, 0));
            Ends(d, KICK) && Do(d, KICK) == Consumed(MEMORY, BEYOND_RAM, MEMORY[96])
  {
    hide Ram, TxEnds, RxEnds, TxLoop, RxLoop, TxPass, RxPass;
    var d, d' := Stage(MEMORY, DRIVEN, Lone(BEYOND_RAM, 0)), Consumed(MEMORY, BEYOND_RAM, MEMORY[96]);
    FirstChain();
    NothingMore();
    TxLoopUnfolds(d);
    TxLoopUnfolds(d');
    RxLoopUnfolds(d');
    assert Kicks(d, TXQ);
  }

  /** Memory with an avail index of 2. */
  function Moved(): seq<byte> {
    Write(MEMORY, 42, Le(2, 2)).0
  }

  /** The bytes of the lone chain: its descriptor and its buffer. */
  ghost function ChainBytes(): set<nat> {
    Span(16, 16) + Span(96, 1)
  }

  lemma MovedHolds()
    ensures |Moved()| == 128
    ensures ReadWord(Moved(), 42, 2) == Some(2) && ReadWord(Moved(), 44, 2) == Some(0)
    ensures SameOn(MEMORY, Moved(), ChainBytes())
  {
    hide Ram, Le, FromLe, Span, Gather;
    MemoryHolds();
    WordBounds();
    SpliceBytes(MEMORY, 42, Le(2, 2));
    assert Moved()[42..44] == Le(2, 2);
    assert Moved()[44..46] == MEMORY[44..46];
    FromLeOfLe(2, 2);
  }

  lemma ChainIsRead()
    requires |MEMORY| == 128
    ensures ReadsInside(MEMORY, 16, 0, 1, ChainBytes())
  {
    hide Ram, ReadDesc, Span;
    TxDescriptor(4, WRITABLE);
  }

  /** With its used ring moved onto its avail ring the device is one with a shared ring, whose
      counters differ. */
  lemma RingIsShared()
    requires |MEMORY| == 128
    ensures var d := Consumed(Moved(), 40, MEMORY[96]); Shared(d, ChainBytes()) && TxPass(d).again
  {
    hide Ram, ReadsInside, Gather, ReadWord, Span, SameOn, Moved, PublishUsed, PEER, TxPass;
    MemoryHolds();
    MovedHolds();
    ChainIsRead();
    LoneHead(Moved(), 40, 1, 2);
    GatherSame(MEMORY, Moved(), 16, 0, 1, ChainBytes());
    PassGoesRound(Consumed(Moved(), 40, MEMORY[96]), 0, [MEMORY[96]]);
  }

  lemma RingMoves(cs: seq<Command>)
    requires |MEMORY| == 128 && Comes(MEMORY, cs, Consumed(MEMORY, BEYOND_RAM, MEMORY[96]))
    ensures Comes(MEMORY, cs + MOVE_RING, Consumed(Moved(), 40, MEMORY[96]))
  {
    hide Comes, Ram, Le, Write, AllEnd, Session;
    var d := Consumed(MEMORY, BEYOND_RAM, MEMORY[96]);
    var d1 := Consumed(MEMORY, 40, MEMORY[96]);
    assert WriteReg(d, R_QUEUE_DEVICE_LOW, 40) == d1;
    OneWrite(MEMORY, cs, d, R_QUEUE_DEVICE_LOW, 40);
    OneMore(MEMORY, cs + [MOVE_RING[0]], d1, MOVE_RING[1]);
    assert cs + MOVE_RING == cs + [MOVE_RING[0]] + [MOVE_RING[1]];
  }

  lemma SharedRingReached()
    ensures |MEMORY| == 128 && Comes(MEMORY, ENDLESS, Consumed(Moved(), 40, MEMORY[96]))
  {
    hide Ram, Comes, Moved, Do, Ends;
    MemoryHolds();
    LoneQueueSetUp(MEMORY);
    FirstKick();
    OneMore(MEMORY, LONE_SET_UP, Stage(MEMORY, DRIVEN, Lone(BEYOND_RAM, 0)), KICK);
    RingMoves(LONE_SET_UP + [KICK]);
  }

  /** A session in which every kick ends, after which the next one never does. */
  lemma KickNeverEnds()
    ensures var d0 := NewDevice(MEMORY, PEER);
            && AllEnd(d0, ENDLESS) && !KickEnds(Session(d0, ENDLESS), TXQ)
            && !AllEnd(d0, ENDLESS + [KICK])
  {
    hide Ram, AllEnd, Session, TxEnds, RxEnds, TxPass, Shared, Moved, TxLoop;
    SharedRingReached();
    var d := Consumed(Moved(), 40, MEMORY[96]);
    RingIsShared();
    SharedRingEndsIff(d, ChainBytes());
    assert Kicks(d, TXQ);
    if AllEnd(NewDevice(MEMORY, PEER), ENDLESS + [KICK]) {
      EndsWithLast(NewDevice(MEMORY, PEER), ENDLESS, KICK);
    }
  }

  lemma EndsWithLast<S>(d: Device<S>, cs: seq<Command>, c: Command)
    requires AllEnd(d, cs + [c])
    ensures AllEnd(d, cs) && Ends(Session(d, cs), c)
  {
    hide Ends, Do;
    assert (cs + [c])[..|cs|] == cs;
  }
}
