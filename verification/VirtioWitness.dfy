/** Two sessions that begin alike: the guest sets up both queues, posts one receive chain and one
    transmit chain, and kicks. The layout is sane in both. With a roomy receive buffer the answer
    is delivered; with a chain that runs on past its queue size it is lost in part. */
module VirtioWitness {
  import opened Words
  import Layout
  import opened GuestMemory
  import opened VirtQueue
  import opened VirtioDevice
  import opened VirtioLoops
  import opened VirtioKicks
  import opened VirtioEnds
  import opened VirtioStream
  import opened VirtioDelivery

  const RX: Queue := Queue(1, true, 0, 32, 48, 0, 0)
  const TX: Queue := Queue(1, true, 16, 40, 64, 0, 0)
  const QUEUES: Queues := [RX, TX]

  const READABLE: u16 := 0
  const WRITABLE: u16 := 2
  const RUNS_ON: u16 := 3

  // ---- Memory -----------------------------------------------------------------------------

  /** The receive descriptor (a buffer at 80), the transmit descriptor (one byte at 96), and the
      two avail rings, each with head 0 posted. */
  function Fields(len: u32, flags: u16): seq<seq<byte>> {
    [Le(80, 8), Le(len, 4), Le(flags, 2), Le(0, 2),
     Le(96, 8), Le(1, 4), Le(READABLE, 2), Le(0, 2),
     Le(0, 2), Le(1, 2), Le(0, 2), Le(0, 2),
     Le(0, 2), Le(1, 2), Le(0, 2), Le(0, 2),
     Layout.Zeros(80)]
  }

  function Ram(len: u32, flags: u16): seq<byte> {
    Layout.Concat(Fields(len, flags))
  }

  lemma FieldOffsets(len: u32, flags: u16)
    ensures var f := Fields(len, flags);
            && Layout.Offset(f, 0) == 0 && Layout.Offset(f, 1) == 8 && Layout.Offset(f, 2) == 12
            && Layout.Offset(f, 3) == 14 && Layout.Offset(f, 4) == 16 && Layout.Offset(f, 5) == 24
            && Layout.Offset(f, 6) == 28 && Layout.Offset(f, 7) == 30 && Layout.Offset(f, 8) == 32
            && Layout.Offset(f, 9) == 34 && Layout.Offset(f, 10) == 36 && Layout.Offset(f, 11) == 38
            && Layout.Offset(f, 12) == 40 && Layout.Offset(f, 13) == 42 && Layout.Offset(f, 14) == 44
            && Layout.Offset(f, 15) == 46 && Layout.Offset(f, 16) == 48 && |Ram(len, flags)| == 128
  {
    hide Le, Layout.Concat, Layout.Zeros, Layout.Offset;
    var f := Fields(len, flags);
    Layout.OffsetStep(f, 0);
    Layout.OffsetStep(f, 1);
    Layout.OffsetStep(f, 2);
    Layout.OffsetStep(f, 3);
    Layout.OffsetStep(f, 4);
    Layout.OffsetStep(f, 5);
    Layout.OffsetStep(f, 6);
    Layout.OffsetStep(f, 7);
    Layout.OffsetStep(f, 8);
    Layout.OffsetStep(f, 9);
    Layout.OffsetStep(f, 10);
    Layout.OffsetStep(f, 11);
    Layout.OffsetStep(f, 12);
    Layout.OffsetStep(f, 13);
    Layout.OffsetStep(f, 14);
    Layout.OffsetStep(f, 15);
    Layout.OffsetStep(f, 16);
    Layout.ConcatLength(f);
  }

  lemma Word(len: u32, flags: u16, i: nat, v: nat, n: nat)
    requires i < |Fields(len, flags)| && Fields(len, flags)[i] == Le(v, n) && v < Pow256(n)
    ensures ReadWord(Ram(len, flags), Layout.Offset(Fields(len, flags), i), n) == Some(v)
  {
    hide Layout.Concat, Layout.Offset, Fields, Le;
    Layout.NumberFieldAt(Fields(len, flags), i, v, n);
  }

  lemma RxDescriptor(len: u32, flags: u16)
    ensures ReadDesc(Ram(len, flags), 0, 0) == Some(Desc(80, len, flags, 0))
  {
    hide Le, Ram, ReadWord;
    FieldOffsets(len, flags);
    WordBounds();
    Word(len, flags, 0, 80, 8);
    Word(len, flags, 1, len, 4);
    Word(len, flags, 2, flags, 2);
    Word(len, flags, 3, 0, 2);
  }

  lemma TxDescriptor(len: u32, flags: u16)
    ensures ReadDesc(Ram(len, flags), 16, 0) == Some(Desc(96, 1, READABLE, 0))
  {
    hide Le, Ram, ReadWord;
    FieldOffsets(len, flags);
    WordBounds();
    Word(len, flags, 4, 96, 8);
    Word(len, flags, 5, 1, 4);
    Word(len, flags, 6, READABLE, 2);
    Word(len, flags, 7, 0, 2);
  }

  lemma AvailRings(len: u32, flags: u16)
    ensures NextHead(Ram(len, flags), RX) == Some(0) && NextHead(Ram(len, flags), TX) == Some(0)
    ensures Backlog(Ram(len, flags), RX) == 1 && Backlog(Ram(len, flags), TX) == 1
  {
    hide Le, Ram, ReadWord;
    FieldOffsets(len, flags);
    WordBounds();
    Word(len, flags, 9, 1, 2);
    Word(len, flags, 10, 0, 2);
    Word(len, flags, 13, 1, 2);
    Word(len, flags, 14, 0, 2);
  }

  // ---- The layout ---------------------------------------------------------------------------

  /** The receive descriptor and the avail rings; and the used rings as well. */
  ghost function Guarded(): set<nat> {
    Span(0, 16) + Span(34, 4) + Span(42, 4)
  }

  ghost function GuardedAndUsed(): set<nat> {
    Guarded() + Span(50, 10) + Span(66, 10)
  }

  lemma RingsAreGuarded()
    ensures Inside(0, 16, Guarded())
    ensures Inside(34, 4, Guarded()) && Outside(50, 10, Guarded()) && Inside(50, 10, GuardedAndUsed())
    ensures Inside(42, 4, Guarded()) && Outside(66, 10, Guarded()) && Inside(66, 10, GuardedAndUsed())
    ensures Outside(80, 16, GuardedAndUsed()) && Guarded() <= GuardedAndUsed()
  {
    hide Span;
  }

  lemma RingsOf(ram: seq<byte>, q: Queue, g: set<nat>, h: set<nat>)
    requires |ram| == 128 && q.num == 1 && q.driver + 6 <= 128 && q.device + 12 <= 128
    requires Inside(q.driver + 2, 4, g) && Outside(q.device + 2, 10, g) && Inside(q.device + 2, 10, h)
    ensures RingsPlaced(ram, q, g, h)
  {
  }

  lemma BufferIsPlaced(len: u32, flags: u16, need: nat)
    requires len <= 16
    ensures BufferPlaced(Ram(len, flags), RX, 0, need, Guarded(), GuardedAndUsed())
  {
    hide Ram, ReadWord, Guarded, GuardedAndUsed;
    RingsAreGuarded();
    RxDescriptor(len, flags);
    AvailRings(len, flags);
    assert AvailHead(Ram(len, flags), RX, 0) == NextHead(Ram(len, flags), RX);
    assert OneGuarded(Ram(len, flags), 0, 0, need, Guarded(), GuardedAndUsed()) by {
      DescriptorInside();
    }
  }

  lemma DescriptorInside()
    ensures DescInside(0, 0, Guarded())
  {
    hide Span;
  }

  lemma LayoutIsSane(len: u32, flags: u16)
    requires len <= 16
    ensures VirtioKicks.Layout(Ram(len, flags), QUEUES, Guarded(), GuardedAndUsed())
  {
    hide Ram, RingsPlaced, BufferPlaced, Guarded, GuardedAndUsed, Posted, Inside, Outside;
    FieldOffsets(len, flags);
    RingsAreGuarded();
    RingsOf(Ram(len, flags), RX, Guarded(), GuardedAndUsed());
    RingsOf(Ram(len, flags), TX, Guarded(), GuardedAndUsed());
    forall slot: nat, need: nat | slot < 1
      ensures BufferPlaced(Ram(len, flags), RX, slot, need, Guarded(), GuardedAndUsed())
    {
      BufferIsPlaced(len, flags, need);
    }
  }

  // ---- Setting up ---------------------------------------------------------------------------

  /** Answers every byte with two. */
  const PEER: Peer<int> := Peer(0, (s: int, b: byte) => (s, [1, 2]))

  lemma PeerAnswers(x: byte)
    ensures PEER.Push([x]) == (PEER, [1, 2])
  {
    assert PEER.step(0, x) == (0, [1, 2]);
    assert Peer(0, PEER.step) == PEER;
    assert [x][1..] == [];
    assert PEER.Push([]) == (PEER, []);
    assert [1, 2] + [] == [1, 2];
  }

  const RX_ALONE: Queues := [RX, UNUSED_QUEUE]

  /** The device while it is being set up. */
  function Stage(ram: seq<byte>, regs: Regs, qs: Queues): Device<int> {
    Device(ram, PEER, [], regs, qs, Log([], [], [], []))
  }

  const SELECTED: Regs := Regs(0, 0, 0, 0, 0, 1)
  const DRIVEN: Regs := Regs(4, 0, 0, 0, 0, 1)

  const SET_UP_RX: seq<Command> :=
    [WriteRegister(R_QUEUE_NUM, 1), WriteRegister(R_QUEUE_DRIVER_LOW, 32), WriteRegister(R_QUEUE_DEVICE_LOW, 48),
     WriteRegister(R_QUEUE_READY, 1)]

  const SET_UP_TX: seq<Command> :=
    [WriteRegister(R_QUEUE_SEL, 1), WriteRegister(R_QUEUE_NUM, 1), WriteRegister(R_QUEUE_DESC_LOW, 16),
     WriteRegister(R_QUEUE_DRIVER_LOW, 40), WriteRegister(R_QUEUE_DEVICE_LOW, 64), WriteRegister(R_QUEUE_READY, 1),
     WriteRegister(R_STATUS, S_DRIVER_OK)]

  /** After the commands `cs`, all of which end and meet sane layouts, the device is `d`. */
  ghost predicate Reaches(ram: seq<byte>, cs: seq<Command>, d: Device<int>) {
    AllEnd(NewDevice(ram, PEER), cs) && SaneKicks(NewDevice(ram, PEER), cs) && Session(NewDevice(ram, PEER), cs) == d
  }

  lemma QuietStep(ram: seq<byte>, cs: seq<Command>, d: Device<int>, offset: nat, v: u32)
    requires Reaches(ram, cs, d) && offset != R_QUEUE_NOTIFY
    ensures Reaches(ram, cs + [WriteRegister(offset, v)], WriteReg(d, offset, v))
  {
    hide WriteReg, AllEnd, Session, Sane;
    var c := WriteRegister(offset, v);
    SessionGrows(NewDevice(ram, PEER), cs, c);
    assert (cs + [c])[..|cs|] == cs;
  }

  lemma ReceiveQueueSetUp(ram: seq<byte>)
    ensures Reaches(ram, SET_UP_RX, Stage(ram, RESET_REGS, RX_ALONE))
  {
    hide Reaches;
    var cs: seq<Command> := [];
    StartReached(ram);
    var d := NewDevice(ram, PEER);
    QuietStep(ram, cs, d, R_QUEUE_NUM, 1);
    cs, d := cs + [WriteRegister(R_QUEUE_NUM, 1)], WriteReg(d, R_QUEUE_NUM, 1);
    QuietStep(ram, cs, d, R_QUEUE_DRIVER_LOW, 32);
    cs, d := cs + [WriteRegister(R_QUEUE_DRIVER_LOW, 32)], WriteReg(d, R_QUEUE_DRIVER_LOW, 32);
    QuietStep(ram, cs, d, R_QUEUE_DEVICE_LOW, 48);
    cs, d := cs + [WriteRegister(R_QUEUE_DEVICE_LOW, 48)], WriteReg(d, R_QUEUE_DEVICE_LOW, 48);
    QuietStep(ram, cs, d, R_QUEUE_READY, 1);
    assert cs + [WriteRegister(R_QUEUE_READY, 1)] == SET_UP_RX;
    assert WriteReg(d, R_QUEUE_READY, 1) == Stage(ram, RESET_REGS, RX_ALONE);
  }

  lemma StartReached(ram: seq<byte>)
    ensures Reaches(ram, [], NewDevice(ram, PEER))
  {
  }

  const SIZED: Queues := [RX, Queue(1, false, 16, 0, 0, 0, 0)]

  lemma TransmitQueueSized(ram: seq<byte>)
    ensures Reaches(ram, SET_UP_RX + SET_UP_TX[..3], Stage(ram, SELECTED, SIZED))
  {
    hide Reaches;
    var cs, d := SET_UP_RX, Stage(ram, RESET_REGS, RX_ALONE);
    ReceiveQueueSetUp(ram);
    QuietStep(ram, cs, d, R_QUEUE_SEL, 1);
    cs, d := cs + [WriteRegister(R_QUEUE_SEL, 1)], WriteReg(d, R_QUEUE_SEL, 1);
    QuietStep(ram, cs, d, R_QUEUE_NUM, 1);
    cs, d := cs + [WriteRegister(R_QUEUE_NUM, 1)], WriteReg(d, R_QUEUE_NUM, 1);
    QuietStep(ram, cs, d, R_QUEUE_DESC_LOW, 16);
    assert cs + [WriteRegister(R_QUEUE_DESC_LOW, 16)] == SET_UP_RX + SET_UP_TX[..3];
    assert WriteReg(d, R_QUEUE_DESC_LOW, 16) == Stage(ram, SELECTED, SIZED);
  }

  lemma TransmitQueueSetUp(ram: seq<byte>)
    ensures Reaches(ram, SET_UP_RX + SET_UP_TX, Stage(ram, DRIVEN, QUEUES))
  {
    hide Reaches;
    var cs, d := SET_UP_RX + SET_UP_TX[..3], Stage(ram, SELECTED, SIZED);
    TransmitQueueSized(ram);
    QuietStep(ram, cs, d, R_QUEUE_DRIVER_LOW, 40);
    cs, d := cs + [WriteRegister(R_QUEUE_DRIVER_LOW, 40)], WriteReg(d, R_QUEUE_DRIVER_LOW, 40);
    QuietStep(ram, cs, d, R_QUEUE_DEVICE_LOW, 64);
    cs, d := cs + [WriteRegister(R_QUEUE_DEVICE_LOW, 64)], WriteReg(d, R_QUEUE_DEVICE_LOW, 64);
    QuietStep(ram, cs, d, R_QUEUE_READY, 1);
    cs, d := cs + [WriteRegister(R_QUEUE_READY, 1)], WriteReg(d, R_QUEUE_READY, 1);
    QuietStep(ram, cs, d, R_STATUS, S_DRIVER_OK);
    assert cs + [WriteRegister(R_STATUS, S_DRIVER_OK)] == SET_UP_RX + SET_UP_TX;
    assert WriteReg(d, R_STATUS, S_DRIVER_OK) == Stage(ram, DRIVEN, QUEUES);
  }

  // ---- The kick -----------------------------------------------------------------------------

  ghost predicate TransmitsOnce(d: Device<int>, d': Device<int>, g: set<nat>) {
    && d'.outbuf == [1, 2] && d'.queues[RXQ] == d.queues[RXQ] && d'.log.walks == d.log.walks
    && d'.log.produced == [1, 2] && SameOn(d.ram, d'.ram, g)
    && VirtioKicks.Layout(d'.ram, d'.queues, g, GuardedAndUsed())
  }

  /** The transmit loop serves its one chain and stops. */
  lemma OneTransmission(len: u32, flags: u16)
    requires len <= 16
    ensures var d := Stage(Ram(len, flags), DRIVEN, QUEUES);
            TxEnds(d) && TransmitsOnce(d, TxLoop(d), Guarded())
  {
    hide Ram, TxEnds, TxLoop, TxPass, VirtioKicks.Layout, Guarded, GuardedAndUsed, Backlog;
    var d := Stage(Ram(len, flags), DRIVEN, QUEUES);
    LayoutIsSane(len, flags);
    FirstPass(len, flags);
    var d' := TxPass(d).dev;
    TxPassAdvances(d, Guarded(), GuardedAndUsed());
    AvailRings(len, flags);
    TxProgressStarts(d, Guarded(), GuardedAndUsed());
    TxPassProgresses(d, d, Guarded(), GuardedAndUsed());
    NoBacklogNoPass(d');
    TxLoopUnfolds(d);
    TxLoopUnfolds(d');
  }

  lemma FirstPass(len: u32, flags: u16)
    ensures var d := Stage(Ram(len, flags), DRIVEN, QUEUES);
            var p := TxPass(d);
            && p.again && p.dev.outbuf == [1, 2] && p.dev.queues[RXQ] == RX && p.dev.log.produced == [1, 2]
  {
    hide Ram, Gather, NextHead, PEER;
    var d := Stage(Ram(len, flags), DRIVEN, QUEUES);
    FieldOffsets(len, flags);
    AvailRings(len, flags);
    GathersOneByte(len, flags);
    PeerAnswers(d.ram[96]);
    PassGoesRound(d, 0, [d.ram[96]]);
  }

  lemma GathersOneByte(len: u32, flags: u16)
    ensures |Ram(len, flags)| == 128 && Gather(Ram(len, flags), 16, 0, 1) == Some([Ram(len, flags)[96]])
  {
    hide Ram, ReadDesc;
    var ram := Ram(len, flags);
    FieldOffsets(len, flags);
    TxDescriptor(len, flags);
    assert ram[96..97] == [ram[96]];
  }

  lemma PassGoesRound(d: Device<int>, head: u16, bytes: seq<byte>)
    requires NextHead(d.ram, d.queues[TXQ]) == Some(head)
    requires Gather(d.ram, d.queues[TXQ].desc, head, d.queues[TXQ].num) == Some(bytes)
    ensures var p := TxPass(d);
            && p.again && p.dev.outbuf == d.outbuf + d.peer.Push(bytes).1
            && p.dev.queues[RXQ] == d.queues[RXQ] && p.dev.log.produced == d.log.produced + d.peer.Push(bytes).1
  {
    hide Gather, NextHead, Write;
  }

  lemma NoBacklogNoPass(d: Device<int>)
    requires Backlog(d.ram, d.queues[TXQ]) == 0
    ensures !TxPass(d).again
  {
    hide Gather, PublishUsed;
    WordBounds();
  }

  /** The receive queue as the transmit loop leaves it. */
  lemma ReceiveSide(len: u32, flags: u16, d: Device<int>)
    requires len <= 16 && d.queues[RXQ] == RX && SameOn(Ram(len, flags), d.ram, Guarded())
    ensures NextHead(d.ram, RX) == Some(0) && ReadDesc(d.ram, 0, 0) == Some(Desc(80, len, flags, 0)) && |d.ram| == 128
  {
    hide Ram, Guarded, ReadDesc, NextHead, DescInside;
    FieldOffsets(len, flags);
    AvailRings(len, flags);
    RxDescriptor(len, flags);
    DescriptorInside();
    DescSame(Ram(len, flags), d.ram, 0, 0, Guarded());
    ReceiveHeadSame(Ram(len, flags), d.ram);
  }

  lemma ReceiveHeadSame(ram: seq<byte>, ram': seq<byte>)
    requires SameOn(ram, ram', Guarded())
    ensures NextHead(ram', RX) == NextHead(ram, RX)
  {
    hide ReadWord, SameOn, Guarded, Inside;
    RxWordsInside();
    ReadsSame(ram, ram', Guarded(), 34, 2);
    ReadsSame(ram, ram', Guarded(), 36, 2);
  }

  lemma RxWordsInside()
    ensures Inside(34, 2, Guarded()) && Inside(36, 2, Guarded())
  {
    hide Span;
  }

  /** The answer is delivered and stands in the receive buffer; nothing waits. */
  ghost predicate Received(d: Device<int>) {
    && d.log.produced == [1, 2] && Delivered(d.log.walks) == [1, 2] && d.outbuf == []
    && |d.ram| >= 82 && d.ram[80..82] == [1, 2]
  }

  /** With a writable buffer of four bytes the receive loop delivers both bytes and stops. */
  lemma OneReception(d: Device<int>)
    requires TransmitsOnce(Stage(Ram(4, WRITABLE), DRIVEN, QUEUES), d, Guarded())
    ensures RxEnds(d) && Received(RxLoop(d))
  {
    hide Ram, RxEnds, RxLoop, RxPass, VirtioKicks.Layout, Guarded, GuardedAndUsed, NextHead, ReadDesc, SameOn, Collect, Plan, Delivered;
    ReceiveSide(4, WRITABLE, d);
    PlanOfBuffer(d.ram);
    WalkCompletesIffPlanned(d, Guarded(), GuardedAndUsed());
    var d' := RxPass(d).dev;
    var walk := d'.log.walks[0];
    assert walk.bytes == [1, 2] && d'.outbuf == [];
    if !RxPass(d).again {
      RxPassEnds(d, Guarded(), GuardedAndUsed());
      assert false;
    }
    RxPassAdvances(d, Guarded(), GuardedAndUsed());
    TakenGrows([], walk);
    assert [] + [walk] == d'.log.walks;
    NothingDelivered(walk.bytes);
    OneSegment(d'.ram);
    ProducedKept(d);
    NothingQueued(d');
    RxLoopUnfolds(d);
    RxLoopUnfolds(d');
  }

  lemma PlanOfBuffer(ram: seq<byte>)
    requires |ram| == 128 && ReadDesc(ram, 0, 0) == Some(Desc(80, 4, WRITABLE, 0))
    ensures Plan(ram, 0, 0, 1, 2) == Some([Segment(80, 2)])
    ensures Disjoint([Segment(80, 2)]) && Total([Segment(80, 2)]) == 2
  {
    hide ReadDesc;
    assert PlanOne(ram, 0, 0, 2) == Some((Segment(80, 2), None));
    assert Total([]) == 0 && [Segment(80, 2)][1..] == [];
  }

  lemma NothingDelivered(bytes: seq<byte>)
    ensures Delivered([]) + bytes == bytes
  {
  }

  lemma OneSegment(ram: seq<byte>)
    requires InRam(ram, [Segment(80, 2)])
    ensures 82 <= |ram| && Collect(ram, [Segment(80, 2)]) == ram[80..82]
  {
    var segs := [Segment(80, 2)];
    assert segs[0].len > 0 && segs[1..] == [];
    assert Collect(ram, segs[1..]) == [];
  }

  lemma ProducedKept(d: Device<int>)
    ensures RxPass(d).dev.log.produced == d.log.produced
  {
    hide Scatter, PublishUsed, NextHead;
  }

  lemma NothingQueued(d: Device<int>)
    requires d.outbuf == []
    ensures RxPass(d) == Pass(d, false)
  {
  }

  /** With a chain that runs on beyond the queue's one descriptor the receive walk takes a byte and
      is abandoned. */
  lemma OneLoss(d: Device<int>)
    requires TransmitsOnce(Stage(Ram(1, RUNS_ON), DRIVEN, QUEUES), d, Guarded())
    ensures Faulty(d) && RxEnds(d) && !NothingLost(RxLoop(d).log.walks)
  {
    hide Ram, RxEnds, RxLoop, RxPass, VirtioKicks.Layout, Guarded, GuardedAndUsed, NextHead, ReadDesc, SameOn, Plan, Draw;
    ReceiveSide(1, RUNS_ON, d);
    NoPlan(d.ram);
    assert Faulty(d);
    PassLosesIffFaulty(d, Guarded(), GuardedAndUsed());
    var w: Walk :| RxPass(d).dev.log.walks == d.log.walks + [w] && !w.completed && w.bytes != [];
    if RxPass(d).again {
      RxPassAdvances(d, Guarded(), GuardedAndUsed());
      assert false;
    }
    RxLoopUnfolds(d);
    LostIn(d.log.walks, w);
  }

  lemma NoPlan(ram: seq<byte>)
    requires |ram| == 128 && ReadDesc(ram, 0, 0) == Some(Desc(80, 1, RUNS_ON, 0))
    ensures Plan(ram, 0, 0, 1, 2).None? && Draw(ram, 0, 0, 1, 2) > 0
  {
    hide ReadDesc;
    assert PlanOne(ram, 0, 0, 2) == Some((Segment(80, 1), Some(0)));
    assert Plan(ram, 0, 0, 0, 1).None?;
  }

  // ---- What the kick is told to do ----------------------------------------------------------

  /** The transmit descriptor, its avail ring and its buffer. */
  ghost function SentFrom(): set<nat> {
    Span(16, 16) + Span(42, 4) + Span(96, 1)
  }

  lemma OneChainEach(len: u32, flags: u16)
    ensures NextHead(Ram(len, flags), Past(RX)).None? && NextHead(Ram(len, flags), Past(TX)).None?
  {
    hide Ram, ReadWord, Le;
    FieldOffsets(len, flags);
    WordBounds();
    Word(len, flags, 9, 1, 2);
    Word(len, flags, 13, 1, 2);
  }

  lemma LoneOutgoing(ram: seq<byte>, q: Queue, head: u16, bytes: seq<byte>, g: set<nat>)
    requires NextHead(ram, q) == Some(head) && NextHead(ram, Past(q)).None?
    requires Gather(ram, q.desc, head, q.num) == Some(bytes) && ReadsInside(ram, q.desc, head, q.num, g)
    ensures Outgoing(ram, q) == bytes && OutgoingInside(ram, q, g)
  {
    hide NextHead, Gather, ReadsInside, Backlog;
    assert Outgoing(ram, Past(q)) == [] && bytes + [] == bytes;
  }

  lemma LoneIncoming(ram: seq<byte>, q: Queue, head: u16, need: nat, segs: seq<Segment>, g: set<nat>, h: set<nat>)
    requires need > 0 && NextHead(ram, q) == Some(head) && NextHead(ram, Past(q)).None?
    requires Plan(ram, q.desc, head, q.num, need) == Some(segs) && Disjoint(segs)
    requires WalkGuarded(ram, q.desc, head, q.num, need, g, h)
    ensures Incoming(ram, q, need) == segs && IncomingApart(ram, q, need, g, h)
  {
    hide NextHead, Plan, WalkGuarded, Backlog, Disjoint, Total, Cells;
    PlanWithin(ram, q.desc, head, q.num, need);
    assert Incoming(ram, Past(q), need - Total(segs)) == [] && segs + [] == segs;
  }

  lemma TransmitRingInside()
    ensures AvailInside(TX, SentFrom()) && UsedMisses(TX, SentFrom()) && DescInside(16, 0, SentFrom()) && Inside(96, 1, SentFrom())
  {
    hide Span;
    RangeMisses(TX, SentFrom());
  }

  lemma OneChainOut(len: u32, flags: u16)
    ensures |Ram(len, flags)| == 128 && Outgoing(Ram(len, flags), TX) == [Ram(len, flags)[96]]
    ensures TransmitClear(Stage(Ram(len, flags), DRIVEN, QUEUES), SentFrom())
  {
    hide Ram, NextHead, Gather, ReadDesc, SentFrom, DescInside, Inside, Outgoing, OutgoingInside, AvailInside, UsedMisses;
    AvailRings(len, flags);
    OneChainEach(len, flags);
    GathersOneByte(len, flags);
    TxDescriptor(len, flags);
    TransmitRingInside();
    LoneOutgoing(Ram(len, flags), TX, 0, [Ram(len, flags)[96]], SentFrom());
  }

  lemma OneChainIn(d: Device<int>)
    requires d.ram == Ram(4, WRITABLE) && d.queues == QUEUES && |d.outbuf| == 2
    ensures |d.ram| == 128 && Incoming(d.ram, RX, 2) == [Segment(80, 2)]
    ensures ReceiveClear(d, Guarded(), GuardedAndUsed())
  {
    hide Ram, NextHead, Plan, ReadDesc, Guarded, GuardedAndUsed, WalkGuarded, RingsPlaced, Disjoint, Total, Incoming,
      IncomingApart, Inside, Outside, AvailHead;
    FieldOffsets(4, WRITABLE);
    AvailRings(4, WRITABLE);
    OneChainEach(4, WRITABLE);
    RxDescriptor(4, WRITABLE);
    PlanOfBuffer(d.ram);
    BufferIsPlaced(4, WRITABLE, 2);
    HeadOfSlot(d.ram);
    RingsAreGuarded();
    RingsOf(d.ram, RX, Guarded(), GuardedAndUsed());
    LoneIncoming(d.ram, RX, 0, 2, [Segment(80, 2)], Guarded(), GuardedAndUsed());
  }

  lemma HeadOfSlot(ram: seq<byte>)
    requires NextHead(ram, RX) == Some(0)
    ensures AvailHead(ram, RX, 0) == Some(0)
  {
  }

  /** The kick of the first session is clear: one byte goes out, two come in. */
  lemma KickIsClear()
    ensures var d := Stage(Ram(4, WRITABLE), DRIVEN, QUEUES);
            && KickClear(d, SentFrom(), Guarded(), GuardedAndUsed())
            && |Outgoing(d.ram, TX)| == 1 && Incoming(d.ram, RX, |Answering(d).outbuf|) == [Segment(80, 2)]
  {
    hide Ram, TransmitClear, ReceiveClear, Outgoing, Incoming, Guarded, GuardedAndUsed, SentFrom, UsedMisses, PEER, RingsPlaced;
    var d := Stage(Ram(4, WRITABLE), DRIVEN, QUEUES);
    OneChainOut(4, WRITABLE);
    PeerAnswers(d.ram[96]);
    OneChainIn(Answering(d));
    RingsAreGuarded();
    RingsOf(d.ram, TX, Guarded(), GuardedAndUsed());
    PlacedMisses(d.ram, TX, Guarded(), GuardedAndUsed());
  }

  // ---- The sessions -------------------------------------------------------------------------

  const KICK: Command := WriteRegister(R_QUEUE_NOTIFY, TXQ)

  const SESSION: seq<Command> := SET_UP_RX + SET_UP_TX + [KICK]

  lemma KickReached(len: u32, flags: u16)
    requires len <= 16
    ensures var d := Stage(Ram(len, flags), DRIVEN, QUEUES);
            && TxEnds(d) && RxEnds(TxLoop(d))
            && Reaches(Ram(len, flags), SESSION, RxLoop(TxLoop(d)))
  {
    hide Ram, AllEnd, Session, TxEnds, RxEnds, VirtioKicks.Layout, Guarded, GuardedAndUsed, TxLoop, RxLoop, WriteReg;
    var ram, cs := Ram(len, flags), SET_UP_RX + SET_UP_TX;
    var d := Stage(ram, DRIVEN, QUEUES);
    TransmitQueueSetUp(ram);
    LayoutIsSane(len, flags);
    LaidOutKicksEnd(d, TXQ, Guarded(), GuardedAndUsed());
    assert Kicks(d, TXQ);
    SessionGrows(NewDevice(ram, PEER), cs, KICK);
    assert SESSION[..|cs|] == cs;
    assert Sane(d);
  }

  /** A session that delivers: all its kicks meet sane layouts, and the guest finds the answer in
      its receive buffer. */
  lemma SessionDelivers()
    ensures var d0 := NewDevice(Ram(4, WRITABLE), PEER);
            && AllEnd(d0, SESSION) && SaneKicks(d0, SESSION)
            && Received(Session(d0, SESSION))
  {
    hide Ram, AllEnd, Session, SaneKicks, TxEnds, RxEnds, TxLoop, RxLoop, Received, TransmitsOnce, Stage;
    KickReached(4, WRITABLE);
    OneTransmission(4, WRITABLE);
    OneReception(TxLoop(Stage(Ram(4, WRITABLE), DRIVEN, QUEUES)));
  }

  /** A session that loses a byte: its kick meets a sane layout and a faulty chain, and what the
      guest was delivered and what waits is not the peer's answer. */
  lemma SessionLoses()
    ensures var d0 := NewDevice(Ram(1, RUNS_ON), PEER);
            && AllEnd(d0, SESSION) && SaneKicks(d0, SESSION)
            && !NeverFaulty(d0, SessionEvents(d0, SESSION))
            && var d := Session(d0, SESSION);
            && Delivered(d.log.walks) + d.outbuf != PEER.Push(d.log.sent).1
  {
    hide Ram, AllEnd, Session, SaneKicks, SessionEvents, NeverFaulty, TxEnds, RxEnds, TxLoop, RxLoop, Delivered,
      TransmitsOnce, NothingLost, Stage, Faulty;
    KickReached(1, RUNS_ON);
    OneTransmission(1, RUNS_ON);
    OneLoss(TxLoop(Stage(Ram(1, RUNS_ON), DRIVEN, QUEUES)));
    SessionConserves(Ram(1, RUNS_ON), PEER, SESSION);
    SessionConservedIff(Ram(1, RUNS_ON), PEER, SESSION);
  }
}
