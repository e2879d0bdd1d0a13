/** What the registers of the device hold (tb-vmm/src/virtio_mmio.rs; section 4.2.2 of virtio v1.2), told from the
    list of everything the guest did: the last write to each, under the selector it stands behind. */
module VirtioRegisters {
  import opened Words
  import opened GuestMemory
  import opened VirtQueue
  import opened VirtioDevice
  import opened VirtioLoops
  import opened VirtioKicks

  // ---- Histories ---------------------------------------------------------------------------

  /** A status write of 0. */
  predicate Resets(c: Command) {
    c == WriteRegister(0x070, 0)
  }

  /** The value last written to the register at `offset` since the last reset, or 0. */
  function Held(cs: seq<Command>, offset: nat): u32
    decreases |cs|
  {
    if cs == [] then 0 else
    var c := cs[|cs| - 1];
    if Resets(c) then 0
    else if c.WriteRegister? && c.offset == offset then c.v
    else Held(cs[..|cs| - 1], offset)
  }

  /** The value last written to the register at `offset` while the selector at `selector` held `k`, or 0. */
  function Latest(cs: seq<Command>, offset: nat, selector: nat, k: nat): u32
    decreases |cs|
  {
    if cs == [] then 0 else
    var c, before := cs[|cs| - 1], cs[..|cs| - 1];
    if Resets(c) then 0
    else if c.WriteRegister? && c.offset == offset && Held(before, selector) == k then c.v
    else Latest(before, offset, selector, k)
  }

  /** The driver acknowledged exactly VERSION_1: nothing of feature dword 0, and 1 of dword 1. */
  predicate Acknowledged(cs: seq<Command>) {
    Latest(cs, 0x020, 0x024, 0) == 0 && Latest(cs, 0x020, 0x024, 1) == 1
  }

  /** The last status write, without bit 3 (FEATURES_OK) unless the features had been acknowledged by then. */
  function StatusAfter(cs: seq<Command>): nat
    decreases |cs|
  {
    if cs == [] then 0 else
    var c, before := cs[|cs| - 1], cs[..|cs| - 1];
    if !(c.WriteRegister? && c.offset == 0x070) then StatusAfter(before)
    else if c.v / 8 % 2 == 0 || Acknowledged(before) then c.v
    else c.v - 8
  }

  /** Two registers of queue `k` that make up an address. */
  function Address(cs: seq<Command>, low: nat, k: nat): nat {
    Latest(cs, low, 0x030, k) + 0x1_0000_0000 * Latest(cs, low + 4, 0x030, k)
  }

  ghost predicate QueueHolds(q: Queue, cs: seq<Command>, k: nat) {
    var num := Latest(cs, 0x038, 0x030, k);
    && q.num == (if num == 1 || num == 2 || num == 4 then num else 0)
    && (q.ready <==> Latest(cs, 0x044, 0x030, k) % 2 == 1)
    && q.desc == Address(cs, 0x080, k) && q.driver == Address(cs, 0x090, k) && q.device == Address(cs, 0x0A0, k)
  }

  ghost predicate RegsHold(r: Regs, cs: seq<Command>) {
    && r.deviceFeaturesSel == Held(cs, 0x014) && r.driverFeaturesSel == Held(cs, 0x024) && r.queueSel == Held(cs, 0x030)
    && r.featuresLow == Latest(cs, 0x020, 0x024, 0) && r.featuresHigh == Latest(cs, 0x020, 0x024, 1)
    && r.status == StatusAfter(cs)
  }

  // ---- One command -------------------------------------------------------------------------

  /** The registers, and the queues but for their counters, are the same. */
  ghost predicate SameSetUp<S>(d: Device<S>, d': Device<S>) {
    d'.regs == d.regs && SameRings(d.queues[0], d'.queues[0]) && SameRings(d.queues[1], d'.queues[1])
  }

  lemma PassKeepsSetUp<S>(d: Device<S>, e: Event)
    requires e.TransmitPass? || e.ReceivePass?
    ensures SameSetUp(d, Next(d, e))
  {
    hide NextHead, Gather, Scatter, Write, Next16;
  }

  lemma {:induction false} PassesKeepSetUp<S>(d: Device<S>, es: seq<Event>)
    requires forall e :: e in es ==> e.TransmitPass? || e.ReceivePass?
    ensures SameSetUp(d, Run(d, es))
    decreases |es|
  {
    hide Next;
    if es != [] {
      PassKeepsSetUp(d, es[0]);
      PassesKeepSetUp(Next(d, es[0]), es[1..]);
    }
  }

  /** A kick changes no register and nothing of a queue but its counters. */
  lemma KickKeepsSetUp<S>(d: Device<S>, q: u32)
    requires KickEnds(d, q)
    ensures SameSetUp(d, Notify(d, q))
  {
    hide Run, TxLoop, RxLoop, TxEnds, RxEnds, SameSetUp;
    NotifyIsRun(d, q);
    PassesKeepSetUp(d, KickEvents(d, q));
  }

  lemma HistoryGrows(cs: seq<Command>, c: Command)
    ensures (cs + [c])[|cs|] == c && (cs + [c])[..|cs|] == cs
  {
  }

  /** Commands that write none of the registers modelled here leave every history as it was. */
  lemma OthersWriteNothing(cs: seq<Command>, c: Command, k: nat)
    requires c.WriteRegister? ==> c.offset == R_QUEUE_NOTIFY
    ensures forall r: Regs :: RegsHold(r, cs + [c]) <==> RegsHold(r, cs)
    ensures forall q: Queue :: QueueHolds(q, cs + [c], k) <==> QueueHolds(q, cs, k)
  {
    HistoryGrows(cs, c);
  }

  lemma RegsWritten<S>(d: Device<S>, cs: seq<Command>, offset: nat, v: u32)
    requires RegsHold(d.regs, cs) && offset != R_QUEUE_NOTIFY
    ensures RegsHold(WriteReg(d, offset, v).regs, cs + [WriteRegister(offset, v)])
  {
    hide WriteQueueReg;
    HistoryGrows(cs, WriteRegister(offset, v));
  }

  lemma LatestGrows(cs: seq<Command>, c: Command, offset: nat, selector: nat, k: nat)
    ensures Latest(cs + [c], offset, selector, k) ==
            if Resets(c) then 0
            else if c.WriteRegister? && c.offset == offset && Held(cs, selector) == k then c.v
            else Latest(cs, offset, selector, k)
  {
    HistoryGrows(cs, c);
  }

  /** A write sets one half of an address. */
  lemma HalfWritten(low: u32, high: u32, half: u32)
    ensures low + TWO32 * high < TWO64
    ensures SetAddr(low + TWO32 * high, half, false) == half + TWO32 * high
    ensures SetAddr(low + TWO32 * high, half, true) == low + TWO32 * half
  {
  }

  /** How an address grows by one command. */
  lemma AddressGrows(cs: seq<Command>, c: Command, low: nat, k: nat)
    ensures Address(cs, low, k) < TWO64
    ensures Address(cs + [c], low, k) ==
            if Resets(c) then 0
            else if !c.WriteRegister? || Held(cs, 0x030) != k then Address(cs, low, k)
            else if c.offset == low then SetAddr(Address(cs, low, k), c.v, false)
            else if c.offset == low + 4 then SetAddr(Address(cs, low, k), c.v, true)
            else Address(cs, low, k)
  {
    hide Latest, Held, SetAddr;
    LatestGrows(cs, c, low, 0x030, k);
    LatestGrows(cs, c, low + 4, 0x030, k);
    HalfWritten(Latest(cs, low, 0x030, k), Latest(cs, low + 4, 0x030, k), if c.WriteRegister? then c.v else 0);
  }

  lemma QueueWritten<S>(d: Device<S>, cs: seq<Command>, offset: nat, v: u32, k: nat)
    requires k < 2 && d.regs.queueSel == Held(cs, 0x030) && QueueHolds(d.queues[k], cs, k) && offset != R_QUEUE_NOTIFY
    ensures QueueHolds(WriteReg(d, offset, v).queues[k], cs + [WriteRegister(offset, v)], k)
  {
    hide NextStatus, Latest, Held, SetAddr, Address;
    var c := WriteRegister(offset, v);
    LatestGrows(cs, c, 0x038, 0x030, k);
    LatestGrows(cs, c, 0x044, 0x030, k);
    AddressGrows(cs, c, 0x080, k);
    AddressGrows(cs, c, 0x090, k);
    AddressGrows(cs, c, 0x0A0, k);
  }

  // ---- Sessions -----------------------------------------------------------------------------

  /** After any session every register is what the list of commands says. */
  lemma {:induction false} RegistersAre<S>(ram: seq<byte>, peer: Peer<S>, cs: seq<Command>)
    requires AllEnd(NewDevice(ram, peer), cs)
    ensures var d := Session(NewDevice(ram, peer), cs);
            RegsHold(d.regs, cs) && QueueHolds(d.queues[0], cs, 0) && QueueHolds(d.queues[1], cs, 1)
    decreases |cs|
  {
    hide Do, Ends, RegsHold, QueueHolds;
    if cs == [] {
      NothingHeld(cs);
    } else {
      var before, c := cs[..|cs| - 1], cs[|cs| - 1];
      assert before + [c] == cs;
      RegistersAre(ram, peer, before);
      HoldAfter(Session(NewDevice(ram, peer), before), before, c);
    }
  }

  lemma HoldAfter<S>(d: Device<S>, cs: seq<Command>, c: Command)
    requires Ends(d, c)
    requires RegsHold(d.regs, cs) && QueueHolds(d.queues[0], cs, 0) && QueueHolds(d.queues[1], cs, 1)
    ensures RegsHold(Do(d, c).regs, cs + [c])
    ensures QueueHolds(Do(d, c).queues[0], cs + [c], 0) && QueueHolds(Do(d, c).queues[1], cs + [c], 1)
  {
    hide WriteReg, Notify, KickEnds, QueueHolds, Latest, Held, StatusAfter, Write;
    if c.WriteRegister? && c.offset != R_QUEUE_NOTIFY {
      RegsWritten(d, cs, c.offset, c.v);
      QueueWritten(d, cs, c.offset, c.v, 0);
      QueueWritten(d, cs, c.offset, c.v, 1);
    } else {
      QuietKeeps(d, cs, c);
    }
  }

  lemma QuietKeeps<S>(d: Device<S>, cs: seq<Command>, c: Command)
    requires Ends(d, c) && (c.WriteRegister? ==> c.offset == R_QUEUE_NOTIFY)
    requires RegsHold(d.regs, cs) && QueueHolds(d.queues[0], cs, 0) && QueueHolds(d.queues[1], cs, 1)
    ensures RegsHold(Do(d, c).regs, cs + [c])
    ensures QueueHolds(Do(d, c).queues[0], cs + [c], 0) && QueueHolds(Do(d, c).queues[1], cs + [c], 1)
  {
    hide WriteReg, Notify, KickEnds, RegsHold, QueueHolds, Write;
    OthersWriteNothing(cs, c, 0);
    OthersWriteNothing(cs, c, 1);
    if c.WriteRegister? {
      KickKeepsSetUp(d, c.v);
      RingsHold(d.queues[0], Do(d, c).queues[0], cs, 0);
      RingsHold(d.queues[1], Do(d, c).queues[1], cs, 1);
    }
  }

  lemma RingsHold(q: Queue, q': Queue, cs: seq<Command>, k: nat)
    requires QueueHolds(q, cs, k) && SameRings(q, q')
    ensures QueueHolds(q', cs, k)
  {
    hide Latest;
  }

  lemma NothingHeld(cs: seq<Command>)
    requires cs == []
    ensures RegsHold(RESET_REGS, cs) && QueueHolds(UNUSED_QUEUE, cs, 0) && QueueHolds(UNUSED_QUEUE, cs, 1)
  {
  }

  /** What the driver reads after any session: who the device is, VERSION_1 and nothing else as feature dword 1, room
      for 4 entries in each of the two queues, and the ready bit and the status as last written. */
  lemma ReadsAre<S>(ram: seq<byte>, peer: Peer<S>, cs: seq<Command>)
    requires AllEnd(NewDevice(ram, peer), cs)
    ensures var d := Session(NewDevice(ram, peer), cs);
            && ReadReg(d, 0x000) == 0x7472_6976 && ReadReg(d, 0x004) == 2 && ReadReg(d, 0x008) == 3
            && ReadReg(d, 0x010) == (if Held(cs, 0x014) == 1 then 1 else 0)
            && ReadReg(d, 0x034) == (if Held(cs, 0x030) < 2 then 4 else 0)
            && ReadReg(d, 0x044) == (if Held(cs, 0x030) < 2 then Latest(cs, 0x044, 0x030, Held(cs, 0x030)) % 2 else 0)
            && ReadReg(d, 0x070) == StatusAfter(cs)
  {
    hide AllEnd, Session, Held, Latest, StatusAfter, Address;
    RegistersAre(ram, peer, cs);
  }

  /** After any session a nonzero status write is kept as it is exactly if it leaves FEATURES_OK (bit 3) unset or
      the last acknowledged feature dwords are 0 and 1; else it is kept without that bit. */
  lemma FeaturesOkSticksIff<S>(ram: seq<byte>, peer: Peer<S>, cs: seq<Command>, v: u32)
    requires AllEnd(NewDevice(ram, peer), cs) && v != 0
    ensures AllEnd(NewDevice(ram, peer), cs + [WriteRegister(0x070, v)])
    ensures var status := Session(NewDevice(ram, peer), cs + [WriteRegister(0x070, v)]).regs.status;
            && (status == v <==> v / 8 % 2 == 0 ||
                                 (Latest(cs, 0x020, 0x024, 0) == 0 && Latest(cs, 0x020, 0x024, 1) == 1))
            && (status != v ==> status == v - 8)
  {
    hide WriteReg, Notify, KickEnds, Session, AllEnd, QueueHolds;
    var c := WriteRegister(0x070, v);
    SessionGrows(NewDevice(ram, peer), cs, c);
    RegistersAre(ram, peer, cs + [c]);
    HistoryGrows(cs, c);
  }

  /** A status write of 0 clears all registers and both queues, counters included, and nothing else. */
  lemma ResetClears<S>(d: Device<S>)
    ensures WriteReg(d, 0x070, 0) == d.(regs := Regs(0, 0, 0, 0, 0, 0),
                                        queues := [Queue(0, false, 0, 0, 0, 0, 0), Queue(0, false, 0, 0, 0, 0, 0)])
  {
  }

  /** Any other register write leaves the counters of both queues and guest memory alone. */
  lemma WritesSpareCounters<S>(d: Device<S>, offset: nat, v: u32)
    requires offset != 0x070 || v != 0
    ensures var d' := WriteReg(d, offset, v);
            && d'.ram == d.ram
            && forall k :: 0 <= k < 2 ==>
                 d'.queues[k].nextAvail == d.queues[k].nextAvail && d'.queues[k].usedCount == d.queues[k].usedCount
  {
    hide NextStatus, SetAddr;
  }
}
