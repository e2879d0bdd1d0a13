/** The virtio-mmio console device and its in-process peer as a state machine
    (tb-vmm/src/virtio_mmio.rs, tb-vmm/src/infer_host.rs), and what every run of it keeps.

    The peer's protocol is not modelled: a peer is any machine that, fed one guest byte, may
    queue any bytes towards the guest. */
module VirtioDevice {
  import opened Words
  import opened GuestMemory
  import opened VirtQueue

  datatype Peer<!S> = Peer(state: S, step: (S, byte) -> (S, seq<byte>)) {
    /** Feeds the bytes one at a time; returns the peer afterwards and all it queued. */
    function Push(bytes: seq<byte>): (Peer<S>, seq<byte>)
      decreases |bytes|
    {
      if bytes == [] then (this, [])
      else
        var (s1, reply) := step(state, bytes[0]);
        var (p, rest) := Peer(s1, step).Push(bytes[1..]);
        (p, reply + rest)
    }
  }

  datatype Regs = Regs(status: u32, deviceFeaturesSel: u32, driverFeaturesSel: u32,
                       featuresLow: u32, featuresHigh: u32, queueSel: u32)

  const RXQ := 0
  const TXQ := 1

  type Queues = s: seq<Queue> | |s| == 2 witness [UNUSED_QUEUE, UNUSED_QUEUE]

  const RESET_REGS := Regs(0, 0, 0, 0, 0, 0)
  const RESET_QUEUES: Queues := [UNUSED_QUEUE, UNUSED_QUEUE]

  /** One receive walk: the chain's head, the bytes it took from the peer, and whether the
      guest was told of them through the used ring. */
  datatype Walk = Walk(head: u16, bytes: seq<byte>, completed: bool)

  /** A used-ring entry: the head of the chain served, and the bytes written to it. */
  datatype Used = Used(id: nat, len: nat)

  /** What has happened so far: bytes the guest transmitted, bytes the peer produced, receive
      walks, and transmit chains served. */
  datatype Log = Log(sent: seq<byte>, produced: seq<byte>, walks: seq<Walk>, served: seq<Used>)

  datatype Device<!S> = Device(ram: seq<byte>, peer: Peer<S>, outbuf: seq<byte>,
                               regs: Regs, queues: Queues, log: Log)

  function NewDevice<S>(ram: seq<byte>, peer: Peer<S>): Device<S> {
    Device(ram, peer, [], RESET_REGS, RESET_QUEUES, Log([], [], [], []))
  }

  // ---- Registers ------------------------------------------------------------------

  const R_MAGIC := 0x000
  const R_VERSION := 0x004
  const R_DEVICE_ID := 0x008
  const R_VENDOR_ID := 0x00C
  const R_DEVICE_FEATURES := 0x010
  const R_DEVICE_FEATURES_SEL := 0x014
  const R_DRIVER_FEATURES := 0x020
  const R_DRIVER_FEATURES_SEL := 0x024
  const R_QUEUE_SEL := 0x030
  const R_QUEUE_NUM_MAX := 0x034
  const R_QUEUE_NUM := 0x038
  const R_QUEUE_READY := 0x044
  const R_QUEUE_NOTIFY := 0x050
  const R_STATUS := 0x070
  const R_QUEUE_DESC_LOW := 0x080
  const R_QUEUE_DESC_HIGH := 0x084
  const R_QUEUE_DRIVER_LOW := 0x090
  const R_QUEUE_DRIVER_HIGH := 0x094
  const R_QUEUE_DEVICE_LOW := 0x0A0
  const R_QUEUE_DEVICE_HIGH := 0x0A4

  const VIRTIO_MAGIC: u32 := 0x7472_6976
  const VERSION_MODERN: u32 := 2
  const DEV_CONSOLE: u32 := 3
  const VENDOR_ID: u32 := 0x4D4D_5659

  const QUEUE_NUM_MAX := 4
  const S_DRIVER_OK := 4
  const S_FEATURES_OK := 8
  const VERSION_1_HIGH := 1

  predicate HasBit(status: u32, bit: u32)
    requires bit > 0
  {
    status / bit % 2 == 1
  }

  /** Composes a latched Low/High address pair. */
  function SetAddr(addr: u64, half: u32, high: bool): u64 {
    if high then addr % TWO32 + half * TWO32 else addr / TWO32 * TWO32 + half
  }

  /** A write to one of the selected queue's registers. */
  function WriteQueueReg(q: Queue, offset: nat, v: u32): Queue {
    if offset == R_QUEUE_NUM then q.(num := if v == 1 || v == 2 || v == QUEUE_NUM_MAX then v else 0)
    else if offset == R_QUEUE_READY then q.(ready := v % 2 == 1)
    else if offset == R_QUEUE_DESC_LOW then q.(desc := SetAddr(q.desc, v, false))
    else if offset == R_QUEUE_DESC_HIGH then q.(desc := SetAddr(q.desc, v, true))
    else if offset == R_QUEUE_DRIVER_LOW then q.(driver := SetAddr(q.driver, v, false))
    else if offset == R_QUEUE_DRIVER_HIGH then q.(driver := SetAddr(q.driver, v, true))
    else if offset == R_QUEUE_DEVICE_LOW then q.(device := SetAddr(q.device, v, false))
    else if offset == R_QUEUE_DEVICE_HIGH then q.(device := SetAddr(q.device, v, true))
    else q
  }

  /** A status write; FEATURES_OK sticks only if exactly VERSION_1 was acknowledged. */
  function NextStatus(r: Regs, v: u32): u32 {
    if HasBit(v, S_FEATURES_OK) && !(r.featuresLow == 0 && r.featuresHigh == VERSION_1_HIGH)
    then v - S_FEATURES_OK else v
  }

  /** Any register write but a notify. A status write of 0 resets the transport and leaves
      the peer, its queued bytes and guest memory alone. */
  function WriteReg<S>(d: Device<S>, offset: nat, v: u32): Device<S> {
    var r := d.regs;
    if offset == R_DEVICE_FEATURES_SEL then d.(regs := r.(deviceFeaturesSel := v))
    else if offset == R_DRIVER_FEATURES then
      if r.driverFeaturesSel == 0 then d.(regs := r.(featuresLow := v))
      else if r.driverFeaturesSel == 1 then d.(regs := r.(featuresHigh := v))
      else d
    else if offset == R_DRIVER_FEATURES_SEL then d.(regs := r.(driverFeaturesSel := v))
    else if offset == R_QUEUE_SEL then d.(regs := r.(queueSel := v))
    else if offset == R_STATUS then
      if v == 0 then d.(regs := RESET_REGS, queues := RESET_QUEUES)
      else d.(regs := r.(status := NextStatus(r, v)))
    else if r.queueSel < 2 then
      d.(queues := d.queues[r.queueSel := WriteQueueReg(d.queues[r.queueSel], offset, v)])
    else d
  }

  /** A register read. */
  function ReadReg<S>(d: Device<S>, offset: nat): u32 {
    var r := d.regs;
    if offset == R_MAGIC then VIRTIO_MAGIC
    else if offset == R_VERSION then VERSION_MODERN
    else if offset == R_DEVICE_ID then DEV_CONSOLE
    else if offset == R_VENDOR_ID then VENDOR_ID
    else if offset == R_DEVICE_FEATURES then if r.deviceFeaturesSel == 1 then VERSION_1_HIGH else 0
    else if offset == R_QUEUE_NUM_MAX then if r.queueSel < 2 then QUEUE_NUM_MAX else 0
    else if offset == R_QUEUE_READY then if r.queueSel < 2 && d.queues[r.queueSel].ready then 1 else 0
    else if offset == R_STATUS then r.status
    else 0
  }

  // ---- One iteration of each kick loop ------------------------------------------------

  /** The device after one pass of a loop, and whether the loop goes round again. */
  datatype Pass<!S> = Pass(dev: Device<S>, again: bool)

  function TxPass<S>(d: Device<S>): Pass<S> {
    var q := d.queues[TXQ];
    var head := NextHead(d.ram, q);
    if head.None? then Pass(d, false) else
    var bytes := Gather(d.ram, q.desc, head.value, q.num);
    if bytes.None? then Pass(d, false) else
    var (peer, reply) := d.peer.Push(bytes.value);
    var p := PublishUsed(d.ram, q.(nextAvail := Next16(q.nextAvail)), head.value, 0);
    Pass(Device(p.ram, peer, d.outbuf + reply, d.regs, d.queues[TXQ := p.q],
                Log(d.log.sent + bytes.value, d.log.produced + reply, d.log.walks, d.log.served + [Used(head.value, 0)])), true)
  }

  function RxPass<S>(d: Device<S>): Pass<S> {
    if d.outbuf == [] then Pass(d, false) else
    var q := d.queues[RXQ];
    var head := NextHead(d.ram, q);
    if head.None? then Pass(d, false) else
    var w := Scatter(d.ram, q.desc, d.outbuf, head.value, q.num);
    var taken := d.outbuf[..|d.outbuf| - |w.outbuf|];
    if w.written.None? then
      Pass(Device(w.ram, d.peer, w.outbuf, d.regs, d.queues,
                  d.log.(walks := d.log.walks + [Walk(head.value, taken, false)])), false)
    else
      var p := PublishUsed(w.ram, q.(nextAvail := Next16(q.nextAvail)), head.value, w.written.value % TWO32);
      Pass(Device(p.ram, d.peer, w.outbuf, d.regs, d.queues[RXQ := p.q],
                  d.log.(walks := d.log.walks + [Walk(head.value, taken, p.visible)])), true)
  }

  // ---- Runs and the peer's byte stream ---------------------------------------------------

  /** What can happen next: the guest writes its memory or a register other than QueueNotify, or
      the device makes one pass of a kick loop. A run is any sequence of these, so also one whose
      kicks never end. */
  datatype Event =
    | GuestWrites(addr: nat, bytes: seq<byte>)
    | RegWrite(offset: nat, v: u32)
    | TransmitPass
    | ReceivePass

  function Next<S>(d: Device<S>, e: Event): Device<S> {
    match e
    case GuestWrites(addr, bytes) => d.(ram := Write(d.ram, addr, bytes).0)
    case RegWrite(offset, v) => WriteReg(d, offset, v)
    case TransmitPass => TxPass(d).dev
    case ReceivePass => RxPass(d).dev
  }

  function Run<S>(d: Device<S>, events: seq<Event>): Device<S>
    decreases |events|
  {
    if events == [] then d else Run(Next(d, events[0]), events[1..])
  }

  /** Bytes taken from the peer by the walks, in order: all, delivered, or lost. */
  ghost function Taken(walks: seq<Walk>): seq<byte> {
    if walks == [] then [] else Taken(walks[..|walks| - 1]) + walks[|walks| - 1].bytes
  }

  ghost function Delivered(walks: seq<Walk>): seq<byte> {
    if walks == [] then []
    else Delivered(walks[..|walks| - 1]) + if walks[|walks| - 1].completed then walks[|walks| - 1].bytes else []
  }

  ghost predicate NothingLost(walks: seq<Walk>) {
    forall i :: 0 <= i < |walks| && !walks[i].completed ==> walks[i].bytes == []
  }

  /** The peer, started as `peer`, has seen exactly the transmitted bytes; and every byte it
      produced was taken by some walk or still waits, in order. */
  ghost predicate Conserved<S>(peer: Peer<S>, d: Device<S>) {
    && (d.peer, d.log.produced) == peer.Push(d.log.sent)
    && d.log.produced == Taken(d.log.walks) + d.outbuf
  }

  /** The peer does not see where one transmit chain ends and the next begins. */
  lemma {:induction false} PushInParts<S>(peer: Peer<S>, a: seq<byte>, b: seq<byte>)
    ensures var (p1, r1) := peer.Push(a);
            var (p2, r2) := p1.Push(b);
            peer.Push(a + b) == (p2, r1 + r2)
    decreases |a|
  {
    if a == [] {
      assert a + b == b;
      assert [] + peer.Push(b).1 == peer.Push(b).1;
    } else {
      var (s1, reply) := peer.step(peer.state, a[0]);
      assert (a + b)[1..] == a[1..] + b;
      var p := Peer(s1, peer.step);
      PushInParts(p, a[1..], b);
      var r1, r2 := p.Push(a[1..]).1, p.Push(a[1..]).0.Push(b).1;
      assert reply + (r1 + r2) == (reply + r1) + r2;
    }
  }

  lemma TakenGrows(walks: seq<Walk>, w: Walk)
    ensures Taken(walks + [w]) == Taken(walks) + w.bytes
    ensures Delivered(walks + [w]) == Delivered(walks) + if w.completed then w.bytes else []
  {
    assert (walks + [w])[..|walks + [w]| - 1] == walks;
  }

  lemma TxPassConserves<S>(peer: Peer<S>, d: Device<S>)
    requires Conserved(peer, d)
    ensures Conserved(peer, TxPass(d).dev)
  {
    hide NextHead, Gather, PublishUsed, Taken;
    var q := d.queues[TXQ];
    var head := NextHead(d.ram, q);
    if head.Some? && Gather(d.ram, q.desc, head.value, q.num).Some? {
      PushInParts(peer, d.log.sent, Gather(d.ram, q.desc, head.value, q.num).value);
    }
  }

  lemma RxPassConserves<S>(peer: Peer<S>, d: Device<S>)
    requires Conserved(peer, d)
    ensures Conserved(peer, RxPass(d).dev)
  {
    hide NextHead, Scatter, PublishUsed, Taken;
    var walks, walks' := d.log.walks, RxPass(d).dev.log.walks;
    if walks' != walks {
      var w := walks'[|walks|];
      TakenGrows(walks, w);
      var q := d.queues[RXQ];
      ScatterTakesFromFront(d.ram, q.desc, d.outbuf, NextHead(d.ram, q).value, q.num);
      assert d.outbuf == w.bytes + RxPass(d).dev.outbuf;
    }
  }

  /** A guest memory or register write, a reset included, does not touch the byte stream. */
  lemma GuestLeavesStream<S>(d: Device<S>, e: Event)
    requires e.GuestWrites? || e.RegWrite?
    ensures Next(d, e).outbuf == d.outbuf && Next(d, e).log == d.log && Next(d, e).peer == d.peer
  {
  }

  lemma GuestConserves<S>(peer: Peer<S>, d: Device<S>, e: Event)
    requires Conserved(peer, d) && (e.GuestWrites? || e.RegWrite?)
    ensures Conserved(peer, Next(d, e))
  {
    hide WriteReg;
    GuestLeavesStream(d, e);
  }

  lemma NextConserves<S>(peer: Peer<S>, d: Device<S>, e: Event)
    requires Conserved(peer, d)
    ensures Conserved(peer, Next(d, e))
  {
    hide WriteReg, TxPass, RxPass, Conserved;
    match e
    case TransmitPass => TxPassConserves(peer, d);
    case ReceivePass => RxPassConserves(peer, d);
    case _ => GuestConserves(peer, d, e);
  }

  lemma {:induction false} RunConserves<S>(peer: Peer<S>, d: Device<S>, events: seq<Event>)
    requires Conserved(peer, d)
    ensures Conserved(peer, Run(d, events))
    decreases |events|
  {
    if events != [] {
      NextConserves(peer, d, events[0]);
      RunConserves(peer, Next(d, events[0]), events[1..]);
    }
  }

  lemma {:induction false} DeliveredOrLost(walks: seq<Walk>)
    ensures |Delivered(walks)| <= |Taken(walks)|
    ensures |Delivered(walks)| == |Taken(walks)| <==> NothingLost(walks)
    ensures NothingLost(walks) ==> Delivered(walks) == Taken(walks)
  {
    if walks != [] {
      var n := |walks| - 1;
      DeliveredOrLost(walks[..n]);
      assert NothingLost(walks) <==> NothingLost(walks[..n]) && (!walks[n].completed ==> walks[n].bytes == []);
    }
  }

  /** Over every run: the bytes delivered to receive buffers in completion order, followed by
      those still queued, are exactly what the peer answers to the bytes the guest transmitted,
      if and only if no receive walk that took bytes was abandoned. Where chains begin and
      end, how large the posted windows are, and resets do not matter. */
  lemma StreamConserved<S>(ram: seq<byte>, peer: Peer<S>, events: seq<Event>)
    ensures var d := Run(NewDevice(ram, peer), events);
            && d.log.produced == peer.Push(d.log.sent).1
            && (Delivered(d.log.walks) + d.outbuf == d.log.produced <==> NothingLost(d.log.walks))
  {
    RunConserves(peer, NewDevice(ram, peer), events);
    var d := Run(NewDevice(ram, peer), events);
    DeliveredOrLost(d.log.walks);
    if Delivered(d.log.walks) + d.outbuf == d.log.produced {
      assert |Delivered(d.log.walks)| == |Taken(d.log.walks)|;
    }
  }
}
