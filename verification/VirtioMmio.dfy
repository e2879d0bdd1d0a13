/** The device as it runs: registers, queues and guest memory updated in place, with the walks
    as loops (tb-vmm/src/virtio_mmio.rs, tb-vmm/src/infer_host.rs). Every method is tied to the
    state machine of `VirtioDevice`. */
module VirtioMmio {
  import opened Words
  import opened GuestMemory
  import opened VirtQueue
  import opened VirtioDevice
  import opened VirtioLoops
  import opened VirtioStream

  /** The in-process peer and the bytes it has queued towards the guest. */
  class InferHost<S> {
    var peer: Peer<S>
    var outbuf: seq<byte>

    constructor (peer: Peer<S>)
      ensures this.peer == peer && outbuf == []
    {
      this.peer := peer;
      outbuf := [];
    }

    method OutLen() returns (n: nat)
      ensures n == |outbuf|
    {
      n := |outbuf|;
    }

    /** Pops up to `max` bytes from the front. */
    method TakeOutput(max: nat) returns (b: seq<byte>)
      modifies this`outbuf
      ensures b == old(outbuf)[..if max < |old(outbuf)| then max else |old(outbuf)|]
      ensures b + outbuf == old(outbuf)
    {
      var n := if max < |outbuf| then max else |outbuf|;
      b := outbuf[..n];
      outbuf := outbuf[n..];
    }

    /** Feeds the peer byte by byte and queues its replies behind what is already queued. */
    method PushGuestBytes(bytes: seq<byte>)
      modifies this
      ensures peer == old(peer).Push(bytes).0
      ensures outbuf == old(outbuf) + old(peer).Push(bytes).1
    {
      var i := 0;
      while i < |bytes|
        invariant 0 <= i <= |bytes|
        invariant old(peer).Push(bytes).0 == peer.Push(bytes[i..]).0
        invariant old(outbuf) + old(peer).Push(bytes).1 == outbuf + peer.Push(bytes[i..]).1
      {
        var (state, reply) := peer.step(peer.state, bytes[i]);
        assert bytes[i..][1..] == bytes[i + 1..];
        peer := Peer(state, peer.step);
        outbuf := outbuf + reply;
        i := i + 1;
      }
    }
  }

  class VirtioMmio<S> {
    var ram: seq<byte>
    const host: InferHost<S>
    var status: u32
    var deviceFeaturesSel: u32
    var driverFeaturesSel: u32
    var featuresLow: u32
    var featuresHigh: u32
    var queueSel: u32
    var queues: Queues
    ghost var log: Log
    /** The device when it was made, and what the guest did to it since. */
    ghost const start: Device<S>
    ghost var past: seq<Command>

    ghost function State(): Device<S>
      reads this, host
    {
      Device(ram, host.peer, host.outbuf,
             Regs(status, deviceFeaturesSel, driverFeaturesSel, featuresLow, featuresHigh, queueSel), queues, log)
    }

    /** The device is what the session so far makes of it. */
    ghost predicate Traced()
      reads this, host
    {
      AllEnd(start, past) && State() == Session(start, past)
    }

    constructor (ram: seq<byte>, host: InferHost<S>)
      requires host.outbuf == []
      ensures this.host == host && State() == NewDevice(ram, host.peer)
      ensures start == NewDevice(ram, host.peer) && past == [] && Traced()
    {
      start, past := NewDevice(ram, host.peer), [];
      this.ram, this.host := ram, host;
      status, deviceFeaturesSel, driverFeaturesSel, featuresLow, featuresHigh, queueSel := 0, 0, 0, 0, 0, 0;
      queues := RESET_QUEUES;
      log := Log([], [], [], []);
    }

    /** A store of the guest to its own memory, which the device shares. */
    method GuestStore(addr: nat, bytes: seq<byte>)
      modifies this`ram, this`past
      ensures State() == Do(old(State()), Store(addr, bytes))
      ensures past == old(past) + [Store(addr, bytes)]
      ensures old(Traced()) ==> Traced()
    {
      hide AllEnd, Session;
      SessionGrows(start, past, Store(addr, bytes));
      past := past + [Store(addr, bytes)];
      ram := Write(ram, addr, bytes).0;
    }

    method Reset()
      modifies this`status, this`deviceFeaturesSel, this`driverFeaturesSel, this`featuresLow, this`featuresHigh,
        this`queueSel, this`queues
      ensures State() == old(State()).(regs := RESET_REGS, queues := RESET_QUEUES)
    {
      status, deviceFeaturesSel, driverFeaturesSel, featuresLow, featuresHigh, queueSel := 0, 0, 0, 0, 0, 0;
      queues := RESET_QUEUES;
    }

    method GatherReadable(q: Queue, head: u16) returns (r: Option<seq<byte>>)
      ensures r == Gather(ram, q.desc, head, q.num)
    {
      hide Gather, Prepend, ReadDesc, Read;
      var out: seq<byte> := [];
      var idx, hops := head, 0;
      PrependTwice([], [], Gather(ram, q.desc, head, q.num));
      while true
        invariant 0 <= hops <= q.num
        invariant Gather(ram, q.desc, head, q.num) == Prepend(out, Gather(ram, q.desc, idx, q.num - hops))
        decreases q.num - hops
      {
        GatherUnfolds(ram, q.desc, idx, q.num - hops, out);
        hops := hops + 1;
        if hops > q.num {
          return None;
        }
        var d := ReadDesc(ram, q.desc, idx);
        if d.None? {
          return None;
        }
        if !d.value.Writable() {
          var buf := Read(ram, d.value.addr, d.value.len);
          if buf.None? {
            return None;
          }
          out := out + buf.value;
        }
        if !d.value.HasNext() {
          return Some(out);
        }
        idx := d.value.next;
      }
    }

    method ScatterWritable(q: Queue, head: u16) returns (r: Option<nat>)
      modifies this`ram, host`outbuf
      ensures Walked(ram, host.outbuf, r) == Scatter(old(ram), q.desc, old(host.outbuf), head, q.num)
    {
      hide Scatter, ScatterOne, ReadDesc, Write, Desc.Writable, Desc.HasNext;
      var written: nat := 0;
      var idx, hops := head, 0;
      ghost var all := Scatter(ram, q.desc, host.outbuf, head, q.num);
      while true
        invariant 0 <= hops <= q.num
        invariant written == |old(host.outbuf)| - |host.outbuf|
        invariant var w := Scatter(ram, q.desc, host.outbuf, idx, q.num - hops);
                  w.ram == all.ram && w.outbuf == all.outbuf && w.written.Some? == all.written.Some?
        decreases q.num - hops
      {
        ScatterUnfolds(ram, q.desc, host.outbuf, idx, q.num - hops);
        ScatterOneByCases(ram, q.desc, host.outbuf, idx);
        hops := hops + 1;
        if hops > q.num {
          return None;
        }
        var d := ReadDesc(ram, q.desc, idx);
        if d.None? {
          return None;
        }
        if d.value.Writable() && host.outbuf != [] {
          var chunk := host.TakeOutput(d.value.len);
          var (ram', ok) := Write(ram, d.value.addr, chunk);
          ram := ram';
          if !ok {
            return None;
          }
          written := written + |chunk|;
        }
        if !d.value.HasNext() || host.outbuf == [] {
          return Some(written);
        }
        idx := d.value.next;
      }
    }

    method PublishUsed(qi: nat, id: u32, len: u32) returns (ghost visible: bool)
      requires qi < 2 && queues[qi].num != 0
      modifies this`ram, this`queues
      ensures VirtQueue.PublishUsed(old(ram), old(queues)[qi], id, len) == Published(ram, queues[qi], visible)
      ensures queues == old(queues)[qi := queues[qi]]
    {
      var q := queues[qi];
      var entry: nat := UsedSlotAt(q, RingSlot(q.usedCount, q.num));
      var (ram1, ok1) := Write(ram, entry, Le(id, 4));
      ram := ram1;
      if !ok1 {
        return false;
      }
      var (ram2, ok2) := Write(ram, Wrap64(entry + 4), Le(len, 4));
      ram := ram2;
      if !ok2 {
        return false;
      }
      var n := Next16(q.usedCount);
      queues := queues[qi := q.(usedCount := n)];
      var (ram3, ok3) := Write(ram, UsedIdxAt(q), Le(n, 2));
      ram := ram3;
      visible := ok3;
    }

    /** Serves every new transmit chain: feeds its bytes to the peer, then publishes it. */
    method ProcessTx()
      requires TxEnds(State())
      modifies this`ram, this`queues, this`log, host
      ensures State() == TxLoop(old(State()))
    {
      hide TxEnds, TxLoop, Gather, VirtQueue.PublishUsed, NextHead;
      while true
        invariant TxEnds(State())
        invariant TxLoop(State()) == TxLoop(old(State()))
        decreases TxCount(State())
      {
        ghost var d := State();
        TxLoopUnfolds(d);
        var head := PassHead(TXQ);
        if head.None? {
          return;
        }
        var bytes := GatherReadable(queues[TXQ], head.value);
        if bytes.None? {
          return;
        }
        host.PushGuestBytes(bytes.value);
        ghost var reply := d.peer.Push(bytes.value).1;
        var q := queues[TXQ];
        queues := queues[TXQ := q.(nextAvail := Next16(q.nextAvail))];
        var _ := PublishUsed(TXQ, head.value, 0);
        log := Log(log.sent + bytes.value, log.produced + reply, log.walks, log.served + [Used(head.value, 0)]);
        assert State() == TxPass(d).dev;
      }
    }

    /** The index and ring reads at the head of both kick loops. */
    method PassHead(qi: nat) returns (head: Option<u16>)
      requires qi < 2
      ensures head == NextHead(ram, queues[qi])
      ensures head.Some? ==> queues[qi].num != 0
    {
      var q := queues[qi];
      if !q.ready || q.num == 0 {
        return None;
      }
      var avail := ReadWord(ram, AvailIdxAt(q), 2);
      if avail.None? {
        return None;
      }
      if q.nextAvail == avail.value {
        return None;
      }
      WordBounds();
      head := ReadWord(ram, AvailSlotAt(q, RingSlot(q.nextAvail, q.num)), 2);
    }

    /** Moves queued peer bytes into posted receive buffers, one used entry per chain. */
    method DrainRx()
      requires RxEnds(State())
      modifies this`ram, this`queues, this`log, host`outbuf
      ensures State() == RxLoop(old(State()))
    {
      hide RxEnds, RxLoop, RxPass, Scatter, VirtQueue.PublishUsed, NextHead, Next16;
      while true
        invariant RxEnds(State())
        invariant RxLoop(State()) == RxLoop(old(State()))
        decreases RxCount(State())
      {
        ghost var d := State();
        RxLoopUnfolds(d);
        RxPassByCases(d);
        var n := host.OutLen();
        if n == 0 {
          return;
        }
        var head := PassHead(RXQ);
        if head.None? {
          return;
        }
        var written := ScatterWritable(queues[RXQ], head.value);
        assert Walked(ram, host.outbuf, written)
            == Scatter(d.ram, d.queues[RXQ].desc, d.outbuf, head.value, d.queues[RXQ].num);
        ghost var taken := d.outbuf[..|d.outbuf| - |host.outbuf|];
        if written.None? {
          log := log.(walks := log.walks + [Walk(head.value, taken, false)]);
          assert State() == RxPass(d).dev;
          return;
        }
        var q := queues[RXQ];
        queues := queues[RXQ := q.(nextAvail := Next16(q.nextAvail))];
        ghost var visible := PublishUsed(RXQ, head.value, written.value % TWO32);
        log := log.(walks := log.walks + [Walk(head.value, taken, visible)]);
        assert State() == RxPass(d).dev;
      }
    }

    method Notify(q: u32)
      requires KickEnds(State(), q)
      modifies this`ram, this`queues, this`log, host
      ensures State() == VirtioLoops.Notify(old(State()), q)
    {
      hide TxEnds, RxEnds, TxLoop, RxLoop, HasBit;
      if !HasBit(status, S_DRIVER_OK) {
        return;
      }
      if q == TXQ {
        ProcessTx();
      }
      if q < 2 {
        DrainRx();
      }
    }

    method WriteQueueReg(offset: nat, v: u32)
      modifies this`queues
      ensures queues == if queueSel < 2
                        then old(queues)[queueSel := VirtioDevice.WriteQueueReg(old(queues)[queueSel], offset, v)]
                        else old(queues)
    {
      if queueSel >= 2 {
        return;
      }
      var q := queues[queueSel];
      if offset == R_QUEUE_NUM {
        var sane := v == 1 || v == 2 || v == QUEUE_NUM_MAX;
        q := q.(num := if sane then v else 0);
      } else if offset == R_QUEUE_READY {
        q := q.(ready := v % 2 == 1);
      } else if offset == R_QUEUE_DESC_LOW {
        q := q.(desc := SetAddr(q.desc, v, false));
      } else if offset == R_QUEUE_DESC_HIGH {
        q := q.(desc := SetAddr(q.desc, v, true));
      } else if offset == R_QUEUE_DRIVER_LOW {
        q := q.(driver := SetAddr(q.driver, v, false));
      } else if offset == R_QUEUE_DRIVER_HIGH {
        q := q.(driver := SetAddr(q.driver, v, true));
      } else if offset == R_QUEUE_DEVICE_LOW {
        q := q.(device := SetAddr(q.device, v, false));
      } else if offset == R_QUEUE_DEVICE_HIGH {
        q := q.(device := SetAddr(q.device, v, true));
      }
      queues := queues[queueSel := q];
    }

    method ReadReg(offset: nat) returns (v: u32)
      ensures v == VirtioDevice.ReadReg(State(), offset)
    {
      match offset
      case 0x000 => v := VIRTIO_MAGIC;
      case 0x004 => v := VERSION_MODERN;
      case 0x008 => v := DEV_CONSOLE;
      case 0x00C => v := VENDOR_ID;
      case 0x010 =>
        match deviceFeaturesSel {
          case 0 => v := 0;
          case 1 => v := VERSION_1_HIGH;
          case _ => v := 0;
        }
      case 0x034 => v := if queueSel < 2 then QUEUE_NUM_MAX else 0;
      case 0x044 => v := if queueSel < 2 && queues[queueSel].ready then 1 else 0;
      case 0x060 => v := 0;
      case 0x070 => v := status;
      case 0x0FC => v := 0;
      case _ => v := 0;
    }

    /** A register write. All it asks is that a kick come to an end. */
    method WriteReg(offset: nat, v: u32)
      requires Ends(State(), WriteRegister(offset, v))
      modifies this, host
      ensures State() == Do(old(State()), WriteRegister(offset, v))
      ensures past == old(past) + [WriteRegister(offset, v)]
      ensures old(Traced()) ==> Traced()
    {
      hide KickEnds, VirtioLoops.Notify, AllEnd, Session;
      if Traced() {
        SessionGrows(start, past, WriteRegister(offset, v));
      }
      past := past + [WriteRegister(offset, v)];
      match offset
      case 0x014 => deviceFeaturesSel := v;
      case 0x020 =>
        if driverFeaturesSel == 0 {
          featuresLow := v;
        } else if driverFeaturesSel == 1 {
          featuresHigh := v;
        }
      case 0x024 => driverFeaturesSel := v;
      case 0x030 => queueSel := v;
      case 0x050 => Notify(v);
      case 0x070 =>
        if v == 0 {
          Reset();
          return;
        }
        var s := v;
        if HasBit(v, S_FEATURES_OK) {
          var ok := featuresLow == 0 && featuresHigh == VERSION_1_HIGH;
          if !ok {
            s := s - S_FEATURES_OK;
          }
        }
        status := s;
      case _ => WriteQueueReg(offset, v);
    }
  }

  /** One turn of the gathering walk, after `out` was gathered. */
  lemma GatherUnfolds(ram: seq<byte>, table: u64, idx: u16, hops: nat, out: seq<byte>)
    ensures var one := GatherOne(ram, table, idx);
            Prepend(out, Gather(ram, table, idx, hops)) ==
            if hops == 0 || one.None? then None
            else if one.value.1.None? then Some(out + one.value.0)
            else Prepend(out + one.value.0, Gather(ram, table, one.value.1.value, hops - 1))
    ensures out + [] == out
  {
    hide GatherOne;
    var one := GatherOne(ram, table, idx);
    if hops > 0 && one.Some? && one.value.1.Some? {
      PrependTwice(out, one.value.0, Gather(ram, table, one.value.1.value, hops - 1));
    }
  }

  /** How one descriptor of a receive walk turns out. */
  lemma ScatterOneByCases(ram: seq<byte>, table: u64, outbuf: seq<byte>, idx: u16)
    ensures var desc := ReadDesc(ram, table, idx);
            var one := ScatterOne(ram, table, outbuf, idx);
            if desc.None? then one == (Walked(ram, outbuf, None), None)
            else
              var d := desc.value;
              if d.Writable() && outbuf != [] then
                var n := if d.len < |outbuf| then d.len else |outbuf|;
                var (ram1, ok) := Write(ram, d.addr, outbuf[..n]);
                if !ok then one == (Walked(ram1, outbuf[n..], None), None)
                else one == (Walked(ram1, outbuf[n..], Some(n)),
                             if d.HasNext() && outbuf[n..] != [] then Some(d.next) else None)
              else
                one == (Walked(ram, outbuf, Some(0)), if d.HasNext() && outbuf != [] then Some(d.next) else None)
  {
    hide Write, ReadDesc;
    assert outbuf[0..] == outbuf;
  }

  /** One turn of the receive walk. */
  lemma ScatterUnfolds(ram: seq<byte>, table: u64, outbuf: seq<byte>, idx: u16, hops: nat)
    ensures var (w, next) := ScatterOne(ram, table, outbuf, idx);
            var all := Scatter(ram, table, outbuf, idx, hops);
            if hops == 0 then all == Walked(ram, outbuf, None)
            else if next.None? then all == w
            else
              var rest := Scatter(w.ram, table, w.outbuf, next.value, hops - 1);
              all.ram == rest.ram && all.outbuf == rest.outbuf && all.written.Some? == rest.written.Some?
    ensures outbuf[0..] == outbuf
  {
    hide ScatterOne;
  }

  /** How a receive pass turns out. */
  lemma RxPassByCases<S>(d: Device<S>)
    ensures d.outbuf == [] || NextHead(d.ram, d.queues[RXQ]).None? ==> RxPass(d) == Pass(d, false)
    ensures d.outbuf != [] && NextHead(d.ram, d.queues[RXQ]).Some? ==>
              var q, head := d.queues[RXQ], NextHead(d.ram, d.queues[RXQ]).value;
              var w := Scatter(d.ram, q.desc, d.outbuf, head, q.num);
              var taken := d.outbuf[..|d.outbuf| - |w.outbuf|];
              && q.num != 0
              && (w.written.None? ==>
                    RxPass(d) == Pass(Device(w.ram, d.peer, w.outbuf, d.regs, d.queues,
                                             d.log.(walks := d.log.walks + [Walk(head, taken, false)])), false))
              && (w.written.Some? ==>
                    var p := VirtQueue.PublishUsed(w.ram, q.(nextAvail := Next16(q.nextAvail)), head, w.written.value % TWO32);
                    RxPass(d) == Pass(Device(p.ram, d.peer, w.outbuf, d.regs, d.queues[RXQ := p.q],
                                             d.log.(walks := d.log.walks + [Walk(head, taken, p.visible)])), true))
  {
    hide Scatter, VirtQueue.PublishUsed, Next16;
  }

  /** The stream of the device in place: whatever the guest did to it since it was made, what was
      delivered and what still waits is the peer's answer to what was transmitted, if and only if
      no receive walk that took bytes was abandoned. */
  lemma DeviceConserves<S>(dev: VirtioMmio<S>, ram: seq<byte>, peer: Peer<S>)
    requires dev.Traced() && dev.start == NewDevice(ram, peer)
    ensures Delivered(dev.log.walks) + dev.host.outbuf == peer.Push(dev.log.sent).1 <==> NothingLost(dev.log.walks)
  {
    hide AllEnd, Session;
    SessionConserves(ram, peer, dev.past);
  }

  /** And if every kick met a sane layout, exactly if no receive pass started on a faulty chain. */
  lemma DeviceConservesIff<S>(dev: VirtioMmio<S>, ram: seq<byte>, peer: Peer<S>)
    requires dev.Traced() && dev.start == NewDevice(ram, peer) && SaneKicks(dev.start, dev.past)
    ensures Delivered(dev.log.walks) + dev.host.outbuf == peer.Push(dev.log.sent).1 <==>
            NeverFaulty(dev.start, SessionEvents(dev.start, dev.past))
  {
    hide AllEnd, Session, SaneKicks, NeverFaulty;
    SessionConservedIff(ram, peer, dev.past);
  }
}
