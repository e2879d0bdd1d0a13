/** Whole kicks (`process_tx`, `drain_rx` and `notify`, tb-vmm/src/virtio_mmio.rs), as the passes
    they are made of, and sessions: what a guest does to the device, kick by kick. Whether a kick
    ends depends on how the guest laid out its rings; everything here is about kicks that do. */
module VirtioLoops {
  import opened Words
  import opened GuestMemory
  import opened VirtQueue
  import opened VirtioDevice

  // ---- The two loops ---------------------------------------------------------------------

  /** The transmit loop goes round exactly `n` times. */
  ghost predicate TxEndsIn<S>(d: Device<S>, n: nat)
    decreases n
  {
    if n == 0 then !TxPass(d).again else TxPass(d).again && TxEndsIn(TxPass(d).dev, n - 1)
  }

  ghost predicate TxEnds<S>(d: Device<S>) {
    exists n: nat :: TxEndsIn(d, n)
  }

  lemma {:induction false} TxEndsOnce<S>(d: Device<S>, m: nat, n: nat)
    requires TxEndsIn(d, m) && TxEndsIn(d, n)
    ensures m == n
    decreases m
  {
    hide TxPass;
    if m > 0 && n > 0 {
      TxEndsOnce(TxPass(d).dev, m - 1, n - 1);
    }
  }

  ghost function TxCount<S>(d: Device<S>): (n: nat)
    requires TxEnds(d)
    ensures TxEndsIn(d, n)
  {
    var n: nat :| TxEndsIn(d, n);
    n
  }

  /** The device after the transmit loop. */
  ghost function TxLoop<S>(d: Device<S>): Device<S>
    requires TxEnds(d)
  {
    Run(d, Passes(TransmitPass, TxCount(d)))
  }

  function Passes(e: Event, n: nat): (es: seq<Event>)
    ensures |es| == n
  {
    seq(n, _ => e)
  }

  lemma RunOnePass<S>(d: Device<S>, e: Event, n: nat)
    requires n > 0
    ensures Run(d, Passes(e, n)) == Run(Next(d, e), Passes(e, n - 1))
  {
    hide Next;
    assert Passes(e, n)[1..] == Passes(e, n - 1);
  }

  /** One turn of the transmit loop: it ends when the rest of it does. */
  lemma TxLoopUnfolds<S>(d: Device<S>)
    ensures TxEnds(d) <==> (TxPass(d).again ==> TxEnds(TxPass(d).dev))
    ensures TxEnds(d) && TxPass(d).again ==>
              TxCount(TxPass(d).dev) == TxCount(d) - 1 && TxLoop(d) == TxLoop(TxPass(d).dev)
    ensures TxEnds(d) && !TxPass(d).again ==> TxCount(d) == 0 && TxLoop(d) == d && TxPass(d).dev == d
  {
    hide TxPass, Run;
    var d' := TxPass(d).dev;
    if TxPass(d).again {
      if TxEnds(d) {
        assert TxEndsIn(d', TxCount(d) - 1);
        TxEndsOnce(d', TxCount(d'), TxCount(d) - 1);
        RunOnePass(d, TransmitPass, TxCount(d));
      }
      if TxEnds(d') {
        assert TxEndsIn(d, TxCount(d') + 1);
      }
    } else {
      assert TxEndsIn(d, 0);
      TxEndsOnce(d, TxCount(d), 0);
      TxEndsUnchanged(d);
      RunNothing(d);
    }
  }

  lemma RunNothing<S>(d: Device<S>)
    ensures Run(d, []) == d
  {
  }

  lemma TxEndsUnchanged<S>(d: Device<S>)
    requires !TxPass(d).again
    ensures TxPass(d).dev == d
  {
  }

  ghost predicate RxEndsIn<S>(d: Device<S>, n: nat)
    decreases n
  {
    if n == 0 then !RxPass(d).again else RxPass(d).again && RxEndsIn(RxPass(d).dev, n - 1)
  }

  ghost predicate RxEnds<S>(d: Device<S>) {
    exists n: nat :: RxEndsIn(d, n)
  }

  lemma {:induction false} RxEndsOnce<S>(d: Device<S>, m: nat, n: nat)
    requires RxEndsIn(d, m) && RxEndsIn(d, n)
    ensures m == n
    decreases m
  {
    hide RxPass;
    if m > 0 && n > 0 {
      RxEndsOnce(RxPass(d).dev, m - 1, n - 1);
    }
  }

  ghost function RxCount<S>(d: Device<S>): (n: nat)
    requires RxEnds(d)
    ensures RxEndsIn(d, n)
  {
    var n: nat :| RxEndsIn(d, n);
    n
  }

  /** The device after the receive loop; its last pass may still abandon a walk. */
  ghost function RxLoop<S>(d: Device<S>): Device<S>
    requires RxEnds(d)
  {
    Run(d, Passes(ReceivePass, RxCount(d) + 1))
  }

  lemma RxLoopUnfolds<S>(d: Device<S>)
    ensures RxEnds(d) <==> (RxPass(d).again ==> RxEnds(RxPass(d).dev))
    ensures RxEnds(d) && RxPass(d).again ==>
              RxCount(RxPass(d).dev) == RxCount(d) - 1 && RxLoop(d) == RxLoop(RxPass(d).dev)
    ensures RxEnds(d) && !RxPass(d).again ==> RxCount(d) == 0 && RxLoop(d) == RxPass(d).dev
  {
    hide RxPass, Run;
    var d' := RxPass(d).dev;
    if RxEnds(d) {
      RunOnePass(d, ReceivePass, RxCount(d) + 1);
    }
    if RxPass(d).again {
      if RxEnds(d) {
        assert RxEndsIn(d', RxCount(d) - 1);
        RxEndsOnce(d', RxCount(d'), RxCount(d) - 1);
      }
      if RxEnds(d') {
        assert RxEndsIn(d, RxCount(d') + 1);
      }
    } else {
      assert RxEndsIn(d, 0);
      RxEndsOnce(d, RxCount(d), 0);
      RunNothing(d');
    }
  }

  // ---- Kicks -----------------------------------------------------------------------------

  /** The kick of queue `q` does something: the driver is ready and the queue exists. */
  predicate Kicks<S>(d: Device<S>, q: u32) {
    HasBit(d.regs.status, S_DRIVER_OK) && q < 2
  }

  ghost predicate KickEnds<S>(d: Device<S>, q: u32) {
    Kicks(d, q) ==> if q == TXQ then TxEnds(d) && RxEnds(TxLoop(d)) else RxEnds(d)
  }

  /** A notify of queue `q`: ignored before DRIVER_OK; a transmit kick runs the transmit loop; a
      kick of either queue then runs the receive loop. */
  ghost function Notify<S>(d: Device<S>, q: u32): Device<S>
    requires KickEnds(d, q)
  {
    if !Kicks(d, q) then d else RxLoop(if q == TXQ then TxLoop(d) else d)
  }

  /** What a kick runs: nothing while bit 2 of the status is unset or when there is no such queue; for queue 0 the
      receive loop; for queue 1 the transmit loop and then the receive loop. */
  lemma KickRules<S>(d: Device<S>, q: u32)
    ensures d.regs.status / 4 % 2 == 0 || q >= 2 ==> KickEnds(d, q) && Notify(d, q) == d
    ensures d.regs.status / 4 % 2 == 1 && q == 0 ==>
              (KickEnds(d, q) <==> RxEnds(d)) && (RxEnds(d) ==> Notify(d, q) == RxLoop(d))
    ensures d.regs.status / 4 % 2 == 1 && q == 1 ==>
              && (KickEnds(d, q) <==> TxEnds(d) && RxEnds(TxLoop(d)))
              && (TxEnds(d) && RxEnds(TxLoop(d)) ==> Notify(d, q) == RxLoop(TxLoop(d)))
  {
    hide TxEnds, RxEnds, TxLoop, RxLoop;
  }

  /** With nothing queued a kick of the receive queue consumes no posted buffer, nor anything else. */
  lemma IdleKick<S>(d: Device<S>)
    requires d.outbuf == []
    ensures KickEnds(d, 0) && Notify(d, 0) == d
  {
    hide RxEnds, RxLoop;
    assert RxPass(d) == Pass(d, false);
    RxLoopUnfolds(d);
  }

  /** The passes of a kick. */
  ghost function KickEvents<S>(d: Device<S>, q: u32): seq<Event>
    requires KickEnds(d, q)
  {
    if !Kicks(d, q) then []
    else if q == TXQ then Passes(TransmitPass, TxCount(d)) + Passes(ReceivePass, RxCount(TxLoop(d)) + 1)
    else Passes(ReceivePass, RxCount(d) + 1)
  }

  lemma {:induction false} RunInParts<S>(d: Device<S>, a: seq<Event>, b: seq<Event>)
    ensures Run(d, a + b) == Run(Run(d, a), b)
    decreases |a|
  {
    hide Next;
    if a == [] {
      assert a + b == b;
    } else {
      assert (a + b)[1..] == a[1..] + b;
      RunInParts(Next(d, a[0]), a[1..], b);
    }
  }

  /** A kick is the run of its passes. */
  lemma NotifyIsRun<S>(d: Device<S>, q: u32)
    requires KickEnds(d, q)
    ensures Notify(d, q) == Run(d, KickEvents(d, q))
  {
    hide Run, Passes, Kicks, TxLoop, RxLoop, TxEnds, RxEnds, TxEndsIn, RxEndsIn;
    RunNothing(d);
    if Kicks(d, q) {
      if q == TXQ {
        TxKickIsRun(d);
      } else {
        RxKickIsRun(d);
      }
    }
  }

  lemma RxKickIsRun<S>(d: Device<S>)
    requires RxEnds(d)
    ensures RxLoop(d) == Run(d, Passes(ReceivePass, RxCount(d) + 1))
  {
    hide Run, Passes, RxEnds, RxEndsIn;
  }

  lemma TxKickIsRun<S>(d: Device<S>)
    requires TxEnds(d) && RxEnds(TxLoop(d))
    ensures RxLoop(TxLoop(d)) == Run(d, Passes(TransmitPass, TxCount(d)) + Passes(ReceivePass, RxCount(TxLoop(d)) + 1))
  {
    hide Run, Passes, TxEnds, RxEnds, TxEndsIn, RxEndsIn;
    var d1 := TxLoop(d);
    RxKickIsRun(d1);
    RunInParts(d, Passes(TransmitPass, TxCount(d)), Passes(ReceivePass, RxCount(d1) + 1));
  }

  // ---- Sessions --------------------------------------------------------------------------

  /** What the guest does: store to memory, or write a register, a kick included. */
  datatype Command =
    | Store(addr: nat, bytes: seq<byte>)
    | WriteRegister(offset: nat, v: u32)
  {
    predicate IsKick() {
      WriteRegister? && offset == R_QUEUE_NOTIFY
    }
  }

  /** The command comes to an end. */
  ghost predicate Ends<S>(d: Device<S>, c: Command) {
    c.IsKick() ==> KickEnds(d, c.v)
  }

  ghost function Do<S>(d: Device<S>, c: Command): Device<S>
    requires Ends(d, c)
  {
    match c
    case Store(addr, bytes) => d.(ram := Write(d.ram, addr, bytes).0)
    case WriteRegister(offset, v) => if offset == R_QUEUE_NOTIFY then Notify(d, v) else WriteReg(d, offset, v)
  }

  ghost function EventsOf<S>(d: Device<S>, c: Command): seq<Event>
    requires Ends(d, c)
  {
    match c
    case Store(addr, bytes) => [GuestWrites(addr, bytes)]
    case WriteRegister(offset, v) => if offset == R_QUEUE_NOTIFY then KickEvents(d, v) else [RegWrite(offset, v)]
  }

  /** Every command of the session comes to an end. */
  ghost predicate AllEnd<S>(d: Device<S>, cs: seq<Command>)
    decreases |cs|, 0
  {
    cs == [] || (AllEnd(d, cs[..|cs| - 1]) && Ends(Session(d, cs[..|cs| - 1]), cs[|cs| - 1]))
  }

  /** The device after the session. */
  ghost function Session<S>(d: Device<S>, cs: seq<Command>): Device<S>
    requires AllEnd(d, cs)
    decreases |cs|, 1
  {
    if cs == [] then d else Do(Session(d, cs[..|cs| - 1]), cs[|cs| - 1])
  }

  /** The session, pass by pass. */
  ghost function SessionEvents<S>(d: Device<S>, cs: seq<Command>): seq<Event>
    requires AllEnd(d, cs)
    decreases |cs|
  {
    if cs == [] then []
    else SessionEvents(d, cs[..|cs| - 1]) + EventsOf(Session(d, cs[..|cs| - 1]), cs[|cs| - 1])
  }

  lemma SessionGrows<S>(d: Device<S>, cs: seq<Command>, c: Command)
    requires AllEnd(d, cs) ==> Ends(Session(d, cs), c)
    ensures AllEnd(d, cs) ==> AllEnd(d, cs + [c]) && Session(d, cs + [c]) == Do(Session(d, cs), c)
    ensures AllEnd(d, cs) ==>
              SessionEvents(d, cs + [c]) == SessionEvents(d, cs) + EventsOf(Session(d, cs), c)
  {
    hide Ends, Do, EventsOf;
    assert (cs + [c])[..|cs|] == cs;
  }

  lemma DoIsRun<S>(d: Device<S>, c: Command)
    requires Ends(d, c)
    ensures Do(d, c) == Run(d, EventsOf(d, c))
  {
    hide KickEvents, Notify, WriteReg, KickEnds;
    if c.IsKick() {
      NotifyIsRun(d, c.v);
    } else {
      var e := EventsOf(d, c)[0];
      assert [e][1..] == [];
      RunNothing(Next(d, e));
      assert Run(d, [e]) == Run(Next(d, e), []);
    }
  }

  /** Every session is a run. */
  lemma {:induction false} SessionIsRun<S>(d: Device<S>, cs: seq<Command>)
    requires AllEnd(d, cs)
    ensures Session(d, cs) == Run(d, SessionEvents(d, cs))
    decreases |cs|
  {
    hide Ends, Do, EventsOf, Run;
    if cs == [] {
      RunNothing(d);
    } else {
      var before := cs[..|cs| - 1];
      SessionIsRun(d, before);
      DoIsRun(Session(d, before), cs[|cs| - 1]);
      RunInParts(d, SessionEvents(d, before), EventsOf(Session(d, before), cs[|cs| - 1]));
    }
  }

  /** Over every session: the bytes delivered to receive buffers in completion order, followed by
      those still queued, are exactly what the peer answers to the bytes the guest transmitted, if
      and only if no receive walk that took bytes was abandoned. */
  lemma SessionConserves<S>(ram: seq<byte>, peer: Peer<S>, cs: seq<Command>)
    requires AllEnd(NewDevice(ram, peer), cs)
    ensures var d := Session(NewDevice(ram, peer), cs);
            && d.log.produced == peer.Push(d.log.sent).1
            && (Delivered(d.log.walks) + d.outbuf == d.log.produced <==> NothingLost(d.log.walks))
  {
    hide Run, Session, AllEnd, SessionEvents;
    SessionIsRun(NewDevice(ram, peer), cs);
    StreamConserved(ram, peer, SessionEvents(NewDevice(ram, peer), cs));
  }
}
