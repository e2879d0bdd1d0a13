/** When the peer's byte stream survives: exactly while no receive pass meets a chain that turns
    out malformed after bytes were drawn for it (tb-vmm/src/virtio_mmio.rs). */
module VirtioStream {
  import opened Words
  import opened GuestMemory
  import opened VirtQueue
  import opened VirtioDevice
  import opened VirtioKicks
  import opened VirtioLoops

  /** The bytes descriptor `idx` draws from the queue, whether or not their write succeeds. */
  function DrawOne(ram: seq<byte>, table: u64, idx: u16, need: nat): (n: nat)
    ensures n <= need
  {
    var desc := ReadDesc(ram, table, idx);
    if desc.None? then 0 else desc.value.Takes(need)
  }

  /** The bytes a receive walk draws in all, read off the descriptors beforehand. */
  function Draw(ram: seq<byte>, table: u64, idx: u16, hops: nat, need: nat): nat
    decreases hops
  {
    if hops == 0 then 0 else
    var one := PlanOne(ram, table, idx, need);
    DrawOne(ram, table, idx, need) +
    if one.None? || one.value.1.None? then 0
    else Draw(ram, table, one.value.1.value, hops - 1, need - one.value.0.len)
  }

  lemma OneDraws(ram: seq<byte>, table: u64, outbuf: seq<byte>, idx: u16)
    ensures |ScatterOne(ram, table, outbuf, idx).0.outbuf| == |outbuf| - DrawOne(ram, table, idx, |outbuf|)
  {
    hide ReadDesc, Write;
  }

  lemma {:induction false} DrawSame(ram: seq<byte>, ram': seq<byte>, table: u64, idx: u16, hops: nat, need: nat, g: set<nat>, h: set<nat>)
    requires SameOn(ram, ram', g) && WalkGuarded(ram, table, idx, hops, need, g, h)
    ensures Draw(ram, table, idx, hops, need) == Draw(ram', table, idx, hops, need)
    decreases hops
  {
    hide PlanOne, OneGuarded, ReadDesc;
    if hops != 0 {
      OneSame(ram, ram', table, idx, need, g, h);
      GuardedDescSame(ram, ram', table, idx, need, g, h);
      var one := PlanOne(ram, table, idx, need);
      if one.Some? && one.value.1.Some? {
        DrawSame(ram, ram', table, one.value.1.value, hops - 1, need - one.value.0.len, g, h);
      }
    }
  }

  lemma GuardedDescSame(ram: seq<byte>, ram': seq<byte>, table: u64, idx: u16, need: nat, g: set<nat>, h: set<nat>)
    requires SameOn(ram, ram', g) && OneGuarded(ram, table, idx, need, g, h)
    ensures ReadDesc(ram, table, idx) == ReadDesc(ram', table, idx)
  {
    DescSame(ram, ram', table, idx, g);
  }

  /** A guarded walk draws what its descriptors said beforehand. */
  lemma {:induction false} ScatterDraws(ram: seq<byte>, table: u64, outbuf: seq<byte>, idx: u16, hops: nat, g: set<nat>, h: set<nat>)
    requires g <= h && WalkGuarded(ram, table, idx, hops, |outbuf|, g, h)
    ensures |Scatter(ram, table, outbuf, idx, hops).outbuf| == |outbuf| - Draw(ram, table, idx, hops, |outbuf|)
    decreases hops
  {
    hide PlanOne, ScatterOne, OneGuarded, Write, SameOn, DrawOne;
    if hops != 0 {
      OneFollowsPlan(ram, table, outbuf, idx, g, h);
      OneDraws(ram, table, outbuf, idx);
      var (w, next) := ScatterOne(ram, table, outbuf, idx);
      if next.Some? {
        PlanSame(ram, w.ram, table, next.value, hops - 1, |w.outbuf|, g, h);
        DrawSame(ram, w.ram, table, next.value, hops - 1, |w.outbuf|, g, h);
        ScatterDraws(w.ram, table, w.outbuf, next.value, hops - 1, g, h);
      }
    }
  }

  /** The next receive pass would draw bytes for a malformed chain: one that leaves RAM or is
      longer than the queue. */
  ghost predicate Faulty<S>(d: Device<S>) {
    var q := d.queues[RXQ];
    var head := NextHead(d.ram, q);
    && d.outbuf != [] && head.Some?
    && Plan(d.ram, q.desc, head.value, q.num, |d.outbuf|).None?
    && Draw(d.ram, q.desc, head.value, q.num, |d.outbuf|) > 0
  }

  /** The walk, if any, that a receive pass adds loses bytes exactly when the state before it was
      faulty. */
  lemma PassLosesIffFaulty<S>(d: Device<S>, g: set<nat>, h: set<nat>)
    requires Layout(d.ram, d.queues, g, h)
    ensures var walks' := RxPass(d).dev.log.walks;
            && (walks' == d.log.walks || exists w: Walk :: walks' == d.log.walks + [w])
            && (Faulty(d) <==>
                exists w: Walk :: walks' == d.log.walks + [w] && !w.completed && w.bytes != [])
  {
    hide Scatter, Plan, Draw, PublishUsed, NextHead, Layout;
    var q := d.queues[RXQ];
    var head := NextHead(d.ram, q);
    if d.outbuf != [] && head.Some? {
      WalkCompletesIffPlanned(d, g, h);
      RxWalkIsGuarded(d, head.value, g, h);
      LayoutNests(d, g, h);
      ScatterDraws(d.ram, q.desc, d.outbuf, head.value, q.num, g, h);
      var walks' := RxPass(d).dev.log.walks;
      var w := walks'[|d.log.walks|];
      assert walks' == d.log.walks + [w];
      assert |w.bytes| == Draw(d.ram, q.desc, head.value, q.num, |d.outbuf|);
    } else {
      assert RxPass(d).dev == d;
    }
  }

  lemma LayoutNests<S>(d: Device<S>, g: set<nat>, h: set<nat>)
    requires Layout(d.ram, d.queues, g, h)
    ensures g <= h
  {
  }

  /** No receive pass of the run starts in a faulty state. */
  ghost predicate NeverFaulty<S>(d: Device<S>, events: seq<Event>)
    decreases |events|
  {
    events == [] || (
      && (events[0].ReceivePass? ==> !Faulty(d))
      && NeverFaulty(Next(d, events[0]), events[1..]))
  }

  /** Walks are only ever added, so what is lost stays lost. */
  lemma LossStays<S>(d: Device<S>, e: Event, g: set<nat>, h: set<nat>)
    requires e.TransmitPass? || e.ReceivePass? ==> Layout(d.ram, d.queues, g, h)
    ensures NothingLost(Next(d, e).log.walks) <==> NothingLost(d.log.walks) && (e.ReceivePass? ==> !Faulty(d))
  {
    hide RxPass, Faulty, Layout, WriteReg;
    var walks, walks' := d.log.walks, Next(d, e).log.walks;
    match e
    case ReceivePass =>
      PassLosesIffFaulty(d, g, h);
      if walks' != walks {
        var w: Walk :| walks' == walks + [w];
        LostIn(walks, w);
        assert forall v: Walk :: walks' == walks + [v] ==> v == walks'[|walks|] == w;
      }
    case TransmitPass =>
      TxKeepsWalks(d);
    case GuestWrites(_, _) =>
    case RegWrite(_, _) =>
      GuestLeavesStream(d, e);
  }

  lemma TxKeepsWalks<S>(d: Device<S>)
    ensures TxPass(d).dev.log.walks == d.log.walks
  {
    hide Gather, NextHead, PublishUsed;
  }

  lemma LostIn(walks: seq<Walk>, w: Walk)
    ensures NothingLost(walks + [w]) <==> NothingLost(walks) && (!w.completed ==> w.bytes == [])
  {
    var all := walks + [w];
    if NothingLost(all) {
      forall i | 0 <= i < |walks| && !walks[i].completed
        ensures walks[i].bytes == []
      {
        assert all[i] == walks[i];
      }
      assert all[|walks|] == w;
    }
  }

  lemma {:induction false} NothingLostIff<S>(d: Device<S>, events: seq<Event>)
    requires LaidOut(d, events)
    ensures NothingLost(Run(d, events).log.walks) <==> NothingLost(d.log.walks) && NeverFaulty(d, events)
    decreases |events|
  {
    hide Next, Layout, NothingLost, Faulty;
    if events != [] {
      var g, h := {}, {};
      if events[0].TransmitPass? || events[0].ReceivePass? {
        g, h :| Layout(d.ram, d.queues, g, h);
      }
      LossStays(d, events[0], g, h);
      NothingLostIff(Next(d, events[0]), events[1..]);
    }
  }

  /** Over every run whose passes meet a sane layout, the bytes delivered to the guest in
      completion order and then those still queued are exactly what the peer answered to the
      transmitted bytes, if and only if no receive pass started on a faulty chain. */
  lemma StreamConservedIff<S>(ram: seq<byte>, peer: Peer<S>, events: seq<Event>)
    requires LaidOut(NewDevice(ram, peer), events)
    ensures var d := Run(NewDevice(ram, peer), events);
            Delivered(d.log.walks) + d.outbuf == peer.Push(d.log.sent).1 <==> NeverFaulty(NewDevice(ram, peer), events)
  {
    hide Run, NeverFaulty, LaidOut;
    StreamConserved(ram, peer, events);
    NothingLostIff(NewDevice(ram, peer), events);
  }

  // ---- Sessions ----------------------------------------------------------------------------

  /** Every kick of the session meets a sane layout. */
  ghost predicate SaneKicks<S>(d: Device<S>, cs: seq<Command>)
    requires AllEnd(d, cs)
    decreases |cs|
  {
    cs == [] || (
      var before := cs[..|cs| - 1];
      && SaneKicks(d, before)
      && (cs[|cs| - 1].IsKick() && Kicks(Session(d, before), cs[|cs| - 1].v) ==> Sane(Session(d, before))))
  }

  ghost predicate Sane<S>(d: Device<S>) {
    exists g: set<nat>, h: set<nat> :: Layout(d.ram, d.queues, g, h)
  }

  lemma {:induction false} LaidOutInParts<S>(d: Device<S>, a: seq<Event>, b: seq<Event>)
    ensures LaidOut(d, a + b) <==> LaidOut(d, a) && LaidOut(Run(d, a), b)
    decreases |a|
  {
    hide Next, Layout;
    if a == [] {
      assert a + b == b;
      RunNothing(d);
    } else {
      assert (a + b)[1..] == a[1..] + b;
      LaidOutInParts(Next(d, a[0]), a[1..], b);
    }
  }

  /** A sane layout stays sane through all passes of a loop. */
  lemma {:induction false} TxPassesLaidOut<S>(d: Device<S>, n: nat, g: set<nat>, h: set<nat>)
    requires Layout(d.ram, d.queues, g, h) && TxEndsIn(d, n)
    ensures LaidOut(d, Passes(TransmitPass, n))
    ensures var d' := Run(d, Passes(TransmitPass, n)); Layout(d'.ram, d'.queues, g, h)
    decreases n
  {
    hide TxPass, Layout;
    if n == 0 {
      RunNothing(d);
    } else {
      TxPassAdvances(d, g, h);
      TxPassesLaidOut(TxPass(d).dev, n - 1, g, h);
      RunOnePass(d, TransmitPass, n);
      assert Passes(TransmitPass, n)[1..] == Passes(TransmitPass, n - 1);
    }
  }

  lemma {:induction false} RxPassesLaidOut<S>(d: Device<S>, n: nat, g: set<nat>, h: set<nat>)
    requires Layout(d.ram, d.queues, g, h) && RxEndsIn(d, n)
    ensures LaidOut(d, Passes(ReceivePass, n + 1))
    decreases n
  {
    hide RxPass, Layout;
    assert Passes(ReceivePass, n + 1)[1..] == Passes(ReceivePass, n);
    if n > 0 {
      RxPassAdvances(d, g, h);
      RxPassesLaidOut(RxPass(d).dev, n - 1, g, h);
    } else {
      assert LaidOut(RxPass(d).dev, []);
    }
  }

  lemma KickLaidOut<S>(d: Device<S>, q: u32)
    requires KickEnds(d, q) && (Kicks(d, q) ==> Sane(d))
    ensures LaidOut(d, KickEvents(d, q))
  {
    hide Layout, LaidOut, Run, Passes, TxEnds, RxEnds, TxEndsIn, RxEndsIn;
    NothingLaidOut(d);
    if Kicks(d, q) {
      var g, h :| Layout(d.ram, d.queues, g, h);
      if q == TXQ {
        TxPassesLaidOut(d, TxCount(d), g, h);
        RxPassesLaidOut(TxLoop(d), RxCount(TxLoop(d)), g, h);
        LaidOutInParts(d, Passes(TransmitPass, TxCount(d)), Passes(ReceivePass, RxCount(TxLoop(d)) + 1));
      } else {
        RxPassesLaidOut(d, RxCount(d), g, h);
      }
    }
  }

  lemma NothingLaidOut<S>(d: Device<S>)
    ensures LaidOut(d, [])
  {
  }

  lemma {:induction false} SessionLaidOut<S>(d: Device<S>, cs: seq<Command>)
    requires AllEnd(d, cs) && SaneKicks(d, cs)
    ensures LaidOut(d, SessionEvents(d, cs))
    decreases |cs|
  {
    hide KickEnds, KickEvents, Notify, Layout, LaidOut, Sane, WriteReg;
    if cs == [] {
      NothingLaidOut(d);
    } else {
      var before, c := cs[..|cs| - 1], cs[|cs| - 1];
      var d' := Session(d, before);
      SessionLaidOut(d, before);
      SessionIsRun(d, before);
      LaidOutInParts(d, SessionEvents(d, before), EventsOf(d', c));
      if c.IsKick() {
        KickLaidOut(d', c.v);
      } else {
        QuietLaidOut(d', EventsOf(d', c)[0]);
      }
    }
  }

  lemma QuietLaidOut<S>(d: Device<S>, e: Event)
    requires e.GuestWrites? || e.RegWrite?
    ensures LaidOut(d, [e])
  {
    hide Next, Layout;
    NothingLaidOut(Next(d, e));
    assert [e][1..] == [];
  }

  /** Over every session whose kicks meet sane layouts: the guest was delivered, and will be,
      exactly the peer's answer to what it transmitted, if and only if no receive pass of a kick
      started on a faulty chain. */
  lemma SessionConservedIff<S>(ram: seq<byte>, peer: Peer<S>, cs: seq<Command>)
    requires AllEnd(NewDevice(ram, peer), cs) && SaneKicks(NewDevice(ram, peer), cs)
    ensures var d := Session(NewDevice(ram, peer), cs);
            Delivered(d.log.walks) + d.outbuf == peer.Push(d.log.sent).1 <==>
            NeverFaulty(NewDevice(ram, peer), SessionEvents(NewDevice(ram, peer), cs))
  {
    hide Run, Session, AllEnd, SessionEvents, SaneKicks, LaidOut, NeverFaulty;
    SessionIsRun(NewDevice(ram, peer), cs);
    SessionLaidOut(NewDevice(ram, peer), cs);
    StreamConservedIff(ram, peer, SessionEvents(NewDevice(ram, peer), cs));
  }

  /** Over every such session each queue's two counters agree. */
  lemma SessionCountersAgree<S>(ram: seq<byte>, peer: Peer<S>, cs: seq<Command>)
    requires AllEnd(NewDevice(ram, peer), cs) && SaneKicks(NewDevice(ram, peer), cs)
    ensures Synced(Session(NewDevice(ram, peer), cs))
  {
    hide Run, Session, AllEnd, SessionEvents, SaneKicks, LaidOut;
    SessionIsRun(NewDevice(ram, peer), cs);
    SessionLaidOut(NewDevice(ram, peer), cs);
    CountersAgree(NewDevice(ram, peer), SessionEvents(NewDevice(ram, peer), cs));
  }
}
