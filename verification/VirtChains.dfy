/** Descriptor chains as lists (tb-vmm/src/virtio_mmio.rs; sections 2.7.5 and 2.7.8 of virtio v1.2): what
    the walks over a chain yield, told from the list of its descriptors and not step by step. */
module VirtChains {
  import opened Words
  import opened GuestMemory
  import opened VirtQueue
  import opened VirtioStream

  /** A descriptor of a table that does not wrap: address, length, flags and link, 16 bytes in all. */
  lemma DescriptorLayout(ram: seq<byte>, table: u64, idx: u16)
    requires table + 16 * idx as int + 16 <= TWO64
    ensures var at := table + 16 * idx as int;
            && (ReadDesc(ram, table, idx).Some? <==> at + 16 <= |ram|)
            && (ReadDesc(ram, table, idx).Some? ==>
                  var d := ReadDesc(ram, table, idx).value;
                  ram[at..at + 16] == Le(d.addr, 8) + Le(d.len, 4) + Le(d.flags, 2) + Le(d.next, 2))
  {
    hide Le, ReadWord, Wrap64, DescAt;
    var at: nat := table + 16 * idx as int;
    DescriptorAddresses(table, idx);
    ReadWordIs(ram, at, 8);
    ReadWordIs(ram, at + 8, 4);
    ReadWordIs(ram, at + 12, 2);
    ReadWordIs(ram, at + 14, 2);
    if at + 16 <= |ram| {
      FourSlices(ram, at);
    }
  }

  lemma FourSlices(s: seq<byte>, at: nat)
    requires at + 16 <= |s|
    ensures s[at..at + 16] == s[at..at + 8] + s[at + 8..at + 12] + s[at + 12..at + 14] + s[at + 14..at + 16]
  {
  }

  /** The links lead from descriptor `idx` through `ds`: bit 0 of the flags says that there is one. */
  ghost predicate Linked(ram: seq<byte>, table: u64, idx: u16, ds: seq<Desc>)
    decreases |ds|
  {
    && ds != [] && ReadDesc(ram, table, idx) == Some(ds[0])
    && (|ds| > 1 ==> ds[0].flags % 2 == 1 && Linked(ram, table, ds[0].next, ds[1..]))
  }

  /** Bit 1 of the flags: the device may write to the buffer, and does not read it. */
  ghost predicate ForDevice(d: Desc) {
    d.flags / 2 % 2 == 1
  }

  // ---- Transmit --------------------------------------------------------------------------------

  ghost predicate ReadableInRam(ram: seq<byte>, ds: seq<Desc>) {
    forall i :: 0 <= i < |ds| && !ForDevice(ds[i]) ==> ds[i].addr + ds[i].len <= |ram|
  }

  /** The buffers the device reads, one after the other. */
  ghost function ReadableBytes(ram: seq<byte>, ds: seq<Desc>): seq<byte>
    requires ReadableInRam(ram, ds)
  {
    if ds == [] then []
    else (if ForDevice(ds[0]) then [] else ram[ds[0].addr..ds[0].addr + ds[0].len]) + ReadableBytes(ram, ds[1..])
  }

  /** `ds` is a whole chain of at most `hops` descriptors, its readable buffers are in RAM, and they hold
      `bytes`. */
  ghost predicate Yields(ram: seq<byte>, table: u64, idx: u16, hops: nat, ds: seq<Desc>, bytes: seq<byte>) {
    && Linked(ram, table, idx, ds) && |ds| <= hops && ds[|ds| - 1].flags % 2 == 0
    && ReadableInRam(ram, ds) && bytes == ReadableBytes(ram, ds)
  }

  lemma {:induction false} GatherYields(ram: seq<byte>, table: u64, idx: u16, hops: nat) returns (ds: seq<Desc>)
    requires Gather(ram, table, idx, hops).Some?
    ensures Yields(ram, table, idx, hops, ds, Gather(ram, table, idx, hops).value)
    decreases hops
  {
    hide ReadDesc, ForDevice, ReadableInRam, ReadableBytes, Gather;
    GatherStep(ram, table, idx, hops);
    var d := ReadDesc(ram, table, idx).value;
    if d.flags % 2 == 0 {
      ds := [d];
      LastYields(ram, d);
    } else {
      var rest := GatherYields(ram, table, d.next, hops - 1);
      ds := [d] + rest;
      MoreYields(ram, d, rest);
    }
  }

  lemma LastYields(ram: seq<byte>, d: Desc)
    requires !ForDevice(d) ==> d.addr + d.len <= |ram|
    ensures ReadableInRam(ram, [d])
    ensures ReadableBytes(ram, [d]) == if ForDevice(d) then [] else ram[d.addr..d.addr + d.len]
  {
    hide ForDevice;
    OneReadable(ram, [d]);
  }

  lemma MoreYields(ram: seq<byte>, d: Desc, rest: seq<Desc>)
    requires ReadableInRam(ram, rest) && (!ForDevice(d) ==> d.addr + d.len <= |ram|)
    ensures ([d] + rest)[1..] == rest && ReadableInRam(ram, [d] + rest)
    ensures ReadableBytes(ram, [d] + rest)
         == (if ForDevice(d) then [] else ram[d.addr..d.addr + d.len]) + ReadableBytes(ram, rest)
  {
    hide ForDevice;
    assert ([d] + rest)[1..] == rest;
    assert forall i :: 0 < i < |[d] + rest| ==> ([d] + rest)[i] == rest[i - 1];
  }

  lemma OneReadable(ram: seq<byte>, ds: seq<Desc>)
    requires |ds| == 1 && ReadableInRam(ram, ds)
    ensures ReadableBytes(ram, ds) == if ForDevice(ds[0]) then [] else ram[ds[0].addr..ds[0].addr + ds[0].len]
  {
    assert ds[1..] == [];
    assert ReadableBytes(ram, ds[1..]) == [];
  }

  /** One step of the walk, in the terms of this module. */
  lemma GatherStep(ram: seq<byte>, table: u64, idx: u16, hops: nat)
    ensures hops == 0 || ReadDesc(ram, table, idx).None? ==> Gather(ram, table, idx, hops).None?
    ensures hops > 0 && ReadDesc(ram, table, idx).Some? ==>
              var d := ReadDesc(ram, table, idx).value;
              var part := if ForDevice(d) then Some([]) else Read(ram, d.addr, d.len);
              && (part.None? ==> Gather(ram, table, idx, hops).None?)
              && (part.Some? && d.flags % 2 == 0 ==> Gather(ram, table, idx, hops) == part)
              && (part.Some? && d.flags % 2 == 1 ==>
                    Gather(ram, table, idx, hops) == Prepend(part.value, Gather(ram, table, d.next, hops - 1)))
  {
    hide ReadDesc;
  }

  lemma {:induction false} YieldsGather(ram: seq<byte>, table: u64, idx: u16, hops: nat, ds: seq<Desc>, bytes: seq<byte>)
    requires Yields(ram, table, idx, hops, ds, bytes)
    ensures Gather(ram, table, idx, hops) == Some(bytes)
    decreases |ds|
  {
    hide ReadDesc, ForDevice;
    GatherStep(ram, table, idx, hops);
    if |ds| > 1 {
      assert ReadableInRam(ram, ds[1..]) by {
        assert forall i :: 0 <= i < |ds[1..]| ==> ds[1..][i] == ds[i + 1];
      }
      YieldsGather(ram, table, ds[0].next, hops - 1, ds[1..], ReadableBytes(ram, ds[1..]));
    } else {
      OneReadable(ram, ds);
    }
  }

  /** A transmit walk gives bytes exactly if the links lead through a whole chain within the queue size whose
      readable buffers are in RAM; they are those buffers' bytes, all of them, in chain order. */
  lemma GatherIff(ram: seq<byte>, table: u64, idx: u16, hops: nat, bytes: seq<byte>)
    ensures Gather(ram, table, idx, hops) == Some(bytes) <==>
            exists ds: seq<Desc> :: Yields(ram, table, idx, hops, ds, bytes)
  {
    hide Yields, Gather;
    if Gather(ram, table, idx, hops).Some? {
      var ds := GatherYields(ram, table, idx, hops);
    }
    if ds: seq<Desc> :| Yields(ram, table, idx, hops, ds, bytes) {
      YieldsGather(ram, table, idx, hops, ds, bytes);
    }
  }

  // ---- Receive ---------------------------------------------------------------------------------

  /** The room in the first `n` descriptors. */
  ghost function Room(ds: seq<Desc>, n: nat): nat
    requires n <= |ds|
  {
    if n == 0 then 0 else Room(ds, n - 1) + if ForDevice(ds[n - 1]) then ds[n - 1].len else 0
  }

  ghost function Less(a: nat, b: nat): nat {
    if a < b then a else b
  }

  /** What descriptor `i` gets of `need` bytes, the room before it being filled first. */
  ghost function Share(ds: seq<Desc>, need: nat, i: nat): nat
    requires i < |ds|
  {
    if ForDevice(ds[i]) && Room(ds, i) < need then Less(ds[i].len, need - Room(ds, i)) else 0
  }

  /** The walk comes to descriptor `i` with bytes left, and they fit where the descriptor says. */
  ghost predicate Served(size: nat, ds: seq<Desc>, need: nat, i: nat)
    requires i < |ds|
  {
    && (i > 0 ==> Room(ds, i) < need)
    && (ForDevice(ds[i]) && Room(ds, i) < need ==> ds[i].addr + Share(ds, need, i) <= size)
  }

  /** A receive walk of `need` bytes goes through `ds`, at most `hops` descriptors, until the chain ends or the
      bytes are used up, and fills `segs`. */
  ghost predicate Takes(ram: seq<byte>, table: u64, idx: u16, hops: nat, need: nat, ds: seq<Desc>, segs: seq<Segment>) {
    && Linked(ram, table, idx, ds) && |ds| <= hops && |segs| == |ds|
    && (forall i :: 0 <= i < |ds| ==> segs[i] == Segment(ds[i].addr, Share(ds, need, i)) && Served(|ram|, ds, need, i))
    && (ds[|ds| - 1].flags % 2 == 0 || Room(ds, |ds|) >= need)
  }

  lemma {:induction false} RoomShifts(ds: seq<Desc>, n: nat)
    requires 0 < n <= |ds|
    ensures Room(ds, n) == Room(ds, 1) + Room(ds[1..], n - 1)
  {
    if n > 1 {
      RoomShifts(ds, n - 1);
    }
  }

  /** Behind its first descriptor a walk is the walk of what is left. */
  lemma ShareShifts(ds: seq<Desc>, need: nat, i: nat)
    requires 0 < i < |ds| && Room(ds, 1) < need
    ensures Share(ds, need, i) == Share(ds[1..], need - Room(ds, 1), i - 1)
    ensures Room(ds, i) < need <==> Room(ds[1..], i - 1) < need - Room(ds, 1)
  {
    RoomShifts(ds, i);
    RoomShifts(ds, i + 1);
  }

  /** One step of the plan, in the terms of this module. */
  lemma PlanStep(ram: seq<byte>, table: u64, idx: u16, hops: nat, need: nat)
    ensures hops == 0 || ReadDesc(ram, table, idx).None? ==> Plan(ram, table, idx, hops, need).None?
    ensures hops > 0 && ReadDesc(ram, table, idx).Some? ==>
              var d := ReadDesc(ram, table, idx).value;
              var n := if ForDevice(d) then Less(d.len, need) else 0;
              var plan := Plan(ram, table, idx, hops, need);
              && (ForDevice(d) && need > 0 && d.addr + n > |ram| ==> plan.None?)
              && (!(ForDevice(d) && need > 0 && d.addr + n > |ram|) ==>
                    if d.flags % 2 == 1 && n < need then
                      var rest := Plan(ram, table, d.next, hops - 1, need - n);
                      && (rest.None? ==> plan.None?)
                      && (rest.Some? ==> plan == Some([Segment(d.addr, n)] + rest.value))
                    else plan == Some([Segment(d.addr, n)]))
  {
    hide ReadDesc;
  }

  lemma FirstShare(ds: seq<Desc>, need: nat)
    requires ds != []
    ensures Room(ds, 0) == 0 && Room(ds, 1) == if ForDevice(ds[0]) then ds[0].len else 0
    ensures Share(ds, need, 0) == if ForDevice(ds[0]) then Less(ds[0].len, need) else 0
  {
    assert Room(ds, 0) == 0;
  }

  lemma {:induction false} PlanTakes(ram: seq<byte>, table: u64, idx: u16, hops: nat, need: nat) returns (ds: seq<Desc>)
    requires Plan(ram, table, idx, hops, need).Some?
    ensures Takes(ram, table, idx, hops, need, ds, Plan(ram, table, idx, hops, need).value)
    decreases hops
  {
    hide ReadDesc, ForDevice, Share, Room, Plan;
    PlanStep(ram, table, idx, hops, need);
    var d := ReadDesc(ram, table, idx).value;
    var n := if ForDevice(d) then Less(d.len, need) else 0;
    if d.flags % 2 == 1 && n < need {
      var rest := PlanTakes(ram, table, d.next, hops - 1, need - n);
      ds := [d] + rest;
      assert ds[1..] == rest;
      FirstShare(ds, need);
      var segs, more := Plan(ram, table, idx, hops, need).value, Plan(ram, table, d.next, hops - 1, need - n).value;
      assert segs == [Segment(d.addr, n)] + more;
      forall i | 0 <= i < |ds|
        ensures segs[i] == Segment(ds[i].addr, Share(ds, need, i)) && Served(|ram|, ds, need, i)
      {
        if i > 0 {
          ShareShifts(ds, need, i);
          assert Served(|ram|, rest, need - n, i - 1) && segs[i] == more[i - 1] && ds[i] == rest[i - 1];
          LaterRoom(ds, need, i);
        }
      }
      RoomShifts(ds, |ds|);
    } else {
      ds := [d];
      FirstShare(ds, need);
    }
  }

  /** Coming to descriptor `i` at all means that the room before it is used up. */
  lemma LaterRoom(ds: seq<Desc>, need: nat, i: nat)
    requires 0 < i < |ds| && Room(ds, 1) < need && (i > 1 ==> Room(ds[1..], i - 1) < need - Room(ds, 1))
    ensures Room(ds, i) < need
  {
    RoomShifts(ds, i);
  }

  lemma {:induction false} TakesPlan(ram: seq<byte>, table: u64, idx: u16, hops: nat, need: nat, ds: seq<Desc>, segs: seq<Segment>)
    requires Takes(ram, table, idx, hops, need, ds, segs)
    ensures Plan(ram, table, idx, hops, need) == Some(segs)
    decreases |ds|
  {
    hide ReadDesc, ForDevice, Share, Room, Plan;
    PlanStep(ram, table, idx, hops, need);
    FirstShare(ds, need);
    assert Served(|ram|, ds, need, 0) && segs[0] == Segment(ds[0].addr, Share(ds, need, 0));
    if |ds| > 1 {
      assert Served(|ram|, ds, need, 1);
      var n := Room(ds, 1);
      forall i | 0 <= i < |ds[1..]|
        ensures segs[1..][i] == Segment(ds[1..][i].addr, Share(ds[1..], need - n, i)) && Served(|ram|, ds[1..], need - n, i)
      {
        assert Served(|ram|, ds, need, i + 1);
        ShareShifts(ds, need, i + 1);
      }
      RoomShifts(ds, |ds|);
      TakesPlan(ram, table, ds[0].next, hops - 1, need - n, ds[1..], segs[1..]);
      assert segs == [segs[0]] + segs[1..];
    } else {
      assert segs == [segs[0]];
    }
  }

  /** A receive walk has a plan exactly if the links lead through descriptors within the queue size up to where
      the chain or the bytes end, and every buffer it comes to is in RAM as far as it is filled. Each writable
      buffer is filled before the next one, and no other buffer is. */
  lemma PlanIff(ram: seq<byte>, table: u64, idx: u16, hops: nat, need: nat, segs: seq<Segment>)
    ensures Plan(ram, table, idx, hops, need) == Some(segs) <==>
            exists ds: seq<Desc> :: Takes(ram, table, idx, hops, need, ds, segs)
  {
    hide Takes, Plan;
    if Plan(ram, table, idx, hops, need).Some? {
      var ds := PlanTakes(ram, table, idx, hops, need);
    }
    if ds: seq<Desc> :| Takes(ram, table, idx, hops, need, ds, segs) {
      TakesPlan(ram, table, idx, hops, need, ds, segs);
    }
  }

  // ---- What a walk draws -------------------------------------------------------------------------

  /** Why a receive walk that came through `ds` went no further: the chain or the bytes ended, it was as long as
      the queue, its next descriptor is not in RAM, or the last buffer is not. */
  ghost predicate StopsAfter(ram: seq<byte>, table: u64, hops: nat, need: nat, ds: seq<Desc>)
    requires ds != []
  {
    var last := ds[|ds| - 1];
    || last.flags % 2 == 0 || Room(ds, |ds|) >= need
    || |ds| == hops || ReadDesc(ram, table, last.next).None?
    || last.addr + Share(ds, need, |ds| - 1) > |ram|
  }

  /** A receive walk takes from the queue what there is room for in the descriptors it comes to, whether or not
      it comes to a proper end. */
  lemma {:induction false} DrawIs(ram: seq<byte>, table: u64, idx: u16, hops: nat, need: nat) returns (ds: seq<Desc>)
    ensures ds == [] <==> hops == 0 || ReadDesc(ram, table, idx).None?
    ensures ds == [] ==> Draw(ram, table, idx, hops, need) == 0
    ensures ds != [] ==>
              && Linked(ram, table, idx, ds) && |ds| <= hops && StopsAfter(ram, table, hops, need, ds)
              && Draw(ram, table, idx, hops, need) == Less(need, Room(ds, |ds|))
    decreases hops
  {
    hide ReadDesc, ForDevice, Room, Draw;
    ds := [];
    DrawStep(ram, table, idx, hops, need);
    if hops > 0 && ReadDesc(ram, table, idx).Some? {
      var d := ReadDesc(ram, table, idx).value;
      var n := if ForDevice(d) then Less(d.len, need) else 0;
      ds := [d];
      FirstShare(ds, need);
      if !(ForDevice(d) && need > 0 && d.addr + n > |ram|) && d.flags % 2 == 1 && n < need {
        var rest := DrawIs(ram, table, d.next, hops - 1, need - n);
        if rest != [] {
          ds := [d] + rest;
          assert ds[1..] == rest;
          FirstShare(ds, need);
          RoomShifts(ds, |ds|);
          ShareShifts(ds, need, |ds| - 1);
        }
      }
    }
  }

  lemma DrawStep(ram: seq<byte>, table: u64, idx: u16, hops: nat, need: nat)
    ensures hops == 0 || ReadDesc(ram, table, idx).None? ==> Draw(ram, table, idx, hops, need) == 0
    ensures hops > 0 && ReadDesc(ram, table, idx).Some? ==>
              var d := ReadDesc(ram, table, idx).value;
              var n := if ForDevice(d) then Less(d.len, need) else 0;
              Draw(ram, table, idx, hops, need) ==
              n + if !(ForDevice(d) && need > 0 && d.addr + n > |ram|) && d.flags % 2 == 1 && n < need
                  then Draw(ram, table, d.next, hops - 1, need - n) else 0
  {
    hide ReadDesc;
  }
}
