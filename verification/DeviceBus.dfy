/** The address bus (tb-vmm/src/device.rs): a sorted map from base address to device, searched
    through the two neighbours of an address. Address sums wrap at 2^64. */
module DeviceBus {
  import opened Words

  const TOP: u64 := TWO64 - 1

  datatype Entry<+D> = Entry(len: u64, device: D)

  datatype BusError = ZeroLength | Overlap(base: u64, len: u64)

  // ---- The neighbours of an address -------------------------------------------------------

  predicate IsBelow(keys: set<u64>, addr: u64, b: u64) {
    b in keys && b <= addr && forall c :: c in keys && c <= addr ==> c <= b
  }

  predicate IsAbove(keys: set<u64>, addr: u64, b: u64) {
    b in keys && addr <= b && forall c :: c in keys && addr <= c ==> b <= c
  }

  /** The greatest key at or below `addr` (`range(..=addr).next_back()`). */
  function Below(keys: set<u64>, addr: u64): (r: Option<u64>)
    ensures r.Some? ==> IsBelow(keys, addr, r.value)
    ensures r.None? ==> forall c :: c in keys ==> addr < c
  {
    BelowExists(keys, addr);
    if exists c :: c in keys && c <= addr then var b :| b in keys && IsBelow(keys, addr, b); Some(b) else None
  }

  /** The least key at or above `addr` (`range(addr..).next()`). */
  function Above(keys: set<u64>, addr: u64): (r: Option<u64>)
    ensures r.Some? ==> IsAbove(keys, addr, r.value)
    ensures r.None? ==> forall c :: c in keys ==> c < addr
  {
    AboveExists(keys, addr);
    if exists c :: c in keys && addr <= c then var b :| b in keys && IsAbove(keys, addr, b); Some(b) else None
  }

  lemma {:induction false} BelowExists(keys: set<u64>, addr: u64)
    ensures (exists c :: c in keys && c <= addr) ==> exists b :: b in keys && IsBelow(keys, addr, b)
    decreases |keys|
  {
    if c :| c in keys && c <= addr {
      var rest := keys - {c};
      assert keys == rest + {c};
      BelowExists(rest, addr);
      if b :| b in rest && IsBelow(rest, addr, b) {
        assert IsBelow(keys, addr, if b < c then c else b);
      } else {
        assert IsBelow(keys, addr, c);
      }
    }
  }

  lemma {:induction false} AboveExists(keys: set<u64>, addr: u64)
    ensures (exists c :: c in keys && addr <= c) ==> exists b :: b in keys && IsAbove(keys, addr, b)
    decreases |keys|
  {
    if c :| c in keys && addr <= c {
      var rest := keys - {c};
      assert keys == rest + {c};
      AboveExists(rest, addr);
      if b :| b in rest && IsAbove(rest, addr, b) {
        assert IsAbove(keys, addr, if c < b then c else b);
      } else {
        assert IsAbove(keys, addr, c);
      }
    }
  }

  // ---- Registration and lookup ------------------------------------------------------------

  /** One past the end of an entry, as the code adds it up. */
  function End<D>(m: map<u64, Entry<D>>, b: u64): u64
    requires b in m
  {
    Wrap64(b + m[b].len)
  }

  function Admit<D>(m: map<u64, Entry<D>>, base: u64, len: u64, device: D): Result<map<u64, Entry<D>>, BusError> {
    if len == 0 then Err(ZeroLength) else
    var end := if base + len > TOP then TOP else base + len;
    var prev, next := Below(m.Keys, base), Above(m.Keys, base);
    if prev.Some? && End(m, prev.value) > base then Err(Overlap(base, len))
    else if next.Some? && next.value < end then Err(Overlap(base, len))
    else Ok(m[base := Entry(len, device)])
  }

  /** The base of the device that claims `addr`. */
  function Claimant<D>(m: map<u64, Entry<D>>, addr: u64): (r: Option<u64>)
    ensures r.Some? ==> r.value in m && r.value <= addr
  {
    var prev := Below(m.Keys, addr);
    if prev.Some? && addr < End(m, prev.value) then prev else None
  }

  // ---- What they should decide: a scan of every entry ----------------------------------------

  ghost predicate Holds<D>(m: map<u64, Entry<D>>, b: u64, addr: u64) {
    b in m && b <= addr < b + m[b].len
  }

  ghost predicate Meets<D>(m: map<u64, Entry<D>>, b: u64, base: u64, len: u64) {
    b in m && b < base + len && base < b + m[b].len
  }

  ghost predicate Disjoint<D>(m: map<u64, Entry<D>>) {
    forall b, c :: b in m && c in m && b < c ==> b + m[b].len <= c
  }

  /** Every registered range ends below 2^64. */
  ghost predicate InSpace<D>(m: map<u64, Entry<D>>) {
    forall b :: b in m ==> b + m[b].len < TWO64
  }

  ghost predicate NonEmpty<D>(m: map<u64, Entry<D>>) {
    forall b :: b in m ==> m[b].len > 0
  }

  /** Lookup finds the one entry holding the address, or there is none. */
  ghost predicate FindsTheEntry<D>(m: map<u64, Entry<D>>, addr: u64) {
    match Claimant(m, addr)
    case Some(b) => forall c :: Holds(m, c, addr) <==> c == b
    case None => forall c :: !Holds(m, c, addr)
  }

  /** Registration accepts a range if and only if it is not empty and meets no entry. */
  ghost predicate AcceptsRightly<D>(m: map<u64, Entry<D>>, base: u64, len: u64, device: D) {
    Admit(m, base, len, device).Ok? <==> len != 0 && forall b :: !Meets(m, b, base, len)
  }

  lemma LookupIsScan<D>(m: map<u64, Entry<D>>, addr: u64)
    requires Disjoint(m) && InSpace(m)
    ensures FindsTheEntry(m, addr)
  {
  }

  lemma RefusedMeetsOne<D>(m: map<u64, Entry<D>>, base: u64, len: u64, device: D)
    requires InSpace(m) && NonEmpty(m) && len != 0 && Admit(m, base, len, device).Err?
    ensures exists b :: Meets(m, b, base, len)
  {
    hide Below, Above;
    var prev, next := Below(m.Keys, base), Above(m.Keys, base);
    if prev.Some? && End(m, prev.value) > base {
      assert Meets(m, prev.value, base, len);
    } else {
      assert Meets(m, next.value, base, len);
    }
  }

  lemma AcceptedMeetsNone<D>(m: map<u64, Entry<D>>, base: u64, len: u64, device: D, b: u64)
    requires Disjoint(m) && InSpace(m) && NonEmpty(m) && Admit(m, base, len, device).Ok?
    ensures !Meets(m, b, base, len)
  {
    hide Below, Above;
    if b in m {
      if b <= base {
        var p := Below(m.Keys, base).value;
        assert b <= p && End(m, p) == p + m[p].len <= base;
        assert b < p ==> b + m[b].len <= p;
      } else {
        assert Above(m.Keys, base).value <= b < TOP;
      }
    }
  }

  lemma RegisterIsScan<D>(m: map<u64, Entry<D>>, base: u64, len: u64, device: D)
    requires Disjoint(m) && InSpace(m) && NonEmpty(m)
    ensures AcceptsRightly(m, base, len, device)
  {
    hide Meets, Below, Above, InSpace, Disjoint, NonEmpty;
    if Admit(m, base, len, device).Ok? {
      forall b: u64
        ensures !Meets(m, b, base, len)
      {
        AcceptedMeetsNone(m, base, len, device, b);
      }
    } else if len != 0 {
      RefusedMeetsOne(m, base, len, device);
    }
  }

  // ---- Every run of registrations ---------------------------------------------------------------

  datatype Request<+D> = Request(base: u64, len: u64, device: D)

  /** The bus after a call; a refused call changes nothing. */
  function After<D>(m: map<u64, Entry<D>>, q: Request<D>): map<u64, Entry<D>> {
    var r := Admit(m, q.base, q.len, q.device);
    if r.Ok? then r.value else m
  }

  function Run<D>(reqs: seq<Request<D>>): map<u64, Entry<D>> {
    if reqs == [] then map[] else After(Run(reqs[..|reqs| - 1]), reqs[|reqs| - 1])
  }

  /** Request `i` was accepted. */
  ghost predicate Accepted<D>(reqs: seq<Request<D>>, i: nat)
    requires i < |reqs|
  {
    Admit(Run(reqs[..i]), reqs[i].base, reqs[i].len, reqs[i].device).Ok?
  }

  /** What every call keeps: no entry is empty, and while all end below 2^64 none overlap. */
  ghost predicate Sound<D>(m: map<u64, Entry<D>>) {
    NonEmpty(m) && (InSpace(m) ==> Disjoint(m))
  }

  /** An entry whose end wraps is never replaced by one whose end does not. */
  lemma WrappedStays<D>(m: map<u64, Entry<D>>, q: Request<D>)
    requires NonEmpty(m) && InSpace(After(m, q))
    ensures InSpace(m)
    ensures Admit(m, q.base, q.len, q.device).Ok? ==> q.base !in m
  {
    var r := Admit(m, q.base, q.len, q.device);
    if r.Ok? {
      assert After(m, q)[q.base] == Entry(q.len, q.device);
      forall b | b in m
        ensures b + m[b].len < TWO64
      {
        assert After(m, q)[b] == m[b];
      }
    }
  }

  lemma AfterIsSound<D>(m: map<u64, Entry<D>>, q: Request<D>)
    requires Sound(m)
    ensures Sound(After(m, q))
  {
    if InSpace(After(m, q)) {
      WrappedStays(m, q);
      RegisterIsScan(m, q.base, q.len, q.device);
      if Admit(m, q.base, q.len, q.device).Ok? {
        forall b | b in m
          ensures !Meets(m, b, q.base, q.len)
        {
        }
      }
    }
  }

  lemma {:induction false} RunIsSound<D>(reqs: seq<Request<D>>)
    ensures Sound(Run(reqs))
  {
    if reqs != [] {
      RunIsSound(reqs[..|reqs| - 1]);
      AfterIsSound(Run(reqs[..|reqs| - 1]), reqs[|reqs| - 1]);
    }
  }

  /** In every reachable state, lookup agrees with a scan of all entries at every address exactly
      when every entry ends below 2^64. */
  lemma LookupIsScanIff<D>(reqs: seq<Request<D>>)
    ensures (forall addr: u64 :: FindsTheEntry(Run(reqs), addr)) <==> InSpace(Run(reqs))
  {
    var m := Run(reqs);
    RunIsSound(reqs);
    if InSpace(m) {
      forall addr: u64
        ensures FindsTheEntry(m, addr)
      {
        LookupIsScan(m, addr);
      }
    } else {
      var b :| b in m && b + m[b].len >= TWO64;
      assert IsBelow(m.Keys, b, b);
      assert Holds(m, b, b) && Claimant(m, b).None?;
      assert !FindsTheEntry(m, b);
    }
  }

  /** So does registration, at every range; the top address alone shows the other half. */
  lemma RegisterIsScanIff<D>(reqs: seq<Request<D>>, device: D)
    ensures (forall base: u64, len: u64 :: AcceptsRightly(Run(reqs), base, len, device)) <==> InSpace(Run(reqs))
  {
    var m := Run(reqs);
    RunIsSound(reqs);
    if InSpace(m) {
      forall base: u64, len: u64
        ensures AcceptsRightly(m, base, len, device)
      {
        RegisterIsScan(m, base, len, device);
      }
    } else {
      var b :| b in m && b + m[b].len >= TWO64;
      assert Meets(m, b, TOP, 1);
      assert Admit(m, TOP, 1, device).Ok?;
      assert !AcceptsRightly(m, TOP, 1, device);
    }
  }

  /** One call: the bus stays below 2^64 exactly when it was and the accepted range is. */
  lemma InSpaceAfter<D>(m: map<u64, Entry<D>>, q: Request<D>)
    requires Sound(m)
    ensures InSpace(After(m, q)) <==>
            InSpace(m) && (Admit(m, q.base, q.len, q.device).Ok? ==> q.base + q.len < TWO64)
  {
    hide Below, Above, End;
    if InSpace(After(m, q)) {
      WrappedStays(m, q);
      if Admit(m, q.base, q.len, q.device).Ok? {
        assert After(m, q)[q.base].len == q.len;
      }
    }
  }

  /** Every entry ends below 2^64 exactly when every accepted request did. */
  lemma {:induction false} InSpaceIff<D>(reqs: seq<Request<D>>)
    ensures InSpace(Run(reqs)) <==>
            forall i :: 0 <= i < |reqs| && Accepted(reqs, i) ==> reqs[i].base + reqs[i].len < TWO64
  {
    hide Admit, After, InSpace, Sound;
    if reqs == [] {
      EmptyBusIsInSpace<D>();
    } else {
      var n := |reqs| - 1;
      var prefix := reqs[..n];
      InSpaceIff(prefix);
      RunIsSound(prefix);
      InSpaceAfter(Run(prefix), reqs[n]);
      forall i | 0 <= i < n
        ensures Accepted(reqs, i) == Accepted(prefix, i)
      {
        assert prefix[..i] == reqs[..i];
      }
    }
  }

  lemma EmptyBusIsInSpace<D>()
    ensures InSpace<D>(Run([]))
  {
  }

  /** A registration answers one of three: an empty range, an overlap, or the bus with just this entry
      added. */
  lemma RegisterVerdicts<D>(m: map<u64, Entry<D>>, base: u64, len: u64, device: D)
    requires Sound(m) && InSpace(m)
    ensures Admit(m, base, len, device) == Err(ZeroLength) <==> len == 0
    ensures Admit(m, base, len, device) == Err(Overlap(base, len)) <==> len > 0 && exists b :: Meets(m, b, base, len)
    ensures Admit(m, base, len, device).Ok? ==>
              base !in m && Admit(m, base, len, device).value == m[base := Entry(len, device)]
    ensures Admit(m, base, len, device).Ok? || Admit(m, base, len, device) == Err(ZeroLength)
            || Admit(m, base, len, device) == Err(Overlap(base, len))
  {
    hide Below, Above, End;
    RegisterIsScan(m, base, len, device);
    if Admit(m, base, len, device).Ok? && base in m {
      assert Meets(m, base, base, len);
    }
  }

  /** What one more request, once the bus is in space, adds: nothing if refused, else just its own entry. */
  lemma OneMoreRequest<D>(reqs: seq<Request<D>>)
    requires reqs != [] && InSpace(Run(reqs))
    ensures var n := |reqs| - 1;
            var m := Run(reqs[..n]);
            && InSpace(m)
            && (if Accepted(reqs, n) then reqs[n].base !in m && Run(reqs) == m[reqs[n].base := Entry(reqs[n].len, reqs[n].device)]
                else Run(reqs) == m)
            && forall i :: 0 <= i < n ==> Accepted(reqs, i) == Accepted(reqs[..n], i)
  {
    hide Admit, InSpace, Sound, Below, Above;
    var n := |reqs| - 1;
    RunIsSound(reqs[..n]);
    InSpaceAfter(Run(reqs[..n]), reqs[n]);
    RegisterVerdicts(Run(reqs[..n]), reqs[n].base, reqs[n].len, reqs[n].device);
    forall i | 0 <= i < n
      ensures Accepted(reqs, i) == Accepted(reqs[..n], i)
    {
      assert reqs[..n][..i] == reqs[..i];
    }
  }

  lemma {:induction false} AcceptedStand<D>(reqs: seq<Request<D>>, i: nat)
    requires InSpace(Run(reqs)) && i < |reqs| && Accepted(reqs, i)
    ensures reqs[i].base in Run(reqs) && Run(reqs)[reqs[i].base] == Entry(reqs[i].len, reqs[i].device)
  {
    hide Accepted, InSpace, Run;
    var n := |reqs| - 1;
    OneMoreRequest(reqs);
    if i < n {
      AcceptedStand(reqs[..n], i);
    }
  }

  lemma {:induction false} NothingElseStands<D>(reqs: seq<Request<D>>, b: u64) returns (i: nat)
    requires InSpace(Run(reqs)) && b in Run(reqs)
    ensures i < |reqs| && Accepted(reqs, i) && reqs[i].base == b
  {
    hide Accepted, InSpace;
    var n := |reqs| - 1;
    OneMoreRequest(reqs);
    if b in Run(reqs[..n]) {
      i := NothingElseStands(reqs[..n], b);
    } else {
      i := n;
    }
  }

  /** While all end below 2^64, the bus holds exactly the accepted requests: each with its own length and
      device under its own base, and nothing else. */
  lemma HoldsTheAccepted<D>(reqs: seq<Request<D>>)
    requires InSpace(Run(reqs))
    ensures forall i :: 0 <= i < |reqs| && Accepted(reqs, i) ==>
              reqs[i].base in Run(reqs) && Run(reqs)[reqs[i].base] == Entry(reqs[i].len, reqs[i].device)
    ensures forall b :: b in Run(reqs) ==> exists i :: 0 <= i < |reqs| && Accepted(reqs, i) && reqs[i].base == b
  {
    hide Accepted, InSpace, Run;
    forall i | 0 <= i < |reqs| && Accepted(reqs, i)
      ensures reqs[i].base in Run(reqs) && Run(reqs)[reqs[i].base] == Entry(reqs[i].len, reqs[i].device)
    {
      AcceptedStand(reqs, i);
    }
    forall b | b in Run(reqs)
      ensures exists i :: 0 <= i < |reqs| && Accepted(reqs, i) && reqs[i].base == b
    {
      var i := NothingElseStands(reqs, b);
    }
  }

  /** So an address is answered by the one accepted request that covers it. */
  lemma LookupIsTheRequest<D>(reqs: seq<Request<D>>, addr: u64, i: nat)
    requires InSpace(Run(reqs)) && i < |reqs| && Accepted(reqs, i)
    requires reqs[i].base <= addr < reqs[i].base + reqs[i].len
    ensures Claimant(Run(reqs), addr) == Some(reqs[i].base)
    ensures reqs[i].base in Run(reqs) && Run(reqs)[reqs[i].base].device == reqs[i].device
  {
    hide Below, Admit, Run, Claimant;
    HoldsTheAccepted(reqs);
    RunIsSound(reqs);
    LookupIsScan(Run(reqs), addr);
    assert Holds(Run(reqs), reqs[i].base, addr);
  }

  /** A range that ends at 2^64 exactly is accepted; it is then not found at its own base, and a
      second range within it is accepted too. */
  lemma TopRangeIsLost<D>(d: D, e: D)
    ensures var first := Request(0xFFFF_FFFF_FFFF_F000, 0x1000, d);
            var m := Run([first]);
            && first.base in m && !InSpace(m) && Claimant(m, first.base).None?
            && Meets(m, first.base, 0xFFFF_FFFF_FFFF_F800, 0x100)
            && Admit(m, 0xFFFF_FFFF_FFFF_F800, 0x100, e).Ok?
  {
    var first := Request(0xFFFF_FFFF_FFFF_F000, 0x1000, d);
    var none: seq<Request<D>> := [];
    assert [first][..0] == none;
    assert Run([first]) == map[first.base := Entry(0x1000, d)];
  }

  // ---- The bus as it runs --------------------------------------------------------------------------

  /** A registered device: its state and its two handlers. */
  class BusDevice<S> {
    var state: S
    /** A read of `data.Length` bytes at an offset: the new state and each byte it fills in. */
    const onRead: (S, nat, nat) -> (S, nat -> byte)
    const onWrite: (S, nat, seq<byte>) -> S

    constructor (state: S, onRead: (S, nat, nat) -> (S, nat -> byte), onWrite: (S, nat, seq<byte>) -> S)
      ensures this.state == state && this.onRead == onRead && this.onWrite == onWrite
    {
      this.state, this.onRead, this.onWrite := state, onRead, onWrite;
    }

    method Read(offset: nat, data: array<byte>)
      modifies this, data
      ensures state == onRead(old(state), offset, data.Length).0
      ensures forall i :: 0 <= i < data.Length ==> data[i] == onRead(old(state), offset, data.Length).1(i)
    {
      var (after, fill) := onRead(state, offset, data.Length);
      state := after;
      forall i | 0 <= i < data.Length {
        data[i] := fill(i);
      }
    }

    method Write(offset: nat, data: seq<byte>)
      modifies this
      ensures state == onWrite(old(state), offset, data)
    {
      state := onWrite(state, offset, data);
    }
  }

  class Bus<S> {
    var entries: map<u64, Entry<BusDevice<S>>>

    constructor ()
      ensures entries == map[] == Run<BusDevice<S>>([])
    {
      entries := map[];
    }

    ghost function Devices(): set<BusDevice<S>>
      reads this
    {
      set b | b in entries :: entries[b].device
    }

    /** A refused registration leaves the bus as it was. */
    method Register(base: u64, len: u64, device: BusDevice<S>) returns (r: Result<(), BusError>)
      modifies this
      ensures entries == After(old(entries), Request(base, len, device))
      ensures r == match Admit(old(entries), base, len, device)
                   case Ok(_) => Ok(())
                   case Err(e) => Err(e)
    {
      if len == 0 {
        return Err(ZeroLength);
      }
      var end := if base + len > TOP then TOP else base + len;
      var prev := Below(entries.Keys, base);
      if prev.Some? && Wrap64(prev.value + entries[prev.value].len) > base {
        return Err(Overlap(base, len));
      }
      var next := Above(entries.Keys, base);
      if next.Some? && next.value < end {
        return Err(Overlap(base, len));
      }
      entries := entries[base := Entry(len, device)];
      r := Ok(());
    }

    method Lookup(addr: u64) returns (r: Option<u64>)
      ensures r == Claimant(entries, addr)
    {
      var prev := Below(entries.Keys, addr);
      if prev.None? {
        return None;
      }
      r := if addr < Wrap64(prev.value + entries[prev.value].len) then prev else None;
    }

    /** A read reaches the device that claims the address and no other; unclaimed addresses read
        as all ones. */
    method Read(addr: u64, data: array<byte>)
      modifies Devices(), data
      ensures match Claimant(entries, addr)
              case Some(b) =>
                var d := entries[b].device;
                var (after, fill) := d.onRead(old(d.state), addr - b, data.Length);
                && d.state == after
                && (forall i :: 0 <= i < data.Length ==> data[i] == fill(i))
                && forall o :: o in Devices() && o != d ==> o.state == old(o.state)
              case None =>
                && (forall i :: 0 <= i < data.Length ==> data[i] == 0xFF)
                && forall o :: o in Devices() ==> o.state == old(o.state)
    {
      var claimed := Lookup(addr);
      if claimed.Some? {
        entries[claimed.value].device.Read(addr - claimed.value, data);
      } else {
        forall i | 0 <= i < data.Length {
          data[i] := 0xFF;
        }
      }
    }

    /** A write reaches the device that claims the address; others are dropped. */
    method Write(addr: u64, data: seq<byte>)
      modifies Devices()
      ensures match Claimant(entries, addr)
              case Some(b) =>
                var d := entries[b].device;
                && d.state == d.onWrite(old(d.state), addr - b, data)
                && forall o :: o in Devices() && o != d ==> o.state == old(o.state)
              case None => forall o :: o in Devices() ==> o.state == old(o.state)
    {
      var claimed := Lookup(addr);
      if claimed.Some? {
        entries[claimed.value].device.Write(addr - claimed.value, data);
      }
    }
  }
}
