/** The boot handoff: the structures, their serialised forms and their readers
    (crates/tb-boot/src/lib.rs). */
module BootHandoff {
  import opened Words
  import opened Layout

  /** "\0YBOOTV0", read as a little-endian number. */
  const BOOT_MAGIC: u64 := 0x3056_544F_4F42_5900
  const BOOT_VERSION: u32 := 0

  const REGION_SIZE := 24
  const INFO_SIZE := 56

  datatype MemRegion = MemRegion(base: u64, len: u64, kind: u32, pad: u32)

  datatype BootInfo = BootInfo(
    magic: u64, version: u32, flags: u32,
    memRegionsPtr: u64, memRegionsLen: u64,
    cmdlinePtr: u64, cmdlineLen: u64, kernelEntry: u64)

  datatype BootError =
    | BadMagic(found64: u64)
    | UnsupportedVersion(found32: u32)
    | ShortBuffer(need: nat, got: nat)

  // ---- Regions -----------------------------------------------------------------------------

  function RegionFields(r: MemRegion): seq<seq<byte>> {
    [Le(r.base, 8), Le(r.len, 8), Le(r.kind, 4), Le(r.pad, 4)]
  }

  function RegionBytes(r: MemRegion): (b: seq<byte>)
    ensures |b| == REGION_SIZE
  {
    RegionOffsets(r);
    Concat(RegionFields(r))
  }

  function ReadRegion(b: seq<byte>): Result<MemRegion, BootError> {
    if |b| < REGION_SIZE then Err(ShortBuffer(REGION_SIZE, |b|))
    else Ok(MemRegion(U64At(b, 0), U64At(b, 8), U32At(b, 16), U32At(b, 20)))
  }

  lemma RegionOffsets(r: MemRegion)
    ensures var f := RegionFields(r);
            && Offset(f, 0) == 0 && Offset(f, 1) == 8 && Offset(f, 2) == 16 && Offset(f, 3) == 20 && Offset(f, 4) == 24
            && |Concat(f)| == REGION_SIZE
  {
    hide Le, Concat;
    var f := RegionFields(r);
    OffsetStep(f, 0);
    OffsetStep(f, 1);
    OffsetStep(f, 2);
    OffsetStep(f, 3);
    ConcatLength(f);
  }

  /** Reading a written region gives it back, whatever follows it. */
  lemma RegionRoundTrip(r: MemRegion, rest: seq<byte>)
    ensures ReadRegion(RegionBytes(r) + rest) == Ok(r)
  {
    hide Le, Concat, Offset, NumberAt;
    var f := RegionFields(r);
    RegionOffsets(r);
    WordBounds();
    NumberFieldAt(f, 0, r.base, 8);
    NumberFieldAt(f, 1, r.len, 8);
    NumberFieldAt(f, 2, r.kind, 4);
    NumberFieldAt(f, 3, r.pad, 4);
    var b := RegionBytes(r);
    NumberInPrefix(b, rest, 0, 8);
    NumberInPrefix(b, rest, 8, 8);
    NumberInPrefix(b, rest, 16, 4);
    NumberInPrefix(b, rest, 20, 4);
  }

  /** Writing a region that was read gives back its 24 bytes. */
  lemma RegionBytesRead(b: seq<byte>)
    requires ReadRegion(b).Ok?
    ensures RegionBytes(ReadRegion(b).value) == b[..REGION_SIZE]
  {
    hide Le, Concat, Offset, NumberAt;
    var f := RegionFields(ReadRegion(b).value);
    RegionOffsets(ReadRegion(b).value);
    NumberWritesBack(b, 0, 8);
    NumberWritesBack(b, 8, 8);
    NumberWritesBack(b, 16, 4);
    NumberWritesBack(b, 20, 4);
    AssembledIs(b[..REGION_SIZE], f);
  }

  /** The regions an iterator over `b` still yields. */
  function RegionsOf(b: seq<byte>, remaining: nat): seq<MemRegion>
    decreases remaining
  {
    if remaining == 0 || ReadRegion(b).Err? then []
    else [ReadRegion(b).value] + RegionsOf(b[REGION_SIZE..], remaining - 1)
  }

  class Regions {
    var bytes: seq<byte>
    var remaining: nat

    /** `regions_from_bytes`. */
    constructor (bytes: seq<byte>, count: nat)
      ensures Rest() == RegionsOf(bytes, count)
    {
      this.bytes, remaining := bytes, count;
    }

    /** What is still to come. */
    ghost function Rest(): seq<MemRegion>
      reads this
    {
      RegionsOf(bytes, remaining)
    }

    method Next() returns (r: Option<MemRegion>)
      modifies this
      ensures r.None? <==> old(Rest()) == []
      ensures r.Some? ==> old(Rest()) == [r.value] + Rest()
      ensures r.None? ==> Rest() == []
    {
      if remaining == 0 {
        return None;
      }
      var region := ReadRegion(bytes);
      if region.Err? {
        return None;
      }
      bytes := bytes[REGION_SIZE..];
      remaining := remaining - 1;
      r := Some(region.value);
    }

    /** The hint is exact. */
    method SizeHint() returns (n: nat)
      ensures n == |Rest()|
    {
      RegionsCount(bytes, remaining);
      var max := |bytes| / REGION_SIZE;
      n := if remaining < max then remaining else max;
    }
  }

  /** The iterator yields as many regions as were asked for, or as many as the buffer holds. */
  lemma {:induction false} RegionsCount(b: seq<byte>, n: nat)
    ensures |RegionsOf(b, n)| == if n < |b| / REGION_SIZE then n else |b| / REGION_SIZE
    decreases n
  {
    hide ReadRegion;
    RegionReads(b);
    if n > 0 && |b| >= REGION_SIZE {
      RegionsCount(b[REGION_SIZE..], n - 1);
    }
  }

  lemma RegionReads(b: seq<byte>)
    ensures ReadRegion(b).Ok? <==> |b| >= REGION_SIZE
  {
  }

  function RegionArray(rs: seq<MemRegion>): seq<byte> {
    if rs == [] then [] else RegionBytes(rs[0]) + RegionArray(rs[1..])
  }

  lemma {:induction false} RegionArrayLength(rs: seq<MemRegion>)
    ensures |RegionArray(rs)| == |rs| * REGION_SIZE
  {
    if rs != [] {
      RegionArrayLength(rs[1..]);
    }
  }

  /** Iterating over a packed array gives the regions it was packed from. */
  lemma {:induction false} RegionsRoundTrip(rs: seq<MemRegion>, rest: seq<byte>)
    ensures RegionsOf(RegionArray(rs) + rest, |rs|) == rs
  {
    hide ReadRegion, RegionBytes;
    if rs != [] {
      var tail := RegionArray(rs[1..]) + rest;
      RegionRoundTrip(rs[0], tail);
      var all := RegionArray(rs) + rest;
      assert all == RegionBytes(rs[0]) + tail;
      assert all[REGION_SIZE..] == tail;
      RegionsRoundTrip(rs[1..], rest);
    }
  }

  // ---- The root structure ---------------------------------------------------------------------

  function InfoFields(i: BootInfo): seq<seq<byte>> {
    [Le(i.magic, 8), Le(i.version, 4), Le(i.flags, 4), Le(i.memRegionsPtr, 8), Le(i.memRegionsLen, 8),
     Le(i.cmdlinePtr, 8), Le(i.cmdlineLen, 8), Le(i.kernelEntry, 8)]
  }

  function InfoBytes(i: BootInfo): (b: seq<byte>)
    ensures |b| == INFO_SIZE
  {
    InfoOffsets(i);
    Concat(InfoFields(i))
  }

  function ReadInfo(b: seq<byte>): Result<BootInfo, BootError> {
    if |b| < INFO_SIZE then Err(ShortBuffer(INFO_SIZE, |b|))
    else Ok(BootInfo(U64At(b, 0), U32At(b, 8), U32At(b, 12), U64At(b, 16), U64At(b, 24),
                     U64At(b, 32), U64At(b, 40), U64At(b, 48)))
  }

  function Validate(i: BootInfo): Result<(), BootError> {
    if i.magic != BOOT_MAGIC then Err(BadMagic(i.magic))
    else if i.version != BOOT_VERSION then Err(UnsupportedVersion(i.version))
    else Ok(())
  }

  function ReadValidated(b: seq<byte>): Result<BootInfo, BootError> {
    var info := ReadInfo(b);
    if info.Err? then info else
    var ok := Validate(info.value);
    if ok.Err? then Err(ok.error) else info
  }

  lemma InfoOffsets(i: BootInfo)
    ensures var f := InfoFields(i);
            && Offset(f, 0) == 0 && Offset(f, 1) == 8 && Offset(f, 2) == 12 && Offset(f, 3) == 16 && Offset(f, 4) == 24
            && Offset(f, 5) == 32 && Offset(f, 6) == 40 && Offset(f, 7) == 48 && Offset(f, 8) == 56
            && |Concat(f)| == INFO_SIZE
  {
    hide Le, Concat;
    var f := InfoFields(i);
    OffsetStep(f, 0);
    OffsetStep(f, 1);
    OffsetStep(f, 2);
    OffsetStep(f, 3);
    OffsetStep(f, 4);
    OffsetStep(f, 5);
    OffsetStep(f, 6);
    OffsetStep(f, 7);
    ConcatLength(f);
  }

  lemma InfoFieldsRead(i: BootInfo)
    ensures var b := InfoBytes(i);
            && NumberAt(b, 0, 8) == i.magic && NumberAt(b, 8, 4) == i.version && NumberAt(b, 12, 4) == i.flags
            && NumberAt(b, 16, 8) == i.memRegionsPtr && NumberAt(b, 24, 8) == i.memRegionsLen
            && NumberAt(b, 32, 8) == i.cmdlinePtr && NumberAt(b, 40, 8) == i.cmdlineLen
            && NumberAt(b, 48, 8) == i.kernelEntry
  {
    hide Le, Concat, Offset, NumberAt;
    var f := InfoFields(i);
    InfoOffsets(i);
    WordBounds();
    NumberFieldAt(f, 0, i.magic, 8);
    NumberFieldAt(f, 1, i.version, 4);
    NumberFieldAt(f, 2, i.flags, 4);
    NumberFieldAt(f, 3, i.memRegionsPtr, 8);
    NumberFieldAt(f, 4, i.memRegionsLen, 8);
    NumberFieldAt(f, 5, i.cmdlinePtr, 8);
    NumberFieldAt(f, 6, i.cmdlineLen, 8);
    NumberFieldAt(f, 7, i.kernelEntry, 8);
  }

  /** Reading a written structure gives it back, whatever follows it; so it is accepted exactly
      when its magic and version are the contract's. */
  lemma InfoRoundTrip(i: BootInfo, rest: seq<byte>)
    ensures ReadInfo(InfoBytes(i) + rest) == Ok(i)
    ensures ReadValidated(InfoBytes(i) + rest).Ok? <==> i.magic == BOOT_MAGIC && i.version == BOOT_VERSION
  {
    hide InfoBytes, NumberAt;
    InfoFieldsRead(i);
    var b := InfoBytes(i);
    NumberInPrefix(b, rest, 0, 8);
    NumberInPrefix(b, rest, 8, 4);
    NumberInPrefix(b, rest, 12, 4);
    NumberInPrefix(b, rest, 16, 8);
    NumberInPrefix(b, rest, 24, 8);
    NumberInPrefix(b, rest, 32, 8);
    NumberInPrefix(b, rest, 40, 8);
    NumberInPrefix(b, rest, 48, 8);
  }

  /** Writing a structure that was read gives back its 56 bytes. */
  lemma InfoBytesRead(b: seq<byte>)
    requires ReadInfo(b).Ok?
    ensures InfoBytes(ReadInfo(b).value) == b[..INFO_SIZE]
  {
    hide Le, Concat, Offset, NumberAt;
    var f := InfoFields(ReadInfo(b).value);
    InfoOffsets(ReadInfo(b).value);
    NumberWritesBack(b, 0, 8);
    NumberWritesBack(b, 8, 4);
    NumberWritesBack(b, 12, 4);
    NumberWritesBack(b, 16, 8);
    NumberWritesBack(b, 24, 8);
    NumberWritesBack(b, 32, 8);
    NumberWritesBack(b, 40, 8);
    NumberWritesBack(b, 48, 8);
    AssembledIs(b[..INFO_SIZE], f);
  }

  /** The 24 bytes of a region, field by field. */
  lemma RegionLayout(r: MemRegion)
    ensures RegionBytes(r) == Le(r.base, 8) + Le(r.len, 8) + Le(r.kind, 4) + Le(r.pad, 4)
  {
    hide Le;
    FourFields(RegionFields(r));
  }

  /** The 56 bytes of the root structure, field by field. */
  lemma InfoLayout(i: BootInfo)
    ensures InfoBytes(i) == Le(i.magic, 8) + Le(i.version, 4) + Le(i.flags, 4) + Le(i.memRegionsPtr, 8)
                            + Le(i.memRegionsLen, 8) + Le(i.cmdlinePtr, 8) + Le(i.cmdlineLen, 8) + Le(i.kernelEntry, 8)
  {
    hide Le;
    var f := InfoFields(i);
    FourFields(f[..4]);
    FourFields(f[4..]);
    SplitFields(f, 4);
  }

  /** What the validating reader says of any buffer: too short, another magic, another version, or the
      structure that the buffer starts with. */
  lemma ReadVerdicts(b: seq<byte>)
    ensures ReadValidated(b) == Err(ShortBuffer(56, |b|)) <==> |b| < 56
    ensures |b| >= 56 ==> ReadInfo(b).Ok? && InfoBytes(ReadInfo(b).value) == b[..56]
    ensures |b| >= 56 ==>
              var i := ReadInfo(b).value;
              && (i.magic != 0x3056_544F_4F42_5900 ==> ReadValidated(b) == Err(BadMagic(i.magic)))
              && (i.magic == 0x3056_544F_4F42_5900 && i.version != 0 ==>
                    ReadValidated(b) == Err(UnsupportedVersion(i.version)))
              && (i.magic == 0x3056_544F_4F42_5900 && i.version == 0 ==> ReadValidated(b) == Ok(i))
    ensures ReadRegion(b) == Err(ShortBuffer(24, |b|)) <==> |b| < 24
  {
    hide InfoBytes, NumberAt;
    if |b| >= 56 {
      InfoBytesRead(b);
    }
  }

  // ---- In place -----------------------------------------------------------------------------------

  method RegionToBytes(r: MemRegion) returns (out: array<byte>)
    ensures fresh(out) && out[..] == RegionBytes(r)
  {
    hide Le, Concat, Offset, Placed, Splice;
    ghost var f := RegionFields(r);
    RegionOffsets(r);
    out := new byte[REGION_SIZE](_ => 0);
    ghost var blank := out[..];
    NonePlaced(blank, f);
    PlaceNext(out[..], blank, f, 0);
    CopyBytes(out, 0, Le(r.base, 8));
    PlaceNext(out[..], blank, f, 1);
    CopyBytes(out, 8, Le(r.len, 8));
    PlaceNext(out[..], blank, f, 2);
    CopyBytes(out, 16, Le(r.kind, 4));
    PlaceNext(out[..], blank, f, 3);
    CopyBytes(out, 20, Le(r.pad, 4));
    AllPlaced(out[..], blank, f);
  }

  method InfoToBytes(i: BootInfo) returns (out: array<byte>)
    ensures fresh(out) && out[..] == InfoBytes(i)
  {
    hide Le, Concat, Offset, Placed, Splice;
    ghost var f := InfoFields(i);
    InfoOffsets(i);
    out := new byte[INFO_SIZE](_ => 0);
    ghost var blank := out[..];
    NonePlaced(blank, f);
    PlaceNext(out[..], blank, f, 0);
    CopyBytes(out, 0, Le(i.magic, 8));
    PlaceNext(out[..], blank, f, 1);
    CopyBytes(out, 8, Le(i.version, 4));
    PlaceNext(out[..], blank, f, 2);
    CopyBytes(out, 12, Le(i.flags, 4));
    PlaceNext(out[..], blank, f, 3);
    CopyBytes(out, 16, Le(i.memRegionsPtr, 8));
    PlaceNext(out[..], blank, f, 4);
    CopyBytes(out, 24, Le(i.memRegionsLen, 8));
    PlaceNext(out[..], blank, f, 5);
    CopyBytes(out, 32, Le(i.cmdlinePtr, 8));
    PlaceNext(out[..], blank, f, 6);
    CopyBytes(out, 40, Le(i.cmdlineLen, 8));
    PlaceNext(out[..], blank, f, 7);
    CopyBytes(out, 48, Le(i.kernelEntry, 8));
    AllPlaced(out[..], blank, f);
  }
}
