/** The aarch64 producer (crates/tb-boot/src/aarch64.rs): the boot block in guest RAM, read back
    by the consumer's readers. `ram[0]` is the byte at RAM_BASE. */
module BootProducer {
  import opened Words
  import opened Layout
  import opened BootHandoff

  const RAM_BASE: u64 := 0x4000_0000
  const IMAGE_LMA: u64 := 0x4008_0000
  const BOOT_INFO_ADDR: u64 := 0x4000_1000
  const MEM_REGIONS_ADDR: u64 := 0x4000_1040
  const CMDLINE_ADDR: u64 := 0x4000_1800

  /** The core-register identifiers of the KVM ABI; the base has its low 16 bits clear. */
  const REG_CORE_BASE: u64 := 0x6030_0000_0010_0000
  const REG_X0: u64 := REG_CORE_BASE
  const REG_X1: u64 := REG_CORE_BASE + 0x02
  const REG_X2: u64 := REG_CORE_BASE + 0x04
  const REG_X3: u64 := REG_CORE_BASE + 0x06
  const REG_PC: u64 := REG_CORE_BASE + 0x40
  const REG_PSTATE: u64 := REG_CORE_BASE + 0x42
  const PSTATE_EL1H_DAIF: u64 := 0x3C5

  datatype RegWrite = RegWrite(id: u64, value: u64)

  datatype Handoff = Handoff(bootInfoAddr: u64, info: BootInfo, regs: seq<RegWrite>)

  datatype HandoffError = TooManyRegions | CmdlineTooLong | RamTooSmall

  /** Writes `b` at a guest address, or refuses and leaves RAM alone. */
  function WriteAt(ram: seq<byte>, gpa: u64, b: seq<byte>): (r: (seq<byte>, bool))
    ensures |r.0| == |ram|
  {
    if gpa < RAM_BASE || gpa - RAM_BASE + |b| > |ram| then (ram, false)
    else (Splice(ram, gpa - RAM_BASE, b), true)
  }

  /** Writes the regions from index `i` on, until one does not fit. */
  function WriteRegions(ram: seq<byte>, rs: seq<MemRegion>, i: nat): (r: (seq<byte>, bool))
    requires i <= |rs| && MEM_REGIONS_ADDR + |rs| * REGION_SIZE <= CMDLINE_ADDR
    ensures |r.0| == |ram|
    decreases |rs| - i
  {
    if i == |rs| then (ram, true) else
    var (ram1, ok) := WriteAt(ram, MEM_REGIONS_ADDR + i * REGION_SIZE, RegionBytes(rs[i]));
    if !ok then (ram1, false) else WriteRegions(ram1, rs, i + 1)
  }

  function NewInfo(rs: seq<MemRegion>, cmdline: seq<byte>, entry: u64, flags: u32): BootInfo
    requires |rs| < TWO64 && |cmdline| < TWO64
  {
    BootInfo(BOOT_MAGIC, BOOT_VERSION, flags, MEM_REGIONS_ADDR, |rs|, CMDLINE_ADDR, |cmdline|, entry)
  }

  /** RAM after the call, and its result. */
  function Build(ram: seq<byte>, rs: seq<MemRegion>, cmdline: seq<byte>, entry: u64, flags: u32)
    : (r: (seq<byte>, Result<Handoff, HandoffError>))
    ensures |r.0| == |ram|
  {
    if MEM_REGIONS_ADDR + |rs| * REGION_SIZE > CMDLINE_ADDR then (ram, Err(TooManyRegions)) else
    if CMDLINE_ADDR + |cmdline| + 1 > IMAGE_LMA then (ram, Err(CmdlineTooLong)) else
    var (ram1, ok1) := WriteRegions(ram, rs, 0);
    if !ok1 then (ram1, Err(RamTooSmall)) else
    var (ram2, ok2) := WriteAt(ram1, CMDLINE_ADDR, cmdline);
    if !ok2 then (ram2, Err(RamTooSmall)) else
    var (ram3, ok3) := WriteAt(ram2, CMDLINE_ADDR + |cmdline|, [0]);
    if !ok3 then (ram3, Err(RamTooSmall)) else
    var info := NewInfo(rs, cmdline, entry, flags);
    var (ram4, ok4) := WriteAt(ram3, BOOT_INFO_ADDR, InfoBytes(info));
    if !ok4 then (ram4, Err(RamTooSmall)) else
    (ram4, Ok(Handoff(BOOT_INFO_ADDR, info,
                      [RegWrite(REG_X0, BOOT_INFO_ADDR), RegWrite(REG_X1, 0), RegWrite(REG_X2, 0),
                       RegWrite(REG_X3, 0), RegWrite(REG_PC, entry), RegWrite(REG_PSTATE, PSTATE_EL1H_DAIF)])))
  }

  // ---- In place ------------------------------------------------------------------------------

  method WriteInto(ram: array<byte>, gpa: u64, b: seq<byte>) returns (ok: bool)
    modifies ram
    ensures (ram[..], ok) == WriteAt(old(ram[..]), gpa, b)
  {
    hide Splice;
    if gpa < RAM_BASE {
      return false;
    }
    var off := gpa - RAM_BASE;
    if off + |b| > ram.Length {
      return false;
    }
    CopyBytes(ram, off, b);
    ok := true;
  }

  method BuildHandoffFlagged(ram: array<byte>, rs: seq<MemRegion>, cmdline: seq<byte>, entry: u64, flags: u32)
    returns (r: Result<Handoff, HandoffError>)
    modifies ram
    ensures (ram[..], r) == Build(old(ram[..]), rs, cmdline, entry, flags)
  {
    hide WriteAt, RegionBytes, InfoBytes;
    if MEM_REGIONS_ADDR + |rs| * REGION_SIZE > CMDLINE_ADDR {
      return Err(TooManyRegions);
    }
    if CMDLINE_ADDR + |cmdline| + 1 > IMAGE_LMA {
      return Err(CmdlineTooLong);
    }
    var ok: bool;
    for i := 0 to |rs|
      invariant WriteRegions(ram[..], rs, i) == WriteRegions(old(ram[..]), rs, 0)
    {
      var b := RegionToBytes(rs[i]);
      ok := WriteInto(ram, MEM_REGIONS_ADDR + i * REGION_SIZE, b[..]);
      if !ok {
        return Err(RamTooSmall);
      }
    }
    ok := WriteInto(ram, CMDLINE_ADDR, cmdline);
    if !ok {
      return Err(RamTooSmall);
    }
    ok := WriteInto(ram, CMDLINE_ADDR + |cmdline|, [0]);
    if !ok {
      return Err(RamTooSmall);
    }
    var info := NewInfo(rs, cmdline, entry, flags);
    var b := InfoToBytes(info);
    ok := WriteInto(ram, BOOT_INFO_ADDR, b[..]);
    if !ok {
      return Err(RamTooSmall);
    }
    r := Ok(Handoff(BOOT_INFO_ADDR, info,
                    [RegWrite(REG_X0, BOOT_INFO_ADDR), RegWrite(REG_X1, 0), RegWrite(REG_X2, 0),
                     RegWrite(REG_X3, 0), RegWrite(REG_PC, entry), RegWrite(REG_PSTATE, PSTATE_EL1H_DAIF)]));
  }

  /** `build_handoff`: no flags. */
  method BuildHandoff(ram: array<byte>, rs: seq<MemRegion>, cmdline: seq<byte>, entry: u64)
    returns (r: Result<Handoff, HandoffError>)
    modifies ram
    ensures (ram[..], r) == Build(old(ram[..]), rs, cmdline, entry, 0)
  {
    r := BuildHandoffFlagged(ram, rs, cmdline, entry, 0);
  }

  // ---- What the block says ------------------------------------------------------------------------

  /** Offsets into RAM. */
  const INFO_AT := BOOT_INFO_ADDR - RAM_BASE
  const REGIONS_AT := MEM_REGIONS_ADDR - RAM_BASE
  const CMDLINE_AT := CMDLINE_ADDR - RAM_BASE

  predicate RegionsFit(rs: seq<MemRegion>) {
    MEM_REGIONS_ADDR + |rs| * REGION_SIZE <= CMDLINE_ADDR
  }

  predicate CmdlineFits(cmdline: seq<byte>) {
    CMDLINE_ADDR + |cmdline| + 1 <= IMAGE_LMA
  }

  predicate RamFits(size: nat, cmdline: seq<byte>) {
    CMDLINE_AT + |cmdline| + 1 <= size
  }

  /** The boot block over `ram`, all pieces in place. */
  function Block(ram: seq<byte>, rs: seq<MemRegion>, cmdline: seq<byte>, entry: u64, flags: u32): seq<byte>
    requires RegionsFit(rs) && CmdlineFits(cmdline) && RamFits(|ram|, cmdline)
  {
    RegionArrayLength(rs);
    var ram1 := Splice(ram, REGIONS_AT, RegionArray(rs));
    var ram2 := Splice(ram1, CMDLINE_AT, cmdline + [0]);
    Splice(ram2, INFO_AT, InfoBytes(NewInfo(rs, cmdline, entry, flags)))
  }

  lemma {:induction false} RegionsLand(ram: seq<byte>, rs: seq<MemRegion>, i: nat)
    requires RegionsFit(rs) && i <= |rs| && REGIONS_AT + |rs| * REGION_SIZE <= |ram|
    ensures |RegionArray(rs[i..])| == (|rs| - i) * REGION_SIZE
    ensures WriteRegions(ram, rs, i) == (Splice(ram, REGIONS_AT + i * REGION_SIZE, RegionArray(rs[i..])), true)
    decreases |rs| - i
  {
    hide Splice, RegionBytes;
    RegionArrayLength(rs[i..]);
    var at := REGIONS_AT + i * REGION_SIZE;
    if i == |rs| {
      SpliceTwice(ram, at, [], []);
    } else {
      var b := RegionBytes(rs[i]);
      RegionsLand(Splice(ram, at, b), rs, i + 1);
      assert rs[i..][1..] == rs[i + 1..];
      SpliceTwice(ram, at, b, RegionArray(rs[i + 1..]));
    }
  }

  /** The handoff is built exactly when the regions, the command line and the block fit; the
      errors are tried in that order. */
  lemma BuildsIff(ram: seq<byte>, rs: seq<MemRegion>, cmdline: seq<byte>, entry: u64, flags: u32)
    ensures var r := Build(ram, rs, cmdline, entry, flags).1;
            && (r.Ok? <==> RegionsFit(rs) && CmdlineFits(cmdline) && RamFits(|ram|, cmdline))
            && (r == Err(TooManyRegions) <==> !RegionsFit(rs))
            && (r == Err(CmdlineTooLong) <==> RegionsFit(rs) && !CmdlineFits(cmdline))
            && (r == Err(RamTooSmall) <==> RegionsFit(rs) && CmdlineFits(cmdline) && !RamFits(|ram|, cmdline))
    ensures RegionsFit(rs) <==> |rs| <= 82
    ensures CmdlineFits(cmdline) <==> |cmdline| <= 518_143
    ensures RamFits(|ram|, cmdline) <==> 0x1800 + |cmdline| < |ram|
  {
    hide Splice, WriteRegions;
    if RegionsFit(rs) && CmdlineFits(cmdline) && RamFits(|ram|, cmdline) {
      RegionsLand(ram, rs, 0);
    }
  }

  lemma BlockIsBuilt(ram: seq<byte>, rs: seq<MemRegion>, cmdline: seq<byte>, entry: u64, flags: u32)
    requires RegionsFit(rs) && CmdlineFits(cmdline) && RamFits(|ram|, cmdline)
    ensures Build(ram, rs, cmdline, entry, flags).0 == Block(ram, rs, cmdline, entry, flags)
  {
    hide Splice, WriteRegions, InfoBytes;
    RegionsLand(ram, rs, 0);
    assert rs[0..] == rs;
    SpliceTwice(WriteRegions(ram, rs, 0).0, CMDLINE_AT, cmdline, [0]);
  }

  /** The address lies in one of the pieces of the block. */
  predicate InBlock(a: nat, rs: seq<MemRegion>, cmdline: seq<byte>) {
    || INFO_AT <= a < INFO_AT + INFO_SIZE
    || REGIONS_AT <= a < REGIONS_AT + |rs| * REGION_SIZE
    || CMDLINE_AT <= a < CMDLINE_AT + |cmdline| + 1
  }

  /** Whatever the outcome, only the block's own bytes are written. */
  lemma BuildSparesTheRest(ram: seq<byte>, rs: seq<MemRegion>, cmdline: seq<byte>, entry: u64, flags: u32, a: nat)
    requires a < |ram| && !InBlock(a, rs, cmdline)
    ensures Build(ram, rs, cmdline, entry, flags).0[a] == ram[a]
  {
    hide WriteAt, WriteRegions, RegionArray;
    if RegionsFit(rs) && CmdlineFits(cmdline) {
      RegionsSpareTheRest(ram, rs, 0, a);
      var ram1 := WriteRegions(ram, rs, 0).0;
      WriteSparesTheRest(ram1, CMDLINE_ADDR, cmdline, a);
      var ram2 := WriteAt(ram1, CMDLINE_ADDR, cmdline).0;
      WriteSparesTheRest(ram2, CMDLINE_ADDR + |cmdline|, [0], a);
      var ram3 := WriteAt(ram2, CMDLINE_ADDR + |cmdline|, [0]).0;
      WriteSparesTheRest(ram3, BOOT_INFO_ADDR, InfoBytes(NewInfo(rs, cmdline, entry, flags)), a);
    }
  }

  /** The kernel image and everything above it is never touched. */
  lemma ImageIsSpared(ram: seq<byte>, rs: seq<MemRegion>, cmdline: seq<byte>, entry: u64, flags: u32, a: nat)
    requires IMAGE_LMA - RAM_BASE <= a < |ram|
    ensures Build(ram, rs, cmdline, entry, flags).0[a] == ram[a]
  {
    hide WriteAt, WriteRegions, InfoBytes;
    if RegionsFit(rs) && CmdlineFits(cmdline) {
      BuildSparesTheRest(ram, rs, cmdline, entry, flags, a);
    }
  }

  lemma WriteSparesTheRest(ram: seq<byte>, gpa: u64, b: seq<byte>, a: nat)
    requires a < |ram| && gpa >= RAM_BASE && !(gpa - RAM_BASE <= a < gpa - RAM_BASE + |b|)
    ensures WriteAt(ram, gpa, b).0[a] == ram[a]
  {
  }

  lemma {:induction false} RegionsSpareTheRest(ram: seq<byte>, rs: seq<MemRegion>, i: nat, a: nat)
    requires RegionsFit(rs) && i <= |rs| && a < |ram| && !(REGIONS_AT <= a < REGIONS_AT + |rs| * REGION_SIZE)
    ensures WriteRegions(ram, rs, i).0[a] == ram[a]
    decreases |rs| - i
  {
    hide WriteAt, RegionBytes;
    if i < |rs| {
      var b := RegionBytes(rs[i]);
      WriteSparesTheRest(ram, MEM_REGIONS_ADDR + i * REGION_SIZE, b, a);
      RegionsSpareTheRest(WriteAt(ram, MEM_REGIONS_ADDR + i * REGION_SIZE, b).0, rs, i + 1, a);
    }
  }

  /** Every piece of the block stands where it was put. */
  lemma BlockPieces(ram: seq<byte>, rs: seq<MemRegion>, cmdline: seq<byte>, entry: u64, flags: u32)
    requires RegionsFit(rs) && CmdlineFits(cmdline) && RamFits(|ram|, cmdline)
    ensures var block := Block(ram, rs, cmdline, entry, flags);
            && |block| == |ram|
            && block[INFO_AT..INFO_AT + INFO_SIZE] == InfoBytes(NewInfo(rs, cmdline, entry, flags))
            && block[REGIONS_AT..REGIONS_AT + |rs| * REGION_SIZE] == RegionArray(rs)
            && block[CMDLINE_AT..CMDLINE_AT + |cmdline| + 1] == cmdline + [0]
  {
    hide Splice, InfoBytes, RegionArray;
    RegionArrayLength(rs);
    var ram1 := Splice(ram, REGIONS_AT, RegionArray(rs));
    var ram2 := Splice(ram1, CMDLINE_AT, cmdline + [0]);
    var info := InfoBytes(NewInfo(rs, cmdline, entry, flags));
    SplicedStands(ram, REGIONS_AT, RegionArray(rs));
    SplicedStands(ram1, CMDLINE_AT, cmdline + [0]);
    SplicedStands(ram2, INFO_AT, info);
    SplicedElsewhere(ram1, CMDLINE_AT, cmdline + [0], REGIONS_AT, |rs| * REGION_SIZE);
    SplicedElsewhere(ram2, INFO_AT, info, REGIONS_AT, |rs| * REGION_SIZE);
    SplicedElsewhere(ram2, INFO_AT, info, CMDLINE_AT, |cmdline| + 1);
  }

  lemma SplicedStands(s: seq<byte>, at: nat, b: seq<byte>)
    requires at + |b| <= |s|
    ensures Splice(s, at, b)[at..at + |b|] == b
  {
  }

  lemma SplicedElsewhere(s: seq<byte>, at: nat, b: seq<byte>, off: nat, n: nat)
    requires at + |b| <= |s| && off + n <= |s| && (off + n <= at || at + |b| <= off)
    ensures Splice(s, at, b)[off..off + n] == s[off..off + n]
  {
  }

  /** The round trip: at the address in X0, 4 KiB into RAM, the validating reader gets the structure
      with the flags, the entry and the counts that were passed in; through its pointers the region
      iterator gets the regions, and the command line stands there with its NUL. */
  lemma HandoffRoundTrip(ram: seq<byte>, rs: seq<MemRegion>, cmdline: seq<byte>, entry: u64, flags: u32)
    requires Build(ram, rs, cmdline, entry, flags).1.Ok?
    ensures var (after, r) := Build(ram, rs, cmdline, entry, flags);
            && |after| >= 0x1800
            && r.value.bootInfoAddr == 0x4000_1000
            && r.value.regs[0] == RegWrite(0x6030_0000_0010_0000, 0x4000_1000)
            && r.value.regs[1..] == [RegWrite(0x6030_0000_0010_0002, 0), RegWrite(0x6030_0000_0010_0004, 0),
                                     RegWrite(0x6030_0000_0010_0006, 0), RegWrite(0x6030_0000_0010_0040, entry),
                                     RegWrite(0x6030_0000_0010_0042, 0x3C5)]
            && var read := ReadValidated(after[0x1000..]);
            && read == Ok(r.value.info)
            && var info := read.value;
            && info.magic == 0x3056_544F_4F42_5900 && info.version == 0
            && info.flags == flags && info.kernelEntry == entry
            && info.memRegionsPtr == 0x4000_1040 && info.memRegionsLen == |rs|
            && RegionsOf(after[0x1040..], info.memRegionsLen) == rs
            && info.cmdlinePtr == 0x4000_1800 && info.cmdlineLen == |cmdline|
            && 0x1800 + |cmdline| < |after|
            && after[0x1800..][..info.cmdlineLen] == cmdline
            && after[0x1800 + info.cmdlineLen] == 0
  {
    hide Block, InfoBytes, RegionArray, RegionsOf, ReadValidated, WriteAt, WriteRegions;
    BuildsIff(ram, rs, cmdline, entry, flags);
    BlockIsBuilt(ram, rs, cmdline, entry, flags);
    BlockPieces(ram, rs, cmdline, entry, flags);
    RegionArrayLength(rs);
    var after := Build(ram, rs, cmdline, entry, flags).0;
    var info := NewInfo(rs, cmdline, entry, flags);
    assert after[INFO_AT..] == InfoBytes(info) + after[INFO_AT + INFO_SIZE..] by {
      assert after[INFO_AT..] == after[INFO_AT..INFO_AT + INFO_SIZE] + after[INFO_AT + INFO_SIZE..];
    }
    ReadBack(info, after[INFO_AT + INFO_SIZE..]);
    var n := |rs| * REGION_SIZE;
    assert after[REGIONS_AT..] == RegionArray(rs) + after[REGIONS_AT + n..] by {
      assert after[REGIONS_AT..] == after[REGIONS_AT..REGIONS_AT + n] + after[REGIONS_AT + n..];
    }
    RegionsRoundTrip(rs, after[REGIONS_AT + n..]);
    CmdlineStands(after, cmdline);
  }

  lemma ReadBack(info: BootInfo, rest: seq<byte>)
    requires info.magic == BOOT_MAGIC && info.version == BOOT_VERSION
    ensures ReadValidated(InfoBytes(info) + rest) == Ok(info)
  {
    hide InfoBytes, ReadInfo;
    InfoRoundTrip(info, rest);
  }

  lemma CmdlineStands(after: seq<byte>, cmdline: seq<byte>)
    requires CMDLINE_AT + |cmdline| + 1 <= |after|
    requires after[CMDLINE_AT..CMDLINE_AT + |cmdline| + 1] == cmdline + [0]
    ensures after[CMDLINE_AT..][..|cmdline|] == cmdline
    ensures after[CMDLINE_AT + |cmdline|] == 0
  {
    var piece := after[CMDLINE_AT..CMDLINE_AT + |cmdline| + 1];
    assert after[CMDLINE_AT..][..|cmdline|] == piece[..|cmdline|];
    assert after[CMDLINE_AT + |cmdline|] == piece[|cmdline|];
  }
}
