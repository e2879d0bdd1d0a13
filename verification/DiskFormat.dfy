/** The on-disk superblock and record frames, with their checksums
    (crates/tb-encode/src/blkfmt.rs). Decoders take whole 512-byte sectors. */
module DiskFormat {
  import opened Words
  import opened Layout
  import opened Fnv

  const SECTOR := 512
  const SB_VERSION: u32 := 1
  const SB_CKSUM_OFF := 504

  /** "YUVAMEM0" */
  const SB_MAGIC: seq<byte> := [0x59, 0x55, 0x56, 0x41, 0x4D, 0x45, 0x4D, 0x30]

  /** One number per region: episodic, semantic, working. */
  type PerRegion = s: seq<u64> | |s| == 3 witness [0, 0, 0]

  datatype Superblock = Superblock(version: u32, gen: u64, logHead: PerRegion, recordCount: PerRegion)

  function SuperblockFields(gen: u64, logHead: PerRegion, recordCount: PerRegion): seq<seq<byte>> {
    [SB_MAGIC, Le(SB_VERSION, 4), Zeros(4), Le(gen, 8),
     Le(logHead[0], 8), Le(logHead[1], 8), Le(logHead[2], 8),
     Le(recordCount[0], 8), Le(recordCount[1], 8), Le(recordCount[2], 8), Zeros(432)]
  }

  /** The fields, then the checksum over them. */
  function SuperblockSector(gen: u64, logHead: PerRegion, recordCount: PerRegion): seq<byte> {
    var body := Concat(SuperblockFields(gen, logHead, recordCount));
    body + Le(Fnv1a(W64, body), 8)
  }

  function SuperblockDecode(s: seq<byte>): Option<Superblock>
    requires |s| == SECTOR
  {
    if s[..8] != SB_MAGIC then None else
    var version := U32At(s, 8);
    if version != SB_VERSION then None else
    if Fnv1a(W64, s[..SB_CKSUM_OFF]) != U64At(s, SB_CKSUM_OFF) then None else
    Some(Superblock(version, U64At(s, 16),
                    [U64At(s, 24), U64At(s, 32), U64At(s, 40)],
                    [U64At(s, 48), U64At(s, 56), U64At(s, 64)]))
  }

  lemma SuperblockOffsets(gen: u64, logHead: PerRegion, recordCount: PerRegion)
    ensures var f := SuperblockFields(gen, logHead, recordCount);
            && Offset(f, 0) == 0 && Offset(f, 1) == 8 && Offset(f, 2) == 12 && Offset(f, 3) == 16
            && Offset(f, 4) == 24 && Offset(f, 5) == 32 && Offset(f, 6) == 40
            && Offset(f, 7) == 48 && Offset(f, 8) == 56 && Offset(f, 9) == 64
            && Offset(f, 10) == 72 && Offset(f, 11) == SB_CKSUM_OFF
  {
    hide Le, Zeros;
    var f := SuperblockFields(gen, logHead, recordCount);
    OffsetStep(f, 0);
    OffsetStep(f, 1);
    OffsetStep(f, 2);
    OffsetStep(f, 3);
    OffsetStep(f, 4);
    OffsetStep(f, 5);
    OffsetStep(f, 6);
    OffsetStep(f, 7);
    OffsetStep(f, 8);
    OffsetStep(f, 9);
    OffsetStep(f, 10);
  }

  /** Decoding what was encoded gives the checkpoint back. */
  lemma SuperblockRoundTrip(gen: u64, logHead: PerRegion, recordCount: PerRegion)
    ensures |SuperblockSector(gen, logHead, recordCount)| == SECTOR
    ensures SuperblockDecode(SuperblockSector(gen, logHead, recordCount))
         == Some(Superblock(SB_VERSION, gen, logHead, recordCount))
  {
    hide Concat, Offset, Le, FromLe, Fnv1a, SuperblockFields;
    var f := SuperblockFields(gen, logHead, recordCount);
    SuperblockOffsets(gen, logHead, recordCount);
    ConcatLength(f);
    var body := Concat(f);
    SuperblockFieldsRead(gen, logHead, recordCount);
    var s := SuperblockSector(gen, logHead, recordCount);
    assert s[..SB_CKSUM_OFF] == body && s[SB_CKSUM_OFF..SECTOR] == Le(Fnv1a(W64, body), 8);
    WordBounds();
    FromLeOfLe(Fnv1a(W64, body), 8);
    forall off: nat, n: nat | off + n <= SB_CKSUM_OFF
      ensures NumberAt(s, off, n) == NumberAt(body, off, n)
    {
      assert s[off..off + n] == body[off..off + n];
    }
    assert s[..8] == body[..8];
    assert logHead == [logHead[0], logHead[1], logHead[2]];
    assert recordCount == [recordCount[0], recordCount[1], recordCount[2]];
  }

  lemma SuperblockBody(gen: u64, logHead: PerRegion, recordCount: PerRegion)
    ensures Concat(SuperblockFields(gen, logHead, recordCount)) ==
            ([0x59, 0x55, 0x56, 0x41, 0x4D, 0x45, 0x4D, 0x30] + Le(1, 4) + Zeros(4) + Le(gen, 8))
            + (Le(logHead[0], 8) + Le(logHead[1], 8) + Le(logHead[2], 8) + Le(recordCount[0], 8))
            + (Le(recordCount[1], 8) + Le(recordCount[2], 8) + Zeros(432))
  {
    hide Le, Zeros, Concat;
    var f := SuperblockFields(gen, logHead, recordCount);
    SplitFields(f, 4);
    SplitFields(f[4..], 4);
    SplitFields(f[4..][4..], 1);
    FourFields(f[..4]);
    FourFields(f[4..][..4]);
    OneField(f[4..][4..][..1]);
    TwoFields(f[4..][4..][1..]);
    assert f[4..][4..][..1][0] == Le(recordCount[1], 8);
  }

  lemma OneField(f: seq<seq<byte>>)
    requires |f| == 1
    ensures Concat(f) == f[0]
  {
    assert f[1..] == [];
  }

  /** The sector byte for byte: "YUVAMEM0", version 1, reserved, generation, three log heads, three record
      counts, reserved, and at 504 the 64-bit checksum of all before it. */
  lemma SuperblockLayout(gen: u64, logHead: PerRegion, recordCount: PerRegion)
    ensures var s := SuperblockSector(gen, logHead, recordCount);
            && |s| == 512
            && s[..504] ==
               ([0x59, 0x55, 0x56, 0x41, 0x4D, 0x45, 0x4D, 0x30] + Le(1, 4) + Zeros(4) + Le(gen, 8))
               + (Le(logHead[0], 8) + Le(logHead[1], 8) + Le(logHead[2], 8) + Le(recordCount[0], 8))
               + (Le(recordCount[1], 8) + Le(recordCount[2], 8) + Zeros(432))
            && s[504..] == Le(Fnv1a(W64, s[..504]), 8)
  {
    hide Le, Fnv1a, Concat, SuperblockFields, Zeros;
    SuperblockBody(gen, logHead, recordCount);
    var body := Concat(SuperblockFields(gen, logHead, recordCount));
    assert |body| == 504;
    assert SuperblockSector(gen, logHead, recordCount)[..504] == body;
  }

  /** A sector is accepted exactly with that magic, that version and its own checksum; the fields are then
      read from their places. */
  lemma SuperblockIff(s: seq<byte>)
    requires |s| == 512
    ensures SuperblockDecode(s).Some? <==>
            && s[..8] == [0x59, 0x55, 0x56, 0x41, 0x4D, 0x45, 0x4D, 0x30] && s[8..12] == Le(1, 4)
            && s[504..512] == Le(Fnv1a(W64, s[..504]), 8)
    ensures SuperblockDecode(s).Some? ==>
              var sb := SuperblockDecode(s).value;
              && sb.version == 1 && s[16..24] == Le(sb.gen, 8)
              && s[24..32] == Le(sb.logHead[0], 8) && s[32..40] == Le(sb.logHead[1], 8) && s[40..48] == Le(sb.logHead[2], 8)
              && s[48..56] == Le(sb.recordCount[0], 8) && s[56..64] == Le(sb.recordCount[1], 8)
              && s[64..72] == Le(sb.recordCount[2], 8)
  {
    hide Le, FromLe, Fnv1a;
    WordBounds();
    NumberIs(s, 8, 4, 1);
    NumberIs(s, 504, 8, Fnv1a(W64, s[..504]));
    NumberWritesBack(s, 16, 8);
    NumberWritesBack(s, 24, 8);
    NumberWritesBack(s, 32, 8);
    NumberWritesBack(s, 40, 8);
    NumberWritesBack(s, 48, 8);
    NumberWritesBack(s, 56, 8);
    NumberWritesBack(s, 64, 8);
  }

  lemma NumberIs(s: seq<byte>, off: nat, n: nat, v: nat)
    requires off + n <= |s| && v < Pow256(n)
    ensures NumberAt(s, off, n) == v <==> s[off..off + n] == Le(v, n)
  {
    hide Le, FromLe, Pow256;
    NumberWritesBack(s, off, n);
    FromLeOfLe(v, n);
  }

  lemma SuperblockFieldsRead(gen: u64, logHead: PerRegion, recordCount: PerRegion)
    ensures var body := Concat(SuperblockFields(gen, logHead, recordCount));
            && |body| == SB_CKSUM_OFF
            && body[..8] == SB_MAGIC && NumberAt(body, 8, 4) == SB_VERSION && NumberAt(body, 16, 8) == gen
            && NumberAt(body, 24, 8) == logHead[0] && NumberAt(body, 32, 8) == logHead[1] && NumberAt(body, 40, 8) == logHead[2]
            && NumberAt(body, 48, 8) == recordCount[0] && NumberAt(body, 56, 8) == recordCount[1]
            && NumberAt(body, 64, 8) == recordCount[2]
  {
    hide Concat, Offset, Le, FromLe, NumberAt;
    var f := SuperblockFields(gen, logHead, recordCount);
    SuperblockOffsets(gen, logHead, recordCount);
    ConcatLength(f);
    WordBounds();
    FieldAt(f, 0);
    NumberFieldAt(f, 1, SB_VERSION, 4);
    NumberFieldAt(f, 3, gen, 8);
    NumberFieldAt(f, 4, logHead[0], 8);
    NumberFieldAt(f, 5, logHead[1], 8);
    NumberFieldAt(f, 6, logHead[2], 8);
    NumberFieldAt(f, 7, recordCount[0], 8);
    NumberFieldAt(f, 8, recordCount[1], 8);
    NumberFieldAt(f, 9, recordCount[2], 8);
  }

  /** A change of one byte within a number changes the number. */
  lemma NumberSeesOneByte(s: seq<byte>, off: nat, n: nat, i: nat, b: byte)
    requires off + n <= |s| && off <= i < off + n && b != s[i]
    ensures NumberAt(s[i := b], off, n) != NumberAt(s, off, n)
  {
    var x, y := s[off..off + n], s[i := b][off..off + n];
    assert x[i - off] != y[i - off];
    LeOfFromLe(x);
    LeOfFromLe(y);
  }

  /** Any sector that decodes stops decoding when any one of its 512 bytes is changed. */
  lemma SuperblockDetectsOneByte(s: seq<byte>, i: nat, b: byte)
    requires |s| == SECTOR && SuperblockDecode(s).Some?
    requires i < SECTOR && b != s[i]
    ensures SuperblockDecode(s[i := b]).None?
  {
    hide Fnv1a, FromLe;
    var t := s[i := b];
    if i < 8 {
      assert t[..8][i] == b != s[..8][i];
    } else if i < 12 {
      NumberSeesOneByte(s, 8, 4, i, b);
    } else if i < SB_CKSUM_OFF {
      assert t[..SB_CKSUM_OFF] == s[..SB_CKSUM_OFF][i := b];
      OneByteChangesChecksum(W64, s[..SB_CKSUM_OFF], i, b);
      assert t[SB_CKSUM_OFF..] == s[SB_CKSUM_OFF..];
      assert U64At(t, SB_CKSUM_OFF) == U64At(s, SB_CKSUM_OFF);
    } else {
      NumberSeesOneByte(s, SB_CKSUM_OFF, 8, i, b);
      assert t[..SB_CKSUM_OFF] == s[..SB_CKSUM_OFF];
    }
  }

  // ---- In place --------------------------------------------------------------------

  method EncodeSuperblock(gen: u64, logHead: PerRegion, recordCount: PerRegion) returns (s: array<byte>)
    ensures fresh(s) && s[..] == SuperblockSector(gen, logHead, recordCount)
  {
    hide Concat, Offset, Le, Fnv1a, Placed, Splice;
    ghost var f := SuperblockFields(gen, logHead, recordCount);
    SuperblockOffsets(gen, logHead, recordCount);
    s := new byte[SECTOR](_ => 0);
    ghost var blank := s[..];
    assert blank == Zeros(SECTOR);
    NonePlaced(blank, f);
    PlaceNext(s[..], blank, f, 0);
    CopyBytes(s, 0, SB_MAGIC);
    PlaceNext(s[..], blank, f, 1);
    CopyBytes(s, 8, Le(SB_VERSION, 4));
    SkipZeros(s[..], f, 2);
    PlaceNext(s[..], blank, f, 3);
    CopyBytes(s, 16, Le(gen, 8));
    PlaceNext(s[..], blank, f, 4);
    CopyBytes(s, 24, Le(logHead[0], 8));
    PlaceNext(s[..], blank, f, 5);
    CopyBytes(s, 32, Le(logHead[1], 8));
    PlaceNext(s[..], blank, f, 6);
    CopyBytes(s, 40, Le(logHead[2], 8));
    PlaceNext(s[..], blank, f, 7);
    CopyBytes(s, 48, Le(recordCount[0], 8));
    PlaceNext(s[..], blank, f, 8);
    CopyBytes(s, 56, Le(recordCount[1], 8));
    PlaceNext(s[..], blank, f, 9);
    CopyBytes(s, 64, Le(recordCount[2], 8));
    SkipZeros(s[..], f, 10);
    AllPlaced(s[..], blank, f);
    assert s[..SB_CKSUM_OFF] == Concat(f);
    var ck := Fnv1aLoop(W64, s[..SB_CKSUM_OFF]);
    SpliceTail(s[..], SB_CKSUM_OFF, Le(ck, 8));
    CopyBytes(s, SB_CKSUM_OFF, Le(ck, 8));
  }

  lemma SpliceTail(s: seq<byte>, at: nat, b: seq<byte>)
    requires at + |b| == |s|
    ensures Splice(s, at, b) == s[..at] + b
  {
  }

  method DecodeSuperblock(s: seq<byte>) returns (r: Option<Superblock>)
    requires |s| == SECTOR
    ensures r == SuperblockDecode(s)
  {
    var i := 0;
    while i < 8
      invariant 0 <= i <= 8 && s[..i] == SB_MAGIC[..i]
    {
      if s[i] != SB_MAGIC[i] {
        assert s[..8][i] != SB_MAGIC[i];
        return None;
      }
      i := i + 1;
    }
    var version := U32At(s, 8);
    if version != SB_VERSION {
      return None;
    }
    var want := Fnv1aLoop(W64, s[..SB_CKSUM_OFF]);
    var got := U64At(s, SB_CKSUM_OFF);
    if want != got {
      return None;
    }
    r := Some(Superblock(version, U64At(s, 16),
                         [U64At(s, 24), U64At(s, 32), U64At(s, 40)],
                         [U64At(s, 48), U64At(s, 56), U64At(s, 64)]));
  }

  // ---- Record frames --------------------------------------------------------------------

  const FRAME_HEADER_LEN := 24
  const MAX_PAYLOAD := SECTOR - FRAME_HEADER_LEN

  datatype FrameHeader = FrameHeader(regionTag: byte, len: u16, seqNo: u64, payloadCrc: u32)

  function FrameFields(h: FrameHeader): seq<seq<byte>> {
    [[h.regionTag], Zeros(1), Le(h.len, 2), Le(h.seqNo, 8), Le(h.payloadCrc, 4), Zeros(8)]
  }

  function FrameHeaderDecode(s: seq<byte>): FrameHeader
    requires |s| >= FRAME_HEADER_LEN
  {
    WordBounds();
    FrameHeader(s[0], NumberAt(s, 2, 2), U64At(s, 4), U32At(s, 12))
  }

  function PayloadCrc(payload: seq<byte>): u32 {
    Fnv1a(W32, payload)
  }

  /** Header, payload, zeros to the end of the sector. */
  function RecordFrame(regionTag: byte, seqNo: u64, payload: seq<byte>): seq<byte>
    requires |payload| <= MAX_PAYLOAD
  {
    Concat(FrameFields(FrameHeader(regionTag, |payload|, seqNo, PayloadCrc(payload))))
    + payload + Zeros(MAX_PAYLOAD - |payload|)
  }

  /** The header and where the payload starts, if the length fits and the checksum matches. */
  function RecordFrameDecode(s: seq<byte>): Option<(FrameHeader, nat)>
    requires |s| == SECTOR
  {
    var h := FrameHeaderDecode(s);
    if h.len > MAX_PAYLOAD then None
    else if PayloadCrc(s[FRAME_HEADER_LEN..FRAME_HEADER_LEN + h.len]) != h.payloadCrc then None
    else Some((h, FRAME_HEADER_LEN))
  }

  lemma FrameOffsets(h: FrameHeader)
    ensures var f := FrameFields(h);
            && Offset(f, 0) == 0 && Offset(f, 1) == 1 && Offset(f, 2) == 2 && Offset(f, 3) == 4
            && Offset(f, 4) == 12 && Offset(f, 5) == 16 && Offset(f, 6) == FRAME_HEADER_LEN
  {
    hide Le, Zeros, Offset;
    var f := FrameFields(h);
    OffsetStep(f, 0);
    OffsetStep(f, 1);
    OffsetStep(f, 2);
    OffsetStep(f, 3);
    OffsetStep(f, 4);
    OffsetStep(f, 5);
  }

  lemma FrameFieldsRead(h: FrameHeader)
    ensures var s := Concat(FrameFields(h));
            |s| == FRAME_HEADER_LEN && FrameHeaderDecode(s) == h
  {
    hide Concat, Offset, Le, FromLe, NumberAt;
    var f := FrameFields(h);
    FrameOffsets(h);
    ConcatLength(f);
    WordBounds();
    FieldAt(f, 0);
    assert Concat(f)[0..1] == [h.regionTag];
    NumberFieldAt(f, 2, h.len, 2);
    NumberFieldAt(f, 3, h.seqNo, 8);
    NumberFieldAt(f, 4, h.payloadCrc, 4);
  }

  /** The header reads the same in any sector that starts with it. */
  lemma HeaderOfPrefix(head: seq<byte>, s: seq<byte>)
    requires |head| == FRAME_HEADER_LEN && head <= s
    ensures FrameHeaderDecode(s) == FrameHeaderDecode(head)
  {
    hide FromLe;
    assert s[2..4] == head[2..4] && s[4..12] == head[4..12] && s[12..16] == head[12..16];
  }

  /** A frame decodes to its header and its payload. */
  lemma RecordFrameRoundTrip(regionTag: byte, seqNo: u64, payload: seq<byte>)
    requires |payload| <= MAX_PAYLOAD
    ensures var s := RecordFrame(regionTag, seqNo, payload);
            && |s| == SECTOR
            && RecordFrameDecode(s) == Some((FrameHeader(regionTag, |payload|, seqNo, PayloadCrc(payload)), FRAME_HEADER_LEN))
            && s[FRAME_HEADER_LEN..FRAME_HEADER_LEN + |payload|] == payload
  {
    hide Concat, PayloadCrc, FrameFields, FrameHeaderDecode;
    var h := FrameHeader(regionTag, |payload|, seqNo, PayloadCrc(payload));
    FrameFieldsRead(h);
    HeaderOfPrefix(Concat(FrameFields(h)), RecordFrame(regionTag, seqNo, payload));
  }

  /** The frame byte for byte: region, reserved, length, sequence number, 32-bit checksum of the payload,
      reserved, and from 24 on the payload and zeros. */
  lemma FrameLayout(regionTag: byte, seqNo: u64, payload: seq<byte>)
    requires |payload| <= 488
    ensures RecordFrame(regionTag, seqNo, payload) ==
            ([regionTag] + [0] + Le(|payload|, 2) + Le(seqNo, 8)) + (Le(Fnv1a(W32, payload), 4) + Zeros(8))
            + payload + Zeros(488 - |payload|)
  {
    hide Le, Fnv1a, Concat, Zeros;
    var f := FrameFields(FrameHeader(regionTag, |payload|, seqNo, PayloadCrc(payload)));
    SplitFields(f, 4);
    FourFields(f[..4]);
    TwoFields(f[4..]);
    ZeroByte();
  }

  lemma ZeroByte()
    ensures Zeros(1) == [0]
  {
  }

  /** A sector is a frame exactly if its length fits and the checksum is that of its payload; the header is
      then read from its places. */
  lemma FrameIff(s: seq<byte>)
    requires |s| == 512
    ensures var len := NumberAt(s, 2, 2);
            && (RecordFrameDecode(s).Some? <==> len <= 488 && s[12..16] == Le(Fnv1a(W32, s[24..24 + len]), 4))
            && (RecordFrameDecode(s).Some? ==>
                  var (h, at) := RecordFrameDecode(s).value;
                  && at == 24 && h.regionTag == s[0] && s[2..4] == Le(h.len, 2) && s[4..12] == Le(h.seqNo, 8)
                  && s[12..16] == Le(h.payloadCrc, 4))
  {
    hide Le, FromLe, Fnv1a;
    WordBounds();
    var len := NumberAt(s, 2, 2);
    if len <= 488 {
      NumberIs(s, 12, 4, Fnv1a(W32, s[24..24 + len]));
    }
    NumberWritesBack(s, 2, 2);
    NumberWritesBack(s, 4, 8);
    NumberWritesBack(s, 12, 4);
  }

  /** Which single-byte changes a frame that decodes does not survive: all in the checksum and the
      payload, and those of the length field that declare a payload which is too long or has
      another checksum. The region tag and the sequence number are not protected. */
  lemma RecordFrameDetectsPayload(s: seq<byte>, i: nat, b: byte)
    requires |s| == SECTOR && RecordFrameDecode(s).Some?
    requires i < SECTOR && b != s[i]
    ensures RecordFrameDecode(s[i := b]).None? <==>
            || 12 <= i < 16
            || FRAME_HEADER_LEN <= i < FRAME_HEADER_LEN + FrameHeaderDecode(s).len
            || (2 <= i < 4 && !Covers(s, NumberAt(s[i := b], 2, 2)))
  {
    hide FromLe, Fnv1a;
    var t, len := s[i := b], FrameHeaderDecode(s).len;
    var len' := NumberAt(t, 2, 2);
    if 12 <= i < 16 {
      NumberSeesOneByte(s, 12, 4, i, b);
    } else {
      assert t[12..16] == s[12..16];
    }
    if 2 <= i < 4 {
      if len' <= MAX_PAYLOAD {
        assert t[FRAME_HEADER_LEN..FRAME_HEADER_LEN + len'] == s[FRAME_HEADER_LEN..FRAME_HEADER_LEN + len'];
      }
    } else {
      assert t[2..4] == s[2..4];
      var p, q := s[FRAME_HEADER_LEN..FRAME_HEADER_LEN + len], t[FRAME_HEADER_LEN..FRAME_HEADER_LEN + len];
      if FRAME_HEADER_LEN <= i < FRAME_HEADER_LEN + len {
        assert q == p[i - FRAME_HEADER_LEN := b];
        OneByteChangesChecksum(W32, p, i - FRAME_HEADER_LEN, b);
      } else {
        assert p == q;
      }
    }
  }

  /** The frame's checksum is that of the first `len` bytes after the header. */
  predicate Covers(s: seq<byte>, len: nat)
    requires |s| == SECTOR
  {
    len <= MAX_PAYLOAD && PayloadCrc(s[FRAME_HEADER_LEN..FRAME_HEADER_LEN + len]) == FrameHeaderDecode(s).payloadCrc
  }

  /** Fills a sector buffer; a payload too large is refused and the buffer left alone. */
  method EncodeRecordFrame(regionTag: byte, seqNo: u64, payload: seq<byte>, out: array<byte>) returns (ok: bool)
    requires out.Length == SECTOR
    modifies out
    ensures ok <==> |payload| <= MAX_PAYLOAD
    ensures out[..] == if ok then RecordFrame(regionTag, seqNo, payload) else old(out[..])
  {
    hide Concat, Offset, Le, Fnv1a, Splice, FrameFields;
    if |payload| > MAX_PAYLOAD {
      return false;
    }
    var crc := Fnv1aLoop(W32, payload);
    var header := EncodeFrameHeader(FrameHeader(regionTag, |payload|, seqNo, crc));
    ghost var head := header[..];
    var i := 0;
    while i < SECTOR
      invariant 0 <= i <= SECTOR
      invariant forall j :: 0 <= j < i ==> out[j] == 0
      invariant header != out && header[..] == head
    {
      out[i] := 0;
      i := i + 1;
    }
    FrameFieldsRead(FrameHeader(regionTag, |payload|, seqNo, crc));
    ghost var blank := out[..];
    TwoWrites(blank, head, payload);
    CopyBytes(out, 0, header[..]);
    assert out[..] == Splice(blank, 0, head);
    CopyBytes(out, FRAME_HEADER_LEN, payload);
    assert out[..] == head + payload + Zeros(MAX_PAYLOAD - |payload|);
    ok := true;
  }

  lemma TwoWrites(s: seq<byte>, header: seq<byte>, payload: seq<byte>)
    requires |s| == SECTOR && |header| == FRAME_HEADER_LEN && |payload| <= MAX_PAYLOAD
    requires forall j :: 0 <= j < |s| ==> s[j] == 0
    ensures Splice(Splice(s, 0, header), FRAME_HEADER_LEN, payload)
         == header + payload + Zeros(MAX_PAYLOAD - |payload|)
  {
  }

  method EncodeFrameHeader(h: FrameHeader) returns (b: array<byte>)
    ensures fresh(b) && b[..] == Concat(FrameFields(h))
  {
    hide Concat, Offset, Le, Placed, Splice;
    ghost var f := FrameFields(h);
    FrameOffsets(h);
    b := new byte[FRAME_HEADER_LEN](_ => 0);
    ghost var blank := b[..];
    assert blank == Zeros(FRAME_HEADER_LEN);
    NonePlaced(blank, f);
    PlaceNext(b[..], blank, f, 0);
    CopyBytes(b, 0, [h.regionTag]);
    SkipZeros(b[..], f, 1);
    PlaceNext(b[..], blank, f, 2);
    CopyBytes(b, 2, Le(h.len, 2));
    PlaceNext(b[..], blank, f, 3);
    CopyBytes(b, 4, Le(h.seqNo, 8));
    PlaceNext(b[..], blank, f, 4);
    CopyBytes(b, 12, Le(h.payloadCrc, 4));
    SkipZeros(b[..], f, 5);
    AllPlaced(b[..], blank, f);
  }
}
