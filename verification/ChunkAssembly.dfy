/** Bodies cut into chunks and put together again: the chunk sub-header and the assembler
    (crates/tb-encode/src/inferwire.rs), and the serving side's chunk loop
    (tb-vmm/src/infer_host.rs). The body digest is any function to 16 bytes. */
module ChunkAssembly {
  import opened Words
  import opened Layout
  import opened InferWire

  const BODY_CAP := 8192
  const SUBHDR_LEN := 24
  const CHUNK_CAP := PAYLOAD_CAP - SUBHDR_LEN

  datatype SubHdr = SubHdr(seqNo: u16, more: bool, totalLen: u32, digest: Bytes16) {
    predicate Encodable() {
      0 < totalLen <= BODY_CAP
    }
  }

  // ---- The sub-header ---------------------------------------------------------------------

  function SubFields(h: SubHdr): seq<seq<byte>> {
    [Le(h.seqNo, 2), [if h.more then 1 else 0], [0], Le(h.totalLen, 4), h.digest]
  }

  function SubBytes(h: SubHdr): seq<byte> {
    Concat(SubFields(h))
  }

  function SubDecode(b: seq<byte>): Option<SubHdr> {
    if |b| < SUBHDR_LEN || b[2] > 1 || b[3] != 0 then None else
    WordBounds();
    var total := U32At(b, 4);
    if total == 0 || total > BODY_CAP then None
    else Some(SubHdr(NumberAt(b, 0, 2), b[2] == 1, total, b[8..24]))
  }

  lemma SubOffsets(h: SubHdr)
    ensures var f := SubFields(h);
            && Offset(f, 0) == 0 && Offset(f, 1) == 2 && Offset(f, 2) == 3 && Offset(f, 3) == 4
            && Offset(f, 4) == 8 && Offset(f, 5) == 24 && |SubBytes(h)| == SUBHDR_LEN
  {
    hide Le, Concat;
    var f := SubFields(h);
    OffsetStep(f, 0);
    OffsetStep(f, 1);
    OffsetStep(f, 2);
    OffsetStep(f, 3);
    OffsetStep(f, 4);
    ConcatLength(f);
  }

  lemma DecodeOfSub(h: SubHdr, rest: seq<byte>)
    requires h.Encodable()
    ensures SubDecode(SubBytes(h) + rest) == Some(h)
  {
    hide Le, Concat, Offset, NumberAt;
    var f := SubFields(h);
    var b := SubBytes(h);
    SubOffsets(h);
    WordBounds();
    NumberFieldAt(f, 0, h.seqNo, 2);
    FieldAt(f, 1);
    FieldAt(f, 2);
    NumberFieldAt(f, 3, h.totalLen, 4);
    FieldAt(f, 4);
    NumberInPrefix(b, rest, 0, 2);
    NumberInPrefix(b, rest, 2, 1);
    NumberInPrefix(b, rest, 3, 1);
    NumberInPrefix(b, rest, 4, 4);
    NumberInPrefix(b, rest, 8, 16);
    assert b[2] == b[2..3][0] && b[3] == b[3..4][0];
  }

  lemma SubOfDecode(b: seq<byte>)
    requires SubDecode(b).Some?
    ensures SubDecode(b).value.Encodable() && SubBytes(SubDecode(b).value) == b[..SUBHDR_LEN]
  {
    hide Le, Concat, Offset, NumberAt;
    var h := SubDecode(b).value;
    SubOffsets(h);
    NumberWritesBack(b, 0, 2);
    NumberWritesBack(b, 4, 4);
    SubSlice(b, 0, SUBHDR_LEN, 0, 2);
    SubSlice(b, 0, SUBHDR_LEN, 4, 8);
    SubSlice(b, 0, SUBHDR_LEN, 8, 24);
    var s := b[..SUBHDR_LEN];
    assert s == b[0..SUBHDR_LEN] && s[2..3] == [b[2]] && s[3..4] == [b[3]];
    AssembledIs(s, SubFields(h));
  }

  /** The 24 bytes: chunk number, whether more follow, reserved, length of the body and its digest. */
  lemma SubLayout(h: SubHdr)
    ensures SubBytes(h) == (Le(h.seqNo, 2) + [if h.more then 1 else 0] + [0] + Le(h.totalLen, 4)) + h.digest
  {
    hide Le, Concat;
    var f := SubFields(h);
    SplitFields(f, 4);
    FourFields(f[..4]);
    LastField(h.digest);
    assert f[4..] == [h.digest];
  }

  lemma LastField(b: seq<byte>)
    ensures Concat([b]) == b
  {
    assert [b][1..] == [];
  }

  /** Which buffers start with a sub-header: bodies have at least one byte and at most 8192. */
  lemma SubDecodeIff(b: seq<byte>)
    ensures SubDecode(b).Some? <==> |b| >= 24 && b[2] <= 1 && b[3] == 0 && 1 <= NumberAt(b, 4, 4) <= 8192
    ensures SubDecode(b).Some? ==>
              var h := SubDecode(b).value;
              b[0..2] == Le(h.seqNo, 2) && (h.more <==> b[2] == 1) && b[4..8] == Le(h.totalLen, 4) && h.digest == b[8..24]
  {
    hide Le, FromLe;
    if |b| >= 24 {
      NumberWritesBack(b, 0, 2);
      NumberWritesBack(b, 4, 4);
    }
  }

  // ---- The assembler ------------------------------------------------------------------------

  datatype Chunk = Chunk(sub: SubHdr, bytes: seq<byte>)

  datatype AsmPush = Accepted | Complete(n: nat) | Rejected

  /** The assembler's state; its buffer has room for `cap` bytes. */
  datatype Asm = Asm(body: seq<byte>, nextSeq: u16, totalLen: u32, digest: Bytes16,
                     started: bool, done: bool, poisoned: bool)

  const ZERO16: Bytes16 := Zeros(16)

  const FRESH := Asm([], 0, 0, ZERO16, false, false, false)

  type Digest = seq<byte> -> Bytes16

  function Poisoned(a: Asm): (Asm, AsmPush) {
    (a.(poisoned := true), Rejected)
  }

  function Push(digest: Digest, cap: nat, a: Asm, c: Chunk): (Asm, AsmPush) {
    var total, size := c.sub.totalLen, |a.body| + |c.bytes|;
    if a.poisoned || a.done then (a, Rejected)
    else if !a.started && (c.sub.seqNo != 0 || total == 0 || total > BODY_CAP || total > cap) then Poisoned(a)
    else if a.started && (c.sub.seqNo != a.nextSeq || total != a.totalLen || c.sub.digest != a.digest) then Poisoned(a)
    else if c.bytes == [] || |c.bytes| > CHUNK_CAP then Poisoned(a)
    else if size > total then Poisoned(a)
    else if c.sub.more && size >= total then Poisoned(a)
    else if !c.sub.more && size != total then Poisoned(a)
    else
      var a' := Asm(a.body + c.bytes, (a.nextSeq + 1) % 0x1_0000, total, c.sub.digest, true, false, false);
      if c.sub.more then (a', Accepted)
      else if digest(a'.body) != c.sub.digest then Poisoned(a')
      else (a'.(done := true), Complete(size))
  }

  /** The state after pushing the chunks, and the last answer. */
  function Feed(digest: Digest, cap: nat, cs: seq<Chunk>): (Asm, AsmPush) {
    if cs == [] then (FRESH, Accepted)
    else Push(digest, cap, Feed(digest, cap, cs[..|cs| - 1]).0, cs[|cs| - 1])
  }

  function Joined(cs: seq<Chunk>): seq<byte> {
    if cs == [] then [] else Joined(cs[..|cs| - 1]) + cs[|cs| - 1].bytes
  }

  /** Chunks in order, of one body, each with bytes; `more` on all of them. */
  ghost predicate InOrder(cap: nat, cs: seq<Chunk>) {
    && (forall i :: 0 <= i < |cs| ==>
          && cs[i].sub.seqNo == i && cs[i].sub.totalLen == cs[0].sub.totalLen && cs[i].sub.digest == cs[0].sub.digest
          && 0 < |cs[i].bytes| <= CHUNK_CAP && cs[i].sub.more)
    && (cs != [] ==> 0 < cs[0].sub.totalLen <= BODY_CAP && cs[0].sub.totalLen <= cap && |Joined(cs)| < cs[0].sub.totalLen)
  }

  /** A whole body: chunks in order, then one more without `more` that completes the length and
      matches the digest they all carry. */
  ghost predicate Whole(digest: Digest, cap: nat, cs: seq<Chunk>) {
    cs != [] &&
    var n, last := |cs| - 1, cs[|cs| - 1];
    && InOrder(cap, cs[..n])
    && last.sub.seqNo == n && !last.sub.more && 0 < |last.bytes| <= CHUNK_CAP
    && last.sub.totalLen == cs[0].sub.totalLen <= BODY_CAP && last.sub.totalLen <= cap
    && last.sub.digest == cs[0].sub.digest
    && |Joined(cs)| == last.sub.totalLen && digest(Joined(cs)) == last.sub.digest
  }

  /** The state after chunks in order. */
  function Midway(cs: seq<Chunk>): Asm {
    if cs == [] then FRESH
    else Asm(Joined(cs), |cs| % 0x1_0000, cs[0].sub.totalLen, cs[0].sub.digest, true, false, false)
  }

  lemma JoinedGrows(cs: seq<Chunk>, c: Chunk)
    ensures Joined(cs + [c]) == Joined(cs) + c.bytes
  {
    assert (cs + [c])[..|cs + [c]| - 1] == cs;
  }

  /** Chunks in order are few, so their numbers do not wrap. */
  lemma {:induction false} FewChunks(cap: nat, cs: seq<Chunk>)
    requires InOrder(cap, cs)
    ensures |cs| <= |Joined(cs)| && (cs != [] ==> |cs| < BODY_CAP)
  {
    if cs != [] {
      var rest := cs[..|cs| - 1];
      assert InOrder(cap, rest) by {
        if rest != [] {
          assert |Joined(rest)| <= |Joined(cs)| && rest[0] == cs[0];
        }
      }
      FewChunks(cap, rest);
    }
  }

  /** The chunk may follow: its number, its size, and what the first chunk fixed. */
  ghost predicate Follows(cap: nat, cs: seq<Chunk>, c: Chunk) {
    && c.sub.seqNo == |cs| && 0 < |c.bytes| <= CHUNK_CAP
    && (if cs == [] then 0 < c.sub.totalLen <= BODY_CAP && c.sub.totalLen <= cap
        else c.sub.totalLen == cs[0].sub.totalLen && c.sub.digest == cs[0].sub.digest)
  }

  lemma InOrderGrows(cap: nat, cs: seq<Chunk>, c: Chunk)
    requires InOrder(cap, cs)
    ensures InOrder(cap, cs + [c]) <==>
            Follows(cap, cs, c) && c.sub.more && |Joined(cs)| + |c.bytes| < c.sub.totalLen
  {
    hide Joined;
    JoinedGrows(cs, c);
    var all := cs + [c];
    assert all[|cs|] == c && all[0] == (if cs == [] then c else cs[0]);
    assert forall i :: 0 <= i < |cs| ==> all[i] == cs[i];
  }

  lemma WholeEndsWith(digest: Digest, cap: nat, cs: seq<Chunk>, c: Chunk)
    requires InOrder(cap, cs)
    ensures Whole(digest, cap, cs + [c]) <==>
            && Follows(cap, cs, c) && !c.sub.more && |Joined(cs)| + |c.bytes| == c.sub.totalLen
            && digest(Joined(cs) + c.bytes) == c.sub.digest
  {
    hide Joined;
    JoinedGrows(cs, c);
    var all := cs + [c];
    assert all[|cs|] == c && all[0] == (if cs == [] then c else cs[0]);
    assert all[..|cs|] == cs;
  }

  /** After chunks in order, one more push is answered by what the chunk is. */
  lemma PushAfterInOrder(digest: Digest, cap: nat, cs: seq<Chunk>, c: Chunk)
    requires InOrder(cap, cs)
    ensures var (a, r) := Push(digest, cap, Midway(cs), c);
            && (r.Accepted? <==> InOrder(cap, cs + [c]))
            && (r.Complete? <==> Whole(digest, cap, cs + [c]))
            && (r.Accepted? ==> a == Midway(cs + [c]))
            && (r.Complete? ==> a == Midway(cs + [c]).(done := true) && r.n == |a.body|)
            && (r.Rejected? ==> a.poisoned && !a.done)
  {
    hide Joined, Whole, InOrder;
    FewChunks(cap, cs);
    InOrderGrows(cap, cs, c);
    WholeEndsWith(digest, cap, cs, c);
    MidwayGrows(cs, c);
    NoneJoined();
  }

  lemma MidwayGrows(cs: seq<Chunk>, c: Chunk)
    ensures var first := if cs == [] then c else cs[0];
            Midway(cs + [c]) == Asm(Joined(cs) + c.bytes, (|cs| + 1) % 0x1_0000, first.sub.totalLen, first.sub.digest,
                                    true, false, false)
  {
    JoinedGrows(cs, c);
  }

  lemma NoneJoined()
    ensures Joined([]) == []
  {
  }

  /** How a fresh assembler answers its first chunk. */
  lemma FirstPushIs(digest: Digest, cap: nat, c: Chunk)
    ensures var (a, r) := Push(digest, cap, FRESH, c);
            var fine := c.sub.seqNo == 0 && 1 <= c.sub.totalLen <= 8192 && c.sub.totalLen <= cap && 1 <= |c.bytes| <= 1000;
            && (r == Accepted <==> fine && c.sub.more && |c.bytes| < c.sub.totalLen)
            && (r == Complete(|c.bytes|) <==> fine && !c.sub.more && |c.bytes| == c.sub.totalLen && digest(c.bytes) == c.sub.digest)
            && (!r.Rejected? ==> a.body == c.bytes)
  {
    assert [] + c.bytes == c.bytes;
  }

  /** Finished or poisoned, an assembler takes nothing more. */
  lemma {:induction false} StaysShut(digest: Digest, cap: nat, cs: seq<Chunk>, more: seq<Chunk>)
    requires more != []
    requires Feed(digest, cap, cs).0.done || Feed(digest, cap, cs).0.poisoned
    ensures Feed(digest, cap, cs + more) == (Feed(digest, cap, cs).0, Rejected)
    decreases |more|
  {
    var n := |more| - 1;
    assert (cs + more)[..|cs + more| - 1] == cs + more[..n];
    if n == 0 {
      assert cs + more[..n] == cs;
    } else {
      StaysShut(digest, cap, cs, more[..n]);
    }
  }

  /** What every sequence of pushes leads to: all so far accepted, exactly when they are in
      order; just completed, exactly when they are a whole body; or shut. */
  lemma {:induction false} FeedIs(digest: Digest, cap: nat, cs: seq<Chunk>)
    ensures var (a, r) := Feed(digest, cap, cs);
            && (r.Accepted? <==> InOrder(cap, cs))
            && (r.Complete? <==> Whole(digest, cap, cs))
            && (r.Accepted? ==> a == Midway(cs))
            && (r.Complete? ==> a == Midway(cs).(done := true) && r.n == |a.body|)
            && (r.Rejected? ==> a.done || a.poisoned)
    decreases |cs|
  {
    hide Push, Midway, InOrder, Whole;
    if cs == [] {
      NothingFed(digest, cap);
    } else {
      var before := cs[..|cs| - 1];
      var c := cs[|cs| - 1];
      FeedIs(digest, cap, before);
      assert before + [c] == cs;
      if Feed(digest, cap, before).1.Accepted? {
        PushAfterInOrder(digest, cap, before, c);
      } else {
        ShutBy(digest, cap, before);
        StaysShut(digest, cap, before, [c]);
        NotInOrder(digest, cap, before, c);
      }
    }
  }

  lemma NothingFed(digest: Digest, cap: nat)
    ensures InOrder(cap, []) && !Whole(digest, cap, []) && Midway([]) == FRESH
  {
  }

  lemma ShutBy(digest: Digest, cap: nat, cs: seq<Chunk>)
    requires var (a, r) := Feed(digest, cap, cs);
             !r.Accepted? && (r.Complete? ==> a == Midway(cs).(done := true)) && (r.Rejected? ==> a.done || a.poisoned)
    ensures Feed(digest, cap, cs).0.done || Feed(digest, cap, cs).0.poisoned
  {
    hide Feed, Midway;
  }

  lemma NotInOrder(digest: Digest, cap: nat, cs: seq<Chunk>, c: Chunk)
    requires !InOrder(cap, cs)
    ensures !InOrder(cap, cs + [c]) && !Whole(digest, cap, cs + [c])
  {
    var all := cs + [c];
    assert all[..|cs|] == cs;
    JoinedGrows(cs, c);
    if InOrder(cap, all) {
      assert forall i :: 0 <= i < |cs| ==> all[i] == cs[i];
      assert InOrder(cap, cs);
    }
  }

  // ---- Cutting a body into chunks ------------------------------------------------------------

  /** Where the chunk at `off` ends. */
  function CutEnd(body: seq<byte>, off: nat): (end: nat)
    requires off < |body|
    ensures off < end <= |body| && end <= off + CHUNK_CAP
  {
    if off + CHUNK_CAP < |body| then off + CHUNK_CAP else |body|
  }

  /** The chunk at `off`, numbered `k`. */
  function CutAt(body: seq<byte>, digest: Bytes16, off: nat, k: nat): Chunk
    requires k <= off < |body| <= BODY_CAP
  {
    Chunk(SubHdr(k, CutEnd(body, off) < |body|, |body|, digest), body[off..CutEnd(body, off)])
  }

  /** The chunks from `off` on, numbered from `k`: full ones, then the remainder. */
  function ChunksFrom(body: seq<byte>, digest: Bytes16, off: nat, k: nat): seq<Chunk>
    requires off <= |body| <= BODY_CAP && k <= off
    decreases |body| - off
  {
    if off == |body| then []
    else [CutAt(body, digest, off, k)] + ChunksFrom(body, digest, CutEnd(body, off), k + 1)
  }

  function ChunkCount(total: nat): nat {
    if total == 0 || total > BODY_CAP then 0 else (total + CHUNK_CAP - 1) / CHUNK_CAP
  }

  function ChunksWireLen(total: nat): nat {
    ChunkCount(total) * (HEADER_LEN + SUBHDR_LEN) + total
  }

  /** The chunk loop of the server. */
  method CutBody(body: seq<byte>, digest: Bytes16) returns (cs: seq<Chunk>)
    requires |body| <= BODY_CAP
    ensures cs == ChunksFrom(body, digest, 0, 0)
  {
    cs := [];
    var off, k := 0, 0;
    while off < |body|
      invariant k <= off <= |body|
      invariant cs + ChunksFrom(body, digest, off, k) == ChunksFrom(body, digest, 0, 0)
    {
      var end := if off + CHUNK_CAP < |body| then off + CHUNK_CAP else |body|;
      var c := Chunk(SubHdr(k, end < |body|, |body|, digest), body[off..end]);
      assert (cs + [c]) + ChunksFrom(body, digest, end, k + 1) == cs + ([c] + ChunksFrom(body, digest, end, k + 1));
      cs := cs + [c];
      off := end;
      k := k + 1;
    }
  }

  /** Chunks that carry the first `off` bytes, followed by the rest of the cut, make the whole
      body. */
  lemma {:induction false} CutIsWhole(digest: Digest, cap: nat, body: seq<byte>, cs: seq<Chunk>, off: nat)
    requires off < |body| <= BODY_CAP && |body| <= cap && |cs| <= off
    requires InOrder(cap, cs) && Joined(cs) == body[..off]
    requires cs != [] ==> cs[0].sub.totalLen == |body| && cs[0].sub.digest == digest(body)
    ensures Whole(digest, cap, cs + ChunksFrom(body, digest(body), off, |cs|))
    decreases |body| - off
  {
    hide InOrder, Whole, CutEnd, Joined;
    var d := digest(body);
    var end := CutEnd(body, off);
    var c := CutAt(body, d, off, |cs|);
    var cs' := cs + [c];
    JoinedGrows(cs, c);
    assert body[..off] + body[off..end] == body[..end];
    InOrderGrows(cap, cs, c);
    WholeEndsWith(digest, cap, cs, c);
    if end < |body| {
      CutIsWhole(digest, cap, body, cs', end);
      assert cs' + ChunksFrom(body, d, end, |cs'|) == cs + ([c] + ChunksFrom(body, d, end, |cs'|));
    } else {
      assert body[..end] == body;
      assert ChunksFrom(body, d, end, |cs'|) == [];
      assert cs + ChunksFrom(body, d, off, |cs|) == cs';
    }
  }

  /** The round trip: pushing the chunks a body was cut into completes with that body. */
  lemma CutThenFeed(digest: Digest, cap: nat, body: seq<byte>)
    requires 0 < |body| <= BODY_CAP && |body| <= cap
    ensures var (a, r) := Feed(digest, cap, ChunksFrom(body, digest(body), 0, 0));
            r == Complete(|body|) && a.body == body && a.done
  {
    hide Feed, InOrder;
    var none: seq<Chunk> := [];
    NothingFed(digest, cap);
    var cs := ChunksFrom(body, digest(body), 0, 0);
    assert none + cs == cs;
    CutIsWhole(digest, cap, body, none, 0);
    FeedIs(digest, cap, cs);
    CutJoins(body, digest(body), 0, 0);
    assert body[0..] == body;
  }

  lemma {:induction false} JoinedConcat(a: seq<Chunk>, b: seq<Chunk>)
    ensures Joined(a + b) == Joined(a) + Joined(b)
    decreases |b|
  {
    if b == [] {
      assert a + b == a;
    } else {
      var n := |b| - 1;
      assert (a + b)[..|a + b| - 1] == a + b[..n];
      JoinedConcat(a, b[..n]);
    }
  }

  /** The cut carries the body's bytes in order. */
  lemma {:induction false} CutJoins(body: seq<byte>, digest: Bytes16, off: nat, k: nat)
    requires off <= |body| <= BODY_CAP && k <= off
    ensures Joined(ChunksFrom(body, digest, off, k)) == body[off..]
    decreases |body| - off
  {
    hide CutEnd, Joined;
    NoneJoined();
    if off < |body| {
      var end := CutEnd(body, off);
      var c, rest := CutAt(body, digest, off, k), ChunksFrom(body, digest, end, k + 1);
      CutJoins(body, digest, end, k + 1);
      JoinedConcat([c], rest);
      JoinedGrows([], c);
      assert [] + [c] == [c] && [] + c.bytes == c.bytes;
      assert body[off..end] + body[end..] == body[off..];
    }
  }

  /** What both ends size their buffers by: the number of chunks, and the bytes of their frames. */
  function WireLen(cs: seq<Chunk>): nat {
    if cs == [] then 0 else HEADER_LEN + SUBHDR_LEN + |cs[0].bytes| + WireLen(cs[1..])
  }

  lemma {:induction false} CutCounts(body: seq<byte>, digest: Bytes16, off: nat, k: nat)
    requires off <= |body| <= BODY_CAP && k <= off
    ensures |ChunksFrom(body, digest, off, k)| == ChunkCount(|body| - off)
    ensures WireLen(ChunksFrom(body, digest, off, k)) == ChunksWireLen(|body| - off)
    decreases |body| - off
  {
    if off < |body| {
      var cs := ChunksFrom(body, digest, off, k);
      var rest := ChunksFrom(body, digest, CutEnd(body, off), k + 1);
      CutCounts(body, digest, CutEnd(body, off), k + 1);
      assert cs[1..] == rest;
    }
  }

  /** Chunk `k` of a cut: the next 1000 bytes, or those left. */
  ghost predicate IsPiece(c: Chunk, body: seq<byte>, digest: Bytes16, k: nat) {
    && 1000 * k < |body| <= 8192
    && c.sub == SubHdr(k, 1000 * k + 1000 < |body|, |body|, digest)
    && c.bytes == body[1000 * k..if 1000 * k + 1000 < |body| then 1000 * k + 1000 else |body|]
  }

  lemma {:induction false} CutsPieces(body: seq<byte>, digest: Bytes16, off: nat, k: nat)
    requires off <= |body| <= 8192 && k <= off && (off == 1000 * k || off == |body|)
    ensures forall i :: 0 <= i < |ChunksFrom(body, digest, off, k)| ==>
              IsPiece(ChunksFrom(body, digest, off, k)[i], body, digest, k + i)
    decreases |body| - off
  {
    hide IsPiece;
    if off < |body| {
      var cs, rest := ChunksFrom(body, digest, off, k), ChunksFrom(body, digest, CutEnd(body, off), k + 1);
      FirstPiece(body, digest, off, k);
      CutsPieces(body, digest, CutEnd(body, off), k + 1);
      forall i | 0 <= i < |cs|
        ensures IsPiece(cs[i], body, digest, k + i)
      {
        if i > 0 {
          assert cs[i] == rest[i - 1] && IsPiece(rest[i - 1], body, digest, k + 1 + (i - 1));
        }
      }
    }
  }

  lemma FirstPiece(body: seq<byte>, digest: Bytes16, off: nat, k: nat)
    requires off < |body| <= 8192 && off == 1000 * k
    ensures k <= off && IsPiece(CutAt(body, digest, off, k), body, digest, k)
    ensures CutEnd(body, off) == off + 1000 || CutEnd(body, off) == |body|
  {
  }

  /** The cut, piece by piece: numbered chunks of 1000 bytes, and a last one of the rest. */
  lemma CutIs(body: seq<byte>, digest: Bytes16)
    requires |body| <= 8192
    ensures var cs := ChunksFrom(body, digest, 0, 0);
            && |cs| == (|body| + 999) / 1000
            && forall k :: 0 <= k < |cs| ==> IsPiece(cs[k], body, digest, k)
  {
    hide IsPiece, ChunksFrom;
    CutsPieces(body, digest, 0, 0);
    CutCounts(body, digest, 0, 0);
    forall k | 0 <= k < |ChunksFrom(body, digest, 0, 0)|
      ensures IsPiece(ChunksFrom(body, digest, 0, 0)[k], body, digest, k)
    {
      assert IsPiece(ChunksFrom(body, digest, 0, 0)[k], body, digest, 0 + k);
    }
  }

  // ---- In place ----------------------------------------------------------------------------------

  method SubCanon(h: SubHdr, out: array<byte>) returns (n: nat)
    modifies out
    ensures n == if h.Encodable() && SUBHDR_LEN <= out.Length then SUBHDR_LEN else 0
    ensures n == 0 ==> out[..] == old(out[..])
    ensures n > 0 ==> out[..] == SubBytes(h) + old(out[..])[SUBHDR_LEN..]
  {
    hide Le, Concat, Offset, Placed, Splice;
    if out.Length < SUBHDR_LEN {
      return 0;
    }
    if h.totalLen == 0 || h.totalLen > BODY_CAP {
      return 0;
    }
    ghost var base := out[..];
    ghost var f := SubFields(h);
    SubOffsets(h);
    NonePlaced(base, f);
    PlaceNext(out[..], base, f, 0);
    CopyBytes(out, 0, Le(h.seqNo, 2));
    PlaceNext(out[..], base, f, 1);
    CopyBytes(out, 2, [if h.more then 1 else 0]);
    PlaceNext(out[..], base, f, 2);
    CopyBytes(out, 3, [0]);
    PlaceNext(out[..], base, f, 3);
    CopyBytes(out, 4, Le(h.totalLen, 4));
    PlaceNext(out[..], base, f, 4);
    CopyBytes(out, 8, h.digest);
    AllPlaced(out[..], base, f);
    n := SUBHDR_LEN;
  }

  lemma SpliceAppends(s: seq<byte>, at: nat, b: seq<byte>)
    requires at + |b| <= |s|
    ensures Splice(s, at, b)[..at + |b|] == s[..at] + b
  {
  }

  class InferAssembler {
    const bodyDigest: Digest
    const buf: array<byte>
    var len: nat
    var nextSeq: u16
    var totalLen: u32
    var digest: Bytes16
    var started: bool
    var done: bool
    var poisoned: bool

    /** The body never outgrows the buffer. */
    ghost predicate Valid()
      reads this
    {
      len <= buf.Length && (started ==> totalLen <= buf.Length)
    }

    ghost function State(): Asm
      requires Valid()
      reads this, buf
    {
      Asm(buf[..len], nextSeq, totalLen, digest, started, done, poisoned)
    }

    constructor (bodyDigest: Digest, cap: nat)
      ensures Valid() && fresh(buf) && buf.Length == cap && this.bodyDigest == bodyDigest && State() == FRESH
    {
      this.bodyDigest := bodyDigest;
      buf := new byte[cap](_ => 0);
      len, nextSeq, totalLen, digest := 0, 0, 0, ZERO16;
      started, done, poisoned := false, false, false;
    }

    method PushChunk(sub: SubHdr, chunk: seq<byte>) returns (r: AsmPush)
      requires Valid()
      modifies this, buf
      ensures Valid()
      ensures (State(), r) == Push(bodyDigest, buf.Length, old(State()), Chunk(sub, chunk))
    {
      hide Splice;
      if poisoned || done {
        return Rejected;
      }
      var total := sub.totalLen;
      if !started {
        if sub.seqNo != 0 || total == 0 || total > BODY_CAP || total > buf.Length {
          poisoned := true;
          return Rejected;
        }
      } else if sub.seqNo != nextSeq || total != totalLen || sub.digest != digest {
        poisoned := true;
        return Rejected;
      }
      if chunk == [] || |chunk| > CHUNK_CAP {
        poisoned := true;
        return Rejected;
      }
      var newLen := len + |chunk|;
      if newLen > total || (sub.more && newLen >= total) || (!sub.more && newLen != total) {
        poisoned := true;
        return Rejected;
      }
      if !started {
        started, totalLen, digest := true, sub.totalLen, sub.digest;
      }
      SpliceAppends(buf[..], len, chunk);
      CopyBytes(buf, len, chunk);
      len := newLen;
      nextSeq := (nextSeq + 1) % 0x1_0000;
      if sub.more {
        return Accepted;
      }
      if bodyDigest(buf[..len]) != digest {
        poisoned := true;
        return Rejected;
      }
      done := true;
      r := Complete(len);
    }
  }
}
