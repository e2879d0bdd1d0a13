/** The inference-transport frame codec and the re-framer that finds frames in a byte stream
    (crates/tb-encode/src/inferwire.rs). */
module InferWire {
  import opened Words
  import opened Layout

  const MAGIC: u16 := 0x5958
  const MAGIC_LO: byte := 0x58
  const MAGIC_HI: byte := 0x59
  const VER: byte := 1
  const PAYLOAD_CAP := 1024
  const HEADER_LEN := 66
  const OFF_PAYLOAD_LEN := 62

  /** The longest frame. */
  const ACCUM_CAP := HEADER_LEN + PAYLOAD_CAP

  type Bytes16 = s: seq<byte> | |s| == 16 witness Zeros(16)

  datatype Frame = Frame(kind: byte, reqId: u64, challenge: Bytes16, nonce: Bytes16, peerId: byte,
                         tag: Bytes16, payload: seq<byte>) {
    predicate Encodable() {
      |payload| <= PAYLOAD_CAP && KindKnown(kind)
    }
  }

  predicate KindKnown(k: byte) {
    1 <= k <= 6
  }

  // ---- The codec ------------------------------------------------------------------------

  function HeaderFields(f: Frame): seq<seq<byte>> {
    [Le(MAGIC, 2), [VER], [f.kind], [0], Le(f.reqId, 8), f.challenge, f.nonce, [f.peerId], f.tag, Le(|f.payload|, 4)]
  }

  function FrameBytes(f: Frame): (b: seq<byte>)
    ensures |b| == HEADER_LEN + |f.payload|
  {
    HeaderOffsets(f);
    Concat(HeaderFields(f)) + f.payload
  }

  function Decode(b: seq<byte>): Option<Frame> {
    if |b| < HEADER_LEN then None
    else if NumberAt(b, 0, 2) != MAGIC then None
    else if b[2] != VER then None
    else if b[4] != 0 then None
    else if !KindKnown(b[3]) then None
    else
      var plen := U32At(b, OFF_PAYLOAD_LEN);
      if plen > PAYLOAD_CAP || |b| < HEADER_LEN + plen then None
      else Some(Frame(b[3], U64At(b, 5), b[13..29], b[29..45], b[45], b[46..62], b[66..66 + plen]))
  }

  lemma HeaderOffsets(f: Frame)
    ensures var h := HeaderFields(f);
            && Offset(h, 0) == 0 && Offset(h, 1) == 2 && Offset(h, 2) == 3 && Offset(h, 3) == 4 && Offset(h, 4) == 5
            && Offset(h, 5) == 13 && Offset(h, 6) == 29 && Offset(h, 7) == 45 && Offset(h, 8) == 46
            && Offset(h, 9) == 62 && Offset(h, 10) == 66
            && |Concat(h)| == HEADER_LEN
  {
    hide Le, Concat;
    var h := HeaderFields(f);
    OffsetStep(h, 0);
    OffsetStep(h, 1);
    OffsetStep(h, 2);
    OffsetStep(h, 3);
    OffsetStep(h, 4);
    OffsetStep(h, 5);
    OffsetStep(h, 6);
    OffsetStep(h, 7);
    OffsetStep(h, 8);
    OffsetStep(h, 9);
    ConcatLength(h);
  }

  /** The header's fields, read at their offsets. */
  lemma HeaderReads(f: Frame)
    requires f.Encodable()
    ensures var b := Concat(HeaderFields(f));
            && |b| == HEADER_LEN
            && NumberAt(b, 0, 2) == MAGIC && b[2..3] == [VER] && b[3..4] == [f.kind] && b[4..5] == [0]
            && NumberAt(b, 5, 8) == f.reqId && b[13..29] == f.challenge && b[29..45] == f.nonce
            && b[45..46] == [f.peerId] && b[46..62] == f.tag && NumberAt(b, 62, 4) == |f.payload|
  {
    hide Le, Concat, Offset, NumberAt;
    var h := HeaderFields(f);
    HeaderOffsets(f);
    WordBounds();
    NumberFieldAt(h, 0, MAGIC, 2);
    FieldAt(h, 1);
    FieldAt(h, 2);
    FieldAt(h, 3);
    NumberFieldAt(h, 4, f.reqId, 8);
    FieldAt(h, 5);
    FieldAt(h, 6);
    FieldAt(h, 7);
    FieldAt(h, 8);
    NumberFieldAt(h, 9, |f.payload|, 4);
  }

  /** Decoding what was encoded gives the frame back, whatever follows it. */
  lemma DecodeOfFrame(f: Frame, rest: seq<byte>)
    requires f.Encodable()
    ensures Decode(FrameBytes(f) + rest) == Some(f)
  {
    hide Le, Concat, Offset, NumberAt, HeaderFields;
    HeaderReads(f);
    var h, tail := Concat(HeaderFields(f)), f.payload + rest;
    var b := FrameBytes(f) + rest;
    assert b == h + tail;
    NumberInPrefix(h, tail, 0, 2);
    NumberInPrefix(h, tail, 2, 1);
    NumberInPrefix(h, tail, 3, 1);
    NumberInPrefix(h, tail, 4, 1);
    NumberInPrefix(h, tail, 5, 8);
    NumberInPrefix(h, tail, 13, 16);
    NumberInPrefix(h, tail, 29, 16);
    NumberInPrefix(h, tail, 45, 1);
    NumberInPrefix(h, tail, 46, 16);
    NumberInPrefix(h, tail, 62, 4);
    assert b[2] == b[2..3][0] && b[3] == b[3..4][0] && b[4] == b[4..5][0] && b[45] == b[45..46][0];
    assert b[66..66 + |f.payload|] == f.payload;
  }

  /** Encoding what was decoded gives the decoded bytes back. */
  lemma FrameOfDecode(b: seq<byte>)
    requires Decode(b).Some?
    ensures var f := Decode(b).value;
            f.Encodable() && HEADER_LEN + |f.payload| <= |b| && FrameBytes(f) == b[..HEADER_LEN + |f.payload|]
  {
    hide Le, Concat, Offset, NumberAt;
    var f := Decode(b).value;
    HeaderOffsets(f);
    NumberWritesBack(b, 0, 2);
    NumberWritesBack(b, 5, 8);
    NumberWritesBack(b, 62, 4);
    AssembledIs(b[..HEADER_LEN], HeaderFields(f));
    assert b[..HEADER_LEN + |f.payload|] == b[..HEADER_LEN] + b[HEADER_LEN..HEADER_LEN + |f.payload|];
  }

  /** A frame byte for byte: magic, version 1, kind, no flags, request id, challenge, nonce, peer, tag,
      length and payload. */
  lemma FrameLayout(f: Frame)
    ensures FrameBytes(f) ==
            ([0x58, 0x59] + [1] + [f.kind] + [0]) + (Le(f.reqId, 8) + f.challenge + f.nonce + [f.peerId])
            + (f.tag + Le(|f.payload|, 4)) + f.payload
  {
    hide Le, Concat;
    var h := HeaderFields(f);
    SplitFields(h, 4);
    SplitFields(h[4..], 4);
    FourFields(h[..4]);
    FourFields(h[4..][..4]);
    TwoFields(h[4..][4..]);
    MagicIs();
  }

  lemma MagicIs()
    ensures Le(MAGIC, 2) == [0x58, 0x59]
  {
    LeBytes(MAGIC);
  }

  /** A buffer holds a frame at its front exactly if its header keeps every rule and the payload it declares,
      of at most 1024 bytes, is there; the fields are then read from their places. */
  lemma DecodeIff(b: seq<byte>)
    ensures Decode(b).Some? <==>
            && |b| >= 66 && b[0] == 0x58 && b[1] == 0x59 && b[2] == 1 && 1 <= b[3] <= 6 && b[4] == 0
            && NumberAt(b, 62, 4) <= 1024 && |b| >= 66 + NumberAt(b, 62, 4)
    ensures Decode(b).Some? ==>
              var f := Decode(b).value;
              && f.kind == b[3] && b[5..13] == Le(f.reqId, 8) && f.challenge == b[13..29] && f.nonce == b[29..45]
              && f.peerId == b[45] && f.tag == b[46..62] && f.payload == b[66..66 + NumberAt(b, 62, 4)]
  {
    hide Le, FromLe;
    if |b| >= 66 {
      MagicBytes(b);
      NumberWritesBack(b, 5, 8);
    }
  }

  /** Encodes into the front of `out`, or refuses and leaves it alone. */
  method Canon(f: Frame, out: array<byte>) returns (n: nat)
    modifies out
    ensures n == if f.Encodable() && HEADER_LEN + |f.payload| <= out.Length then HEADER_LEN + |f.payload| else 0
    ensures n == 0 ==> out[..] == old(out[..])
    ensures n > 0 ==> out[..] == FrameBytes(f) + old(out[..])[n..]
  {
    hide Concat, Splice, HeaderFields;
    if |f.payload| > PAYLOAD_CAP || !KindKnown(f.kind) {
      return 0;
    }
    n := HEADER_LEN + |f.payload|;
    if out.Length < n {
      return 0;
    }
    HeaderOffsets(f);
    PayloadAfter(Concat(HeaderFields(f)), out[..], f.payload);
    PutHeader(f, out);
    CopyBytes(out, HEADER_LEN, f.payload);
  }

  method PutHeader(f: Frame, out: array<byte>)
    requires f.Encodable() && HEADER_LEN <= out.Length
    modifies out
    ensures out[..] == Concat(HeaderFields(f)) + old(out[..])[HEADER_LEN..]
  {
    hide Le, Concat, Offset, Placed, Splice;
    ghost var base := out[..];
    ghost var h := HeaderFields(f);
    HeaderOffsets(f);
    NonePlaced(base, h);
    PlaceNext(out[..], base, h, 0);
    CopyBytes(out, 0, Le(MAGIC, 2));
    PlaceNext(out[..], base, h, 1);
    CopyBytes(out, 2, [VER]);
    PlaceNext(out[..], base, h, 2);
    CopyBytes(out, 3, [f.kind]);
    PlaceNext(out[..], base, h, 3);
    CopyBytes(out, 4, [0]);
    PlaceNext(out[..], base, h, 4);
    CopyBytes(out, 5, Le(f.reqId, 8));
    PlaceNext(out[..], base, h, 5);
    CopyBytes(out, 13, f.challenge);
    PlaceNext(out[..], base, h, 6);
    CopyBytes(out, 29, f.nonce);
    PlaceNext(out[..], base, h, 7);
    CopyBytes(out, 45, [f.peerId]);
    PlaceNext(out[..], base, h, 8);
    CopyBytes(out, 46, f.tag);
    PlaceNext(out[..], base, h, 9);
    CopyBytes(out, 62, Le(|f.payload|, 4));
    AllPlaced(out[..], base, h);
  }

  lemma PayloadAfter(header: seq<byte>, base: seq<byte>, payload: seq<byte>)
    requires |header| + |payload| <= |base|
    ensures Splice(header + base[|header|..], |header|, payload) == header + payload + base[|header| + |payload|..]
  {
  }

  // ---- Finding frames in a stream, byte by byte or all at once ----------------------------

  /** No byte so far breaks a rule of the header. */
  predicate Plausible(s: seq<byte>) {
    && (|s| > 0 ==> s[0] == MAGIC_LO)
    && (|s| > 1 ==> s[1] == MAGIC_HI)
    && (|s| > 2 ==> s[2] == VER)
    && (|s| > 3 ==> KindKnown(s[3]))
    && (|s| > 4 ==> s[4] == 0)
    && (|s| >= HEADER_LEN ==> U32At(s, OFF_PAYLOAD_LEN) <= PAYLOAD_CAP)
  }

  /** The length the header declares. */
  function FrameLen(s: seq<byte>): (n: nat)
    requires |s| >= HEADER_LEN
    ensures n >= HEADER_LEN
  {
    HEADER_LEN + U32At(s, OFF_PAYLOAD_LEN)
  }

  predicate Complete(s: seq<byte>) {
    |s| >= HEADER_LEN && |s| >= FrameLen(s)
  }

  /** The shortest frame there is. */
  function Shortest(): (t: seq<byte>)
    ensures |t| == 66
  {
    [0x58, 0x59, 1, 1, 0] + Zeros(61)
  }

  /** A buffer is plausible exactly if it can still become a frame, that is, some bytes behind it make it one. A
      length field that is cut short is not looked at. */
  lemma PlausibleIff(s: seq<byte>)
    ensures |s| <= 62 || |s| >= 66 ==> (Plausible(s) <==> exists t: seq<byte> :: Decode(s + t).Some?)
    ensures 62 < |s| < 66 ==> (Plausible(s) <==> Plausible(s[..62]))
  {
    hide Plausible, Decode;
    if t: seq<byte> :| Decode(s + t).Some? {
      DecodesPlausibly(s, t);
    }
    if Plausible(s) && |s| <= 62 {
      Completes(s);
    }
    if Plausible(s) && |s| >= 66 {
      FillsUp(s);
    }
    if 62 < |s| < 66 {
      CutLength(s);
    }
  }

  lemma DecodesPlausibly(s: seq<byte>, t: seq<byte>)
    requires Decode(s + t).Some?
    ensures Plausible(s)
  {
    hide FromLe, Le, Decode;
    DecodeIff(s + t);
    if |s| >= 66 {
      NumberInPrefix(s, t, 62, 4);
    }
  }

  lemma Completes(s: seq<byte>)
    requires Plausible(s) && |s| <= 62
    ensures Decode(s + Shortest()[|s|..]).Some?
  {
    hide Decode, FromLe, Le;
    var t := Shortest();
    var b := s + t[|s|..];
    assert forall i :: |s| <= i < 66 ==> b[i] == t[i];
    assert t[62] == t[63] == t[64] == t[65] == 0;
    assert b[62..66] == [0, 0, 0, 0];
    ZeroLength(b);
    DecodeIff(b);
  }

  lemma ZeroLength(b: seq<byte>)
    requires |b| >= 66 && b[62..66] == [0, 0, 0, 0]
    ensures NumberAt(b, 62, 4) == 0
  {
    hide Le;
    assert FromLe([0]) == 0 by { assert [0 as byte][1..] == []; }
    assert FromLe([0, 0]) == 0 by { assert [0 as byte, 0][1..] == [0]; }
    assert FromLe([0, 0, 0]) == 0 by { assert [0 as byte, 0, 0][1..] == [0, 0]; }
    assert FromLe([0, 0, 0, 0]) == 0 by { assert [0 as byte, 0, 0, 0][1..] == [0, 0, 0]; }
  }

  lemma FillsUp(s: seq<byte>)
    requires Plausible(s) && |s| >= 66
    ensures Decode(s + Zeros(1024)).Some?
  {
    hide Decode, FromLe, Le;
    DecodeIff(s + Zeros(1024));
    NumberInPrefix(s, Zeros(1024), 62, 4);
  }

  lemma CutLength(s: seq<byte>)
    requires 62 < |s| < 66
    ensures Plausible(s) <==> Plausible(s[..62])
  {
  }

  /** Drops bytes from the front until the rest could be a frame. */
  function Settle(s: seq<byte>): (r: seq<byte>)
    ensures |r| <= |s| && Plausible(r)
    ensures !Plausible(s) ==> |r| < |s|
  {
    if Plausible(s) then s else Settle(s[1..])
  }

  /** The frames of a whole stream, read off in one go, and what is left over. */
  function Parse(s: seq<byte>): (seq<seq<byte>>, seq<byte>)
    decreases |s|
  {
    if s == [] then ([], [])
    else if !Plausible(s) then Parse(s[1..])
    else if !Complete(s) then ([], s)
    else
      var (frames, rest) := Parse(s[FrameLen(s)..]);
      ([s[..FrameLen(s)]] + frames, rest)
  }

  /** A buffer that waits for more: plausible so far, and no frame yet. */
  predicate Waiting(s: seq<byte>) {
    Plausible(s) && !Complete(s)
  }

  lemma HeaderStays(s: seq<byte>, t: seq<byte>)
    ensures !Plausible(s) ==> !Plausible(s + t)
    ensures |s| >= HEADER_LEN ==> FrameLen(s + t) == FrameLen(s) && Plausible(s + t) == Plausible(s)
  {
    hide NumberAt;
    if |s| >= HEADER_LEN {
      NumberInPrefix(s, t, OFF_PAYLOAD_LEN, 4);
    }
  }

  /** Reading a stream in two parts: the frames of the first part, then those found from its
      leftover on. */
  lemma {:induction false} ParseExtends(s: seq<byte>, t: seq<byte>)
    ensures var (frames, rest) := Parse(s);
            Parse(s + t) == (frames + Parse(rest + t).0, Parse(rest + t).1)
    decreases |s|
  {
    hide Plausible, FrameLen;
    var more := Parse(Parse(s).1 + t);
    if s == [] {
      assert s + t == t;
      assert [] + more.0 == more.0;
    } else {
      HeaderStays(s, t);
      if !Plausible(s) {
        assert (s + t)[1..] == s[1..] + t;
        ParseExtends(s[1..], t);
      } else if !Complete(s) {
        assert [] + more.0 == more.0;
      } else {
        var n := FrameLen(s);
        assert (s + t)[..n] == s[..n] && (s + t)[n..] == s[n..] + t;
        ParseExtends(s[n..], t);
        assert ([s[..n]] + Parse(s[n..]).0) + more.0 == [s[..n]] + (Parse(s[n..]).0 + more.0);
      }
    }
  }

  lemma {:induction false} RestWaits(s: seq<byte>)
    ensures Waiting(Parse(s).1)
    decreases |s|
  {
    hide FrameLen;
    if s == [] {
    } else if !Plausible(s) {
      RestWaits(s[1..]);
    } else if Complete(s) {
      RestWaits(s[FrameLen(s)..]);
    }
  }

  lemma {:induction false} ParseSettles(s: seq<byte>)
    ensures Parse(Settle(s)) == Parse(s)
  {
    if !Plausible(s) {
      ParseSettles(s[1..]);
    }
  }

  /** A waiting buffer is shorter than the longest frame, so the accumulator is never full. */
  lemma WaitingIsShort(s: seq<byte>)
    requires Waiting(s)
    ensures |s| < ACCUM_CAP
    ensures Parse(s) == ([], s)
  {
  }

  /** One more byte completes at most one frame, which then is the whole buffer. */
  lemma OneMoreByte(s: seq<byte>, b: byte)
    requires Waiting(s)
    ensures var t := Settle(s + [b]);
            if Complete(t) then t == s + [b] && FrameLen(t) == |t| && Parse(s + [b]) == ([t], [])
            else Waiting(t) && Parse(s + [b]) == ([], t)
  {
    hide NumberAt;
    var u := s + [b];
    HeaderStays(s, [b]);
    ParseSettles(u);
    var t := Settle(u);
    if Plausible(u) {
      if Complete(u) {
        assert FrameLen(u) == |u|;
        assert u[..|u|] == u && u[|u|..] == [];
        assert [u] + Parse([]).0 == [u];
      } else {
        WaitingIsShort(u);
      }
    } else {
      WaitingIsShort(t);
    }
  }

  // ---- What the re-framer finds ---------------------------------------------------------------

  function Encoded(fs: seq<Frame>): seq<byte> {
    if fs == [] then [] else FrameBytes(fs[0]) + Encoded(fs[1..])
  }

  function Windows(fs: seq<Frame>): seq<seq<byte>> {
    if fs == [] then [] else [FrameBytes(fs[0])] + Windows(fs[1..])
  }

  ghost predicate AllEncodable(fs: seq<Frame>) {
    forall i :: 0 <= i < |fs| ==> fs[i].Encodable()
  }

  lemma FrameStandsOut(f: Frame, rest: seq<byte>)
    requires f.Encodable()
    ensures var s := FrameBytes(f) + rest;
            Plausible(s) && Complete(s) && FrameLen(s) == |FrameBytes(f)| && s[..FrameLen(s)] == FrameBytes(f)
  {
    hide FrameBytes, FromLe;
    var s := FrameBytes(f) + rest;
    DecodeOfFrame(f, rest);
    MagicBytes(s);
    assert U32At(s, OFF_PAYLOAD_LEN) == |f.payload|;
  }

  lemma MagicBytes(s: seq<byte>)
    requires |s| >= 2
    ensures NumberAt(s, 0, 2) == MAGIC <==> s[0] == MAGIC_LO && s[1] == MAGIC_HI
  {
    assert s[0..2] == [s[0], s[1]];
    assert FromLe([s[0], s[1]]) == s[0] + 256 * FromLe([s[1]]) by {
      assert [s[0], s[1]][1..] == [s[1]];
    }
    assert FromLe([s[1]]) == s[1];
  }

  /** A stream of encoded frames gives exactly those frames, in order, with nothing left. */
  lemma {:induction false} ParseOfFrames(fs: seq<Frame>)
    requires AllEncodable(fs)
    ensures Parse(Encoded(fs)) == (Windows(fs), [])
    decreases |fs|
  {
    hide FrameBytes, Plausible, Complete, FrameLen;
    if fs != [] {
      var s, b, rest := Encoded(fs), FrameBytes(fs[0]), Encoded(fs[1..]);
      FrameStandsOut(fs[0], rest);
      assert s == b + rest && s[|b|..] == rest && s[..|b|] == b;
      FrameIsNotEmpty(fs[0]);
      ParseOfFrames(fs[1..]);
    }
  }

  lemma FrameIsNotEmpty(f: Frame)
    ensures FrameBytes(f) != []
  {
  }

  /** Everything found decodes, and is the encoding of what it decodes to. */
  lemma {:induction false} FoundDecodes(s: seq<byte>, i: nat)
    requires i < |Parse(s).0|
    ensures var w := Parse(s).0[i];
            Decode(w).Some? && Decode(w).value.Encodable() && FrameBytes(Decode(w).value) == w
    decreases |s|
  {
    hide Plausible, FrameBytes, Decode;
    if s != [] {
      if !Plausible(s) {
        FoundDecodes(s[1..], i);
      } else if Complete(s) {
        if i == 0 {
          FrontDecodes(s);
        } else {
          FoundDecodes(s[FrameLen(s)..], i - 1);
        }
      }
    }
  }

  lemma FrontDecodes(s: seq<byte>)
    requires Plausible(s) && Complete(s)
    ensures var w := s[..FrameLen(s)];
            Decode(w).Some? && Decode(w).value.Encodable() && FrameBytes(Decode(w).value) == w
  {
    hide FrameBytes, FromLe;
    var w := s[..FrameLen(s)];
    assert w + s[FrameLen(s)..] == s;
    NumberInPrefix(w, s[FrameLen(s)..], OFF_PAYLOAD_LEN, 4);
    MagicBytes(w);
    assert Decode(w).Some?;
    FrameOfDecode(w);
    assert w[..|w|] == w;
  }

  // ---- What garbage does ------------------------------------------------------------------------

  /** Bytes without the magic's first byte hold no frame, leave nothing over and hide nothing. */
  lemma {:induction false} GarbageIsDropped(s: seq<byte>)
    requires MAGIC_LO !in s
    ensures Parse(s) == ([], [])
    ensures forall t: seq<byte> :: Parse(s + t) == Parse(t)
  {
    if s != [] {
      assert s[0] in s;
      GarbageIsDropped(s[1..]);
    }
    GarbageIsHarmlessIff(s);
  }

  /** Bytes are as good as absent, whatever follows, exactly if they hold no frame and leave nothing
      over. */
  lemma GarbageIsHarmlessIff(s: seq<byte>)
    ensures (forall t: seq<byte> :: Parse(s + t) == Parse(t)) <==> Parse(s) == ([], [])
  {
    hide Parse;
    assert Parse([]) == ([], []) by { ParseNothing(); }
    if Parse(s) == ([], []) {
      forall t: seq<byte>
        ensures Parse(s + t) == Parse(t)
      {
        ParseExtends(s, t);
        assert [] + t == t && [] + Parse(t).0 == Parse(t).0;
      }
    }
    if forall t: seq<byte> :: Parse(s + t) == Parse(t) {
      assert Parse(s + []) == Parse([]) && s + [] == s;
    }
  }

  lemma ParseNothing()
    ensures Parse([]) == ([], [])
  {
  }

  /** No place in `r` passes for the start of a frame once `b` has arrived. */
  predicate Exposed(r: seq<byte>, b: seq<byte>) {
    forall i :: 0 <= i < |r| ==> !Plausible(r[i..] + b)
  }

  /** What is read from a stream with a plausible header in front: nothing until the declared length
      has arrived, then a window of that length, and after it whatever comes behind. */
  function ReadBehind(v: seq<byte>): (seq<seq<byte>>, seq<byte>)
    requires |v| >= HEADER_LEN
  {
    if |v| < FrameLen(v) then ([], v)
    else
      var (frames, rest) := Parse(v[FrameLen(v)..]);
      ([v[..FrameLen(v)]] + frames, rest)
  }

  /** A frame behind leftover bytes is read at its place if they leave it exposed; otherwise it is read
      as the header or payload of what the first plausible place among them declares. */
  lemma {:induction false} FrameBehindGarbage(r: seq<byte>, f: Frame, t: seq<byte>)
    requires f.Encodable()
    ensures Exposed(r, FrameBytes(f)) ==> Parse(r + FrameBytes(f) + t) == Parse(FrameBytes(f) + t)
    ensures !Exposed(r, FrameBytes(f)) ==>
              exists i :: 0 <= i < |r| && Plausible(r[i..] + FrameBytes(f)) && Exposed(r[..i], r[i..] + FrameBytes(f))
                && Parse(r + FrameBytes(f) + t) == ReadBehind(r[i..] + FrameBytes(f) + t)
    decreases |r|
  {
    hide Plausible, FrameBytes, FrameLen;
    var b := FrameBytes(f);
    if r == [] {
      assert r + b + t == b + t;
    } else {
      HeaderStays(r + b, t);
      if Plausible(r + b) {
        assert r[0..] == r && r[..0] == [];
        assert Exposed(r[..0], r[0..] + b);
      } else {
        assert (r + b + t)[1..] == r[1..] + b + t;
        FrameBehindGarbage(r[1..], f, t);
        ExposedStep(r, b);
        if !Exposed(r[1..], b) {
          var i :| 0 <= i < |r[1..]| && Plausible(r[1..][i..] + b) && Exposed(r[1..][..i], r[1..][i..] + b)
            && Parse(r[1..] + b + t) == ReadBehind(r[1..][i..] + b + t);
          assert r[1..][i..] == r[i + 1..];
          assert r[..i + 1][1..] == r[1..][..i];
          assert r[..i + 1] + (r[i + 1..] + b) == r + b;
          ExposedStep(r[..i + 1], r[i + 1..] + b);
        }
      }
    }
  }

  lemma ExposedStep(r: seq<byte>, b: seq<byte>)
    requires r != []
    ensures Exposed(r, b) <==> !Plausible(r + b) && Exposed(r[1..], b)
  {
    hide Plausible;
    assert r[0..] == r;
    forall i | 0 <= i < |r[1..]|
      ensures r[1..][i..] == r[i + 1..]
    {
    }
    if !Plausible(r + b) && Exposed(r[1..], b) {
      forall i | 0 <= i < |r|
        ensures !Plausible(r[i..] + b)
      {
        if i > 0 {
          assert r[i..] == r[1..][i - 1..];
        }
      }
    }
    if Exposed(r, b) {
      forall i | 0 <= i < |r[1..]|
        ensures !Plausible(r[1..][i..] + b)
      {
        assert r[1..][i..] == r[i + 1..];
      }
    }
  }

  /** A frame cut off behind its header: the bytes that follow, whole frames among them, are taken for
      the rest of its payload. */
  lemma CutFrameSwallows(f: Frame, k: nat, t: seq<byte>)
    requires f.Encodable() && HEADER_LEN <= k < |FrameBytes(f)|
    ensures var s, missing := FrameBytes(f)[..k], |FrameBytes(f)| - k;
            && Parse(s) == ([], s)
            && Parse(s + t) == (if |t| < missing then ([], s + t)
                                else ([s + t[..missing]] + Parse(t[missing..]).0, Parse(t[missing..]).1))
  {
    hide Plausible, FrameBytes, FrameLen, Parse;
    var s, n := FrameBytes(f)[..k], |FrameBytes(f)|;
    CutFrameWaits(f, k);
    HeaderStays(s, t);
    HeaderOnly(s, n);
    HeaderOnly(s + t, n);
    if |t| >= n - k {
      assert (s + t)[..n] == s + t[..n - k] && (s + t)[n..] == t[n - k..];
    }
  }

  lemma CutFrameWaits(f: Frame, k: nat)
    requires f.Encodable() && HEADER_LEN <= k < |FrameBytes(f)|
    ensures Plausible(FrameBytes(f)[..k]) && FrameLen(FrameBytes(f)[..k]) == |FrameBytes(f)|
  {
    hide Plausible, FrameBytes, FrameLen;
    var b := FrameBytes(f);
    FrameStandsOut(f, []);
    assert b + [] == b && b[..k] + b[k..] == b;
    HeaderStays(b[..k], b[k..]);
  }

  lemma HeaderOnly(s: seq<byte>, n: nat)
    requires |s| >= HEADER_LEN && Plausible(s) && FrameLen(s) == n
    ensures |s| < n ==> Parse(s) == ([], s)
    ensures |s| >= n ==> Parse(s) == ([s[..n]] + Parse(s[n..]).0, Parse(s[n..]).1)
  {
    hide Plausible;
  }

  // ---- The accumulator as it runs ---------------------------------------------------------------

  class FrameAccum {
    const buf: array<byte>
    var len: nat

    ghost predicate Valid()
      reads this
    {
      0 < buf.Length && len <= buf.Length
    }

    ghost function Contents(): seq<byte>
      requires Valid()
      reads this, buf
    {
      buf[..len]
    }

    constructor (cap: nat)
      requires cap > 0
      ensures Valid() && fresh(buf) && buf.Length == cap && Contents() == []
    {
      buf := new byte[cap](_ => 0);
      len := 0;
    }

    /** Drops the front `n` bytes, or all. */
    method Consume(n: nat)
      requires Valid()
      modifies this`len, buf
      ensures Valid()
      ensures Contents() == old(Contents())[if n > old(len) then old(len) else n..]
    {
      var k := if n > len then len else n;
      var remain := len - k;
      var i := 0;
      while i < remain
        invariant 0 <= i <= remain
        invariant len == old(len)
        invariant forall j :: 0 <= j < i ==> buf[j] == old(buf[k + j])
        invariant forall j :: i <= j < buf.Length ==> buf[j] == old(buf[j])
      {
        buf[i] := buf[k + i];
        i := i + 1;
      }
      len := remain;
      assert buf[..len] == old(buf[..len])[k..];
    }

    /** Drops up to the next byte that could start a frame. */
    method ResyncToMagic()
      requires Valid() && len > 0 && buf[0] != MAGIC_LO
      modifies this`len, buf
      ensures Valid() && len < old(len)
      ensures Settle(Contents()) == Settle(old(Contents()))
    {
      var i := 1;
      SettleSkips(buf[..len], 1);
      while i < len
        invariant 1 <= i <= len == old(len)
        invariant buf[..] == old(buf[..])
        invariant Settle(buf[..len][i..]) == Settle(old(Contents()))
        invariant forall j :: 0 <= j < i ==> buf[j] != MAGIC_LO
      {
        if buf[i] == MAGIC_LO {
          Consume(i);
          return;
        }
        SettleSkips(buf[..len][i..], 1);
        assert buf[..len][i..][1..] == buf[..len][i + 1..];
        i := i + 1;
      }
      assert buf[..len][len..] == [];
      len := 0;
      assert buf[..0] == [];
    }

    /** Drops bytes until the front could be a frame; says how long it is once it is complete. */
    method Scan() returns (r: Option<nat>)
      requires Valid()
      modifies this`len, buf
      ensures Valid() && Contents() == Settle(old(Contents()))
      ensures r == if Complete(Contents()) then Some(FrameLen(Contents())) else None
    {
      hide NumberAt;
      while true
        invariant Valid()
        invariant Settle(Contents()) == Settle(old(Contents()))
        decreases len
      {
        if len == 0 {
          return None;
        }
        ghost var before := Contents();
        if buf[0] != MAGIC_LO {
          ResyncToMagic();
          continue;
        }
        if (len >= 2 && buf[1] != MAGIC_HI)
           || (len > 2 && buf[2] != VER)
           || (len > 3 && !KindKnown(buf[3]))
           || (len > 4 && buf[4] != 0) {
          SettleSkips(before, 1);
          Consume(1);
          continue;
        }
        if len < HEADER_LEN {
          return None;
        }
        var plen := U32At(buf[..len], OFF_PAYLOAD_LEN);
        if plen > PAYLOAD_CAP {
          SettleSkips(before, 1);
          Consume(1);
          continue;
        }
        var total := HEADER_LEN + plen;
        if len < total {
          return None;
        }
        return Some(total);
      }
    }

    /** Takes one stream byte; at capacity the front byte goes first. */
    method PushByte(b: byte) returns (r: Option<nat>)
      requires Valid()
      modifies this`len, buf
      ensures Valid()
      ensures var room := if old(len) == buf.Length then old(Contents())[1..] else old(Contents());
              Contents() == Settle(room + [b])
      ensures r == if Complete(Contents()) then Some(FrameLen(Contents())) else None
    {
      if len == buf.Length {
        Consume(1);
      }
      ghost var room := Contents();
      buf[len] := b;
      len := len + 1;
      assert Contents() == room + [b];
      r := Scan();
    }

    /** Feeds bytes and takes out each frame as it completes: the frames taken and the bytes kept
        are those of the whole stream read at once. */
    method Feed(bytes: seq<byte>) returns (frames: seq<seq<byte>>)
      requires Valid() && buf.Length >= ACCUM_CAP && Waiting(Contents())
      modifies this`len, buf
      ensures Valid() && Waiting(Contents())
      ensures (frames, Contents()) == Parse(old(Contents()) + bytes)
    {
      hide Waiting, Complete, Settle, Parse;
      frames := [];
      ghost var start := Contents();
      WaitingIsShort(start);
      assert start + bytes[..0] == start;
      for i := 0 to |bytes|
        invariant Valid() && Waiting(Contents())
        invariant (frames, Contents()) == Parse(start + bytes[..i])
      {
        ghost var kept := Contents();
        WaitingIsShort(kept);
        ParseExtends(start + bytes[..i], [bytes[i]]);
        assert (start + bytes[..i]) + [bytes[i]] == start + bytes[..i + 1];
        OneMoreByte(kept, bytes[i]);
        var fl := PushByte(bytes[i]);
        assert frames + [] == frames;
        if fl.Some? {
          assert buf[..fl.value] == Contents();
          frames := frames + [buf[..fl.value]];
          Consume(fl.value);
          EmptyWaits();
        }
      }
      assert bytes[..|bytes|] == bytes;
    }
  }

  lemma EmptyWaits()
    ensures Waiting([])
  {
  }

  /** An implausible front byte can be dropped. */
  lemma SettleSkips(s: seq<byte>, n: nat)
    requires n == 1 && s != [] && !Plausible(s)
    ensures Settle(s) == Settle(s[n..])
  {
  }
}
