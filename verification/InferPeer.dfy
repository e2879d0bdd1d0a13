/** The in-process peer as a frame server (tb-vmm/src/infer_host.rs): it re-frames the guest's
    bytes and answers each frame. How a frame is answered is not modelled: `serve` is any
    function from the server's state and a frame to a new state and reply bytes. */
module InferPeer {
  import opened Words
  import opened InferWire
  import opened VirtioDevice
  import opened VirtioLoops
  import opened VirtioStream

  datatype Server<!D> = Server(kept: seq<byte>, inner: D)

  /** One turn of `push_guest_bytes`. */
  function FeedByte<D>(serve: (D, Frame) -> (D, seq<byte>), s: Server<D>, b: byte): (Server<D>, seq<byte>) {
    var room := if |s.kept| == ACCUM_CAP then s.kept[1..] else s.kept;
    var t := Settle(room + [b]);
    if !Complete(t) then (Server(t, s.inner), []) else
    var (inner, reply) := Answer(serve, s.inner, t[..FrameLen(t)]);
    (Server(t[FrameLen(t)..], inner), reply)
  }

  /** A window that does not decode gets no reply. */
  function Answer<D>(serve: (D, Frame) -> (D, seq<byte>), inner: D, window: seq<byte>): (D, seq<byte>) {
    match Decode(window)
    case None => (inner, [])
    case Some(f) => serve(inner, f)
  }

  function FramedPeer<D>(serve: (D, Frame) -> (D, seq<byte>), s: Server<D>): Peer<Server<D>> {
    Peer(s, (s: Server<D>, b: byte) => FeedByte(serve, s, b))
  }

  /** The answers to a list of windows, one after the other. */
  function Answers<D>(serve: (D, Frame) -> (D, seq<byte>), inner: D, windows: seq<seq<byte>>): (D, seq<byte>) {
    if windows == [] then (inner, []) else
    var (inner1, reply) := Answer(serve, inner, windows[0]);
    var (inner2, rest) := Answers(serve, inner1, windows[1..]);
    (inner2, reply + rest)
  }

  /** The answers to a list of frames. */
  function RepliesTo<D>(serve: (D, Frame) -> (D, seq<byte>), inner: D, fs: seq<Frame>): (D, seq<byte>) {
    if fs == [] then (inner, []) else
    var (inner1, reply) := serve(inner, fs[0]);
    var (inner2, rest) := RepliesTo(serve, inner1, fs[1..]);
    (inner2, reply + rest)
  }

  lemma {:induction false} AnswersToFrames<D>(serve: (D, Frame) -> (D, seq<byte>), inner: D, fs: seq<Frame>)
    requires AllEncodable(fs)
    ensures Answers(serve, inner, Windows(fs)) == RepliesTo(serve, inner, fs)
  {
    if fs != [] {
      DecodeOfFrame(fs[0], []);
      assert FrameBytes(fs[0]) + [] == FrameBytes(fs[0]);
      assert Windows(fs)[1..] == Windows(fs[1..]);
      AnswersToFrames(serve, serve(inner, fs[0]).0, fs[1..]);
    }
  }

  /** One byte, seen from the stream: it completes a frame, which is answered, or none. */
  lemma ByteAnswers<D>(serve: (D, Frame) -> (D, seq<byte>), s: Server<D>, b: byte)
    requires Waiting(s.kept)
    ensures var (frames, rest) := Parse(s.kept + [b]);
            && |frames| <= 1 && Waiting(rest)
            && FeedByte(serve, s, b) == (Server(rest, Answers(serve, s.inner, frames).0), Answers(serve, s.inner, frames).1)
  {
    hide Decode, FrameLen, Complete;
    WaitingIsShort(s.kept);
    OneMoreByte(s.kept, b);
    RestWaits(s.kept + [b]);
    var t := Settle(s.kept + [b]);
    if Complete(t) {
      assert t[..|t|] == t && t[|t|..] == [];
      var (inner, reply) := Answer(serve, s.inner, t);
      assert Answers(serve, inner, []) == (inner, []);
      var none: seq<seq<byte>> := [];
      assert [t][1..] == none && reply + [] == reply;
    }
  }

  lemma {:induction false} AnswersInParts<D>(serve: (D, Frame) -> (D, seq<byte>), inner: D, a: seq<seq<byte>>, b: seq<seq<byte>>)
    ensures var (inner1, r1) := Answers(serve, inner, a);
            var (inner2, r2) := Answers(serve, inner1, b);
            Answers(serve, inner, a + b) == (inner2, r1 + r2)
    decreases |a|
  {
    if a == [] {
      assert a + b == b;
      assert [] + Answers(serve, inner, b).1 == Answers(serve, inner, b).1;
    } else {
      var (inner1, reply) := Answer(serve, inner, a[0]);
      assert (a + b)[1..] == a[1..] + b;
      AnswersInParts(serve, inner1, a[1..], b);
      var r1 := Answers(serve, inner1, a[1..]);
      var r2 := Answers(serve, r1.0, b).1;
      assert reply + (r1.1 + r2) == (reply + r1.1) + r2;
    }
  }

  /** Fed byte by byte, the peer answers exactly the frames of the whole stream, in order. */
  lemma {:induction false} PeerAnswersFrames<D>(serve: (D, Frame) -> (D, seq<byte>), s: Server<D>, bytes: seq<byte>)
    requires Waiting(s.kept)
    ensures var (frames, rest) := Parse(s.kept + bytes);
            var (inner, replies) := Answers(serve, s.inner, frames);
            FramedPeer(serve, s).Push(bytes) == (FramedPeer(serve, Server(rest, inner)), replies)
    decreases |bytes|
  {
    hide FeedByte, Parse, Waiting, Answers;
    if bytes == [] {
      assert s.kept + bytes == s.kept;
      WaitingIsShort(s.kept);
      NoAnswers(serve, s.inner);
    } else {
      var b, more := bytes[0], bytes[1..];
      ByteAnswers(serve, s, b);
      var (s1, reply) := FeedByte(serve, s, b);
      PeerAnswersFrames(serve, s1, more);
      assert s.kept + bytes == (s.kept + [b]) + more;
      ParseExtends(s.kept + [b], more);
      AnswersInParts(serve, s.inner, Parse(s.kept + [b]).0, Parse(s1.kept + more).0);
      PushUnfolds(serve, s, bytes);
    }
  }

  lemma NoAnswers<D>(serve: (D, Frame) -> (D, seq<byte>), inner: D)
    ensures Answers(serve, inner, []) == (inner, [])
  {
  }

  lemma PushUnfolds<D>(serve: (D, Frame) -> (D, seq<byte>), s: Server<D>, bytes: seq<byte>)
    requires bytes != []
    ensures var (s1, reply) := FeedByte(serve, s, bytes[0]);
            var (p, rest) := FramedPeer(serve, s1).Push(bytes[1..]);
            FramedPeer(serve, s).Push(bytes) == (p, reply + rest)
  {
    hide FeedByte;
    var p := FramedPeer(serve, s);
    assert p.step(s, bytes[0]) == FeedByte(serve, s, bytes[0]);
    assert Peer(p.step(s, bytes[0]).0, p.step) == FramedPeer(serve, p.step(s, bytes[0]).0);
  }

  /** End to end: over every session whose kicks meet sane layouts, what the guest was delivered
      and what still waits is the answers to the frames of the stream it transmitted, however it
      cut that stream into chains and posted its receive windows, if and only if no receive pass
      of a kick started on a faulty chain. */
  lemma DeliveredAreAnswers<D>(ram: seq<byte>, serve: (D, Frame) -> (D, seq<byte>), inner: D, cs: seq<Command>)
    requires var d0 := NewDevice(ram, FramedPeer(serve, Server([], inner))); AllEnd(d0, cs) && SaneKicks(d0, cs)
    ensures var d0 := NewDevice(ram, FramedPeer(serve, Server([], inner)));
            var d := Session(d0, cs);
            Delivered(d.log.walks) + d.outbuf == Answers(serve, inner, Parse(d.log.sent).0).1 <==>
            NeverFaulty(d0, SessionEvents(d0, cs))
  {
    hide AllEnd, SaneKicks, Session, SessionEvents, NeverFaulty, FeedByte, Parse, Answers;
    var s := Server([], inner);
    SessionConservedIff(ram, FramedPeer(serve, s), cs);
    var sent := Session(NewDevice(ram, FramedPeer(serve, s)), cs).log.sent;
    EmptyWaits();
    PeerAnswersFrames(serve, s, sent);
    assert [] + sent == sent;
  }

  /** And when what it transmitted is a list of encoded frames, those are the frames answered. */
  lemma FramesAreAnswered<D>(ram: seq<byte>, serve: (D, Frame) -> (D, seq<byte>), inner: D, cs: seq<Command>, fs: seq<Frame>)
    requires AllEncodable(fs)
    requires var d0 := NewDevice(ram, FramedPeer(serve, Server([], inner)));
             AllEnd(d0, cs) && SaneKicks(d0, cs) && NeverFaulty(d0, SessionEvents(d0, cs))
             && Session(d0, cs).log.sent == Encoded(fs)
    ensures var d0 := NewDevice(ram, FramedPeer(serve, Server([], inner)));
            AllEnd(d0, cs) && Delivered(Session(d0, cs).log.walks) + Session(d0, cs).outbuf == RepliesTo(serve, inner, fs).1
  {
    hide AllEnd, SaneKicks, Session, SessionEvents, NeverFaulty, FeedByte, Parse, Answers, RepliesTo;
    DeliveredAreAnswers(ram, serve, inner, cs);
    ParseOfFrames(fs);
    AnswersToFrames(serve, inner, fs);
  }
}
