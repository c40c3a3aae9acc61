/**
 The length-prefixed framing protocol of `SyncComms` (and of the async
 `Comms`, which performs the same reads and writes with suspension points in
 between): a frame is an 8-byte native-endian length header followed by
 exactly that many payload bytes. On top of it sit the keepalive check and
 the two complementary handshake roles.
 */
module Framing {
  import opened ByteOrder
  import opened Io

  /** The wire image of one frame carrying `buf`. */
  function Frame(e: Endian, buf: Buffer): (f: Bytes)
    ensures |f| == WORD_LEN + |buf|
  {
    ToNeBytes(e, |buf|) + buf
  }

  /** `u` starts with a whole frame: a header and all the payload it announces. */
  predicate Complete(e: Endian, u: Bytes) {
    |u| >= WORD_LEN && FromNeBytes(e, u[..WORD_LEN]) <= |u| - WORD_LEN
  }

  /** The payload of the frame at the head of `u`. */
  function HeadPayload(e: Endian, u: Bytes): (p: Buffer)
    requires Complete(e, u)
    ensures Frame(e, p) <= u
  {
    var p := u[WORD_LEN..WORD_LEN + FromNeBytes(e, u[..WORD_LEN])];
    assert Frame(e, p) == u[..WORD_LEN + |p|];
    p
  }

  /** Frames are self-delimiting: a frame image determines its payload and where it ends. */
  lemma FrameUnique(e: Endian, a: Buffer, b: Buffer, x: Bytes, y: Bytes)
    requires Frame(e, a) + x == Frame(e, b) + y
    ensures a == b && x == y
  {
    var u := Frame(e, a) + x;
    assert u[..WORD_LEN] == ToNeBytes(e, |a|);
    assert u[..WORD_LEN] == ToNeBytes(e, |b|);
    NeInjective(e, |a|, |b|);
    assert a == u[WORD_LEN..WORD_LEN + |a|];
    assert b == u[WORD_LEN..WORD_LEN + |b|];
  }

  /** A whole frame at the head of the input is recognised as one, with its own payload. */
  lemma FrameIsComplete(e: Endian, b: Buffer, rest: Bytes)
    ensures Complete(e, Frame(e, b) + rest)
    ensures HeadPayload(e, Frame(e, b) + rest) == b
  {
    var u := Frame(e, b) + rest;
    assert u[..WORD_LEN] == ToNeBytes(e, |b|);
    NeRoundTrip(e, |b|);
    assert u[WORD_LEN..WORD_LEN + |b|] == b;
  }

  /**
   `send`: write the header for `|buf|`, then `buf`. It fails with
   `BrokenPipe` when the sink cannot take the whole frame; if only the header
   fit, the header alone stays on the wire.
   */
  function Send(s: Stream, e: Endian, buf: Buffer): (r: Step<(), Stream>)
    ensures r.next.Unread() == s.Unread()
    ensures r.res.Ok? <==> WORD_LEN + |buf| <= s.Room()
    ensures r.res.Ok? ==> (r.next.Written() == s.Written() + Frame(e, buf)
                           && r.next.Room() == s.Room() - |Frame(e, buf)|)
    ensures r.res.Err? ==> r.res.error == BrokenPipe
    ensures r.res.Err? && WORD_LEN <= s.Room() ==> r.next.Written() == s.Written() + ToNeBytes(e, |buf|)
    ensures r.res.Err? && WORD_LEN > s.Room() ==> r.next.Written() == s.Written()
  {
    var header := s.Write(ToNeBytes(e, |buf|));
    if header.res.Err? then Step(Err(header.res.error), header.next)
    else
      var payload := header.next.Write(buf);
      if payload.res.Err? then Step(Err(payload.res.error), payload.next)
      else Step(Ok(()), payload.next)
  }

  /**
   `receive`: read the 8-byte header, then exactly the payload length it
   decodes to. Fails with `UnexpectedEof` unless a whole frame is waiting.
   */
  function Receive(s: Stream, e: Endian): (r: Step<Buffer, Stream>)
    ensures r.next.Written() == s.Written() && r.next.Room() == s.Room()
    ensures r.res.Ok? <==> Complete(e, s.Unread())
    ensures r.res.Ok? ==> (r.res.value == HeadPayload(e, s.Unread())
                           && s.Unread() == Frame(e, r.res.value) + r.next.Unread())
    ensures r.res.Err? ==> r.res.error == UnexpectedEof && r.next.Unread() == []
  {
    var header := s.ReadExact(WORD_LEN);
    if header.res.Err? then Step(Err(header.res.error), header.next)
    else
      var length := FromNeBytes(e, header.res.value);
      var payload := header.next.ReadExact(length);
      if payload.res.Err? then Step(Err(payload.res.error), payload.next)
      else
        var msg: Buffer := payload.res.value;
        assert s.Unread()[..WORD_LEN] == header.res.value;
        assert s.Unread() == Frame(e, msg) + payload.next.Unread();
        Step(Ok(msg), payload.next)
  }

  /** Receiving from input that starts with the frame of `b` gives `b` and leaves exactly `rest`. */
  lemma ReceiveFrame(s: Stream, e: Endian, b: Buffer, rest: Bytes)
    requires s.Unread() == Frame(e, b) + rest
    ensures Receive(s, e).res == Ok(b)
    ensures Receive(s, e).next.Unread() == rest
  {
    FrameIsComplete(e, b, rest);
    var r := Receive(s, e);
    FrameUnique(e, r.res.value, b, r.next.Unread(), rest);
  }

  /**
   Round trip over a connected pair: whatever `send(b)` put on the wire,
   once delivered to the peer, is received there as `b`, including the empty
   payload (header value 0).
   */
  lemma SendThenReceive(s: Stream, t: Stream, e: Endian, b: Buffer, rest: Bytes)
    requires WORD_LEN + |b| <= s.Room()
    requires t.Unread() == []
    ensures Send(s, e, b).res == Ok(())
    ensures Sent(s, Send(s, e, b).next) == Frame(e, b)
    ensures Receive(t.Deliver(Sent(s, Send(s, e, b).next) + rest), e).res == Ok(b)
    ensures Receive(t.Deliver(Sent(s, Send(s, e, b).next) + rest), e).next.Unread() == rest
  {
    var sent := Send(s, e, b);
    SentIs(s, sent.next, Frame(e, b));
    ReceiveFrame(t.Deliver(Frame(e, b) + rest), e, b, rest);
  }

  /** `receive_to_string`: receive, then decode the payload with `decode` (UTF-8, lossy). */
  function ReceiveToString(s: Stream, e: Endian, decode: Buffer -> string): (r: Step<string, Stream>)
    ensures r.next.Written() == s.Written() && r.next.Room() == s.Room()
    ensures r.res.Err? <==> !Complete(e, s.Unread())
    ensures r.res.Err? ==> r.res.error == UnexpectedEof && r.next.Unread() == []
    ensures r.res.Ok? ==> (r.res.value == decode(HeadPayload(e, s.Unread()))
                           && s.Unread() == Frame(e, HeadPayload(e, s.Unread())) + r.next.Unread())
  {
    var v := Receive(s, e);
    if v.res.Err? then Step(Err(v.res.error), v.next)
    else Step(Ok(decode(v.res.value)), v.next)
  }

  /**
   `receive_keepalive`: receive one frame and compare it with the token.
   Succeeds exactly when the input starts with the token's frame; a whole
   frame with any other payload is consumed and reported as `Other` carrying
   that payload.
   */
  function ReceiveKeepalive(s: Stream, e: Endian, ka: Buffer): (r: Step<(), Stream>)
    ensures r.next.Written() == s.Written() && r.next.Room() == s.Room()
    ensures r.res.Ok? <==> Frame(e, ka) <= s.Unread()
    ensures r.res.Ok? ==> s.Unread() == Frame(e, ka) + r.next.Unread()
    ensures r.res == Err(UnexpectedEof) <==> !Complete(e, s.Unread())
    ensures r.res.Err? ==> r.res.error.UnexpectedEof? || r.res.error.Other?
    ensures r.res.Err? && r.res.error.Other? ==>
              (r.res.error.received != ka
               && r.res.error.received == HeadPayload(e, s.Unread())
               && s.Unread() == Frame(e, r.res.error.received) + r.next.Unread())
    ensures Complete(e, s.Unread()) && HeadPayload(e, s.Unread()) != ka ==>
              r.res == Err(Other(HeadPayload(e, s.Unread())))
  {
    FramePrefix(e, ka, s.Unread());
    var p := Receive(s, e);
    if p.res.Err? then Step(Err(p.res.error), p.next)
    else if p.res.value != ka then Step(Err(Other(p.res.value)), p.next)
    else Step(Ok(()), p.next)
  }

  /** Input that starts with the frame of `b` has a whole frame at its head, carrying `b`. */
  lemma FramePrefix(e: Endian, b: Buffer, u: Bytes)
    ensures Frame(e, b) <= u ==> Complete(e, u) && HeadPayload(e, u) == b
  {
    if Frame(e, b) <= u {
      assert u == Frame(e, b) + u[|Frame(e, b)|..];
      FrameIsComplete(e, b, u[|Frame(e, b)|..]);
    }
  }

  /** `send_keepalive`: send the token as one frame. */
  function SendKeepalive(s: Stream, e: Endian, ka: Buffer): (r: Step<(), Stream>)
    ensures r.next.Unread() == s.Unread()
    ensures r.res.Ok? <==> WORD_LEN + |ka| <= s.Room()
    ensures r.res.Ok? ==> r.next.Written() == s.Written() + Frame(e, ka)
    ensures r.res.Err? ==> r.res.error == BrokenPipe
  {
    Send(s, e, ka)
  }

  /**
   `send_handshake`, the initiator: send the token, then expect it back.
   The send happens first and is not undone by a failed receive; when the
   send fails, nothing is read.
   */
  function SendHandshake(s: Stream, e: Endian, ka: Buffer): (r: Step<(), Stream>)
    ensures r.res.Ok? <==> WORD_LEN + |ka| <= s.Room() && Frame(e, ka) <= s.Unread()
    ensures WORD_LEN + |ka| > s.Room() ==> r.res == Err(BrokenPipe) && r.next.Unread() == s.Unread()
    ensures WORD_LEN + |ka| <= s.Room() ==> r.next.Written() == s.Written() + Frame(e, ka)
    ensures r.res.Ok? ==> s.Unread() == Frame(e, ka) + r.next.Unread()
    ensures r.res.Err? && r.res.error.Other? ==>
              Complete(e, s.Unread()) && r.res.error.received == HeadPayload(e, s.Unread())
    ensures WORD_LEN + |ka| <= s.Room() && !Complete(e, s.Unread()) ==> r.res == Err(UnexpectedEof)
    ensures WORD_LEN + |ka| <= s.Room() && Complete(e, s.Unread()) && HeadPayload(e, s.Unread()) != ka ==>
              r.res == Err(Other(HeadPayload(e, s.Unread())))
  {
    var sent := SendKeepalive(s, e, ka);
    if sent.res.Err? then sent
    else ReceiveKeepalive(sent.next, e, ka)
  }

  /**
   `receive_handshake`, the responder: expect the token, then send it back.
   When the receive fails (end of input or a different payload) nothing is
   written.
   */
  function ReceiveHandshake(s: Stream, e: Endian, ka: Buffer): (r: Step<(), Stream>)
    ensures r.res.Ok? <==> Frame(e, ka) <= s.Unread() && WORD_LEN + |ka| <= s.Room()
    ensures !(Frame(e, ka) <= s.Unread()) ==> r.res.Err? && r.next.Written() == s.Written()
    ensures Frame(e, ka) <= s.Unread() ==> s.Unread() == Frame(e, ka) + r.next.Unread()
    ensures Frame(e, ka) <= s.Unread() && r.res.Ok? ==> r.next.Written() == s.Written() + Frame(e, ka)
    ensures r.res.Err? && r.res.error.Other? ==>
              Complete(e, s.Unread()) && r.res.error.received == HeadPayload(e, s.Unread())
    ensures !Complete(e, s.Unread()) ==> r.res == Err(UnexpectedEof)
    ensures Complete(e, s.Unread()) && HeadPayload(e, s.Unread()) != ka ==>
              r.res == Err(Other(HeadPayload(e, s.Unread())))
    ensures Frame(e, ka) <= s.Unread() && WORD_LEN + |ka| > s.Room() ==> r.res == Err(BrokenPipe)
  {
    var got := ReceiveKeepalive(s, e, ka);
    if got.res.Err? then got
    else SendKeepalive(got.next, e, ka)
  }

  /** `receive_keepalive` on input that starts with the token's frame succeeds, leaving `rest`. */
  lemma ReceiveKeepaliveFrame(s: Stream, e: Endian, ka: Buffer, rest: Bytes)
    requires s.Unread() == Frame(e, ka) + rest
    ensures ReceiveKeepalive(s, e, ka).res == Ok(())
    ensures ReceiveKeepalive(s, e, ka).next.Unread() == rest
    ensures ReceiveKeepalive(s, e, ka).next.Written() == s.Written()
    ensures ReceiveKeepalive(s, e, ka).next.Room() == s.Room()
  {
    ReceiveFrame(s, e, ka, rest);
  }

  /** `receive_keepalive` on input that starts with the frame of some other payload `p` reports `p`. */
  lemma ReceiveKeepaliveOther(s: Stream, e: Endian, ka: Buffer, p: Buffer, rest: Bytes)
    requires s.Unread() == Frame(e, p) + rest
    requires p != ka
    ensures ReceiveKeepalive(s, e, ka).res == Err(Other(p))
    ensures ReceiveKeepalive(s, e, ka).next.Written() == s.Written()
  {
    ReceiveFrame(s, e, p, rest);
  }

  /**
   The two roles complete against each other: the responder receives the
   initiator's token and echoes it; once that echo reaches the initiator,
   `send_handshake` succeeds. Each side writes exactly one keepalive frame.
   */
  lemma HandshakeCompletes(a: Stream, b: Stream, e: Endian, ka: Buffer)
    requires a.Unread() == [] && b.Unread() == []
    requires WORD_LEN + |ka| <= a.Room() && WORD_LEN + |ka| <= b.Room()
    ensures var initiatorOut := SendKeepalive(a, e, ka).next;
            var responder := ReceiveHandshake(b.Deliver(Sent(a, initiatorOut)), e, ka);
            var initiator := SendHandshake(a.Deliver(Sent(b, responder.next)), e, ka);
            && responder.res == Ok(())
            && initiator.res == Ok(())
            && Sent(a, initiator.next) == Frame(e, ka)
            && Sent(b, responder.next) == Frame(e, ka)
            && responder.next.Unread() == [] && initiator.next.Unread() == []
  {
    ResponderSide(a, b, e, ka);
    InitiatorSide(a, e, ka);
  }

  /** The responder half of `HandshakeCompletes`: it takes the token and echoes it. */
  lemma ResponderSide(a: Stream, b: Stream, e: Endian, ka: Buffer)
    requires b.Unread() == []
    requires WORD_LEN + |ka| <= a.Room() && WORD_LEN + |ka| <= b.Room()
    ensures var initiatorOut := SendKeepalive(a, e, ka).next;
            var responder := ReceiveHandshake(b.Deliver(Sent(a, initiatorOut)), e, ka);
            && responder.res == Ok(())
            && b.Written() <= responder.next.Written()
            && Sent(b, responder.next) == Frame(e, ka)
            && responder.next.Unread() == []
  {
    var initiatorOut := SendKeepalive(a, e, ka).next;
    SentIs(a, initiatorOut, Frame(e, ka));
    var b' := b.Deliver(Frame(e, ka));
    assert b'.Unread() == Frame(e, ka) + [];
    ResponderEchoes(b', e, ka, []);
    SentIs(b, ReceiveHandshake(b', e, ka).next, Frame(e, ka));
  }

  /** The initiator half of `HandshakeCompletes`: the echoed token completes it. */
  lemma InitiatorSide(a: Stream, e: Endian, ka: Buffer)
    requires a.Unread() == []
    requires WORD_LEN + |ka| <= a.Room()
    ensures var initiator := SendHandshake(a.Deliver(Frame(e, ka)), e, ka);
            && initiator.res == Ok(())
            && a.Written() <= initiator.next.Written()
            && Sent(a, initiator.next) == Frame(e, ka)
            && initiator.next.Unread() == []
  {
    var a' := a.Deliver(Frame(e, ka));
    assert a'.Unread() == Frame(e, ka) + [];
    InitiatorCompletes(a', e, ka, []);
    SentIs(a, SendHandshake(a', e, ka).next, Frame(e, ka));
  }

  /** A responder whose input starts with the token's frame echoes exactly that frame. */
  lemma ResponderEchoes(s: Stream, e: Endian, ka: Buffer, rest: Bytes)
    requires s.Unread() == Frame(e, ka) + rest
    requires WORD_LEN + |ka| <= s.Room()
    ensures ReceiveHandshake(s, e, ka).res == Ok(())
    ensures ReceiveHandshake(s, e, ka).next.Written() == s.Written() + Frame(e, ka)
    ensures ReceiveHandshake(s, e, ka).next.Unread() == rest
  {
    ReceiveKeepaliveFrame(s, e, ka, rest);
    var got := ReceiveKeepalive(s, e, ka);
    var sent := SendKeepalive(got.next, e, ka);
    assert ReceiveHandshake(s, e, ka) == sent;
  }

  /** An initiator whose input starts with the token's frame completes, writing that frame. */
  lemma InitiatorCompletes(s: Stream, e: Endian, ka: Buffer, rest: Bytes)
    requires s.Unread() == Frame(e, ka) + rest
    requires WORD_LEN + |ka| <= s.Room()
    ensures SendHandshake(s, e, ka).res == Ok(())
    ensures SendHandshake(s, e, ka).next.Written() == s.Written() + Frame(e, ka)
    ensures SendHandshake(s, e, ka).next.Unread() == rest
  {
    var sent := SendKeepalive(s, e, ka);
    assert sent.res.Ok? && sent.next.Unread() == Frame(e, ka) + rest;
    ReceiveKeepaliveFrame(sent.next, e, ka, rest);
    assert SendHandshake(s, e, ka) == ReceiveKeepalive(sent.next, e, ka);
  }

  /**
   Token mismatch: when the responder expects `kb` but the initiator sends
   `ka`, the responder fails with `Other` carrying `ka` and sends nothing
   back; an initiator that gets `kb` in reply to `ka` fails with `Other`
   carrying `kb`.
   */
  lemma HandshakeMismatch(a: Stream, b: Stream, e: Endian, ka: Buffer, kb: Buffer)
    requires ka != kb
    requires b.Unread() == []
    requires WORD_LEN + |ka| <= a.Room()
    ensures var initiatorOut := SendKeepalive(a, e, ka).next;
            var responder := ReceiveHandshake(b.Deliver(Sent(a, initiatorOut)), e, kb);
            && responder.res == Err(Other(ka))
            && responder.next.Written() == b.Written()
    ensures var initiator := SendHandshake(a.Deliver(Frame(e, kb)), e, ka);
            a.Unread() == [] ==> initiator.res == Err(Other(kb))
  {
    ResponderRejects(a, b, e, ka, kb);
    InitiatorRejectsReply(a, e, ka, kb);
  }

  /** An initiator whose input holds nothing but the reply `kb` is rejected. */
  lemma InitiatorRejectsReply(a: Stream, e: Endian, ka: Buffer, kb: Buffer)
    requires ka != kb
    requires WORD_LEN + |ka| <= a.Room()
    ensures var initiator := SendHandshake(a.Deliver(Frame(e, kb)), e, ka);
            a.Unread() == [] ==> initiator.res == Err(Other(kb))
  {
    if a.Unread() == [] {
      InitiatorRejects(a.Deliver(Frame(e, kb)), e, ka, kb);
    }
  }

  /** The responder half of `HandshakeMismatch`. */
  lemma ResponderRejects(a: Stream, b: Stream, e: Endian, ka: Buffer, kb: Buffer)
    requires ka != kb
    requires b.Unread() == []
    requires WORD_LEN + |ka| <= a.Room()
    ensures var initiatorOut := SendKeepalive(a, e, ka).next;
            var responder := ReceiveHandshake(b.Deliver(Sent(a, initiatorOut)), e, kb);
            && responder.res == Err(Other(ka))
            && responder.next.Written() == b.Written()
  {
    var initiatorOut := SendKeepalive(a, e, ka).next;
    SentIs(a, initiatorOut, Frame(e, ka));
    var b' := b.Deliver(Frame(e, ka));
    assert b'.Unread() == Frame(e, ka) + [];
    ReceiveKeepaliveOther(b', e, kb, ka, []);
    assert ReceiveHandshake(b', e, kb) == ReceiveKeepalive(b', e, kb);
  }

  /** The initiator half of `HandshakeMismatch`: a reply carrying `kb` is rejected. */
  lemma InitiatorRejects(s: Stream, e: Endian, ka: Buffer, kb: Buffer)
    requires ka != kb
    requires s.Unread() == Frame(e, kb)
    ensures SendHandshake(s, e, ka).res.Err?
    ensures WORD_LEN + |ka| <= s.Room() ==> SendHandshake(s, e, ka).res == Err(Other(kb))
  {
    var sent := SendKeepalive(s, e, ka);
    if sent.res.Ok? {
      assert sent.next.Unread() == Frame(e, kb) + [];
      ReceiveKeepaliveOther(sent.next, e, ka, kb, []);
      assert SendHandshake(s, e, ka) == ReceiveKeepalive(sent.next, e, ka);
    }
  }

  /** Two sends in a row put both frames on the wire, the first one first. */
  lemma SendThenSend(s: Stream, e: Endian, b1: Buffer, b2: Buffer)
    requires 2 * WORD_LEN + |b1| + |b2| <= s.Room()
    ensures Send(s, e, b1).res == Ok(())
    ensures Send(Send(s, e, b1).next, e, b2).res == Ok(())
    ensures Send(Send(s, e, b1).next, e, b2).next.Written() == s.Written() + Frame(e, b1) + Frame(e, b2)
  {
    SendFits(s, e, b1);
    SendFits(Send(s, e, b1).next, e, b2);
  }

  /** A frame that fits is sent whole, and the sink's room shrinks by its size. */
  lemma SendFits(s: Stream, e: Endian, b: Buffer)
    requires WORD_LEN + |b| <= s.Room()
    ensures Send(s, e, b).res == Ok(())
    ensures Send(s, e, b).next.Room() == s.Room() - (WORD_LEN + |b|)
    ensures Send(s, e, b).next.Written() == s.Written() + Frame(e, b)
  {
  }

  lemma AppendAssoc(w: Bytes, x: Bytes, y: Bytes)
    ensures w + x + y == w + (x + y)
  {
  }

  /** The wire image of the frames of `bs`, back to back and in order. */
  function Frames(e: Endian, bs: seq<Buffer>): Bytes {
    if |bs| == 0 then [] else Frame(e, bs[0]) + Frames(e, bs[1..])
  }

  /** Successive `send` calls, one per payload, stopping at the first failure. */
  function SendAll(s: Stream, e: Endian, bs: seq<Buffer>): (r: Step<(), Stream>)
    ensures s.Written() <= r.next.Written()
    ensures r.next.Unread() == s.Unread()
    decreases |bs|
  {
    if |bs| == 0 then Step(Ok(()), s)
    else
      var r := Send(s, e, bs[0]);
      if r.res.Err? then r else SendAll(r.next, e, bs[1..])
  }

  /** `n` successive `receive` calls, stopping at the first failure. */
  function ReceiveMany(s: Stream, e: Endian, n: nat): Step<seq<Buffer>, Stream>
    decreases n
  {
    if n == 0 then Step(Ok([]), s)
    else
      var r := Receive(s, e);
      if r.res.Err? then Step(Err(r.res.error), r.next)
      else
        var more := ReceiveMany(r.next, e, n - 1);
        if more.res.Err? then more else Step(Ok([r.res.value] + more.res.value), more.next)
  }

  /** Back-to-back sends put the frames on the wire one after the other, unmerged. */
  lemma {:induction false} SendAllFrames(s: Stream, e: Endian, bs: seq<Buffer>)
    requires |Frames(e, bs)| <= s.Room()
    ensures SendAll(s, e, bs).res == Ok(())
    ensures SendAll(s, e, bs).next.Written() == s.Written() + Frames(e, bs)
    decreases |bs|
  {
    if |bs| > 0 {
      var r := Send(s, e, bs[0]);
      assert r.res.Ok? && r.next.Room() == s.Room() - |Frame(e, bs[0])| by {
        assert Frames(e, bs) == Frame(e, bs[0]) + Frames(e, bs[1..]);
      }
      SendAllFrames(r.next, e, bs[1..]);
      SendAllCons(s, e, bs);
      WrittenCons(s.Written(), e, bs);
    }
  }

  /** One step of `SendAll` when the first send succeeds. */
  lemma SendAllCons(s: Stream, e: Endian, bs: seq<Buffer>)
    requires |bs| > 0 && Send(s, e, bs[0]).res.Ok?
    ensures SendAll(s, e, bs) == SendAll(Send(s, e, bs[0]).next, e, bs[1..])
  {
  }

  lemma WrittenCons(w: Bytes, e: Endian, bs: seq<Buffer>)
    requires |bs| > 0
    ensures w + Frame(e, bs[0]) + Frames(e, bs[1..]) == w + Frames(e, bs)
  {
    var head := Frame(e, bs[0]);
    var tail := Frames(e, bs[1..]);
    assert Frames(e, bs) == head + tail;
    AppendAssoc(w, head, tail);
  }

  /** Receiving as many frames as were sent yields the payloads in send order and nothing more. */
  lemma {:induction false} ReceiveManyFrames(s: Stream, e: Endian, bs: seq<Buffer>, rest: Bytes)
    requires s.Unread() == Frames(e, bs) + rest
    ensures ReceiveMany(s, e, |bs|).res == Ok(bs)
    ensures ReceiveMany(s, e, |bs|).next.Unread() == rest
    decreases |bs|
  {
    if |bs| > 0 {
      ReceiveFirstFrame(s, e, bs, rest);
      assert |bs[1..]| == |bs| - 1;
      ReceiveManyFrames(Receive(s, e).next, e, bs[1..], rest);
      ReceiveManyCons(s, e, bs);
    }
  }

  /** The first `receive` on the frames of `bs` gives `bs[0]` and leaves the frames of the rest. */
  lemma ReceiveFirstFrame(s: Stream, e: Endian, bs: seq<Buffer>, rest: Bytes)
    requires |bs| > 0
    requires s.Unread() == Frames(e, bs) + rest
    ensures Receive(s, e).res == Ok(bs[0])
    ensures Receive(s, e).next.Unread() == Frames(e, bs[1..]) + rest
  {
    FramesCons(e, bs, rest);
    ReceiveFrame(s, e, bs[0], Frames(e, bs[1..]) + rest);
  }

  lemma FramesCons(e: Endian, bs: seq<Buffer>, rest: Bytes)
    requires |bs| > 0
    ensures Frames(e, bs) + rest == Frame(e, bs[0]) + (Frames(e, bs[1..]) + rest)
  {
  }

  /** One step of `ReceiveMany` when the first receive yields `bs[0]` and the rest yield `bs[1..]`. */
  lemma ReceiveManyCons(s: Stream, e: Endian, bs: seq<Buffer>)
    requires |bs| > 0
    requires Receive(s, e).res == Ok(bs[0])
    requires ReceiveMany(Receive(s, e).next, e, |bs| - 1).res == Ok(bs[1..])
    ensures ReceiveMany(s, e, |bs|) == Step(Ok(bs), ReceiveMany(Receive(s, e).next, e, |bs| - 1).next)
  {
    var r := Receive(s, e);
    var more := ReceiveMany(r.next, e, |bs| - 1);
    HeadThenTail(r.res.value, more.res.value, bs);
    assert ReceiveMany(s, e, |bs|) == Step(Ok([r.res.value] + more.res.value), more.next);
  }

  lemma HeadThenTail(x: Buffer, tail: seq<Buffer>, bs: seq<Buffer>)
    requires |bs| > 0 && x == bs[0] && tail == bs[1..]
    ensures [x] + tail == bs
  {
    assert [bs[0]] + bs[1..] == bs;
  }

  /**
   Frame boundary integrity: after `send(b1)`, `send(b2)`, `send(b3)`, three
   `receive` calls on the peer yield `b1`, `b2`, `b3` in that order and
   consume exactly what was sent.
   */
  lemma BackToBack(s: Stream, t: Stream, e: Endian, b1: Buffer, b2: Buffer, b3: Buffer)
    requires 3 * WORD_LEN + |b1| + |b2| + |b3| <= s.Room()
    requires t.Unread() == []
    ensures var out := SendAll(s, e, [b1, b2, b3]);
            && out.res == Ok(())
            && var r1 := Receive(t.Deliver(Sent(s, out.next)), e);
               var r2 := Receive(r1.next, e);
               var r3 := Receive(r2.next, e);
               && r1.res == Ok(b1) && r2.res == Ok(b2) && r3.res == Ok(b3)
               && r3.next.Unread() == []
  {
    SendThree(s, e, b1, b2, b3);
    var out := SendAll(s, e, [b1, b2, b3]);
    var t' := t.Deliver(Sent(s, out.next));
    assert t'.Unread() == Frame(e, b1) + (Frame(e, b2) + Frame(e, b3));
    ReceiveThree(t', e, b1, b2, b3);
  }

  /** The sending half of `BackToBack`: three frames, in order. */
  lemma SendThree(s: Stream, e: Endian, b1: Buffer, b2: Buffer, b3: Buffer)
    requires 3 * WORD_LEN + |b1| + |b2| + |b3| <= s.Room()
    ensures SendAll(s, e, [b1, b2, b3]).res == Ok(())
    ensures s.Written() <= SendAll(s, e, [b1, b2, b3]).next.Written()
    ensures Sent(s, SendAll(s, e, [b1, b2, b3]).next) == Frame(e, b1) + (Frame(e, b2) + Frame(e, b3))
  {
    FramesOfThree(e, b1, b2, b3);
    AppendAssoc(Frame(e, b1), Frame(e, b2), Frame(e, b3));
    SendAllFrames(s, e, [b1, b2, b3]);
    SentIs(s, SendAll(s, e, [b1, b2, b3]).next, Frame(e, b1) + (Frame(e, b2) + Frame(e, b3)));
  }

  /** The receiving half of `BackToBack`: three frames come out one by one, in order. */
  lemma ReceiveThree(t: Stream, e: Endian, b1: Buffer, b2: Buffer, b3: Buffer)
    requires t.Unread() == Frame(e, b1) + (Frame(e, b2) + Frame(e, b3))
    ensures var r1 := Receive(t, e);
            var r2 := Receive(r1.next, e);
            var r3 := Receive(r2.next, e);
            && r1.res == Ok(b1) && r2.res == Ok(b2) && r3.res == Ok(b3)
            && r3.next.Unread() == []
  {
    ReceiveFrame(t, e, b1, Frame(e, b2) + Frame(e, b3));
    var r1 := Receive(t, e);
    assert r1.next.Unread() == Frame(e, b2) + (Frame(e, b3) + []);
    ReceiveFrame(r1.next, e, b2, Frame(e, b3) + []);
    var r2 := Receive(r1.next, e);
    ReceiveFrame(r2.next, e, b3, []);
  }

  lemma FramesOfThree(e: Endian, b1: Buffer, b2: Buffer, b3: Buffer)
    ensures Frames(e, [b1, b2, b3]) == Frame(e, b1) + Frame(e, b2) + Frame(e, b3)
  {
    var bs := [b1, b2, b3];
    assert Frames(e, bs[2..]) == Frame(e, b3) + [];
    assert Frames(e, bs[1..]) == Frame(e, b2) + (Frame(e, b3) + []);
    AppendAssoc(Frame(e, b1), Frame(e, b2), Frame(e, b3));
  }
}
