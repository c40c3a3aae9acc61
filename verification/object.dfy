/**
 The object codec layer (`ObjComms` / `SyncObjComms`): `tx` serialises a
 value and sends it as one frame, `rx` receives one frame and deserialises
 it. It is available on every `Stream`, raw or wrapped. The serialisation
 format is injected as a `Codec`; the round trips below hold for the values
 the codec itself round-trips.
 */
module Object {
  import opened ByteOrder
  import opened Io
  import opened Framing

  /** The injected serialisation format: either direction may fail with a message. */
  datatype Codec<!V> = Codec(serialize: V -> Result<Buffer, string>, deserialize: Buffer -> Result<V, string>)

  /** `v` survives the codec: it serialises, and its bytes deserialise back to `v`. */
  ghost predicate Lossless<V>(c: Codec<V>, v: V) {
    c.serialize(v).Ok? && c.deserialize(c.serialize(v).value) == Ok(v)
  }

  /**
   `tx`: when serialisation fails the result is `InvalidData` with the
   codec's message and the stream is untouched; otherwise the serialised
   bytes go out as exactly one frame.
   */
  function Tx<V>(s: Stream, e: Endian, c: Codec<V>, v: V): (r: Step<(), Stream>)
    ensures c.serialize(v).Err? ==> r.res == Err(InvalidData(c.serialize(v).error)) && r.next == s
    ensures c.serialize(v).Ok? ==>
              && r.next.Unread() == s.Unread()
              && (r.res.Ok? <==> WORD_LEN + |c.serialize(v).value| <= s.Room())
              && (r.res.Ok? ==> r.next.Written() == s.Written() + Frame(e, c.serialize(v).value))
              && (r.res.Err? ==> r.res.error == BrokenPipe)
    ensures s.Written() <= r.next.Written()
  {
    match c.serialize(v)
    case Err(m) => Step(Err(InvalidData(m)), s)
    case Ok(buf) => Send(s, e, buf)
  }

  /**
   `rx`: a `receive` error is passed on unchanged; a payload the codec
   rejects is `InvalidData` with the codec's message, and that frame is gone
   from the input either way.
   */
  function Rx<V>(s: Stream, e: Endian, c: Codec<V>): (r: Step<V, Stream>)
    ensures r.next.Written() == s.Written() && r.next.Room() == s.Room()
    ensures !Complete(e, s.Unread()) ==> r.res == Err(UnexpectedEof) && r.next.Unread() == []
    ensures Complete(e, s.Unread()) ==>
              var p := HeadPayload(e, s.Unread());
              && s.Unread() == Frame(e, p) + r.next.Unread()
              && (c.deserialize(p).Ok? ==> r.res == Ok(c.deserialize(p).value))
              && (c.deserialize(p).Err? ==> r.res == Err(InvalidData(c.deserialize(p).error)))
  {
    var d := Receive(s, e);
    if d.res.Err? then Step(Err(d.res.error), d.next)
    else
      match c.deserialize(d.res.value)
      case Ok(v) => Step(Ok(v), d.next)
      case Err(m) => Step(Err(InvalidData(m)), d.next)
  }

  /** `rx` on input that starts with the frame of `p` decodes `p`, leaving exactly `rest`. */
  lemma RxFrame<V>(s: Stream, e: Endian, c: Codec<V>, p: Buffer, rest: Bytes)
    requires s.Unread() == Frame(e, p) + rest
    ensures Rx(s, e, c).next.Unread() == rest
    ensures c.deserialize(p).Ok? ==> Rx(s, e, c).res == Ok(c.deserialize(p).value)
    ensures c.deserialize(p).Err? ==> Rx(s, e, c).res == Err(InvalidData(c.deserialize(p).error))
  {
    ReceiveFrame(s, e, p, rest);
  }

  /**
   Round trip over a connected pair: a value the codec round-trips, sent by
   `tx` and delivered to the peer, comes out of the peer's `rx`.
   */
  lemma TxRxRoundTrip<V>(s: Stream, t: Stream, e: Endian, c: Codec<V>, v: V, rest: Bytes)
    requires Lossless(c, v)
    requires WORD_LEN + |c.serialize(v).value| <= s.Room()
    requires t.Unread() == []
    ensures Tx(s, e, c, v).res == Ok(())
    ensures Rx(t.Deliver(Sent(s, Tx(s, e, c, v).next) + rest), e, c).res == Ok(v)
    ensures Rx(t.Deliver(Sent(s, Tx(s, e, c, v).next) + rest), e, c).next.Unread() == rest
  {
    var buf := c.serialize(v).value;
    SentIs(s, Tx(s, e, c, v).next, Frame(e, buf));
    var t' := t.Deliver(Frame(e, buf) + rest);
    assert t'.Unread() == Frame(e, buf) + rest;
    RxFrame(t', e, c, buf, rest);
  }

  /**
   Successive values arrive in send order, even of different types: `tx(x)`
   then `tx(y)` on one end, `rx::<A>()` then `rx::<B>()` on the other, gives
   `x` then `y` (a string and then a record, in the crate's own test).
   */
  lemma TxTwiceRxTwice<A, B>(s: Stream, t: Stream, e: Endian, ca: Codec<A>, cb: Codec<B>, x: A, y: B)
    requires Lossless(ca, x) && Lossless(cb, y)
    requires 2 * WORD_LEN + |ca.serialize(x).value| + |cb.serialize(y).value| <= s.Room()
    requires t.Unread() == []
    ensures var first := Tx(s, e, ca, x);
            var second := Tx(first.next, e, cb, y);
            && first.res == Ok(()) && second.res == Ok(())
            && var got1 := Rx(t.Deliver(Sent(s, second.next)), e, ca);
               var got2 := Rx(got1.next, e, cb);
               got1.res == Ok(x) && got2.res == Ok(y) && got2.next.Unread() == []
  {
    var bX := ca.serialize(x).value;
    var bY := cb.serialize(y).value;
    var first := Tx(s, e, ca, x);
    var second := Tx(first.next, e, cb, y);
    var wire := Frame(e, bX) + Frame(e, bY);
    TxThenTx(s, e, ca, cb, x, y);
    var t' := t.Deliver(wire);
    assert t'.Unread() == Frame(e, bX) + Frame(e, bY);
    RxFrame(t', e, ca, bX, Frame(e, bY));
    assert Rx(t', e, ca).next.Unread() == Frame(e, bY) + [];
    RxFrame(Rx(t', e, ca).next, e, cb, bY, []);
  }

  /** The sending half of `TxTwiceRxTwice`: two frames, one after the other. */
  lemma TxThenTx<A, B>(s: Stream, e: Endian, ca: Codec<A>, cb: Codec<B>, x: A, y: B)
    requires ca.serialize(x).Ok? && cb.serialize(y).Ok?
    requires 2 * WORD_LEN + |ca.serialize(x).value| + |cb.serialize(y).value| <= s.Room()
    ensures var first := Tx(s, e, ca, x);
            var second := Tx(first.next, e, cb, y);
            && first.res == Ok(()) && second.res == Ok(())
            && s.Written() <= second.next.Written()
            && Sent(s, second.next) == Frame(e, ca.serialize(x).value) + Frame(e, cb.serialize(y).value)
  {
    var bX := ca.serialize(x).value;
    var bY := cb.serialize(y).value;
    var first := Tx(s, e, ca, x);
    assert first == Send(s, e, bX);
    var second := Tx(first.next, e, cb, y);
    assert second == Send(first.next, e, bY);
    SendThenSend(s, e, bX, bY);
    AppendAssoc(s.Written(), Frame(e, bX), Frame(e, bY));
    SentIs(s, second.next, Frame(e, bX) + Frame(e, bY));
  }
}
