/**
 The stream futures of src/async_comms/zccomms.rs, for a run in which no
 await returns `Pending` (a pending poll restarts the whole operation, which
 is not modelled). Under that assumption `RecvFut` and `ObjRecvFut` read and
 decode as `Framing.Receive` and `Object.Rx` do, and `SendFut` and
 `ObjSendFut` write what `Framing.Send` and `Object.Tx` write but report the
 payload length on success.
 */
module Futures {
  import opened ByteOrder
  import opened Io
  import opened Framing
  import opened Object

  /** `SendFut`: header, then payload; on success the payload length. */
  function SendFut(s: Stream, e: Endian, buf: Buffer): (r: Step<nat, Stream>)
    ensures r.next.Unread() == s.Unread()
    ensures r.res.Ok? <==> WORD_LEN + |buf| <= s.Room()
    ensures r.res.Ok? ==> r.res.value == |buf| && r.next.Written() == s.Written() + Frame(e, buf)
    ensures r.res.Err? ==> r.res.error == BrokenPipe
    ensures r.next == Send(s, e, buf).next
  {
    var sent := Send(s, e, buf);
    if sent.res.Err? then Step(Err(sent.res.error), sent.next)
    else Step(Ok(|buf|), sent.next)
  }

  /**
   `ObjSendFut`: a serialisation failure is `InvalidData` with nothing
   sent; otherwise `SendFut` of the serialised bytes, whose length is the
   success value.
   */
  function ObjSendFut<V>(s: Stream, e: Endian, c: Codec<V>, v: V): (r: Step<nat, Stream>)
    ensures c.serialize(v).Err? ==> r.res == Err(InvalidData(c.serialize(v).error)) && r.next == s
    ensures c.serialize(v).Ok? && r.res.Ok? ==> r.res.value == |c.serialize(v).value|
    ensures r.res.Ok? <==> Tx(s, e, c, v).res.Ok?
    ensures r.res.Err? ==> r.res.error == Tx(s, e, c, v).res.error
    ensures c.serialize(v).Ok? && r.res.Err? ==> r.res.error == BrokenPipe
    ensures r.next == Tx(s, e, c, v).next
  {
    match c.serialize(v)
    case Err(m) => Step(Err(InvalidData(m)), s)
    case Ok(buf) => SendFut(s, e, buf)
  }

  /** What `SendFut(b)` puts on the wire is received by `RecvFut` as `b`. */
  lemma SendFutThenRecvFut(s: Stream, t: Stream, e: Endian, b: Buffer)
    requires WORD_LEN + |b| <= s.Room()
    requires t.Unread() == []
    ensures SendFut(s, e, b).res == Ok(|b|)
    ensures Receive(t.Deliver(Sent(s, SendFut(s, e, b).next)), e).res == Ok(b)
  {
    SendThenReceive(s, t, e, b, []);
    assert Sent(s, SendFut(s, e, b).next) + [] == Sent(s, SendFut(s, e, b).next);
  }

  /** What `ObjSendFut(v)` puts on the wire is decoded by `ObjRecvFut` as `v`. */
  lemma ObjSendFutThenObjRecvFut<V>(s: Stream, t: Stream, e: Endian, c: Codec<V>, v: V)
    requires Lossless(c, v)
    requires WORD_LEN + |c.serialize(v).value| <= s.Room()
    requires t.Unread() == []
    ensures ObjSendFut(s, e, c, v).res == Ok(|c.serialize(v).value|)
    ensures Rx(t.Deliver(Sent(s, ObjSendFut(s, e, c, v).next)), e, c).res == Ok(v)
  {
    TxRxRoundTrip(s, t, e, c, v, []);
    assert Sent(s, Tx(s, e, c, v).next) + [] == Sent(s, Tx(s, e, c, v).next);
  }
}
