/**
 The older top-level `Comms` / `SyncComms` of src/comms.rs: the same framing,
 but the keepalive and handshake steps use one compiled-in token instead of
 taking it as an argument. The async `Comms` there performs the same reads
 and writes as the sync one, so both are modelled by these functions.
 */
module LegacyComms {
  import opened ByteOrder
  import opened Io
  import opened Framing

  /** The compiled-in keepalive token. */
  const KEEPALIVE: Buffer := [19, 233, 92, 175]

  /** `send_keepalive` with the compiled-in token. */
  function SendKeepalive(s: Stream, e: Endian): (r: Step<(), Stream>)
    ensures r.next.Unread() == s.Unread()
    ensures r.res.Ok? <==> WORD_LEN + 4 <= s.Room()
    ensures r.res.Ok? ==> r.next.Written() == s.Written() + ToNeBytes(e, 4) + [19, 233, 92, 175]
    ensures r.res.Err? ==> r.res.error == BrokenPipe
  {
    Framing.SendKeepalive(s, e, KEEPALIVE)
  }

  /**
   `receive_keepalive` with the compiled-in token: succeeds exactly when the
   next frame is the token's; a whole frame of any other length or content
   is an `Other` error carrying it.
   */
  function ReceiveKeepalive(s: Stream, e: Endian): (r: Step<(), Stream>)
    ensures r.next.Written() == s.Written()
    ensures r.res.Ok? <==> ToNeBytes(e, 4) + [19, 233, 92, 175] <= s.Unread()
    ensures r.res.Ok? ==> s.Unread() == ToNeBytes(e, 4) + [19, 233, 92, 175] + r.next.Unread()
    ensures r.res == Err(UnexpectedEof) <==> !Complete(e, s.Unread())
    ensures Complete(e, s.Unread()) && HeadPayload(e, s.Unread()) != KEEPALIVE ==>
              r.res == Err(Other(HeadPayload(e, s.Unread())))
  {
    Framing.ReceiveKeepalive(s, e, KEEPALIVE)
  }

  /** `send_handshake`: send the token, then expect it; nothing is read if the send fails. */
  function SendHandshake(s: Stream, e: Endian): (r: Step<(), Stream>)
    ensures r.res.Ok? <==> WORD_LEN + 4 <= s.Room() && Frame(e, KEEPALIVE) <= s.Unread()
    ensures WORD_LEN + 4 > s.Room() ==> r.res == Err(BrokenPipe) && r.next.Unread() == s.Unread()
    ensures WORD_LEN + 4 <= s.Room() ==> r.next.Written() == s.Written() + Frame(e, KEEPALIVE)
    ensures WORD_LEN + 4 <= s.Room() && !Complete(e, s.Unread()) ==> r.res == Err(UnexpectedEof)
    ensures WORD_LEN + 4 <= s.Room() && Complete(e, s.Unread()) && HeadPayload(e, s.Unread()) != KEEPALIVE ==>
              r.res == Err(Other(HeadPayload(e, s.Unread())))
  {
    Framing.SendHandshake(s, e, KEEPALIVE)
  }

  /** `receive_handshake`: expect the token, then send it; nothing is sent if the receive fails. */
  function ReceiveHandshake(s: Stream, e: Endian): (r: Step<(), Stream>)
    ensures r.res.Ok? <==> Frame(e, KEEPALIVE) <= s.Unread() && WORD_LEN + 4 <= s.Room()
    ensures !(Frame(e, KEEPALIVE) <= s.Unread()) ==> r.res.Err? && r.next.Written() == s.Written()
    ensures r.res.Ok? ==> r.next.Written() == s.Written() + Frame(e, KEEPALIVE)
    ensures !Complete(e, s.Unread()) ==> r.res == Err(UnexpectedEof)
    ensures Complete(e, s.Unread()) && HeadPayload(e, s.Unread()) != KEEPALIVE ==>
              r.res == Err(Other(HeadPayload(e, s.Unread())))
    ensures Frame(e, KEEPALIVE) <= s.Unread() && WORD_LEN + 4 > s.Room() ==> r.res == Err(BrokenPipe)
  {
    Framing.ReceiveHandshake(s, e, KEEPALIVE)
  }

  /** Two ends running the legacy protocol complete a handshake against each other. */
  lemma HandshakeCompletes(a: Stream, b: Stream, e: Endian)
    requires a.Unread() == [] && b.Unread() == []
    requires WORD_LEN + 4 <= a.Room() && WORD_LEN + 4 <= b.Room()
    ensures var initiatorOut := SendKeepalive(a, e).next;
            var responder := ReceiveHandshake(b.Deliver(Sent(a, initiatorOut)), e);
            var initiator := SendHandshake(a.Deliver(Sent(b, responder.next)), e);
            responder.res == Ok(()) && initiator.res == Ok(())
  {
    Framing.HandshakeCompletes(a, b, e, KEEPALIVE);
  }
}
