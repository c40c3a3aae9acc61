/**
 The encrypting channel: `SyncSteer` of src/encrypt/sync_comms/steer.rs and
 the async `Steer` of src/encrypt/async_comms/async_steer.rs, which differ
 only in where they suspend. A channel owns a stream, borrows a key, and is
 fixed at construction to one `Encryptor`; the transform is applied to the
 serialised payload only, so the header carries the transformed length in
 clear.

 As written, `rx` passes the received payload through `encrypt` again, not
 through `decrypt`. The model keeps that: a value comes back out of `rx`
 when `encrypt` is its own inverse for the key, as the default is.
 */
module Steer {
  import opened ByteOrder
  import opened Io
  import opened Framing
  import opened Object
  import opened Encrypt

  datatype Channel = Channel(stream: Stream, key: Bytes, enc: Encryptor)

  /** `new`: take the stream and borrow the key, both unchanged. */
  function New(stream: Stream, key: Bytes, enc: Encryptor): (r: Channel)
    ensures r.stream == stream && r.key == key && r.enc == enc
  {
    Channel(stream, key, enc)
  }

  /** `set_key`: rebind the key; the stream and the transform stay as they are. */
  function SetKey(ch: Channel, k: Bytes): (r: Channel)
    ensures r.key == k
    ensures r.stream == ch.stream && r.enc == ch.enc
  {
    ch.(key := k)
  }

  /**
   `tx`: a serialisation failure is `InvalidData` and nothing is sent;
   otherwise one frame goes out whose payload is `encrypt(serialize(v), key)`,
   preceded by that payload's length in clear.
   */
  function Tx<V>(ch: Channel, e: Endian, c: Codec<V>, v: V): (r: Step<(), Channel>)
    ensures r.next.key == ch.key && r.next.enc == ch.enc
    ensures c.serialize(v).Err? ==> r.res == Err(InvalidData(c.serialize(v).error)) && r.next == ch
    ensures c.serialize(v).Ok? ==>
              var w := ch.enc.encrypt(c.serialize(v).value, ch.key);
              && r.next.stream.Unread() == ch.stream.Unread()
              && (r.res.Ok? <==> WORD_LEN + |w| <= ch.stream.Room())
              && (r.res.Ok? ==> r.next.stream.Written() == ch.stream.Written() + ToNeBytes(e, |w|) + w)
              && (r.res.Err? ==> r.res.error == BrokenPipe)
    ensures ch.stream.Written() <= r.next.stream.Written()
  {
    match c.serialize(v)
    case Err(m) => Step(Err(InvalidData(m)), ch)
    case Ok(buf) =>
      var sent := Send(ch.stream, e, ch.enc.encrypt(buf, ch.key));
      Step(sent.res, ch.(stream := sent.next))
  }

  /**
   `rx`: a `receive` error is passed on; otherwise the payload goes through
   `encrypt` under the current key and is deserialised, a codec failure
   being `InvalidData`.
   */
  function Rx<V>(ch: Channel, e: Endian, c: Codec<V>): (r: Step<V, Channel>)
    ensures r.next.key == ch.key && r.next.enc == ch.enc
    ensures r.next.stream.Written() == ch.stream.Written()
    ensures !Complete(e, ch.stream.Unread()) ==>
              r.res == Err(UnexpectedEof) && r.next.stream.Unread() == []
    ensures Complete(e, ch.stream.Unread()) ==>
              var p := HeadPayload(e, ch.stream.Unread());
              var q := ch.enc.encrypt(p, ch.key);
              && ch.stream.Unread() == Frame(e, p) + r.next.stream.Unread()
              && (c.deserialize(q).Ok? ==> r.res == Ok(c.deserialize(q).value))
              && (c.deserialize(q).Err? ==> r.res == Err(InvalidData(c.deserialize(q).error)))
  {
    var d := Receive(ch.stream, e);
    if d.res.Err? then Step(Err(d.res.error), ch.(stream := d.next))
    else
      var buf := ch.enc.encrypt(d.res.value, ch.key);
      match c.deserialize(buf)
      case Ok(v) => Step(Ok(v), ch.(stream := d.next))
      case Err(m) => Step(Err(InvalidData(m)), ch.(stream := d.next))
  }

  /** The receiving channel `b` once the bytes `a` sent, then `rest`, have reached it. */
  function Receiving(b: Channel, a: Channel, a': Channel, rest: Bytes): Channel
    requires a.stream.Written() <= a'.stream.Written()
  {
    b.(stream := b.stream.Deliver(Sent(a.stream, a'.stream) + rest))
  }

  /**
   Round trip between two channels with the same transform and key: it
   holds for every value the codec round-trips whose serialised bytes
   `encrypt` maps back to themselves.
   */
  lemma TxRxRoundTrip<V>(a: Channel, b: Channel, e: Endian, c: Codec<V>, v: V, rest: Bytes)
    requires Lossless(c, v)
    requires b.enc == a.enc && b.key == a.key && b.stream.Unread() == []
    requires SelfInverseAt(a.enc, c.serialize(v).value, a.key)
    requires WORD_LEN + |a.enc.encrypt(c.serialize(v).value, a.key)| <= a.stream.Room()
    ensures Tx(a, e, c, v).res == Ok(())
    ensures Rx(Receiving(b, a, Tx(a, e, c, v).next, rest), e, c).res == Ok(v)
    ensures Rx(Receiving(b, a, Tx(a, e, c, v).next, rest), e, c).next.stream.Unread() == rest
  {
    var w := a.enc.encrypt(c.serialize(v).value, a.key);
    var sent := Tx(a, e, c, v);
    assert Sent(a.stream, sent.next.stream) == Frame(e, w);
    var b' := Receiving(b, a, sent.next, rest);
    ReceiveFrame(b'.stream, e, w, rest);
  }

  /**
   With the default transform the round trip holds for every value the codec
   round-trips, whatever keys the two channels hold: the defaults ignore the key.
   */
  lemma IdentityRoundTrip<V>(a: Channel, b: Channel, e: Endian, c: Codec<V>, v: V, rest: Bytes)
    requires Lossless(c, v)
    requires a.enc == Identity && b.enc == Identity && b.stream.Unread() == []
    requires WORD_LEN + |c.serialize(v).value| <= a.stream.Room()
    ensures Tx(a, e, c, v).res == Ok(())
    ensures Rx(Receiving(b, a, Tx(a, e, c, v).next, rest), e, c).res == Ok(v)
    ensures Rx(Receiving(b, a, Tx(a, e, c, v).next, rest), e, c).next.stream.Unread() == rest
  {
    var sameKey := b.(key := a.key);
    IdentityInverses(c.serialize(v).value, a.key);
    TxRxRoundTrip(a, sameKey, e, c, v, rest);
    var sent := Tx(a, e, c, v).next;
    IdentityRxIsPlainRx(Receiving(b, a, sent, rest), e, c);
    IdentityRxIsPlainRx(Receiving(sameKey, a, sent, rest), e, c);
  }

  /**
   A channel with the default transform sends exactly like the plain object
   codec on its stream: same result, same bytes written.
   */
  lemma IdentityTxIsPlainTx<V>(ch: Channel, e: Endian, c: Codec<V>, v: V)
    requires ch.enc == Identity
    ensures Tx(ch, e, c, v).res == Object.Tx(ch.stream, e, c, v).res
    ensures Tx(ch, e, c, v).next.stream == Object.Tx(ch.stream, e, c, v).next
  {
    match c.serialize(v)
    case Err(_) =>
    case Ok(buf) =>
      IdentityIsIdentity(buf, ch.key);
      assert ch.enc.encrypt(buf, ch.key) == buf;
  }

  /**
   A channel with the default transform receives exactly like the plain
   object codec on its stream: same result, same bytes consumed.
   */
  lemma IdentityRxIsPlainRx<V>(ch: Channel, e: Endian, c: Codec<V>)
    requires ch.enc == Identity
    ensures Rx(ch, e, c).res == Object.Rx(ch.stream, e, c).res
    ensures Rx(ch, e, c).next.stream == Object.Rx(ch.stream, e, c).next
  {
    var d := Receive(ch.stream, e);
    if d.res.Ok? {
      IdentityIsIdentity(d.res.value, ch.key);
      assert ch.enc.encrypt(d.res.value, ch.key) == d.res.value;
    }
  }

  /** After `set_key(k)`, `tx` transforms under `k`. */
  lemma TxAfterSetKey<V>(ch: Channel, e: Endian, c: Codec<V>, v: V, k: Bytes)
    requires c.serialize(v).Ok?
    requires WORD_LEN + |ch.enc.encrypt(c.serialize(v).value, k)| <= ch.stream.Room()
    ensures var w := ch.enc.encrypt(c.serialize(v).value, k);
            Tx(SetKey(ch, k), e, c, v).next.stream.Written() == ch.stream.Written() + Frame(e, w)
  {
  }

  /** Byte-wise increment; its inverse is `ShiftDown`. */
  function ShiftUp(x: Buffer, k: Bytes): (r: Buffer)
    ensures |r| == |x|
    ensures forall i :: 0 <= i < |x| ==> r[i] as int == (x[i] as int + 1) % 256
  {
    seq(|x|, i requires 0 <= i < |x| => ((x[i] as int + 1) % 256) as byte)
  }

  /** Byte-wise decrement. */
  function ShiftDown(x: Buffer, k: Bytes): (r: Buffer)
    ensures |r| == |x|
    ensures forall i :: 0 <= i < |x| ==> r[i] as int == (x[i] as int + 255) % 256
  {
    seq(|x|, i requires 0 <= i < |x| => ((x[i] as int + 255) % 256) as byte)
  }

  /** The codec that sends a byte buffer as itself. */
  const RawCodec: Codec<Buffer> := Codec((v: Buffer) => Ok(v), (b: Buffer) => Ok(b))

  /**
   Because `rx` applies `encrypt` rather than `decrypt`, a matched
   encrypt/decrypt pair is not enough: with byte-wise increment as `encrypt`
   and decrement as `decrypt` (an exact inverse), `tx([5])` is received as
   `[7]`.
   */
  lemma RxUsesEncryptNotDecrypt(a: Channel, b: Channel, e: Endian)
    requires a.enc == Encryptor(ShiftUp, ShiftDown) && b.enc == a.enc && b.key == a.key
    requires b.stream.Unread() == [] && WORD_LEN + 1 <= a.stream.Room()
    ensures InverseAt(a.enc, [5], a.key)
    ensures Tx(a, e, RawCodec, [5]).res == Ok(())
    ensures var seven: Buffer := [7];
            Rx(Receiving(b, a, Tx(a, e, RawCodec, [5]).next, []), e, RawCodec).res == Ok(seven)
  {
    var enc := a.enc;
    assert enc.encrypt([5], a.key) == [6];
    assert enc.decrypt([6], a.key) == [5];
    assert enc.encrypt([6], a.key) == [7];
    var sent := Tx(a, e, RawCodec, [5]);
    assert Sent(a.stream, sent.next.stream) == Frame(e, [6]);
    var b' := Receiving(b, a, sent.next, []);
    ReceiveFrame(b'.stream, e, [6], []);
  }
}
