/**
 The pluggable transform of src/encrypt/enc.rs and its pass-through stream
 wrapper. An `Encryptor` is the `Encrypt + Decrypt` pair a `Steer` is typed
 with; the trait defaults return their input unchanged for every key.
 */
module Encrypt {
  import opened ByteOrder
  import opened Io
  import opened Framing

  /** `Encrypt::encrypt` and `Decrypt::decrypt`, both keyed by a byte slice. */
  datatype Encryptor = Encryptor(encrypt: (Buffer, Bytes) -> Buffer, decrypt: (Buffer, Bytes) -> Buffer)

  /** The default transform: both directions hand the bytes back unchanged. */
  const Identity: Encryptor := Encryptor((value: Buffer, key: Bytes) => value, (value: Buffer, key: Bytes) => value)

  /** `encrypt` undoes itself on `x` under key `k`. */
  ghost predicate SelfInverseAt(enc: Encryptor, x: Buffer, k: Bytes) {
    enc.encrypt(enc.encrypt(x, k), k) == x
  }

  /** `decrypt` undoes `encrypt` on `x` under key `k`. */
  ghost predicate InverseAt(enc: Encryptor, x: Buffer, k: Bytes) {
    enc.decrypt(enc.encrypt(x, k), k) == x
  }

  /** The defaults leave every buffer as it is, whatever the key. */
  lemma IdentityIsIdentity(x: Buffer, k: Bytes)
    ensures Identity.encrypt(x, k) == x
    ensures Identity.decrypt(x, k) == x
  {
  }

  /** The defaults are inverse to each other and each its own inverse. */
  lemma IdentityInverses(x: Buffer, k: Bytes)
    ensures InverseAt(Identity, x, k)
    ensures SelfInverseAt(Identity, x, k)
  {
  }

  /** `SyncSteer::new` of enc.rs: wrap a stream without touching it. */
  function WrapStream(s: Stream): (r: Stream)
    ensures r.Unread() == s.Unread() && r.Written() == s.Written() && r.Room() == s.Room()
    ensures r.Passthrough? && r.inner == s
  {
    Passthrough(s)
  }

  /**
   The wrapper's `Read`/`Write` forward to the inner stream, so `send` over
   it writes exactly what `send` over the inner stream writes.
   */
  lemma PassthroughSend(s: Stream, e: Endian, buf: Buffer)
    ensures Send(Passthrough(s), e, buf).res == Send(s, e, buf).res
    ensures Send(Passthrough(s), e, buf).next == Passthrough(Send(s, e, buf).next)
  {
  }

  /** Likewise `receive` over the wrapper reads exactly what it reads over the inner stream. */
  lemma PassthroughReceive(s: Stream, e: Endian)
    ensures Receive(Passthrough(s), e).res == Receive(s, e).res
    ensures Receive(Passthrough(s), e).next == Passthrough(Receive(s, e).next)
  {
  }
}
