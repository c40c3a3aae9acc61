# qcomms framing core in Dafny

This project models the core of qcomms. qcomms is a Rust crate that turns any
duplex byte stream into a channel that keeps message boundaries. The model
covers three layers:

- **Framing.** `send` writes an 8-byte native-endian `u64` header holding the
  payload length, then the payload. `receive` reads exactly 8 bytes, decodes
  the length, then reads exactly that many bytes. Keepalive and handshake
  steps are built on these two.
- **Object codec.** `tx` serialises a value and sends it as one frame. `rx`
  receives one frame and deserialises it. Codec failures become
  `InvalidData` errors.
- **Steer.** This channel passes the serialised bytes through an
  `Encryptor` before `send` and after `receive`.

All operations are pure functions. Each takes a `Stream` and returns a `Step`:
the operation's `Result` plus the stream as it is afterwards. A `Stream`
holds three things:

- the bytes not read yet, which are all the bytes the peer sends before it
  closes the stream (`Unread`);
- the bytes it has written so far (`Written`);
- how many more bytes its sink will accept (`Room`).

The pass-through `SyncSteer` of `src/encrypt/enc.rs` is the `Passthrough`
constructor. So framing is defined once and works on every stream, wrapped or
not. In the crate this comes from the blanket `impl`s.

Inputs the model takes as parameters:

- **Byte order.** The platform's byte order is the `Endian` parameter.
- **Serialisation format** (bincode). This is a `Codec` value: a pair of
  functions, either of which may fail with a message.
- **Transform.** The `Encryptor` is a pair of functions keyed by a byte
  slice. The default is `Encrypt.Identity`.
- **Lossy UTF-8 decoder.** The decoder used by `receive_to_string` is a
  function parameter.

Round trips through the codec hold under the hypothesis `Lossless(c, v)`:
`v` serialises, and its bytes deserialise back to `v`.

A connected pair of endpoints is modelled this way. The bytes one stream has
written since some earlier state, `Sent(before, after)`, are delivered to the
other stream's input with `Deliver`.

## Where the same algorithm appears more than once

The crate writes the framing algorithm once per concurrency mode. The async
versions built on `async_trait` (`Comms` in src/comms.rs and
src/async_comms/comms.rs, `ObjComms` in src/object.rs and
src/async_comms/async_object.rs, and `Steer` in
src/encrypt/async_comms/async_steer.rs) run the same reads and writes and only
suspend between them. The futures of src/async_comms/zccomms.rs do the same
steps only when none of their awaits returns `Pending` (see "## Left out").
Each operation is modelled by one member:

| source operation | model member |
|---|---|
| `SyncComms` and async `Comms` `receive` / `send` / `receive_to_string` / `*_keepalive` / `*_handshake` in src/sync_comms/sync_comms.rs, src/async_comms/comms.rs | `Framing.Receive`, `Framing.Send`, `Framing.ReceiveToString`, `Framing.ReceiveKeepalive`, `Framing.SendKeepalive`, `Framing.SendHandshake`, `Framing.ReceiveHandshake` |
| `Comms` and `SyncComms` of src/comms.rs (`receive`, `send`, `receive_to_string`) | the same `Framing` members |
| the fixed-token steps of src/comms.rs, and `KEEPALIVE` | `LegacyComms.*`, `LegacyComms.KEEPALIVE` |
| `ObjComms` / `SyncObjComms` `tx` and `rx` in src/object.rs, src/sync_comms/sync_object.rs, src/async_comms/async_object.rs | `Object.Tx`, `Object.Rx` |
| `SyncSteer` (steer.rs) and `Steer` (async_steer.rs): `new`, `tx`, `rx`, `set_key` | `Steer.New`, `Steer.Tx`, `Steer.Rx`, `Steer.SetKey` |
| `RecvFut`, `ObjRecvFut` of src/async_comms/zccomms.rs | `Framing.Receive`, `Object.Rx` (same steps and result type when no await is `Pending`) |
| `SendFut`, `ObjSendFut` of src/async_comms/zccomms.rs | `Futures.SendFut`, `Futures.ObjSendFut` (they return `Ok(len)`) |

## `rx` applies `encrypt`

`SyncSteer` and `Steer` require their `Encryptor` to implement both
`Encrypt` and `Decrypt` (src/encrypt/sync_comms/steer.rs:22,
src/encrypt/async_comms/async_steer.rs:21). Even so, `rx` passes the
received payload through `Encryptor::encrypt`
(src/encrypt/sync_comms/steer.rs:37, src/encrypt/async_comms/async_steer.rs:40)
and never calls `decrypt`. The model does the same, so a round trip needs
`encrypt` to be its own inverse for the key:

- `Steer.TxRxRoundTrip` proves the round trip under that hypothesis.
- `Steer.IdentityRoundTrip` proves it for the default transform.
- `Steer.RxUsesEncryptNotDecrypt` gives a concrete counterexample. The
  transform adds 1 to every byte, and its `decrypt` is an exact inverse. Even
  so, `tx([5])` is received as `[7]`.

## Model

| member | source | states |
|---|---|---|
| ByteOrder.ToNeBytes | src/sync_comms/sync_comms.rs:18 | the length header is exactly 8 bytes on either byte order |
| ByteOrder.NeRoundTrip | src/sync_comms/sync_comms.rs:11-18 | `from_ne_bytes(to_ne_bytes(n)) == n` for every `u64` and either byte order |
| ByteOrder.FromNeBytes | src/sync_comms/sync_comms.rs:9-11 | `from_ne_bytes` decodes any 8 header bytes to the one length whose `to_ne_bytes` encoding they are; with `NeRoundTrip` this makes it the inverse of `ToNeBytes` |
| ByteOrder.NeInjective | src/sync_comms/sync_comms.rs:18 | different lengths get different headers |
| Io.Stream.ReadExact | src/sync_comms/sync_comms.rs:9-13 | `read_exact(n)` returns the next `n` bytes and leaves the rest unread, or fails with UnexpectedEof when fewer than `n` remain; it never writes |
| Io.Stream.Write | src/sync_comms/sync_comms.rs:19-21 | a write appends all its bytes or fails with BrokenPipe and writes nothing; it never reads |
| Framing.FrameUnique | src/sync_comms/sync_comms.rs:8-24 | frames are self-delimiting: a frame image followed by any bytes determines the payload and where the frame ends |
| Framing.Send | src/sync_comms/sync_comms.rs:17-24 | `send(buf)` succeeds iff the sink takes `8 + len` bytes, and then appends exactly `to_ne_bytes(len)` followed by `buf`; if the sink fails, only the header is written when it fits; the input is untouched |
| Framing.Receive | src/sync_comms/sync_comms.rs:8-15 | `receive` succeeds iff a whole frame is at the head of the input; it returns that frame's payload and consumes exactly `8 + L` bytes; otherwise it fails with UnexpectedEof (short header or short payload); it never writes |
| Framing.ReceiveFrame | src/sync_comms/sync_comms.rs:8-15 | on input `frame(b) ++ rest`, `receive` returns `b` and leaves exactly `rest` |
| Framing.SendThenReceive | src/sync_comms/sync_comms.rs:8-24 | what `send(b)` writes, once delivered to the peer, is received there as `b`, including empty `b` |
| Framing.ReceiveToString | src/sync_comms/sync_comms.rs:26-29 | `receive_to_string` fails exactly when no whole frame is waiting, with `receive`'s error; otherwise it returns the decoded payload and consumes the frame |
| Framing.FramePrefix | src/sync_comms/sync_comms.rs:8-15 | any input that begins with the frame of `b` holds a whole frame whose payload is `b` |
| Framing.ReceiveKeepalive | src/sync_comms/sync_comms.rs:31-40 | `receive_keepalive(ka)` succeeds iff the input starts with `ka`'s frame; a whole frame with a different payload gives `Other` carrying the received bytes; a missing frame gives UnexpectedEof |
| Framing.SendKeepalive | src/sync_comms/sync_comms.rs:42-45 | `send_keepalive(ka)` writes exactly `ka`'s frame when the sink has room, and fails with BrokenPipe otherwise |
| Framing.SendHandshake | src/sync_comms/sync_comms.rs:47-51 | the initiator sends first: it succeeds iff the send fits and the token's frame is waiting; a failed send gives BrokenPipe and nothing is read; after a successful send the token frame stays written and the receive's error is returned: UnexpectedEof when no whole frame is waiting, `Other(p)` for a frame with another payload `p` |
| Framing.ReceiveHandshake | src/sync_comms/sync_comms.rs:53-57 | the responder receives first: it succeeds iff the token's frame is waiting and the reply fits; a missing frame gives UnexpectedEof and a frame with another payload `p` gives `Other(p)`, and in both cases nothing is written; a reply that does not fit gives BrokenPipe |
| Framing.ResponderEchoes | src/sync_comms/sync_comms.rs:53-57 | a responder whose input starts with the token's frame consumes exactly that frame and answers with exactly one token frame |
| Framing.InitiatorCompletes | src/sync_comms/sync_comms.rs:47-51 | an initiator that has room for its token frame, and gets the token's frame back, succeeds, writing exactly one token frame and consuming exactly the reply |
| Framing.ReceiveKeepaliveOther | src/sync_comms/sync_comms.rs:31-40 | a whole frame whose payload `p` differs from the token gives `Other(p)` and writes nothing |
| Framing.ResponderRejects | src/sync_comms/sync_comms.rs:31-57 | a responder that receives a different token's frame fails with `Other` carrying that token and sends nothing back |
| Framing.InitiatorRejects | src/sync_comms/sync_comms.rs:47-51 | an initiator whose reply is another token's frame always fails, and fails with `Other` carrying that token when its own frame fit |
| Framing.HandshakeCompletes | src/sync_comms/sync_comms.rs:47-57 | one `send_handshake` end and one `receive_handshake` end with the same token both succeed, and each writes exactly one token frame |
| Framing.HandshakeMismatch | src/sync_comms/sync_comms.rs:31-57 | when the tokens differ, the responder fails with `Other(ka)` and sends nothing; an initiator that gets back `kb` instead of `ka` fails with `Other(kb)` |
| Framing.SendThenSend | src/sync_comms/sync_comms.rs:17-24 | two sends that fit both succeed and write their two frames one after the other |
| Framing.SendAllFrames | src/sync_comms/sync_comms.rs:17-24 | back-to-back sends write their frames one after another, in order, with no merging |
| Framing.ReceiveManyFrames | src/sync_comms/sync_comms.rs:8-15 | receiving as many frames as were sent returns the payloads in send order and leaves exactly the bytes that follow |
| Framing.BackToBack | src/sync_comms/sync_comms.rs:8-24 | after `send(b1)`, `send(b2)`, `send(b3)`, three `receive` calls on the peer give `b1`, `b2`, `b3` in order and consume everything sent |
| LegacyComms.SendKeepalive | src/comms.rs:98-101 | with the fixed token, `send_keepalive` writes exactly `to_ne_bytes(4) ++ [19,233,92,175]` |
| LegacyComms.ReceiveKeepalive | src/comms.rs:87-96 | succeeds iff the next frame is `to_ne_bytes(4) ++ [19,233,92,175]`; a whole frame of any other length or content gives `Other` with that payload |
| LegacyComms.SendHandshake | src/comms.rs:103-107 | with the fixed token, sends before receiving; nothing is read after a failed send; a failed receive returns its own error, UnexpectedEof or `Other` with the received payload |
| LegacyComms.ReceiveHandshake | src/comms.rs:109-113 | with the fixed token, receives before sending; nothing is sent after a failed receive, whose error (UnexpectedEof or `Other` with the payload) is returned; a reply that does not fit gives BrokenPipe |
| LegacyComms.HandshakeCompletes | src/comms.rs:103-113 | the two fixed-token roles complete against each other |
| Object.Tx | src/sync_comms/sync_object.rs:16-29 | a serialisation failure returns InvalidData with the codec's message and leaves the stream unchanged; otherwise exactly one frame with payload `serialize(v)` is sent, with `send`'s outcome |
| Object.Rx | src/sync_comms/sync_object.rs:31-43 | a missing frame gives `receive`'s UnexpectedEof; otherwise the frame is consumed and its payload is deserialised, and a codec failure gives InvalidData with the codec's message |
| Object.RxFrame | src/object.rs:61-73 | on input `frame(p) ++ rest`, `rx` decodes `p` and leaves exactly `rest`, whether decoding succeeds or fails |
| Object.TxRxRoundTrip | src/object.rs:13-40 | for a value the codec round-trips, `rx` on the peer after `tx(v)` yields `v` |
| Object.TxThenTx | src/sync_comms/sync_object.rs:16-29 | two `tx` calls of values that serialise and fit both succeed and send exactly the two frames, in order |
| Object.TxTwiceRxTwice | tests/tests.rs:36-52 | two values of different types sent by `tx` arrive in send order through `rx::<A>` then `rx::<B>` |
| Encrypt.IdentityIsIdentity | src/encrypt/enc.rs:9-20 | the default `encrypt` and `decrypt` return their input unchanged for any key |
| Encrypt.IdentityInverses | src/encrypt/enc.rs:9-20 | for the defaults, `decrypt(encrypt(x,k),k) == x` and `encrypt(encrypt(x,k),k) == x` |
| Encrypt.WrapStream | src/encrypt/enc.rs:58-63 | the pass-through `SyncSteer::new` wraps the stream without changing its input, output or room |
| Encrypt.PassthroughSend | src/encrypt/enc.rs:73-81 | `send` over the pass-through wrapper has the same result and writes the same bytes as `send` over the inner stream |
| Encrypt.PassthroughReceive | src/encrypt/enc.rs:68-72 | `receive` over the pass-through wrapper has the same result and reads the same bytes as over the inner stream |
| Steer.New | src/encrypt/sync_comms/steer.rs:26-32 | `new` stores the given stream and key unchanged |
| Steer.SetKey | src/encrypt/sync_comms/steer.rs:71-73 | `set_key` replaces the key only; the stream and the transform stay the same |
| Steer.Tx | src/encrypt/sync_comms/steer.rs:57-69 | a serialisation failure gives InvalidData and sends nothing; otherwise one frame is sent with payload `encrypt(serialize(v), key)`, and its header carries that transformed length in clear |
| Steer.Rx | src/encrypt/sync_comms/steer.rs:35-48 | a missing frame gives UnexpectedEof; otherwise the frame is consumed, its payload goes through `encrypt` (not `decrypt`) under the current key and is deserialised, and a codec failure gives InvalidData |
| Steer.TxRxRoundTrip | src/encrypt/sync_comms/steer.rs:35-69 | two channels with the same transform and key round-trip `v` when the codec round-trips `v` and `encrypt` undoes itself on its bytes |
| Steer.IdentityRoundTrip | src/encrypt/async_comms/async_steer.rs:38-72 | with the default transform, `rx` after `tx(v)` yields `v` for every value the codec round-trips, whatever keys the two channels hold, and leaves exactly the bytes that follow |
| Steer.IdentityTxIsPlainTx | src/encrypt/async_comms/async_steer.rs:60-72 | with the default transform, the channel's `tx` has the same result and writes the same bytes as the plain codec's `tx` |
| Steer.IdentityRxIsPlainRx | src/encrypt/async_comms/async_steer.rs:38-51 | with the default transform, the channel's `rx` has the same result and consumes the same bytes as the plain codec's `rx` |
| Steer.TxAfterSetKey | src/encrypt/async_comms/async_steer.rs:70-76 | after `set_key(k)`, `tx` sends the payload transformed under `k` |
| Steer.RxUsesEncryptNotDecrypt | src/encrypt/sync_comms/steer.rs:37 | since `rx` applies `encrypt`, an exact encrypt/decrypt pair that is not self-inverse breaks the round trip: `tx([5])` is received as `[7]` |
| Futures.SendFut | src/async_comms/zccomms.rs:315-325 | `SendFut` writes the same bytes as `send` and returns `Ok(len(buf))` exactly when the frame fits |
| Futures.ObjSendFut | src/async_comms/zccomms.rs:351-366 | a serialisation failure gives InvalidData and sends nothing; otherwise it sends exactly what `tx` sends, returns the serialised length on success, and returns the send's BrokenPipe error when the frame does not fit |
| Futures.SendFutThenRecvFut | src/async_comms/zccomms.rs:315-380 | `RecvFut` on the output of `SendFut(b)` yields `b` |
| Futures.ObjSendFutThenObjRecvFut | src/async_comms/zccomms.rs:329-366 | `ObjRecvFut` on the output of `ObjSendFut(v)` yields `v` for a value the codec round-trips |

## Left out

- Flushing is not modelled. The model has no write buffer, so `flush` has no
  effect. Failures of `flush` are not modelled: a flush that fails after the
  header was written shows up in the model only as the payload write failing.
- Io.Stream.Write: a write is all-or-error. The source ignores the count
  `write` returns (src/sync_comms/sync_comms.rs:19-21), so a real partial
  write would silently drop bytes. The model assumes this does not happen.
- Blocking reads are not modelled. `Unread` is every byte the peer sends
  before it closes the stream, so a short input is the end of the stream:
  `read_exact` fails with UnexpectedEof at once instead of waiting. The
  handshake lemmas therefore deliver the peer's reply before the receiving
  step runs.
- Io.Stream.ReadExact: on a short read the rest of the input is taken to be
  consumed. Rust leaves the buffer contents unspecified in that case.
- `length as usize` is assumed to be a 64-bit `usize`. No maximum frame size
  is enforced, as in the source.
- Allocation of the payload buffer is not modelled. `vec![0u8; length as usize]`
  (src/sync_comms/sync_comms.rs:12) panics when the header announces more than
  `isize::MAX` bytes, and the process aborts when a large allocation fails.
  The model reports neither and treats every length alike.
- Transport read errors other than the end of the stream are not modelled.
  A `read_exact` on a real socket can fail with any I/O error, for example
  ConnectionReset, and the source passes that error on
  (src/sync_comms/sync_comms.rs:10, 13). The model fails a read only with
  UnexpectedEof.
- `BrokenPipe` stands for every error that `write` can report
  (src/sync_comms/sync_comms.rs:19-21). The source passes on whichever error
  the transport gives; the model always reports BrokenPipe.
- The `Other` error of a failed keepalive carries the received payload
  bytes. The crate formats them into a message string, and the wording of
  that message is not modelled.
- Lossy UTF-8 decoding in `receive_to_string` is the `decode` parameter. Only
  its error propagation is modelled.
- bincode and serde are the `Codec` parameter. Round trips depend on the
  stated `Lossless` hypothesis, not on bincode's own guarantees.
- The keepalive token is any byte buffer. The `KEEPALIVE` type alias used in
  src/sync_comms/sync_comms.rs is not part of this model.
- Async runtimes, suspension, cancellation and concurrent use of one handle
  are not modelled. The async operations are modelled as their sync
  counterparts.
- UDP futures and traits in src/async_comms/zccomms.rs (`UdpComms`,
  `UdpObjComms`, `Udp*Fut`) are left out. Datagram `recv` truncates and is not
  stream framing.
- Futures.SendFut, Futures.ObjSendFut: the model assumes that no step of the
  zccomms futures returns `Pending`, and the same holds for `RecvFut` and
  `ObjRecvFut`, which are modelled by `Framing.Receive` and `Object.Rx`. The
  `async_t!` macro (src/async_comms/zccomms.rs:37-43) builds a fresh
  `async move` block on every `poll` and drops it when it returns `Pending`,
  so the next poll restarts the operation from the top. A `SendFut` whose
  header write finished before a later write or flush was `Pending` writes
  the header again (src/async_comms/zccomms.rs:320-323). A `RecvFut` whose
  payload `read_exact` is `Pending` loses the header bytes it already read
  (src/async_comms/zccomms.rs:375-378). With the flush after each header,
  a header that arrives before its payload is the ordinary case. Neither
  restart is modelled, and neither is the macro's unsafe pinning.
- The in-process channel in src/async_comms/chan.rs is not part of this model.
- TCP set-up in tests/tests.rs and module wiring (src/lib.rs, the `mod.rs`
  files) are left out.
- The `Encryptor` is stored in the `Steer.Channel` value. In the crate it is
  the type parameter `Encryptor`, which is fixed by the type. No operation
  here changes it.
