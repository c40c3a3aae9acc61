/**
 The byte-level transport underneath the framing layer: the `Read + Write`
 capability (`read_exact`, `write`) of a duplex stream, and the error kinds
 the core reports.

 A stream is modelled as the bytes it has still to deliver before the peer
 closes it (`Unread`), the bytes it has accepted so far (`Written`) and how
 many more bytes its sink will accept (`Room`). Reads do not block: input
 that runs short is the end of the stream. The pass-through wrapper `SyncSteer` of
 src/encrypt/enc.rs is the constructor `Passthrough`: it forwards every read
 and write to the stream it wraps, so anything offering read+write, wrapped
 or not, is a `Stream` and gains the framing operations.
 */
module Io {
  import opened ByteOrder

  datatype Result<T, E> = Ok(value: T) | Err(error: E)

  /** `std::io::Error`, one constructor per `ErrorKind` the core produces. */
  datatype IoError =
    | UnexpectedEof              // the stream ended before `read_exact` was satisfied
    | BrokenPipe                 // the sink refused a write
    | Other(received: Bytes)     // a keepalive frame differed from the token
    | InvalidData(message: string)  // the codec failed, with its message

  type IoResult<T> = Result<T, IoError>

  /** The outcome of one operation together with the state it leaves behind. */
  datatype Step<T, S> = Step(res: IoResult<T>, next: S)

  datatype Stream =
    | Wire(unread: Bytes, written: Bytes, room: nat)
    | Passthrough(inner: Stream)
  {
    /** Bytes not read yet: everything the peer sends before it closes the stream. */
    function Unread(): Bytes {
      match this
      case Wire(u, _, _) => u
      case Passthrough(s) => s.Unread()
    }

    /** Bytes this end has written so far, in order. */
    function Written(): Bytes {
      match this
      case Wire(_, w, _) => w
      case Passthrough(s) => s.Written()
    }

    /** How many more bytes the sink accepts before a write fails. */
    function Room(): nat {
      match this
      case Wire(_, _, n) => n
      case Passthrough(s) => s.Room()
    }

    /**
     `read_exact` of `n` bytes: either the next `n` bytes, or `UnexpectedEof`
     when the stream ends first, in which case what was left is consumed.
     */
    function ReadExact(n: nat): (r: Step<Bytes, Stream>)
      ensures r.next.Written() == Written() && r.next.Room() == Room()
      ensures r.res.Ok? <==> n <= |Unread()|
      ensures r.res.Ok? ==> |r.res.value| == n && Unread() == r.res.value + r.next.Unread()
      ensures r.res.Err? ==> r.res.error == UnexpectedEof && r.next.Unread() == []
    {
      match this
      case Wire(u, w, room) =>
        if n <= |u| then Step(Ok(u[..n]), Wire(u[n..], w, room))
        else Step(Err(UnexpectedEof), Wire([], w, room))
      case Passthrough(s) =>
        var r := s.ReadExact(n);
        Step(r.res, Passthrough(r.next))
    }

    /**
     `write` of all of `b`. A write either takes every byte or fails with
     `BrokenPipe` and takes none.
     */
    function Write(b: Bytes): (r: Step<(), Stream>)
      ensures r.next.Unread() == Unread()
      ensures r.res.Ok? <==> |b| <= Room()
      ensures r.res.Ok? ==> r.next.Written() == Written() + b && r.next.Room() == Room() - |b|
      ensures r.res.Err? ==> r.res.error == BrokenPipe && r.next == this
    {
      match this
      case Wire(u, w, room) =>
        if |b| <= room then Step(Ok(()), Wire(u, w + b, room - |b|))
        else Step(Err(BrokenPipe), this)
      case Passthrough(s) =>
        var r := s.Write(b);
        Step(r.res, Passthrough(r.next))
    }

    /** The peer's bytes `b` arrive and queue behind what is still unread. */
    function Deliver(b: Bytes): (r: Stream)
      ensures r.Unread() == Unread() + b
      ensures r.Written() == Written() && r.Room() == Room()
    {
      match this
      case Wire(u, w, room) => Wire(u + b, w, room)
      case Passthrough(s) => Passthrough(s.Deliver(b))
    }
  }

  /** The bytes `after` has written since `before`. */
  function Sent(before: Stream, after: Stream): Bytes
    requires before.Written() <= after.Written()
  {
    after.Written()[|before.Written()|..]
  }

  /** When `after` has written `x` on top of what `before` had, `x` is what was sent. */
  lemma SentIs(before: Stream, after: Stream, x: Bytes)
    requires after.Written() == before.Written() + x
    ensures before.Written() <= after.Written()
    ensures Sent(before, after) == x
  {
    assert after.Written()[|before.Written()|..] == x;
  }
}
