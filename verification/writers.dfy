/** `responseWriterInterceptor` (middleware/std/std.go): a response writer
    that records the last status code and the number of body bytes passed
    through it. It forwards `WriteHeader` and `Write` to the writer it wraps,
    and `Flush` and `Hijack` when that writer has them. Through embedding it
    also forwards `Header()`; every other optional interface of the wrapped
    writer is hidden by the wrapper.

    A writer is either the underlying sink, which logs the calls it receives,
    or an interceptor around another writer. Interceptors can nest: a chain
    of two measuring middlewares puts one interceptor inside another. */
module Writers {
  import opened Http

  /** The message of the error `Hijack` returns when the wrapped writer
      cannot be hijacked. */
  const NotHijackerMessage: string :=
    "type assertion failed http.ResponseWriter not a http.Hijacker"

  /** What `Hijack` returns when the wrapped writer lacks the capability. */
  const HijackUnsupported: HijackResult :=
    HijackResult(None, None, Some(NotHijacker(NotHijackerMessage)))

  datatype Writer =
    | Sink(hijacker: bool, flusher: bool, received: seq<SinkCall>)
    | Interceptor(inner: Writer, statusCode: int, bytesWritten: nat)

  /** Whether `w.(http.Hijacker)` succeeds. An interceptor always implements
      `Hijack`. */
  predicate IsHijacker(w: Writer) {
    w.Interceptor? || w.hijacker
  }

  /** Whether `w.(http.Flusher)` succeeds. An interceptor always implements
      `Flush`. */
  predicate IsFlusher(w: Writer) {
    w.Interceptor? || w.flusher
  }

  /** The underlying sink at the bottom of a chain of interceptors. */
  function Base(w: Writer): (s: Writer)
    ensures s.Sink?
  {
    match w
    case Sink(_, _, _) => w
    case Interceptor(inner, _, _) => Base(inner)
  }

  /** How many interceptors are stacked on the underlying sink. */
  function Depth(w: Writer): (n: nat)
    ensures n == 0 <==> w.Sink?
  {
    match w
    case Sink(_, _, _) => 0
    case Interceptor(inner, _, _) => 1 + Depth(inner)
  }

  /** Every call the underlying sink has received, in order. */
  function Received(w: Writer): seq<SinkCall> {
    Base(w).received
  }

  /** The underlying sink of `w` after it has further received `calls`. */
  function SinkAfter(w: Writer, calls: seq<SinkCall>): (s: Writer)
    ensures s.Sink?
  {
    Sink(Base(w).hijacker, Base(w).flusher, Received(w) + calls)
  }

  /** The interceptor `Handler` builds for each request: status 200, no bytes. */
  function New(w: Writer): (r: Writer)
    ensures r.Interceptor? && r.inner == w
    ensures r.statusCode == StatusOK && r.bytesWritten == 0
  {
    Interceptor(w, StatusOK, 0)
  }

  /** `WriteHeader`: an interceptor records the code, whatever its value, and
      passes the same code on. The sink receives exactly one call, with that
      code, and nothing else changes. */
  function WriteHeader(w: Writer, code: int): (r: Writer)
    ensures Depth(r) == Depth(w)
    ensures Base(r) == SinkAfter(w, [CallWriteHeader(code)])
    ensures w.Interceptor? ==> r.statusCode == code && r.bytesWritten == w.bytesWritten
  {
    match w
    case Sink(_, _, received) => w.(received := received + [CallWriteHeader(code)])
    case Interceptor(inner, _, _) => w.(inner := WriteHeader(inner, code), statusCode := code)
  }

  /** `Write`: an interceptor adds `|p|` to its count, whatever the sink then
      answers, and returns the sink's `(int, error)` answer to exactly these
      bytes unchanged. The status code is left alone. */
  function Write(w: Writer, p: seq<uint8>, env: SinkBehaviour): (r: (Writer, WriteResult))
    ensures Depth(r.0) == Depth(w)
    ensures Base(r.0) == SinkAfter(w, [CallWrite(p)])
    ensures r.1 == env.onWrite(Received(w), p)
    ensures w.Interceptor? ==>
              r.0.bytesWritten == w.bytesWritten + |p| && r.0.statusCode == w.statusCode
  {
    match w
    case Sink(_, _, received) =>
      (w.(received := received + [CallWrite(p)]), env.onWrite(received, p))
    case Interceptor(inner, _, bytesWritten) =>
      var forwarded := Write(inner, p, env);
      (w.(inner := forwarded.0, bytesWritten := bytesWritten + |p|), forwarded.1)
  }

  /** `Flush`: forwarded when the wrapped writer is a flusher, otherwise a
      silent no-op. Only a sink that is a flusher ever receives the call;
      over any other sink the whole chain is left exactly as it was. An
      interceptor's status and count never change. */
  function Flush(w: Writer): (r: Writer)
    requires IsFlusher(w)
    ensures Depth(r) == Depth(w)
    ensures Base(w).flusher ==> Base(r) == SinkAfter(w, [CallFlush])
    ensures !Base(w).flusher ==> r == w
    ensures w.Interceptor? ==>
              r.statusCode == w.statusCode && r.bytesWritten == w.bytesWritten
  {
    match w
    case Sink(_, _, received) => w.(received := received + [CallFlush])
    case Interceptor(inner, _, _) =>
      if !IsFlusher(inner) then w else w.(inner := Flush(inner))
  }

  /** `Hijack`: forwarded when the wrapped writer is a hijacker. Otherwise it
      returns a nil connection, a nil buffer and a non-nil error, and changes
      nothing. When the sink at the bottom can be hijacked, its answer comes
      back unchanged through every interceptor. */
  function Hijack(w: Writer, env: SinkBehaviour): (r: (Writer, HijackResult))
    requires IsHijacker(w)
    ensures Depth(r.0) == Depth(w)
    ensures Base(w).hijacker ==>
              && Base(r.0) == SinkAfter(w, [CallHijack])
              && r.1 == env.onHijack(Received(w))
    ensures !Base(w).hijacker ==> r.0 == w
    ensures !Base(w).hijacker ==> r.1.conn.None? && r.1.rw.None? && r.1.err.Some?
    ensures !Base(w).hijacker ==> r.1.err.value == NotHijacker(NotHijackerMessage)
    ensures w.Interceptor? ==>
              r.0.statusCode == w.statusCode && r.0.bytesWritten == w.bytesWritten
  {
    match w
    case Sink(_, _, received) => (w.(received := received + [CallHijack]), env.onHijack(received))
    case Interceptor(inner, _, _) =>
      if !IsHijacker(inner) then (w, HijackUnsupported)
      else
        var forwarded := Hijack(inner, env);
        (w.(inner := forwarded.0), forwarded.1)
  }
}
