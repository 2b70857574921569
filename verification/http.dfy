/** The slice of net/http that the measuring middleware touches: requests,
    the calls a response sink can receive, and the values those calls return.
    Connections, buffered readers and contexts are opaque tokens that are only
    passed through. */
module Http {

  /** Go's `byte`. */
  newtype uint8 = x: int | 0 <= x < 256

  /** `http.StatusOK`, the status a response has when no handler sets one. */
  const StatusOK: int := 200

  datatype Option<+T> = None | Some(value: T)

  /** A Go `error` value. Errors produced by the sink are opaque. */
  datatype Error =
    | NotHijacker(message: string)
    | SinkFailure(id: nat)

  /** Opaque `net.Conn`, `*bufio.ReadWriter` and `context.Context` values. */
  datatype Conn = Conn(id: nat)
  datatype ReadWriter = ReadWriter(id: nat)
  datatype Context = Context(id: nat)

  datatype URL = URL(path: string)

  /** The parts of an `*http.Request` that the reporters read. */
  datatype Request = Request(httpMethod: string, url: URL, ctx: Context)

  /** The `(int, error)` pair returned by `Write`. */
  datatype WriteResult = WriteResult(n: int, err: Option<Error>)

  /** The `(net.Conn, *bufio.ReadWriter, error)` triple returned by `Hijack`;
      `None` stands for Go's nil. */
  datatype HijackResult = HijackResult(conn: Option<Conn>, rw: Option<ReadWriter>, err: Option<Error>)

  /** One call received by the underlying response sink. */
  datatype SinkCall =
    | CallWriteHeader(code: int)
    | CallWrite(payload: seq<uint8>)
    | CallFlush
    | CallHijack

  /** How the underlying sink answers the calls that return values. Its answer
      may depend on everything it has received so far and on the payload. */
  datatype SinkBehaviour = SinkBehaviour(
    onWrite: (seq<SinkCall>, seq<uint8>) -> WriteResult,
    onHijack: seq<SinkCall> -> HijackResult)
}
