/** `stdReporter` and `ChiReporter` (middleware/std/std.go): two read-only
    views over a request and its interceptor that the metrics engine reads.

    In the source, a reporter holds a pointer to the interceptor, so every
    accessor reads the interceptor as it is at that moment. Here a reporter
    holds the request only, and the accessors that read the interceptor are
    given its current state. The chi route lookup is the abstract
    `routePattern` function of the request's context. */
module Reporters {
  import opened Http
  import opened Writers

  datatype Reporter =
    | StdReporter(r: Request)
    | ChiReporter(r: Request)
  {
    function Method(): string {
      r.httpMethod
    }

    function Context(): Http.Context {
      r.ctx
    }

    function URLPath(routePattern: Http.Context -> string): string {
      match this
      case StdReporter(r) => r.url.path
      case ChiReporter(r) => routePattern(r.ctx)
    }

    function StatusCode(w: Writer): int
      requires w.Interceptor?
    {
      w.statusCode
    }

    function BytesWritten(w: Writer): int
      requires w.Interceptor?
    {
      w.bytesWritten
    }
  }

  /** Everything the engine reads from a reporter at one moment. */
  datatype Report = Report(httpMethod: string, ctx: Context, path: string, statusCode: int, bytesWritten: int)

  /** Reads every accessor of `rep` while its interceptor is in state `w`. */
  function Read(rep: Reporter, w: Writer, routePattern: Context -> string): Report
    requires w.Interceptor?
  {
    Report(rep.Method(), rep.Context(), rep.URLPath(routePattern), rep.StatusCode(w), rep.BytesWritten(w))
  }

  /** Both reporters read the method and context from the request and the
      status and byte count from the interceptor, as they are when read. */
  lemma ReadIsLive(rep: Reporter, w: Writer, routePattern: Context -> string)
    requires w.Interceptor?
    ensures var report := Read(rep, w, routePattern);
      && report.httpMethod == rep.r.httpMethod
      && report.ctx == rep.r.ctx
      && report.statusCode == w.statusCode
      && report.bytesWritten == w.bytesWritten
  {
  }

  /** The two reporters over the same request and interceptor differ only
      in the path: the raw URL path against the matched route pattern. */
  lemma ReportersDifferOnlyInPath(r: Request, w: Writer, routePattern: Context -> string)
    requires w.Interceptor?
    ensures Read(StdReporter(r), w, routePattern).path == r.url.path
    ensures Read(ChiReporter(r), w, routePattern).path == routePattern(r.ctx)
    ensures Read(StdReporter(r), w, routePattern) ==
            Read(ChiReporter(r), w, routePattern).(path := r.url.path)
  {
  }
}
