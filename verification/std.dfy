/** `Handler` and `HandlerProvider` (middleware/std/std.go): the measuring
    `http.Handler`. For each request it wraps the response writer in a fresh
    interceptor, picks a reporter from the engine's `UseChi` flag, and asks
    the engine to measure a callback that serves the wrapped handler through
    the interceptor.

    A wrapped handler is either an endpoint, whose behaviour is the sequence
    of actions it performs on its writer for a request, or another measuring
    handler. The metrics engine is represented by its configuration; what
    `Measure` does is reduced to running the callback and then reading the
    reporter, which is recorded as a `Measurement`. */
module Std {
  import opened Http
  import opened Writers
  import opened Events
  import opened Reporters

  /** The part of the engine's configuration this package reads. */
  datatype Config = Config(useChi: bool)

  /** The metrics engine `middleware.Middleware`. */
  datatype Middleware = Middleware(config: Config)

  datatype HttpHandler =
    | Endpoint(script: Request -> seq<Event>)
    | Measuring(handlerID: string, m: Middleware, next: HttpHandler)

  /** One `Measure` call: the handler ID it was given, the reporter it was
      given, and the interceptor as the engine finds it when it reads the
      reporter after the callback has returned. */
  datatype Measurement = Measurement(handlerID: string, reporter: Reporter, observed: Writer)

  /** The result of serving one request: the writer the handler was given,
      the handler's answers in order, and the `Measure` calls, innermost
      first. */
  datatype Served = Served(writer: Writer, outputs: seq<Output>, measurements: seq<Measurement>)

  /** The number of measuring handlers stacked in `h`. */
  function Layers(h: HttpHandler): nat {
    match h
    case Endpoint(_) => 0
    case Measuring(_, _, next) => 1 + Layers(next)
  }

  /** The endpoint at the bottom of a stack of measuring handlers. */
  function Innermost(h: HttpHandler): Request -> seq<Event> {
    match h
    case Endpoint(script) => script
    case Measuring(_, _, next) => Innermost(next)
  }

  /** The reporter `Handler` passes to `Measure`: a `ChiReporter` exactly when
      the flag is set, a `stdReporter` otherwise, over the same request. */
  function SelectReporter(config: Config, r: Request): (rep: Reporter)
    ensures rep.ChiReporter? <==> config.useChi
    ensures rep.StdReporter? <==> !config.useChi
    ensures rep.r == r
  {
    if config.useChi then ChiReporter(r) else StdReporter(r)
  }

  /** `Handler(handlerID, m, h)`. */
  function Handler(handlerID: string, m: Middleware, h: HttpHandler): HttpHandler {
    Measuring(handlerID, m, h)
  }

  /** `HandlerProvider(handlerID, m)`: `Handler` with the handler left open. */
  function HandlerProvider(handlerID: string, m: Middleware): HttpHandler -> HttpHandler {
    next => Handler(handlerID, m, next)
  }

  /** `h.ServeHTTP(w, r)`. A measuring handler calls `Measure` once, with its
      own handler ID and the reporter its flag selects; the callback serves
      the wrapped handler through a fresh interceptor around `w`, and the
      reporter then reads that same interceptor. */
  function Serve(h: HttpHandler, w: Writer, r: Request, env: SinkBehaviour): (s: Served)
    ensures Depth(s.writer) == Depth(w)
    ensures |s.measurements| == Layers(h)
    ensures h.Measuring? ==>
              var last := s.measurements[|s.measurements| - 1];
              && last.handlerID == h.handlerID
              && (last.reporter.ChiReporter? <==> h.m.config.useChi)
              && last.reporter.r == r
              && last.observed.Interceptor?
              && last.observed.inner == s.writer
    decreases h
  {
    match h
    case Endpoint(script) =>
      var run := Run(w, script(r), env);
      Served(run.0, run.1, [])
    case Measuring(handlerID, m, next) =>
      var reporter := SelectReporter(m.config, r);
      var callback := Serve(next, New(w), r, env);
      Served(callback.writer.inner, callback.outputs,
             callback.measurements + [Measurement(handlerID, reporter, callback.writer)])
  }

  /** A handler built by the provider serves every request exactly as the
      handler `Handler` builds. */
  lemma HandlerProviderIsHandler(handlerID: string, m: Middleware, next: HttpHandler,
                                 w: Writer, r: Request, env: SinkBehaviour)
    ensures HandlerProvider(handlerID, m)(next) == Handler(handlerID, m, next)
    ensures Serve(HandlerProvider(handlerID, m)(next), w, r, env) ==
            Serve(Handler(handlerID, m, next), w, r, env)
  {
  }

  /** Serving through an interceptor leaves the writer it wraps exactly as
      serving on that writer directly would, whatever the interceptor had
      recorded before and however many measuring handlers are stacked. */
  lemma {:induction false} ServeThroughInterceptor(h: HttpHandler, w: Writer, status: int, bytes: nat,
                                                   r: Request, env: SinkBehaviour)
    ensures Serve(h, Interceptor(w, status, bytes), r, env).writer.inner == Serve(h, w, r, env).writer
    decreases h
  {
    match h
    case Endpoint(script) =>
      RunThroughInterceptor(w, status, bytes, script(r), env);
    case Measuring(_, _, next) =>
      var wi := Interceptor(w, status, bytes);
      ServeThroughInterceptor(next, wi, StatusOK, 0, r, env);
      ServeThroughInterceptor(next, w, status, bytes, r, env);
      ServeThroughInterceptor(next, w, StatusOK, 0, r, env);
  }

  /** Inserting the measuring handler is invisible to the writer it is given:
      after the request, that writer (and so the sink under it) is in the
      same state as if the wrapped handler had been served on it directly. */
  lemma HandlerIsTransparent(handlerID: string, m: Middleware, h: HttpHandler,
                             w: Writer, r: Request, env: SinkBehaviour)
    ensures Serve(Handler(handlerID, m, h), w, r, env).writer == Serve(h, w, r, env).writer
  {
    ServeThroughInterceptor(h, w, StatusOK, 0, r, env);
  }

  /** One measured endpoint, end to end: `Measure` is called once, with the
      given handler ID; the reporter then reports the request's method, the
      path its variant selects, 200 or the last status the endpoint set, and
      the total length of the bodies it wrote. The writer ends as if the
      endpoint had run on it directly, and the endpoint gets the same
      answers, except that a flush or hijack the writer cannot offer becomes
      a no-op or the "not a hijacker" error. */
  lemma MeasuredEndpoint(handlerID: string, m: Middleware, script: Request -> seq<Event>,
                         w: Writer, r: Request, env: SinkBehaviour, routePattern: Context -> string)
    ensures var s := Serve(Handler(handlerID, m, Endpoint(script)), w, r, env);
            var es := script(r);
            var bare := Run(w, es, env);
            && |s.measurements| == 1
            && s.measurements[0].handlerID == handlerID
            && s.measurements[0].observed.Interceptor?
            && var report := Read(s.measurements[0].reporter, s.measurements[0].observed, routePattern);
               && report.httpMethod == r.httpMethod
               && report.ctx == r.ctx
               && report.path == (if m.config.useChi then routePattern(r.ctx) else r.url.path)
               && report.bytesWritten == TotalPayload(es)
               && (NeverSetsStatus(es) ==> report.statusCode == StatusOK)
               && (forall i :: LastSetsStatusAt(es, i) ==> report.statusCode == es[i].code)
               && s.writer == bare.0
               && |s.outputs| == |es|
               && forall i :: 0 <= i < |es| ==> OutputAgrees(es[i], s.outputs[i], bare.1[i])
  {
    var es := script(r);
    BytesWrittenIsTotalPayload(New(w), es, env);
    StatusIsLastSet(New(w), es, env);
    RunThroughInterceptor(w, StatusOK, 0, es, env);
  }

  /** Interceptor `o` has recorded what the actions `es` did on top of status
      `status` and count `bytes`. */
  ghost predicate Recorded(o: Writer, es: seq<Event>, status: int, bytes: nat) {
    && o.Interceptor?
    && o.bytesWritten == bytes + TotalPayload(es)
    && (NeverSetsStatus(es) ==> o.statusCode == status)
    && (forall i :: LastSetsStatusAt(es, i) ==> o.statusCode == es[i].code)
  }

  /** Serving any stack of measuring handlers through an interceptor adds to
      its count exactly the bytes the innermost endpoint writes, and leaves
      its status unchanged or set to the endpoint's last status. */
  lemma {:induction false} ServeRecordsEndpoint(h: HttpHandler, x: Writer, status: int, bytes: nat,
                                               r: Request, env: SinkBehaviour)
    ensures Recorded(Serve(h, Interceptor(x, status, bytes), r, env).writer, Innermost(h)(r), status, bytes)
    decreases h
  {
    match h
    case Endpoint(script) =>
      BytesWrittenIsTotalPayload(Interceptor(x, status, bytes), script(r), env);
      StatusIsLastSet(Interceptor(x, status, bytes), script(r), env);
    case Measuring(_, _, next) =>
      ServeThroughInterceptor(next, Interceptor(x, status, bytes), StatusOK, 0, r, env);
      ServeRecordsEndpoint(next, x, status, bytes, r, env);
  }

  /** With measuring handlers stacked, every layer's `Measure` call reads an
      interceptor that has seen the innermost endpoint's whole response:
      the total bytes it wrote, and 200 or the last status it set. */
  lemma {:induction false} EveryLayerMeasuresEndpoint(h: HttpHandler, w: Writer, r: Request, env: SinkBehaviour)
    ensures forall k :: 0 <= k < |Serve(h, w, r, env).measurements| ==>
              Recorded(Serve(h, w, r, env).measurements[k].observed, Innermost(h)(r), StatusOK, 0)
    decreases h
  {
    match h
    case Endpoint(_) =>
    case Measuring(_, _, next) =>
      var callback := Serve(next, New(w), r, env);
      var s := Serve(h, w, r, env);
      EveryLayerMeasuresEndpoint(next, New(w), r, env);
      ServeRecordsEndpoint(next, w, StatusOK, 0, r, env);
      assert Innermost(h) == Innermost(next);
      assert New(w) == Interceptor(w, StatusOK, 0);
      assert s.measurements == callback.measurements + [s.measurements[|s.measurements| - 1]];
      forall k | 0 <= k < |s.measurements|
        ensures Recorded(s.measurements[k].observed, Innermost(h)(r), StatusOK, 0)
      {
        if k < |callback.measurements| {
          assert s.measurements[k] == callback.measurements[k];
        } else {
          assert s.measurements[k].observed == callback.writer;
        }
      }
  }
}
