# go-http-metrics `std` middleware, modelled in Dafny

The `std` package of go-http-metrics turns a metrics engine into an ordinary
`http.Handler` middleware. For every request, `Handler` wraps the response
writer in a `responseWriterInterceptor`, which records the last status code
set (200 if none) and the number of body bytes written. It forwards
`WriteHeader` and `Write` to the writer it wraps, and `Flush` and `Hijack`
when that writer has them. It then chooses a reporter from the engine's
`UseChi` flag: `stdReporter` reports the raw URL path and `ChiReporter` the
chi route pattern. Finally it asks the engine to `Measure` a callback that
serves the wrapped handler through the interceptor. `HandlerProvider` is
`Handler` curried into the middleware shape routers expect.

The model is functional:

- `http.dfy` (module `Http`): requests, opaque connection, buffer and context
  tokens, the `(int, error)` and hijack results, and the calls a response
  sink can receive. The sink's answers to `Write` and `Hijack` are an
  abstract `SinkBehaviour`. It is a function of everything the sink has
  received so far and of the payload.
- `writers.dfy` (module `Writers`): a `Writer` is either the underlying sink
  or an interceptor around another writer. The sink has hijacker and flusher
  capability flags and logs the calls it receives. Interceptors can nest, as
  they do when two measuring middlewares are chained. An interceptor always
  offers `Hijack` and `Flush`. `WriteHeader`, `Write`, `Flush` and `Hijack`
  are pure functions on writers.
- `events.dfy` (module `Events`): a handler's actions on its writer are a
  sequence of events: set status, write a body, flush, or hijack. `Run`
  folds those events over a writer. The lemmas relate the fold to reference
  definitions: the total payload length, the last status set, and the calls
  the sink receives.
- `reporters.dfy` (module `Reporters`): the two reporters. A reporter holds
  the request. Its status and byte accessors are given the interceptor's
  current state, which models the source's read through a pointer at the
  moment the engine asks. The chi route lookup is an abstract function of
  the request's context.
- `std.dfy` (module `Std`): `Handler`, `HandlerProvider`, and `Serve`, which
  models `ServeHTTP` for endpoints and for measuring handlers. Each
  `Measure` call is recorded as a `Measurement`: the handler ID, the
  reporter, and the interceptor as the engine reads it after the callback.

## Model

| member | source | states |
|---|---|---|
| Writers.New | middleware/std/std.go:36-39 | a fresh interceptor wraps the given writer with status 200 and a byte count of 0 |
| Writers.WriteHeader | middleware/std/std.go:88-91 | the interceptor's status becomes the given code, with no range check; its byte count is unchanged; the sink receives exactly one call, `WriteHeader` with the same code, through any number of interceptors, and keeps its capabilities |
| Writers.Write | middleware/std/std.go:93-96 | the byte count grows by the payload length whatever the sink answers; the status is unchanged; the sink receives exactly one call, with the same bytes; the result is the sink's own answer to those bytes, unchanged |
| Writers.Flush | middleware/std/std.go:106-113 | the sink receives one `Flush` exactly when it is a flusher; over a sink that is not a flusher, flushing is a silent no-op that returns the whole chain of writers unchanged and raises no error; status and byte count never change |
| Writers.Hijack | middleware/std/std.go:98-104 | on a sink that can be hijacked, the sink receives one `Hijack` and its answer is returned unchanged; otherwise nothing changes and the result is a nil connection, a nil buffer and the non-nil "not a http.Hijacker" error; status and byte count never change |
| Events.StepEffect | middleware/std/std.go:88-113 | one handler action: the sink keeps its capabilities and receives exactly that action's forwarded calls; the status changes only on a status set and the count only on a write; a write answers with the sink's answer; through an interceptor, flush and hijack are always offered |
| Events.RunKeepsCapabilities | middleware/std/std.go:98-113 | no sequence of actions changes whether the sink is a hijacker or a flusher |
| Events.BytesWrittenIsTotalPayload | middleware/std/std.go:93-96 | after any sequence of actions, the interceptor's byte count has grown by exactly the sum of the written payload lengths, for every possible sink answer |
| Events.StatusIsLastSet | middleware/std/std.go:88-91 | after any sequence of actions, the status is unchanged if none sets it, and otherwise equals the code of the last one that does |
| Events.FreshStatusIsOK | middleware/std/std.go:36-39 | a fresh interceptor reports 200 after any sequence of actions that never sets a status |
| Events.RunForwards | middleware/std/std.go:88-113 | the sink receives exactly the forwarded calls of the actions, in order, and nothing else; flushes reach it only if it is a flusher, and hijacks only if it is a hijacker |
| Events.WriteOutputsAreSinkAnswers | middleware/std/std.go:93-96 | each write in a sequence returns the sink's answer to that payload, given every call the sink received before it |
| Events.StepThroughInterceptor | middleware/std/std.go:82-113 | one action through an interceptor leaves the wrapped writer as the action on it directly would, and gives the same answer; the exceptions are a flush or hijack the bare writer cannot offer, which become a no-op or the "not a hijacker" error |
| Events.RunThroughInterceptor | middleware/std/std.go:82-113 | the same holds for any sequence of actions, answer by answer |
| Reporters.ReadIsLive | middleware/std/std.go:70-78 | a reporter reads the method and context from the request, and the status and byte count from the interceptor as it is when read; this holds for both variants |
| Reporters.ReportersDifferOnlyInPath | middleware/std/std.go:20-31 | the chi reporter's path is the route pattern of the request's context, and the std reporter's path is the raw URL path; every other field of the two reports is equal |
| Reporters.Reporter.Method | middleware/std/std.go:20 | the request's method, the same for both variants; stated by Reporters.ReadIsLive and Reporters.ReportersDifferOnlyInPath |
| Reporters.Reporter.Context | middleware/std/std.go:22 | the request's context, the same for both variants; stated by Reporters.ReadIsLive |
| Reporters.Reporter.URLPath | middleware/std/std.go:24-27 | the route pattern of the request's context for the chi reporter, and the raw URL path for the std reporter (line 74); stated by Reporters.ReportersDifferOnlyInPath |
| Reporters.Reporter.StatusCode | middleware/std/std.go:29 | the interceptor's status at the moment of reading, for both variants (line 76); stated by Reporters.ReadIsLive |
| Reporters.Reporter.BytesWritten | middleware/std/std.go:31 | the interceptor's byte count at the moment of reading, for both variants (line 78); stated by Reporters.ReadIsLive |
| Std.Handler | middleware/std/std.go:34-55 | the measuring handler around `h`; what it does per request is stated by Std.Serve, Std.MeasuredEndpoint and Std.EveryLayerMeasuresEndpoint |
| Std.HandlerProvider | middleware/std/std.go:59-63 | `Handler` with the handler left open; stated by Std.HandlerProviderIsHandler |
| Std.SelectReporter | middleware/std/std.go:40-50 | the reporter is a `ChiReporter` exactly when `UseChi` is set and a `stdReporter` exactly when it is not, over the same request |
| Std.Serve | middleware/std/std.go:34-55 | a measuring handler calls `Measure` once per layer; the last call has its own handler ID and the reporter its flag selects over the request; the interceptor the engine reads wraps the writer the handler was given; the interceptor depth of the writer is unchanged |
| Std.HandlerProviderIsHandler | middleware/std/std.go:59-63 | the provider applied to a handler is `Handler` of that handler, and it serves every request identically |
| Std.ServeThroughInterceptor | middleware/std/std.go:51-53 | serving any fixed-script handler, including stacked measuring handlers, through an interceptor leaves the wrapped writer as serving on it directly would |
| Std.HandlerIsTransparent | middleware/std/std.go:34-55 | for fixed-script handlers, inserting the measuring handler does not change the final state of the writer it is given, nor of the sink under it |
| Std.ServeRecordsEndpoint | middleware/std/std.go:51-53 | serving any stack of measuring handlers through an interceptor adds exactly the innermost endpoint's total payload to its count, and leaves its status unchanged or set to the endpoint's last status |
| Std.EveryLayerMeasuresEndpoint | middleware/std/std.go:34-55 | with measuring handlers stacked, every layer's `Measure` call reads an interceptor reporting the innermost endpoint's total bytes written, and 200 or the last status that endpoint set |
| Std.MeasuredEndpoint | middleware/std/std.go:34-55 | for a measured endpoint, `Measure` is called once with the handler ID. The report gives the request's method and context, the path of the selected variant, 200 or the last status set, and the total bytes written. The writer ends as if the endpoint ran on it directly. The endpoint's answers agree one by one, with two exceptions given by `OutputAgrees`: a flush the bare writer cannot offer (`Unavailable`) becomes a silent no-op, and such a hijack becomes the "not a hijacker" error |

## Left out

- The `net/http` server and the real `http.ResponseWriter` are not modelled. The underlying sink is an abstract writer: two capability flags, a log of the calls it receives, and an abstract answer function for `Write` and `Hijack`.
- `Header()` is the only other method the interceptor forwards, by embedding the `http.ResponseWriter` interface. It is not modelled: the interceptor records nothing about it. Every other optional interface of the wrapped writer is hidden by the wrapper and is not modelled either. This includes `http.Pusher`, `http.CloseNotifier`, `io.ReaderFrom` and the `Unwrap` method that `http.ResponseController` relies on.
- The chi lookup `chi.RouteContext(ctx).RoutePattern()` is an uninterpreted function of the request's context. Its behaviour when no route matched is part of chi, not of this package.
- The engine's `Measure` is reduced to running the callback and then reading the reporter. Its timing, aggregation and concurrency safety belong to the engine.
- `net.Conn`, `*bufio.ReadWriter`, `context.Context` and the sink's errors are opaque tokens that are only passed through.
- Std.Serve: a wrapped endpoint is a fixed sequence of actions per request. A handler whose later actions depend on earlier answers, such as a write error, is not covered. Panics that propagate through the callback are not modelled either.
- Reporters.ReadIsLive: the byte count is an unbounded `nat`. The source's `int` counter and its `int64` conversion are not modelled for overflow.
- Std.HandlerIsTransparent: the transparency holds only for handlers that do not branch on the `http.Flusher` or `http.Hijacker` type assertion. An interceptor passes both assertions even over a sink that has neither capability. A Go handler that, say, answers 500 when its writer is not a flusher would therefore stream through the interceptor but answer 500 when served directly. The model cannot express that handler, because an endpoint is a fixed script that cannot react to an `Unavailable` answer.
- Std.ServeThroughInterceptor: the same limit applies. Serving through an interceptor leaves the wrapped writer as serving directly would only for handlers that do not branch on the Flusher or Hijacker assertions. Those assertions always succeed on an interceptor.
- Concurrency is not modelled: each interceptor belongs to one request.
- After a successful hijack, the code still counts later writes and records later status codes, because nothing in it checks for the hijack. The model follows the code. It does not stop the recorded state from advancing once the connection has been taken over.
