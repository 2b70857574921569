/** What a handler does to the response writer it is given, as a sequence of
    events folded over a writer. The lemmas here state what an interceptor
    has recorded after any such sequence, and what the underlying sink has
    received. */
module Events {
  import opened Http
  import opened Writers

  datatype Event =
    | SetStatus(code: int)
    | WriteBody(payload: seq<uint8>)
    | FlushBody
    | TakeOver

  /** What the handler gets back from one event. `Unavailable` is the
      handler's own type assertion for `http.Flusher` or `http.Hijacker`
      failing on its writer, so that no call is made at all. */
  datatype Output =
    | Done
    | Wrote(written: WriteResult)
    | Hijacked(taken: HijackResult)
    | Unavailable

  /** One handler action on writer `w`. */
  function Step(w: Writer, e: Event, env: SinkBehaviour): (r: (Writer, Output))
    ensures Depth(r.0) == Depth(w)
  {
    match e
    case SetStatus(code) => (WriteHeader(w, code), Done)
    case WriteBody(p) =>
      var written := Write(w, p, env);
      (written.0, Wrote(written.1))
    case FlushBody => if IsFlusher(w) then (Flush(w), Done) else (w, Unavailable)
    case TakeOver =>
      if IsHijacker(w) then
        var taken := Hijack(w, env);
        (taken.0, Hijacked(taken.1))
      else (w, Unavailable)
  }

  /** The handler's actions `es`, in order, starting from writer `w`. */
  function Run(w: Writer, es: seq<Event>, env: SinkBehaviour): (r: (Writer, seq<Output>))
    ensures Depth(r.0) == Depth(w)
    ensures |r.1| == |es|
    decreases |es|
  {
    if es == [] then (w, [])
    else
      var first := Step(w, es[0], env);
      var rest := Run(first.0, es[1..], env);
      (rest.0, [first.1] + rest.1)
  }

  // ---------------------------------------------------------------------------
  // Reference definitions, stated independently of the writers.

  /** Total length of the bodies written by `es`. */
  function TotalPayload(es: seq<Event>): nat {
    if es == [] then 0
    else (if es[0].WriteBody? then |es[0].payload| else 0) + TotalPayload(es[1..])
  }

  /** No event of `es` sets the status. */
  predicate NeverSetsStatus(es: seq<Event>) {
    forall i :: 0 <= i < |es| ==> !es[i].SetStatus?
  }

  /** `es[i]` is the last event of `es` that sets the status. */
  predicate LastSetsStatusAt(es: seq<Event>, i: int) {
    && 0 <= i < |es|
    && es[i].SetStatus?
    && forall j :: i < j < |es| ==> !es[j].SetStatus?
  }

  /** The calls a sink with capabilities `hijacker` and `flusher` receives
      for one handler action, however many interceptors lie in between. */
  function Forward(e: Event, hijacker: bool, flusher: bool): seq<SinkCall> {
    match e
    case SetStatus(code) => [CallWriteHeader(code)]
    case WriteBody(p) => [CallWrite(p)]
    case FlushBody => if flusher then [CallFlush] else []
    case TakeOver => if hijacker then [CallHijack] else []
  }

  function Forwarded(es: seq<Event>, hijacker: bool, flusher: bool): seq<SinkCall> {
    if es == [] then [] else Forward(es[0], hijacker, flusher) + Forwarded(es[1..], hijacker, flusher)
  }

  // ---------------------------------------------------------------------------
  // One step.

  /** What one action does, stated through the writer's observable parts: the
      sink keeps its capabilities and receives exactly the forwarded calls,
      the status changes only on `SetStatus`, the count only on `WriteBody`,
      a write returns the sink's answer, and an interceptor never refuses a
      flush or a hijack. */
  lemma StepEffect(w: Writer, e: Event, env: SinkBehaviour)
    ensures var r := Step(w, e, env);
      && Base(r.0).hijacker == Base(w).hijacker
      && Base(r.0).flusher == Base(w).flusher
      && Received(r.0) == Received(w) + Forward(e, Base(w).hijacker, Base(w).flusher)
      && (e.WriteBody? ==> r.1 == Wrote(env.onWrite(Received(w), e.payload)))
      && (w.Interceptor? ==> r.1 != Unavailable)
      && (w.Interceptor? ==>
            r.0.statusCode == (if e.SetStatus? then e.code else w.statusCode))
      && (w.Interceptor? ==>
            r.0.bytesWritten == w.bytesWritten + (if e.WriteBody? then |e.payload| else 0))
  {
  }

  // ---------------------------------------------------------------------------
  // Any sequence of steps.

  /** The underlying sink keeps its capabilities. */
  lemma {:induction false} RunKeepsCapabilities(w: Writer, es: seq<Event>, env: SinkBehaviour)
    ensures Base(Run(w, es, env).0).hijacker == Base(w).hijacker
    ensures Base(Run(w, es, env).0).flusher == Base(w).flusher
    decreases |es|
  {
    if es != [] {
      StepEffect(w, es[0], env);
      RunKeepsCapabilities(Step(w, es[0], env).0, es[1..], env);
    }
  }

  /** The interceptor's byte count grows by exactly the total length of the
      written bodies, whatever the sink answers. */
  lemma {:induction false} BytesWrittenIsTotalPayload(w: Writer, es: seq<Event>, env: SinkBehaviour)
    requires w.Interceptor?
    ensures Run(w, es, env).0.bytesWritten == w.bytesWritten + TotalPayload(es)
    decreases |es|
  {
    if es != [] {
      StepEffect(w, es[0], env);
      BytesWrittenIsTotalPayload(Step(w, es[0], env).0, es[1..], env);
    }
  }

  /** If no action after the first sets the status, the tail never does. */
  lemma NeverSetsStatusTail(es: seq<Event>)
    requires es != []
    requires forall j :: 0 < j < |es| ==> !es[j].SetStatus?
    ensures NeverSetsStatus(es[1..])
  {
    forall j | 0 <= j < |es[1..]| ensures !es[1..][j].SetStatus? {
      assert es[1..][j] == es[j + 1];
    }
  }

  /** The interceptor's status is unchanged when no action sets it, and is
      the code of the last `SetStatus` otherwise, with no range check. */
  lemma {:induction false} StatusIsLastSet(w: Writer, es: seq<Event>, env: SinkBehaviour)
    requires w.Interceptor?
    ensures NeverSetsStatus(es) ==> Run(w, es, env).0.statusCode == w.statusCode
    ensures forall i :: LastSetsStatusAt(es, i) ==> Run(w, es, env).0.statusCode == es[i].code
    decreases |es|
  {
    if es != [] {
      var w1 := Step(w, es[0], env).0;
      StepEffect(w, es[0], env);
      StatusIsLastSet(w1, es[1..], env);
      assert Run(w, es, env).0 == Run(w1, es[1..], env).0;
      if NeverSetsStatus(es) {
        NeverSetsStatusTail(es);
      }
      forall i | LastSetsStatusAt(es, i)
        ensures Run(w, es, env).0.statusCode == es[i].code
      {
        if i == 0 {
          NeverSetsStatusTail(es);
        } else {
          assert LastSetsStatusAt(es[1..], i - 1) by {
            forall j | i - 1 < j < |es[1..]| ensures !es[1..][j].SetStatus? {
              assert es[1..][j] == es[j + 1];
            }
          }
        }
      }
    }
  }

  /** The underlying sink receives exactly the forwarded calls of the actions,
      in order, and nothing else. */
  lemma {:induction false} RunForwards(w: Writer, es: seq<Event>, env: SinkBehaviour)
    ensures Received(Run(w, es, env).0) ==
            Received(w) + Forwarded(es, Base(w).hijacker, Base(w).flusher)
    decreases |es|
  {
    if es != [] {
      var w1 := Step(w, es[0], env).0;
      StepEffect(w, es[0], env);
      RunForwards(w1, es[1..], env);
    }
  }

  lemma {:induction false} ForwardedPrefix(es: seq<Event>, i: nat, hijacker: bool, flusher: bool)
    requires 0 < i <= |es|
    ensures Forwarded(es[..i], hijacker, flusher) ==
            Forward(es[0], hijacker, flusher) + Forwarded(es[1..][..i - 1], hijacker, flusher)
  {
    assert es[..i][1..] == es[1..][..i - 1];
  }

  /** Every write answers the handler with the sink's own answer to those
      bytes, given everything the sink had received before them. */
  lemma {:induction false} WriteOutputsAreSinkAnswers(w: Writer, es: seq<Event>, env: SinkBehaviour)
    ensures forall i :: 0 <= i < |es| && es[i].WriteBody? ==>
              Run(w, es, env).1[i] ==
              Wrote(env.onWrite(Received(w) + Forwarded(es[..i], Base(w).hijacker, Base(w).flusher),
                                es[i].payload))
    decreases |es|
  {
    if es != [] {
      var w1 := Step(w, es[0], env).0;
      var h, f := Base(w).hijacker, Base(w).flusher;
      StepEffect(w, es[0], env);
      WriteOutputsAreSinkAnswers(w1, es[1..], env);
      forall i | 0 <= i < |es| && es[i].WriteBody?
        ensures Run(w, es, env).1[i] ==
                Wrote(env.onWrite(Received(w) + Forwarded(es[..i], h, f), es[i].payload))
      {
        if i == 0 {
          assert es[..0] == [];
          assert Received(w) + Forwarded(es[..0], h, f) == Received(w);
          assert Run(w, es, env).1[0] == Step(w, es[0], env).1;
        } else {
          ForwardedPrefix(es, i, h, f);
          assert es[1..][i - 1] == es[i];
          assert Run(w, es, env).1[i] == Run(w1, es[1..], env).1[i - 1];
          assert 0 <= i - 1 < |es[1..]| && es[1..][i - 1].WriteBody?;
          assert Run(w1, es[1..], env).1[i - 1] ==
                 Wrote(env.onWrite(Received(w1) + Forwarded(es[1..][..i - 1], h, f), es[i].payload));
          assert Received(w1) + Forwarded(es[1..][..i - 1], h, f)
              == Received(w) + Forwarded(es[..i], h, f);
        }
      }
    }
  }

  /** A fresh interceptor reports 200 when the handler never sets a status. */
  lemma FreshStatusIsOK(w: Writer, es: seq<Event>, env: SinkBehaviour)
    requires NeverSetsStatus(es)
    ensures Run(New(w), es, env).0.statusCode == StatusOK
  {
    StatusIsLastSet(New(w), es, env);
  }

  // ---------------------------------------------------------------------------
  // Transparency: wrapping a writer in an interceptor changes nothing the
  // wrapped writer sees.

  /** The handler sees the same answer to action `e` through an interceptor
      as without it, except where the bare writer could not even offer the
      capability: there a flush through the interceptor silently does
      nothing, and a hijack comes back as the "not a hijacker" error. */
  predicate OutputAgrees(e: Event, through: Output, bare: Output) {
    if bare == Unavailable then
      if e.FlushBody? then through == Done else through == Hijacked(HijackUnsupported)
    else through == bare
  }

  lemma StepThroughInterceptor(w: Writer, status: int, bytes: nat, e: Event, env: SinkBehaviour)
    ensures Step(Interceptor(w, status, bytes), e, env).0.inner == Step(w, e, env).0
    ensures OutputAgrees(e, Step(Interceptor(w, status, bytes), e, env).1, Step(w, e, env).1)
  {
  }

  /** An interceptor forwards every action to the writer it wraps: after any
      sequence of actions, that writer is in the same state as if the actions
      had been performed on it directly, and each answer agrees. */
  lemma {:induction false} RunThroughInterceptor(w: Writer, status: int, bytes: nat, es: seq<Event>, env: SinkBehaviour)
    ensures Run(Interceptor(w, status, bytes), es, env).0.inner == Run(w, es, env).0
    ensures forall i :: 0 <= i < |es| ==>
              OutputAgrees(es[i], Run(Interceptor(w, status, bytes), es, env).1[i], Run(w, es, env).1[i])
    decreases |es|
  {
    if es != [] {
      var wi := Interceptor(w, status, bytes);
      var s1 := Step(wi, es[0], env);
      var b1 := Step(w, es[0], env);
      StepThroughInterceptor(w, status, bytes, es[0], env);
      assert s1.0 == Interceptor(b1.0, s1.0.statusCode, s1.0.bytesWritten);
      RunThroughInterceptor(b1.0, s1.0.statusCode, s1.0.bytesWritten, es[1..], env);
    }
  }
}
