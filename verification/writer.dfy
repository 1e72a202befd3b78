/** The intercepting writer `responseWriter` and the seeding done by
    `ServeHTTP`. The wrapper keeps a working header map; its first
    `WriteHeader` (or the first `Write`, as status 200) runs the policy,
    copies the working headers into the real writer and calls the real
    `WriteHeader` once. Later `WriteHeader` calls do nothing, and body bytes
    pass through untouched.

    The real writer is a value: its header map and the ordered list of calls
    it received. The downstream handler is a list of events. */
module Writer {
  import opened Wrappers
  import opened Headers
  import opened Plugin
  import opened Policy

  newtype byte = b: int | 0 <= b < 256

  /** What the real writer's `Write` returned: a byte count and an optional
      transport error. It is not computed here; it arrives with the event. */
  datatype WriteResult = WriteResult(n: int, err: Option<string>)

  /** A call the real writer received. `HeaderWritten` records the status and
      the real header map at the moment of the call. */
  datatype SinkCall =
    | HeaderWritten(status: int, header: Header)
    | BodyWritten(chunk: seq<byte>)

  datatype Sink = Sink(header: Header, calls: seq<SinkCall>)

  /** The one-shot commit: `Pending` until the first `WriteHeader`, then
      `Committed` with the status that call fixed. */
  datatype Phase = Pending | Committed(status: int)

  datatype Wrapper = Wrapper(phase: Phase, header: Header)

  /** The wrapper and the real writer behind it. */
  datatype State = State(wrapper: Wrapper, sink: Sink)

  /** What the downstream handler does with the writer it was handed:
      assign or delete an entry of `Header()`, call `WriteHeader`, or call
      `Write` (with the answer the transport gives). */
  datatype Event =
    | HeaderAssign(key: string, values: seq<string>)
    | HeaderDelete(key: string)
    | StatusWrite(code: int)
    | BodyWrite(chunk: seq<byte>, transport: WriteResult)
  {
    predicate Commits() {
      StatusWrite? || BodyWrite?
    }
  }

  /** `ServeHTTP` before it calls the handler: a fresh wrapper whose working
      map holds a copy of every entry of the real header map. */
  function Wrap(sink: Sink): (s: State)
    ensures s.wrapper.phase == Pending
    ensures s.wrapper.header == sink.header
    ensures s.sink == sink
  {
    CopyIntoEmpty(sink.header);
    State(Wrapper(Pending, CopyInto(map[], sink.header)), sink)
  }

  /** A handler's change to the working map returned by `Header()`. */
  function Mutate(h: Header, e: Event): (r: Header)
    ensures e.Commits() ==> r == h
    ensures e.HeaderAssign? ==> r.Keys == h.Keys + {e.key} && r[e.key] == e.values
    ensures e.HeaderDelete? ==> r.Keys == h.Keys - {e.key}
    ensures forall k :: k in h && (e.HeaderAssign? || e.HeaderDelete?) && k != e.key ==> k in r && r[k] == h[k]
  {
    match e
    case HeaderAssign(k, vs) => h[k := vs]
    case HeaderDelete(k) => h - {k}
    case _ => h
  }

  /** `responseWriter.WriteHeader`. */
  function WriteHeader(m: Middleware, s: State, code: int): (r: State)
    ensures s.wrapper.phase.Committed? ==> r == s
    ensures s.wrapper.phase.Pending? ==>
      && r.wrapper.phase == Committed(code)
      && r.wrapper.header == ApplyCacheControl(code, s.wrapper.header, m)
      && (forall k :: k in r.wrapper.header ==> k in r.sink.header && r.sink.header[k] == r.wrapper.header[k])
      && (forall k :: k in s.sink.header && k !in r.wrapper.header ==> k in r.sink.header && r.sink.header[k] == s.sink.header[k])
      && r.sink.header.Keys == s.sink.header.Keys + r.wrapper.header.Keys
      && r.sink.calls == s.sink.calls + [HeaderWritten(code, r.sink.header)]
  {
    match s.wrapper.phase
    case Committed(_) => s
    case Pending =>
      var working := ApplyCacheControl(code, s.wrapper.header, m);
      var merged := CopyInto(s.sink.header, working);
      State(Wrapper(Committed(code), working), Sink(merged, s.sink.calls + [HeaderWritten(code, merged)]))
  }

  /** `responseWriter.Write`: commit with 200 if nothing committed yet, then
      hand the bytes to the real writer and return its answer unchanged. */
  function Write(m: Middleware, s: State, chunk: seq<byte>, transport: WriteResult): (r: (State, WriteResult))
    ensures r.1 == transport
    ensures s.wrapper.phase.Committed? ==>
      r.0 == State(s.wrapper, Sink(s.sink.header, s.sink.calls + [BodyWritten(chunk)]))
    ensures s.wrapper.phase.Pending? ==>
      var c := WriteHeader(m, s, StatusOK);
      r.0 == State(c.wrapper, Sink(c.sink.header, c.sink.calls + [BodyWritten(chunk)]))
  {
    var c := if s.wrapper.phase.Pending? then WriteHeader(m, s, StatusOK) else s;
    (State(c.wrapper, Sink(c.sink.header, c.sink.calls + [BodyWritten(chunk)])), transport)
  }

  /** One handler event; a `Write` also yields the handler's return value. */
  function Step(m: Middleware, s: State, e: Event): (r: (State, Option<WriteResult>))
    ensures r.1.Some? <==> e.BodyWrite?
    ensures !e.Commits() ==> r.0.sink == s.sink && r.0.wrapper.phase == s.wrapper.phase
  {
    match e
    case HeaderAssign(_, _) => (State(Wrapper(s.wrapper.phase, Mutate(s.wrapper.header, e)), s.sink), None)
    case HeaderDelete(_) => (State(Wrapper(s.wrapper.phase, Mutate(s.wrapper.header, e)), s.sink), None)
    case StatusWrite(code) => (WriteHeader(m, s, code), None)
    case BodyWrite(chunk, transport) =>
      var (s', n) := Write(m, s, chunk, transport);
      (s', Some(n))
  }

  /** The handler's events in order, collecting what each `Write` returned. */
  function Run(m: Middleware, s: State, events: seq<Event>): (r: (State, seq<WriteResult>))
    ensures |r.1| <= |events|
    decreases |events|
  {
    if |events| == 0 then (s, [])
    else
      var (s1, out) := Step(m, s, events[0]);
      var (s2, outs) := Run(m, s1, events[1..]);
      (s2, (if out.Some? then [out.value] else []) + outs)
  }

  /** `ServeHTTP`: wrap the real writer, then let the handler act on it. */
  function Serve(m: Middleware, sink: Sink, events: seq<Event>): (r: (State, seq<WriteResult>))
    ensures |r.1| <= |events|
  {
    Run(m, Wrap(sink), events)
  }

  // ---------------------------------------------------------------------
  // Reference description of a whole run

  /** The working map after the handler's header changes. */
  function Mutations(h: Header, events: seq<Event>): Header
    decreases |events|
  {
    if |events| == 0 then h else Mutations(Mutate(h, events[0]), events[1..])
  }

  /** Position of the first event that commits, if any. */
  function FirstCommit(events: seq<Event>): (r: Option<nat>)
    ensures r.None? <==> forall j :: 0 <= j < |events| ==> !events[j].Commits()
    ensures r.Some? ==>
              && r.value < |events|
              && events[r.value].Commits()
              && forall j :: 0 <= j < r.value ==> !events[j].Commits()
    decreases |events|
  {
    if |events| == 0 then None
    else if events[0].Commits() then Some(0)
    else match FirstCommit(events[1..])
      case None => None
      case Some(i) => Some(i + 1)
  }

  /** The status a committing event fixes: its code, or 200 for `Write`. */
  function CommitStatus(e: Event): int
    requires e.Commits()
  {
    if e.StatusWrite? then e.code else StatusOK
  }

  /** The body chunks of the handler's `Write` calls, in order. */
  function Chunks(events: seq<Event>): seq<SinkCall>
    decreases |events|
  {
    if |events| == 0 then []
    else (if events[0].BodyWrite? then [BodyWritten(events[0].chunk)] else []) + Chunks(events[1..])
  }

  /** What the handler's `Write` calls were answered by the transport. */
  function Answers(events: seq<Event>): seq<WriteResult>
    decreases |events|
  {
    if |events| == 0 then []
    else (if events[0].BodyWrite? then [events[0].transport] else []) + Answers(events[1..])
  }

  /** Every `Write` returns exactly what the real writer answered, in
      order. */
  lemma {:induction false} RunAnswers(m: Middleware, s: State, events: seq<Event>)
    ensures Run(m, s, events).1 == Answers(events)
    decreases |events|
  {
    if |events| > 0 {
      RunAnswers(m, Step(m, s, events[0]).0, events[1..]);
    }
  }

  /** After the commit nothing reaches the real header map again: the status
      stays, and the real writer only receives the later body chunks. */
  lemma {:induction false} RunCommitted(m: Middleware, s: State, events: seq<Event>)
    requires s.wrapper.phase.Committed?
    ensures Run(m, s, events).0.wrapper.phase == s.wrapper.phase
    ensures Run(m, s, events).0.sink == Sink(s.sink.header, s.sink.calls + Chunks(events))
    decreases |events|
  {
    if |events| == 0 {
      assert s.sink.calls + [] == s.sink.calls;
    } else {
      var e := events[0];
      var s1 := Step(m, s, e).0;
      var head := if e.BodyWrite? then [BodyWritten(e.chunk)] else [];
      assert s1.wrapper.phase == s.wrapper.phase;
      assert s1.sink == Sink(s.sink.header, s.sink.calls + head);
      assert Run(m, s, events).0 == Run(m, s1, events[1..]).0;
      RunCommitted(m, s1, events[1..]);
      assert Chunks(events) == head + Chunks(events[1..]);
      assert s.sink.calls + Chunks(events) == (s.sink.calls + head) + Chunks(events[1..]);
    }
  }

  /** A run from a pending wrapper: without a committing event nothing
      reaches the real writer; otherwise the first committing event fixes
      the status, the policy runs on the working map as the handler left it
      up to that point, the result is merged into the real header map, and
      the real writer receives exactly one `WriteHeader` followed by every
      body chunk. */
  lemma {:induction false} RunPending(m: Middleware, s: State, events: seq<Event>)
    requires s.wrapper.phase.Pending?
    ensures var r := Run(m, s, events).0;
      match FirstCommit(events)
      case None =>
        r.sink == s.sink && r.wrapper == Wrapper(Pending, Mutations(s.wrapper.header, events))
      case Some(i) =>
        var code := CommitStatus(events[i]);
        var working := ApplyCacheControl(code, Mutations(s.wrapper.header, events[..i]), m);
        var sent := CopyInto(s.sink.header, working);
        && r.wrapper.phase == Committed(code)
        && r.sink == Sink(sent, s.sink.calls + [HeaderWritten(code, sent)] + Chunks(events))
    decreases |events|
  {
    if |events| > 0 {
      var e := events[0];
      var s1 := Step(m, s, e).0;
      assert Run(m, s, events).0 == Run(m, s1, events[1..]).0;
      if e.Commits() {
        RunFromCommit(m, s, events);
      } else {
        RunPending(m, s1, events[1..]);
        assert Chunks(events) == Chunks(events[1..]);
        match FirstCommit(events[1..])
        case None =>
        case Some(i) =>
          assert FirstCommit(events) == Some(i + 1);
          assert events[i + 1] == events[1..][i];
          assert events[..i + 1][1..] == events[1..][..i];
          assert Mutations(s.wrapper.header, events[..i + 1])
            == Mutations(s1.wrapper.header, events[1..][..i]);
      }
    }
  }

  /** The case of `RunPending` where the very first event commits. */
  lemma RunFromCommit(m: Middleware, s: State, events: seq<Event>)
    requires s.wrapper.phase.Pending? && |events| > 0 && events[0].Commits()
    ensures var code := CommitStatus(events[0]);
      var sent := CopyInto(s.sink.header, ApplyCacheControl(code, s.wrapper.header, m));
      && Run(m, s, events).0.wrapper.phase == Committed(code)
      && Run(m, s, events).0.sink == Sink(sent, s.sink.calls + [HeaderWritten(code, sent)] + Chunks(events))
  {
    var e := events[0];
    var code := CommitStatus(e);
    var c := WriteHeader(m, s, code);
    var s1 := Step(m, s, e).0;
    var head := if e.BodyWrite? then [BodyWritten(e.chunk)] else [];
    assert s1 == State(c.wrapper, Sink(c.sink.header, c.sink.calls + head));
    assert Run(m, s, events).0 == Run(m, s1, events[1..]).0;
    RunCommitted(m, s1, events[1..]);
    assert Chunks(events) == head + Chunks(events[1..]);
    assert c.sink.calls + head + Chunks(events[1..]) == c.sink.calls + Chunks(events);
  }

  /** `ServeHTTP` as a whole: what the handler sees returned, and what the
      real writer ends up with after the calls it had already received. */
  lemma ServeBehaviour(m: Middleware, sink: Sink, events: seq<Event>)
    ensures Serve(m, sink, events).1 == Answers(events)
    ensures var r := Serve(m, sink, events).0;
      match FirstCommit(events)
      case None =>
        r.sink == sink && r.wrapper.phase == Pending
      case Some(i) =>
        var code := CommitStatus(events[i]);
        var sent := CopyInto(sink.header, ApplyCacheControl(code, Mutations(sink.header, events[..i]), m));
        r.sink == Sink(sent, sink.calls + [HeaderWritten(code, sent)] + Chunks(events))
  {
    RunAnswers(m, Wrap(sink), events);
    RunPending(m, Wrap(sink), events);
  }

  // ---------------------------------------------------------------------
  // The one-shot invariant

  /** The real writer's calls agree with the wrapper's phase: none while
      pending; once committed, one `WriteHeader` with the committed status,
      then body chunks only. */
  ghost predicate Consistent(s: State) {
    match s.wrapper.phase
    case Pending => s.sink.calls == []
    case Committed(code) =>
      && |s.sink.calls| >= 1
      && s.sink.calls[0].HeaderWritten?
      && s.sink.calls[0].status == code
      && forall i :: 1 <= i < |s.sink.calls| ==> s.sink.calls[i].BodyWritten?
  }

  /** Number of `WriteHeader` calls the real writer received. */
  function HeaderCalls(calls: seq<SinkCall>): nat
    decreases |calls|
  {
    if |calls| == 0 then 0
    else (if calls[0].HeaderWritten? then 1 else 0) + HeaderCalls(calls[1..])
  }

  lemma {:induction false} NoHeaderCalls(calls: seq<SinkCall>)
    requires forall i :: 0 <= i < |calls| ==> calls[i].BodyWritten?
    ensures HeaderCalls(calls) == 0
    decreases |calls|
  {
    if |calls| > 0 {
      NoHeaderCalls(calls[1..]);
    }
  }

  /** Every event keeps the wrapper and the real writer consistent. */
  lemma StepConsistent(m: Middleware, s: State, e: Event)
    requires Consistent(s)
    ensures Consistent(Step(m, s, e).0)
  {
    var r := Step(m, s, e).0;
    if s.wrapper.phase.Committed? && e.BodyWrite? {
      assert r.sink.calls == s.sink.calls + [BodyWritten(e.chunk)];
      assert forall i :: 1 <= i < |r.sink.calls| ==> r.sink.calls[i].BodyWritten?;
    }
  }

  lemma {:induction false} RunConsistent(m: Middleware, s: State, events: seq<Event>)
    requires Consistent(s)
    ensures Consistent(Run(m, s, events).0)
    decreases |events|
  {
    if |events| > 0 {
      StepConsistent(m, s, events[0]);
      RunConsistent(m, Step(m, s, events[0]).0, events[1..]);
    }
  }

  /** Whatever the handler does, the real writer receives at most one
      `WriteHeader`, and exactly one when the handler commits at all. */
  lemma ServeWritesHeaderAtMostOnce(m: Middleware, sink: Sink, events: seq<Event>)
    requires sink.calls == []
    ensures HeaderCalls(Serve(m, sink, events).0.sink.calls) <= 1
    ensures HeaderCalls(Serve(m, sink, events).0.sink.calls) == 1 <==>
      exists i :: 0 <= i < |events| && events[i].Commits()
  {
    var r := Serve(m, sink, events).0;
    RunConsistent(m, Wrap(sink), events);
    RunPending(m, Wrap(sink), events);
    if r.wrapper.phase.Committed? {
      NoHeaderCalls(r.sink.calls[1..]);
    }
  }

  /** A second `WriteHeader` is a no-op: the first call's status and policy
      outcome stand. */
  lemma SecondWriteHeaderIgnored(m: Middleware, s: State, first: int, second: int)
    requires s.wrapper.phase.Pending?
    ensures WriteHeader(m, WriteHeader(m, s, first), second) == WriteHeader(m, s, first)
  {
  }

  /** Committing twice (an explicit status, then a body write) leaves the
      same real headers as committing once. */
  lemma CommitThenWriteKeepsHeaders(m: Middleware, sink: Sink, code: int, chunk: seq<byte>, transport: WriteResult)
    ensures Serve(m, sink, [StatusWrite(code), BodyWrite(chunk, transport)]).0.sink.header
            == Serve(m, sink, [StatusWrite(code)]).0.sink.header
  {
    var s := Wrap(sink);
    var events := [StatusWrite(code), BodyWrite(chunk, transport)];
    assert events[1..] == [BodyWrite(chunk, transport)];
    RunCommitted(m, WriteHeader(m, s, code), events[1..]);
    RunCommitted(m, WriteHeader(m, s, code), []);
  }

  /** The copy into the real writer merges rather than replaces: a header
      present on the real writer before the handler ran still reaches it at
      commit even though the handler deleted it from `Header()`. */
  lemma DeletedSeededHeaderSurvives(m: Middleware, sink: Sink, key: string, code: int)
    requires key in sink.header && key != CacheControl
    ensures var r := Serve(m, sink, [HeaderDelete(key), StatusWrite(code)]).0;
      key in r.sink.header && r.sink.header[key] == sink.header[key]
  {
    var events := [HeaderDelete(key), StatusWrite(code)];
    var s0 := Wrap(sink);
    var s1 := Step(m, s0, events[0]).0;
    assert key !in s1.wrapper.header;
    assert events[1..] == [StatusWrite(code)];
    var s2 := WriteHeader(m, s1, code);
    assert key !in s2.wrapper.header;
    assert s2.sink.header[key] == sink.header[key];
    assert Run(m, s1, events[1..]) == (s2, []);
    assert Run(m, s0, events).0 == s2;
  }
}
