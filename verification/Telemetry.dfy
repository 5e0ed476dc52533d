/** The telemetry tables and their ingestion: `telemetry_service.py` over `trace_repository.py` and
    `span_repository.py`. Each commit is one atomic step, so ingesting a span is up to two of them. */
module Telemetry {
  import opened Options
  import opened Json

  type EventId = string
  type TraceId = string

  datatype Trace = Trace(entryPoint: string, appBox: Option<string>)

  datatype Span = Span(
    spanId: string,
    traceId: TraceId,
    channel: string,
    recordedAt: int,
    monotonic: int,
    payload: map<string, Json>,
    processed: bool)

  datatype Tables = Tables(traces: map<TraceId, Trace>, spans: map<EventId, Span>)

  /** `IngestSpanRequest`: one delivery of one captured event. */
  datatype Request = Request(
    eventId: EventId,
    traceId: TraceId,
    spanId: string,
    channel: string,
    recordedAt: int,
    monotonic: int,
    payload: map<string, Json>,
    entryPoint: string,
    appBox: Option<string>)

  function SpanOf(r: Request): Span {
    Span(r.spanId, r.traceId, r.channel, r.recordedAt, r.monotonic, r.payload, false)
  }

  function TraceOf(r: Request): Trace {
    Trace(r.entryPoint, r.appBox)
  }

  /** The row holds, column by column, what the event brought, and is unprocessed. */
  predicate Holds(span: Span, r: Request) {
    && span.spanId == r.spanId && span.traceId == r.traceId && span.channel == r.channel
    && span.recordedAt == r.recordedAt && span.monotonic == r.monotonic && span.payload == r.payload
    && !span.processed
  }

  predicate OpenedBy(trace: Trace, r: Request) {
    trace.entryPoint == r.entryPoint && trace.appBox == r.appBox
  }

  /** The first commit of an ingestion that is not a no-op. */
  function WithTrace(t: Tables, r: Request): Tables {
    if r.traceId in t.traces then t else t.(traces := t.traces[r.traceId := TraceOf(r)])
  }

  function Ingest(t: Tables, r: Request): Tables {
    if r.eventId in t.spans then t
    else
      var t' := WithTrace(t, r);
      t'.(spans := t'.spans[r.eventId := SpanOf(r)])
  }

  function IngestAll(t: Tables, ds: seq<Request>): Tables {
    if ds == [] then t else Ingest(IngestAll(t, ds[..|ds| - 1]), ds[|ds| - 1])
  }

  /** The tables with the given spans marked processed. */
  function Marked(t: Tables, ids: seq<EventId>): Tables {
    t.(spans := map e | e in t.spans :: if e in ids then t.spans[e].(processed := true) else t.spans[e])
  }

  /** The database file. */
  class TelemetryDb {
    var traces: map<TraceId, Trace>
    var spans: map<EventId, Span>

    constructor ()
      ensures Contents() == Tables(map[], map[])
    {
      traces, spans := map[], map[];
    }

    function Contents(): Tables
      reads this
    {
      Tables(traces, spans)
    }

    method GetOrCreate(r: Request) returns (created: bool)
      modifies this`traces
      ensures Contents() == WithTrace(old(Contents()), r)
      ensures created <==> r.traceId !in old(traces)
    {
      if r.traceId in traces {
        return false;
      }
      traces := traces[r.traceId := TraceOf(r)];
      return true;
    }

    method CreateSpan(r: Request)
      modifies this`spans
      ensures spans == old(spans)[r.eventId := SpanOf(r)]
    {
      spans := spans[r.eventId := SpanOf(r)];
    }

    method MarkProcessed(ids: seq<EventId>)
      modifies this`spans
      ensures traces == old(traces) && spans.Keys == old(spans).Keys
      ensures forall e :: e in spans ==>
                spans[e] == if e in ids then old(spans)[e].(processed := true) else old(spans)[e]
      ensures Contents() == Marked(old(Contents()), ids)
    {
      if ids == [] {
        assert Marked(Contents(), ids).spans == spans;
        return;
      }
      spans := map e | e in spans :: if e in ids then spans[e].(processed := true) else spans[e];
    }

    /** `IngestSpanService.__call__`. */
    method IngestSpan(r: Request) returns (traceCreated: bool)
      modifies this
      ensures r.eventId in old(spans) ==> Contents() == old(Contents())
      ensures r.eventId !in old(spans) ==>
                && spans.Keys == old(spans).Keys + {r.eventId} && Holds(spans[r.eventId], r)
                && (forall e :: e in old(spans) ==> spans[e] == old(spans)[e])
                && traces.Keys == old(traces).Keys + {r.traceId}
                && (forall x :: x in old(traces) ==> traces[x] == old(traces)[x])
                && (r.traceId !in old(traces) ==> OpenedBy(traces[r.traceId], r))
      ensures Contents() == Ingest(old(Contents()), r)
      ensures traceCreated <==> r.eventId !in old(spans) && r.traceId !in old(traces)
    {
      if r.eventId in spans {
        return false;
      }
      traceCreated := GetOrCreate(r);
      CreateSpan(r);
    }
  }

  // ---------- idempotence and references ----------

  /** Every span's trace exists. */
  ghost predicate TracesExist(t: Tables) {
    forall e :: e in t.spans ==> t.spans[e].traceId in t.traces
  }

  /** The first delivery of an event. */
  function FirstOf(ds: seq<Request>, e: EventId): Option<Request> {
    if ds == [] then None
    else
      var earlier, last := FirstOf(ds[..|ds| - 1], e), ds[|ds| - 1];
      if earlier.Some? then earlier else if last.eventId == e then Some(last) else None
  }

  /** The first delivery that names a trace, among those that are the first of their own event. */
  function OpenerOf(t: Tables, ds: seq<Request>, x: TraceId): Option<Request> {
    if ds == [] then None
    else
      var front, last := ds[..|ds| - 1], ds[|ds| - 1];
      var earlier := OpenerOf(t, front, x);
      if earlier.Some? then earlier
      else if last.traceId == x && last.eventId !in t.spans && FirstOf(front, last.eventId).None? then Some(last)
      else None
  }

  /** The i-th delivery is the first one of its event. */
  ghost predicate FirstAt(ds: seq<Request>, i: int) {
    0 <= i < |ds| && forall j :: 0 <= j < i ==> ds[j].eventId != ds[i].eventId
  }

  lemma {:induction false} FirstOfFindsEach(ds: seq<Request>, e: EventId)
    ensures FirstOf(ds, e).None? <==> forall i :: 0 <= i < |ds| ==> ds[i].eventId != e
    ensures forall i :: FirstAt(ds, i) && ds[i].eventId == e ==> FirstOf(ds, e) == Some(ds[i])
  {
    if ds != [] {
      var front := ds[..|ds| - 1];
      FirstOfFindsEach(front, e);
      assert forall i :: 0 <= i < |front| ==> front[i] == ds[i];
      forall i | FirstAt(ds, i) && ds[i].eventId == e ensures FirstOf(ds, e) == Some(ds[i]) {
        if i < |front| {
          assert FirstAt(front, i);
        }
      }
    }
  }

  lemma {:induction false} SpansByFirstOf(t: Tables, ds: seq<Request>, e: EventId)
    ensures var after, first := IngestAll(t, ds).spans, FirstOf(ds, e);
            && (e in after <==> e in t.spans || first.Some?)
            && (e in t.spans ==> after[e] == t.spans[e])
            && (e !in t.spans && first.Some? ==> Holds(after[e], first.value))
  {
    if ds != [] {
      SpansByFirstOf(t, ds[..|ds| - 1], e);
    }
  }

  /** The span table after any sequence of deliveries, repeats included: the old rows, and for every
      other event delivered the row of its first delivery. */
  lemma SpansAreFirstDeliveries(t: Tables, ds: seq<Request>, e: EventId)
    ensures var after := IngestAll(t, ds).spans;
            && (e in after <==> e in t.spans || exists i :: 0 <= i < |ds| && ds[i].eventId == e)
            && (e in t.spans ==> after[e] == t.spans[e])
            && forall i :: FirstAt(ds, i) && ds[i].eventId == e && e !in t.spans ==> Holds(after[e], ds[i])
  {
    SpansByFirstOf(t, ds, e);
    FirstOfFindsEach(ds, e);
  }

  lemma {:induction false} TracesByOpener(t: Tables, ds: seq<Request>, x: TraceId)
    ensures var after, opener := IngestAll(t, ds).traces, OpenerOf(t, ds, x);
            && (x in after <==> x in t.traces || opener.Some?)
            && (x in t.traces ==> after[x] == t.traces[x])
            && (x !in t.traces && opener.Some? ==> OpenedBy(after[x], opener.value))
  {
    if ds != [] {
      TracesByOpener(t, ds[..|ds| - 1], x);
      SpansByFirstOf(t, ds[..|ds| - 1], ds[|ds| - 1].eventId);
    }
  }

  /** The i-th delivery brings a new event of the trace. */
  ghost predicate BringsTo(t: Tables, ds: seq<Request>, x: TraceId, i: int) {
    FirstAt(ds, i) && ds[i].traceId == x && ds[i].eventId !in t.spans
  }

  ghost predicate NoneBrings(t: Tables, ds: seq<Request>, x: TraceId, n: int) {
    forall j :: 0 <= j < n ==> !BringsTo(t, ds, x, j)
  }

  lemma BringsToFront(t: Tables, ds: seq<Request>, x: TraceId, i: int)
    requires ds != [] && i < |ds| - 1
    ensures BringsTo(t, ds[..|ds| - 1], x, i) <==> BringsTo(t, ds, x, i)
  {
    assert forall j :: 0 <= j < |ds| - 1 ==> ds[..|ds| - 1][j] == ds[j];
  }

  lemma LastBrings(t: Tables, ds: seq<Request>, x: TraceId)
    requires ds != []
    ensures var front, last := ds[..|ds| - 1], ds[|ds| - 1];
            BringsTo(t, ds, x, |ds| - 1) <==>
              last.traceId == x && last.eventId !in t.spans && FirstOf(front, last.eventId).None?
  {
    FirstOfFindsEach(ds[..|ds| - 1], ds[|ds| - 1].eventId);
    assert forall j :: 0 <= j < |ds| - 1 ==> ds[..|ds| - 1][j] == ds[j];
  }

  lemma {:induction false} OpenerIsFirst(t: Tables, ds: seq<Request>, x: TraceId)
    ensures if OpenerOf(t, ds, x).None? then NoneBrings(t, ds, x, |ds|)
            else exists i :: BringsTo(t, ds, x, i) && NoneBrings(t, ds, x, i) && OpenerOf(t, ds, x) == Some(ds[i])
  {
    if ds != [] {
      var n := |ds| - 1;
      var front := ds[..n];
      OpenerIsFirst(t, front, x);
      LastBrings(t, ds, x);
      forall j | j < n ensures BringsTo(t, front, x, j) <==> BringsTo(t, ds, x, j) {
        BringsToFront(t, ds, x, j);
      }
      if OpenerOf(t, front, x).Some? {
        var i :| BringsTo(t, front, x, i) && NoneBrings(t, front, x, i) && OpenerOf(t, front, x) == Some(front[i]);
        assert BringsTo(t, ds, x, i) && NoneBrings(t, ds, x, i);
      } else if OpenerOf(t, ds, x).Some? {
        assert BringsTo(t, ds, x, n) && NoneBrings(t, ds, x, n);
      }
    }
  }

  /** The trace table after any sequence of deliveries: a trace keeps what it had, and a new one keeps
      what the first new event of the trace brought. */
  lemma TracesKeepFirstEntryPoint(t: Tables, ds: seq<Request>, x: TraceId)
    ensures var after := IngestAll(t, ds).traces;
            && (x in after <==> x in t.traces || exists i :: BringsTo(t, ds, x, i))
            && (x in t.traces ==> after[x] == t.traces[x])
            && forall i :: x !in t.traces && BringsTo(t, ds, x, i) && NoneBrings(t, ds, x, i) ==>
                 OpenedBy(after[x], ds[i])
  {
    TracesByOpener(t, ds, x);
    OpenerIsFirst(t, ds, x);
  }

  lemma {:induction false} ReferencesKept(t: Tables, ds: seq<Request>)
    requires TracesExist(t)
    ensures TracesExist(IngestAll(t, ds))
  {
    if ds != [] {
      ReferencesKept(t, ds[..|ds| - 1]);
    }
  }

  /** Delivering any earlier event again, whatever the repeat carries, changes nothing. */
  lemma {:induction false} RedeliveryChangesNothing(t: Tables, ds: seq<Request>, i: nat, again: Request)
    requires i < |ds| && again.eventId == ds[i].eventId
    ensures Ingest(IngestAll(t, ds), again) == IngestAll(t, ds)
  {
    SpansByFirstOf(t, ds, again.eventId);
    FirstOfFindsEach(ds, again.eventId);
  }

  // ---------- crashes between commits ----------

  /** Delivering a batch and crashing at the i-th event, before or after its trace was committed. */
  datatype Crash = Crash(at: nat, traceCommitted: bool)

  function Interrupted(t: Tables, ds: seq<Request>, c: Crash): Tables
    requires c.at <= |ds|
  {
    var done := IngestAll(t, ds[..c.at]);
    if c.at < |ds| && c.traceCommitted && ds[c.at].eventId !in done.spans then WithTrace(done, ds[c.at]) else done
  }

  function InterruptedAll(t: Tables, ds: seq<Request>, crashes: seq<Crash>): Tables
    requires forall c :: c in crashes ==> c.at <= |ds|
    decreases |crashes|
  {
    if crashes == [] then t
    else
      assert crashes[0] in crashes;
      InterruptedAll(Interrupted(t, ds, crashes[0]), ds, crashes[1..])
  }

  lemma {:induction false} AlreadyThere(t: Tables, ds: seq<Request>)
    requires forall i :: 0 <= i < |ds| ==> ds[i].eventId in t.spans
    ensures IngestAll(t, ds) == t
  {
    if ds != [] {
      AlreadyThere(t, ds[..|ds| - 1]);
    }
  }

  lemma {:induction false} IngestSplit(t: Tables, a: seq<Request>, b: seq<Request>)
    ensures IngestAll(t, a + b) == IngestAll(IngestAll(t, a), b)
  {
    if b == [] {
      assert a + b == a;
    } else {
      IngestSplit(t, a, b[..|b| - 1]);
      assert (a + b)[..|a + b| - 1] == a + b[..|b| - 1];
    }
  }

  lemma OneCrash(t: Tables, ds: seq<Request>, c: Crash)
    requires c.at <= |ds|
    ensures IngestAll(Interrupted(t, ds, c), ds) == IngestAll(t, ds)
  {
    var done, rest := ds[..c.at], ds[c.at..];
    assert ds == done + rest;
    var t1, t2 := IngestAll(t, done), Interrupted(t, ds, c);
    forall i | 0 <= i < |done| ensures done[i].eventId in t2.spans {
      SpansByFirstOf(t, done, done[i].eventId);
      FirstOfFindsEach(done, done[i].eventId);
    }
    AlreadyThere(t2, done);
    IngestSplit(t2, done, rest);
    IngestSplit(t, done, rest);
    if rest != [] {
      assert rest == [rest[0]] + rest[1..];
      IngestSplit(t1, [rest[0]], rest[1..]);
      IngestSplit(t2, [rest[0]], rest[1..]);
      assert [rest[0]][..0] == [];
      assert IngestAll(t1, [rest[0]]) == Ingest(t1, rest[0]) == Ingest(t2, rest[0]) == IngestAll(t2, [rest[0]]);
    }
  }

  /** However often delivering a batch was cut short, even between the two commits of one event,
      delivering it again in full ends in the tables of an uninterrupted delivery. */
  lemma {:induction false} RedeliveryHealsCrashes(t: Tables, ds: seq<Request>, crashes: seq<Crash>)
    requires forall c :: c in crashes ==> c.at <= |ds|
    ensures IngestAll(InterruptedAll(t, ds, crashes), ds) == IngestAll(t, ds)
    decreases |crashes|
  {
    if crashes != [] {
      OneCrash(t, ds, crashes[0]);
      RedeliveryHealsCrashes(Interrupted(t, ds, crashes[0]), ds, crashes[1..]);
    }
  }
}
