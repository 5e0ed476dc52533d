/** The telemetry drain: producers put events on bounded queues while one worker moves them into a batch
    and ingests the batch. The steps are the atomic actions of either side. */
module Drain {
  import opened Options
  import opened Json
  import opened Validation
  import opened Telemetry
  import opened EventQueue

  datatype Outcome = Ingested | Failed | Skipped

  datatype Handled = Handled(item: Tagged, outcome: Outcome)

  /** Where the worker thread is. `Draining(i)`: after `stop`, the current pass over the channels has
      found the first `i` of them empty. */
  datatype Phase = Collecting | Flushing | Draining(seen: nat) | LastFlush | Done

  datatype Sys = Sys(
    queues: Queues,
    dropped: map<string, nat>,
    phase: Phase,
    batch: seq<Tagged>,
    handled: seq<Handled>,
    db: Tables)

  /** The worker's constructor arguments, and the bound of the queues it reads. */
  datatype Config = Config(
    channels: seq<string>,
    maxsize: int,
    entryPoint: Event -> string,
    appBox: Event -> Option<string>)

  // ---------- ingesting one event ----------

  const OPTIONAL_STRING := TUnion([TStr], true)
  const ABSENT := Some(VJson(JNull))

  /** The fields of `SourceActivityInfo` and of `IngestSpanRequest`, as the validator gate checks them. */
  const SOURCE_ACTIVITY_INFO := TClass([
    Field("source_name", TStr, None), Field("source_url", TStr, None), Field("created_at", TStr, None),
    Field("created_by", TStr, None), Field("security_info", TList(TStr), Some(VList([]))),
    Field("security_checked", TBool, Some(VJson(JBool(false))))])

  const INGEST_SPAN_REQUEST := [
    Field("event_id", TStr, None), Field("trace_id", TStr, None), Field("span_id", TStr, None),
    Field("channel", TStr, None), Field("recorded_at_ns", TInt, None), Field("monotonic_ns", TInt, None),
    Field("payload", TDict(TAny), None), Field("entry_point", TStr, None),
    Field("app_box", OPTIONAL_STRING, ABSENT),
    Field("source_activity_info", TUnion([SOURCE_ACTIVITY_INFO], true), ABSENT)]

  function OptionalString(s: Option<string>): Json {
    if s.None? then JNull else JStr(s.value)
  }

  predicate HasTraceContext(e: Event) {
    e.traceId.Some? && e.spanId.Some?
  }

  /** The dictionary `_ingest_one` hands to the gate. */
  function Raw(cfg: Config, e: Event): map<string, Json>
    requires HasTraceContext(e)
  {
    map[
      "event_id" := JStr(e.eventId), "trace_id" := JStr(e.traceId.value), "span_id" := JStr(e.spanId.value),
      "channel" := JStr(e.channel), "recorded_at_ns" := JInt(e.recordedAt), "monotonic_ns" := JInt(e.monotonic),
      "payload" := e.payload, "entry_point" := JStr(cfg.entryPoint(e)), "app_box" := OptionalString(cfg.appBox(e))]
  }

  function OutcomeOf(cfg: Config, e: Event): Outcome {
    if !HasTraceContext(e) then Skipped
    else if Coerce(JObject(Raw(cfg, e)), TClass(INGEST_SPAN_REQUEST)).Ok? then Ingested
    else Failed
  }

  /** Every field but the payload always checks. */
  lemma OtherFieldsCheck(cfg: Config, e: Event, i: nat)
    requires HasTraceContext(e) && i < |INGEST_SPAN_REQUEST| && i != 6
    ensures CoerceField(Raw(cfg, e), INGEST_SPAN_REQUEST[i]).Ok?
  {
    var raw := Raw(cfg, e);
    if i < 4 || i == 7 {
      StringChecks(raw, INGEST_SPAN_REQUEST[i]);
    } else if i < 6 {
      IntChecks(raw, INGEST_SPAN_REQUEST[i]);
    } else if i == 8 {
      var v := OptionalString(cfg.appBox(e));
      assert v.JStr? ==> Coerce(v, TStr).Ok?;
      assert CoerceArms(v, [TStr]) == if Coerce(v, TStr).Invalid? then CoerceArms(v, []) else Coerce(v, TStr);
      assert OPTIONAL_STRING.arms == [TStr];
    }
  }

  lemma StringChecks(raw: map<string, Json>, field: Field)
    requires field.name in raw && raw[field.name].JStr? && field.ty.TStr?
    ensures CoerceField(raw, field).Ok?
  {
  }

  lemma IntChecks(raw: map<string, Json>, field: Field)
    requires field.name in raw && raw[field.name].JInt? && field.ty.TInt?
    ensures CoerceField(raw, field).Ok?
  {
  }

  /** The gate rejects an event with a trace context exactly when its payload is not an object. */
  lemma GateRejectsExactly(cfg: Config, e: Event)
    ensures OutcomeOf(cfg, e) == Ingested <==> e.traceId.Some? && e.spanId.Some? && e.payload.JObject?
    ensures OutcomeOf(cfg, e) == Skipped <==> e.traceId.None? || e.spanId.None?
  {
    if HasTraceContext(e) {
      var raw := Raw(cfg, e);
      PayloadChecks(raw, e);
      var outs := CoerceFields(raw, INGEST_SPAN_REQUEST);
      forall i | 0 <= i < |outs| && i != 6 ensures outs[i].Ok? {
        OtherFieldsCheck(cfg, e, i);
      }
      assert outs[6] == CoerceField(raw, INGEST_SPAN_REQUEST[6]);
    }
  }

  lemma PayloadChecks(raw: map<string, Json>, e: Event)
    requires "payload" in raw && raw["payload"] == e.payload
    ensures CoerceField(raw, INGEST_SPAN_REQUEST[6]).Ok? <==> e.payload.JObject?
  {
    if e.payload.JObject? {
      assert forall k :: k in e.payload.fields ==> CoerceEntries(e.payload.fields, TAny)[k].Ok?;
    }
  }

  function RequestOf(cfg: Config, e: Event): Request
    requires HasTraceContext(e) && e.payload.JObject?
  {
    Request(e.eventId, e.traceId.value, e.spanId.value, e.channel, e.recordedAt, e.monotonic, e.payload.fields,
            cfg.entryPoint(e), cfg.appBox(e))
  }

  /** The tables after one event has been handled. */
  function AfterHandling(cfg: Config, db: Tables, e: Event): Tables {
    if HasTraceContext(e) && e.payload.JObject? then Ingest(db, RequestOf(cfg, e)) else db
  }

  // ---------- the steps ----------

  datatype Step =
    | Put(queue: string, event: Event)
    | Poll(queue: string)
    | StartFlush
    | Handle
    | EndFlush
    | Stop
    | Scan

  ghost predicate Wired(cfg: Config, s: Sys) {
    s.queues.Keys == s.dropped.Keys && forall c :: c in cfg.channels ==> c in s.queues
  }

  predicate Enabled(cfg: Config, s: Sys, step: Step) {
    match step
    case Put(q, _) => q in s.queues && q in s.dropped
    case Poll(q) => s.phase.Collecting? && q in cfg.channels && q in s.queues && s.queues[q] != []
    case StartFlush => s.phase.Collecting? && s.batch != []
    case Handle => (s.phase.Flushing? || s.phase.LastFlush?) && s.batch != []
    case EndFlush => (s.phase.Flushing? || s.phase.LastFlush?) && s.batch == []
    case Stop => s.phase.Collecting?
    case Scan => s.phase.Draining? && (s.phase.seen < |cfg.channels| ==> cfg.channels[s.phase.seen] in s.queues)
  }

  function Take(s: Sys, q: string): Sys
    requires q in s.queues && s.queues[q] != []
  {
    s.(queues := s.queues[q := s.queues[q][1..]], batch := s.batch + [Tagged(q, s.queues[q][0])])
  }

  function Apply(cfg: Config, s: Sys, step: Step): Sys
    requires Enabled(cfg, s, step)
  {
    match step
    case Put(q, e) =>
      if Full(s.queues[q], cfg.maxsize) then s.(dropped := s.dropped[q := s.dropped[q] + 1])
      else s.(queues := s.queues[q := s.queues[q] + [e]])
    case Poll(q) => Take(s, q)
    case StartFlush => s.(phase := Flushing)
    case Handle =>
      var e := s.batch[0].event;
      s.(batch := s.batch[1..],
         handled := s.handled + [Handled(s.batch[0], OutcomeOf(cfg, e))],
         db := AfterHandling(cfg, s.db, e))
    case EndFlush => s.(phase := if s.phase.Flushing? then Collecting else Done)
    case Stop => s.(phase := Draining(0))
    case Scan =>
      if s.phase.seen == |cfg.channels| then s.(phase := LastFlush)
      else if s.phase.seen > |cfg.channels| then s
      else
        var q := cfg.channels[s.phase.seen];
        if s.queues[q] == [] then s.(phase := Draining(s.phase.seen + 1)) else Take(s, q).(phase := Draining(0))
  }

  predicate Run(cfg: Config, s: Sys, steps: seq<Step>)
    decreases |steps|
  {
    steps == [] || (Enabled(cfg, s, steps[0]) && Run(cfg, Apply(cfg, s, steps[0]), steps[1..]))
  }

  function Final(cfg: Config, s: Sys, steps: seq<Step>): Sys
    requires Run(cfg, s, steps)
    decreases |steps|
  {
    if steps == [] then s else Final(cfg, Apply(cfg, s, steps[0]), steps[1..])
  }

  // ---------- conservation ----------

  /** The events of one queue, in order. */
  function Through(items: seq<Tagged>, q: string): seq<Event> {
    if items == [] then []
    else
      var last := items[|items| - 1];
      Through(items[..|items| - 1], q) + (if last.queue == q then [last.event] else [])
  }

  function Items(handled: seq<Handled>): seq<Tagged> {
    seq(|handled|, i requires 0 <= i < |handled| => handled[i].item)
  }

  /** Everything known of one queue: handled, then in the batch, then still queued. */
  function Ledger(s: Sys, q: string): seq<Event>
    requires q in s.queues
  {
    Through(Items(s.handled), q) + Through(s.batch, q) + s.queues[q]
  }

  /** The step puts an event on the queue, which is unbounded or holds fewer than its bound; or it puts one
      on the queue and there are as many as that. */
  predicate FindsRoom(cfg: Config, s: Sys, step: Step, q: string) {
    step.Put? && step.queue == q && q in s.queues && (cfg.maxsize <= 0 || |s.queues[q]| < cfg.maxsize)
  }

  predicate FindsNoRoom(cfg: Config, s: Sys, step: Step, q: string) {
    step.Put? && step.queue == q && q in s.queues && 0 < cfg.maxsize <= |s.queues[q]|
  }

  /** The events the queue accepted in a run, and the number it turned away. */
  function Accepted(cfg: Config, s: Sys, steps: seq<Step>, q: string): seq<Event>
    requires Run(cfg, s, steps)
    decreases |steps|
  {
    if steps == [] then []
    else
      (if FindsRoom(cfg, s, steps[0], q) then [steps[0].event] else [])
      + Accepted(cfg, Apply(cfg, s, steps[0]), steps[1..], q)
  }

  function Rejected(cfg: Config, s: Sys, steps: seq<Step>, q: string): nat
    requires Run(cfg, s, steps)
    decreases |steps|
  {
    if steps == [] then 0
    else
      (if FindsNoRoom(cfg, s, steps[0], q) then 1 else 0)
      + Rejected(cfg, Apply(cfg, s, steps[0]), steps[1..], q)
  }

  lemma ThroughAppend(items: seq<Tagged>, x: Tagged, q: string)
    ensures Through(items + [x], q) == Through(items, q) + (if x.queue == q then [x.event] else [])
  {
    assert (items + [x])[..|items|] == items;
  }

  lemma {:induction false} ThroughSplit(items: seq<Tagged>, q: string)
    requires items != []
    ensures Through(items, q) == (if items[0].queue == q then [items[0].event] else []) + Through(items[1..], q)
  {
    var n := |items| - 1;
    if n > 0 {
      ThroughSplit(items[..n], q);
      assert items[1..][..n - 1] == items[..n][1..];
    } else {
      assert items[..n] == [] && items[1..] == [];
    }
  }

  lemma TakeKeepsLedger(s: Sys, from: string, q: string)
    requires from in s.queues && s.queues[from] != [] && q in s.queues
    ensures Ledger(Take(s, from), q) == Ledger(s, q)
  {
    ThroughAppend(s.batch, Tagged(from, s.queues[from][0]), q);
  }

  lemma HandleKeepsLedger(cfg: Config, s: Sys, q: string)
    requires Enabled(cfg, s, Handle) && q in s.queues
    ensures Ledger(Apply(cfg, s, Handle), q) == Ledger(s, q)
  {
    var s' := Apply(cfg, s, Handle);
    ThroughSplit(s.batch, q);
    ThroughAppend(Items(s.handled), s.batch[0], q);
    assert Items(s'.handled) == Items(s.handled) + [s.batch[0]];
  }

  lemma LedgerStep(cfg: Config, s: Sys, step: Step, q: string)
    requires Enabled(cfg, s, step) && q in s.queues && q in s.dropped
    ensures var s' := Apply(cfg, s, step);
            && q in s'.queues && q in s'.dropped
            && Ledger(s', q) == Ledger(s, q) + (if FindsRoom(cfg, s, step, q) then [step.event] else [])
            && s'.dropped[q] == s.dropped[q] + (if FindsNoRoom(cfg, s, step, q) then 1 else 0)
  {
    match step
    case Poll(from) => TakeKeepsLedger(s, from, q);
    case Handle => HandleKeepsLedger(cfg, s, q);
    case Scan =>
      if s.phase.seen < |cfg.channels| && s.queues[cfg.channels[s.phase.seen]] != [] {
        TakeKeepsLedger(s, cfg.channels[s.phase.seen], q);
      }
    case _ =>
  }

  /** Conservation, for every interleaving of producers and worker: what a queue held and accepted is,
      in first-in first-out order, what has been handled, then the batch, then the queue; and the
      dropped count grows by exactly the rejected puts. */
  lemma {:induction false} NothingLostOrReordered(cfg: Config, s: Sys, steps: seq<Step>, q: string)
    requires Run(cfg, s, steps) && q in s.queues && q in s.dropped
    ensures q in Final(cfg, s, steps).queues && q in Final(cfg, s, steps).dropped
    ensures Ledger(Final(cfg, s, steps), q) == Ledger(s, q) + Accepted(cfg, s, steps, q)
    ensures Final(cfg, s, steps).dropped[q] == s.dropped[q] + Rejected(cfg, s, steps, q)
    decreases |steps|
  {
    if steps != [] {
      LedgerStep(cfg, s, steps[0], q);
      NothingLostOrReordered(cfg, Apply(cfg, s, steps[0]), steps[1..], q);
    }
  }

  // ---------- stopping ----------

  ghost predicate NoPuts(steps: seq<Step>) {
    forall i :: 0 <= i < |steps| ==> !steps[i].Put?
  }

  /** What the shutdown pass has established so far, as long as nobody puts anything more. */
  ghost predicate PassClean(cfg: Config, s: Sys) {
    match s.phase
    case Draining(seen) => seen <= |cfg.channels| && forall i :: 0 <= i < seen ==> Empty(s, cfg.channels[i])
    case LastFlush => forall q :: q in cfg.channels ==> Empty(s, q)
    case Done => s.batch == [] && forall q :: q in cfg.channels ==> Empty(s, q)
    case _ => false
  }

  predicate Empty(s: Sys, q: string) {
    q in s.queues && s.queues[q] == []
  }

  lemma {:induction false} PassStaysClean(cfg: Config, s: Sys, steps: seq<Step>)
    requires Run(cfg, s, steps) && NoPuts(steps) && PassClean(cfg, s)
    ensures PassClean(cfg, Final(cfg, s, steps))
    decreases |steps|
  {
    if steps != [] {
      var s' := Apply(cfg, s, steps[0]);
      assert PassClean(cfg, s');
      assert forall i :: 0 <= i < |steps| - 1 ==> steps[1..][i] == steps[i + 1];
      PassStaysClean(cfg, s', steps[1..]);
    }
  }

  /** After `stop`, if nothing more is put, a worker that has finished has handled everything: batch and
      drained queues are empty, and each queue's events were all handled, in order. */
  lemma StoppedWorkerHandledEverything(cfg: Config, s: Sys, before: seq<Step>, after: seq<Step>, q: string)
    requires Wired(cfg, s) && s.phase.Collecting? && s.batch == [] && s.handled == [] && q in cfg.channels
    requires Run(cfg, s, before) && Final(cfg, s, before).phase == Draining(0)
    requires Run(cfg, Final(cfg, s, before), after) && NoPuts(after)
    requires Final(cfg, Final(cfg, s, before), after).phase.Done?
    ensures var end := Final(cfg, Final(cfg, s, before), after);
            && end.batch == [] && Empty(end, q)
            && Through(Items(end.handled), q) == s.queues[q] + Accepted(cfg, s, before, q)
  {
    var stopped := Final(cfg, s, before);
    NothingLostOrReordered(cfg, s, before, q);
    NothingLostOrReordered(cfg, stopped, after, q);
    PassStaysClean(cfg, stopped, after);
    NoPutsAcceptsNothing(cfg, stopped, after, q);
    assert Through(s.batch, q) == [] && Through(Items(s.handled), q) == [];
    var end := Final(cfg, stopped, after);
    assert Ledger(end, q) == Through(Items(end.handled), q);
  }

  lemma {:induction false} NoPutsAcceptsNothing(cfg: Config, s: Sys, steps: seq<Step>, q: string)
    requires Run(cfg, s, steps) && NoPuts(steps)
    ensures Accepted(cfg, s, steps, q) == []
    decreases |steps|
  {
    if steps != [] {
      assert forall i :: 0 <= i < |steps| - 1 ==> steps[1..][i] == steps[i + 1];
      NoPutsAcceptsNothing(cfg, Apply(cfg, s, steps[0]), steps[1..], q);
    }
  }

  // ---------- what handling leaves in the tables ----------

  /** The requests of the handled events that were ingested, in order. */
  function Requests(cfg: Config, handled: seq<Handled>): seq<Request> {
    if handled == [] then []
    else
      var e := handled[|handled| - 1].item.event;
      Requests(cfg, handled[..|handled| - 1])
      + (if HasTraceContext(e) && e.payload.JObject? then [RequestOf(cfg, e)] else [])
  }

  /** The tables are those of ingesting, in order, every handled event that could be ingested. */
  ghost predicate TablesFollow(cfg: Config, start: Tables, s: Sys) {
    && s.db == IngestAll(start, Requests(cfg, s.handled))
    && forall h :: h in s.handled ==> h.outcome == OutcomeOf(cfg, h.item.event)
  }

  lemma TablesFollowStep(cfg: Config, start: Tables, s: Sys)
    requires Enabled(cfg, s, Handle) && TablesFollow(cfg, start, s)
    ensures TablesFollow(cfg, start, Apply(cfg, s, Handle))
  {
    var s' := Apply(cfg, s, Handle);
    var e := s.batch[0].event;
    assert s'.handled[..|s'.handled| - 1] == s.handled;
    var rs := Requests(cfg, s.handled);
    if HasTraceContext(e) && e.payload.JObject? {
      assert (rs + [RequestOf(cfg, e)])[..|rs|] == rs;
    } else {
      assert rs + [] == rs;
    }
  }

  lemma {:induction false} TablesFollowHandling(cfg: Config, start: Tables, s: Sys, steps: seq<Step>)
    requires Run(cfg, s, steps) && TablesFollow(cfg, start, s)
    ensures TablesFollow(cfg, start, Final(cfg, s, steps))
    decreases |steps|
  {
    if steps != [] {
      if steps[0].Handle? {
        TablesFollowStep(cfg, start, s);
      }
      TablesFollowHandling(cfg, start, Apply(cfg, s, steps[0]), steps[1..]);
    }
  }

  /** The first event of an id to be handled as ingested. */
  function FirstIngested(handled: seq<Handled>, id: EventId): Option<Event> {
    if handled == [] then None
    else
      var earlier, last := FirstIngested(handled[..|handled| - 1], id), handled[|handled| - 1];
      if earlier.Some? then earlier
      else if last.outcome == Ingested && last.item.event.eventId == id then Some(last.item.event)
      else None
  }

  /** The i-th event handled is the first of its id to be ingested. */
  ghost predicate FirstHandled(handled: seq<Handled>, i: int) {
    && 0 <= i < |handled| && handled[i].outcome == Ingested
    && forall j :: 0 <= j < i && handled[j].outcome == Ingested ==>
         handled[j].item.event.eventId != handled[i].item.event.eventId
  }

  ghost predicate IngestedAs(handled: seq<Handled>, id: EventId, i: int) {
    FirstHandled(handled, i) && handled[i].item.event.eventId == id
  }

  lemma {:induction false} FirstIngestedFinds(handled: seq<Handled>, id: EventId)
    ensures FirstIngested(handled, id).None? <==> forall i :: !IngestedAs(handled, id, i)
    ensures FirstIngested(handled, id).None? <==>
              forall i :: 0 <= i < |handled| && handled[i].outcome == Ingested ==> handled[i].item.event.eventId != id
    ensures forall i :: IngestedAs(handled, id, i) ==> FirstIngested(handled, id) == Some(handled[i].item.event)
  {
    if handled != [] {
      var n := |handled| - 1;
      FirstIngestedFinds(handled[..n], id);
      forall i | i < n ensures IngestedAs(handled[..n], id, i) <==> IngestedAs(handled, id, i) {
        FirstInFront(handled, i);
      }
      assert handled == handled[..n] + [handled[n]];
      if FirstIngested(handled[..n], id).None? && FirstIngested(handled, id).Some? {
        assert IngestedAs(handled, id, n);
      }
    }
  }

  lemma FirstInFront(handled: seq<Handled>, i: int)
    requires handled != [] && i < |handled| - 1
    ensures FirstHandled(handled[..|handled| - 1], i) <==> FirstHandled(handled, i)
  {
    assert forall j :: 0 <= j < |handled| - 1 ==> handled[..|handled| - 1][j] == handled[j];
  }

  lemma {:induction false} FirstIngestedIsFirstRequest(cfg: Config, handled: seq<Handled>, id: EventId)
    requires forall h :: h in handled ==> h.outcome == OutcomeOf(cfg, h.item.event)
    ensures var first := FirstIngested(handled, id);
            && (first.Some? ==> HasTraceContext(first.value) && first.value.payload.JObject?)
            && FirstOf(Requests(cfg, handled), id) == if first.None? then None else Some(RequestOf(cfg, first.value))
  {
    if handled != [] {
      var front, last := handled[..|handled| - 1], handled[|handled| - 1];
      FirstIngestedIsFirstRequest(cfg, front, id);
      GateRejectsExactly(cfg, last.item.event);
      var rs := Requests(cfg, front);
      if last.outcome == Ingested {
        assert (rs + [RequestOf(cfg, last.item.event)])[..|rs|] == rs;
      } else {
        assert rs + [] == rs;
      }
    }
  }

  /** The row holds, column by column, what the event carried, and is unprocessed. */
  predicate StoredAs(span: Span, e: Event)
    requires e.traceId.Some? && e.spanId.Some? && e.payload.JObject?
  {
    && span.spanId == e.spanId.value && span.traceId == e.traceId.value && span.channel == e.channel
    && span.recordedAt == e.recordedAt && span.monotonic == e.monotonic && span.payload == e.payload.fields
    && !span.processed
  }

  /** End to end: in every run, the span table is what it was and, under each other id handled as ingested,
      the span of the first event of that id so handled; and every span's trace exists. */
  lemma HandledEventsAreStored(cfg: Config, s: Sys, steps: seq<Step>, id: EventId)
    requires s.handled == [] && TracesExist(s.db) && Run(cfg, s, steps)
    ensures var end := Final(cfg, s, steps);
            && TracesExist(end.db)
            && (id in end.db.spans <==> id in s.db.spans || exists i :: IngestedAs(end.handled, id, i))
            && (id in s.db.spans ==> end.db.spans[id] == s.db.spans[id])
            && forall i :: id !in s.db.spans && IngestedAs(end.handled, id, i) ==>
                 var e := end.handled[i].item.event;
                 e.traceId.Some? && e.spanId.Some? && e.payload.JObject? && StoredAs(end.db.spans[id], e)
  {
    TablesFollowHandling(cfg, s.db, s, steps);
    var end := Final(cfg, s, steps);
    var rs := Requests(cfg, end.handled);
    FirstIngestedIsFirstRequest(cfg, end.handled, id);
    FirstIngestedFinds(end.handled, id);
    SpansByFirstOf(s.db, rs, id);
    ReferencesKept(s.db, rs);
  }

  /** The i-th event handled is new, and of the trace. */
  ghost predicate NewInTrace(start: Tables, handled: seq<Handled>, x: TraceId, i: int) {
    && FirstHandled(handled, i) && handled[i].item.event.eventId !in start.spans
    && handled[i].item.event.traceId == Some(x)
  }

  ghost predicate Opens(start: Tables, handled: seq<Handled>, x: TraceId, i: int) {
    NewInTrace(start, handled, x, i) && forall j :: 0 <= j < i ==> !NewInTrace(start, handled, x, j)
  }

  lemma {:induction false} OpenerIsHandled(cfg: Config, start: Tables, handled: seq<Handled>, x: TraceId)
    requires forall h :: h in handled ==> h.outcome == OutcomeOf(cfg, h.item.event)
    ensures var opener := OpenerOf(start, Requests(cfg, handled), x);
            if opener.None? then forall i :: !NewInTrace(start, handled, x, i)
            else exists i :: Opens(start, handled, x, i) && OpenedFor(cfg, handled[i].item.event, opener.value)
  {
    if handled != [] {
      var n := |handled| - 1;
      var front, rs := handled[..n], Requests(cfg, handled[..n]);
      OpenerIsHandled(cfg, start, front, x);
      NewInFront(start, handled, x);
      OpenerStep(cfg, start, handled, x);
      if OpenerOf(start, rs, x).Some? {
        var i :| Opens(start, front, x, i) && OpenedFor(cfg, front[i].item.event, OpenerOf(start, rs, x).value);
        assert Opens(start, handled, x, i);
      } else if NewInTrace(start, handled, x, n) {
        assert Opens(start, handled, x, n);
      }
    }
  }

  lemma NewInFront(start: Tables, handled: seq<Handled>, x: TraceId)
    requires handled != []
    ensures forall i :: i < |handled| - 1 ==>
              (NewInTrace(start, handled[..|handled| - 1], x, i) <==> NewInTrace(start, handled, x, i))
  {
    forall i | i < |handled| - 1
      ensures NewInTrace(start, handled[..|handled| - 1], x, i) <==> NewInTrace(start, handled, x, i)
    {
      FirstInFront(handled, i);
    }
  }

  lemma OpenerStep(cfg: Config, start: Tables, handled: seq<Handled>, x: TraceId)
    requires handled != [] && forall h :: h in handled ==> h.outcome == OutcomeOf(cfg, h.item.event)
    ensures var n := |handled| - 1;
            var before := OpenerOf(start, Requests(cfg, handled[..n]), x);
            var after := OpenerOf(start, Requests(cfg, handled), x);
            if before.Some? then after == before
            else
              && (after.Some? <==> NewInTrace(start, handled, x, n))
              && (after.Some? ==> OpenedFor(cfg, handled[n].item.event, after.value))
  {
    var n := |handled| - 1;
    var e, rs := handled[n].item.event, Requests(cfg, handled[..n]);
    GateRejectsExactly(cfg, e);
    NewAtEnd(cfg, start, handled, x);
    if handled[n].outcome == Ingested {
      assert (rs + [RequestOf(cfg, e)])[..|rs|] == rs;
    } else {
      assert rs + [] == rs;
    }
  }

  predicate OpenedFor(cfg: Config, e: Event, r: Request) {
    r.entryPoint == cfg.entryPoint(e) && r.appBox == cfg.appBox(e)
  }

  lemma NewAtEnd(cfg: Config, start: Tables, handled: seq<Handled>, x: TraceId)
    requires handled != [] && forall h :: h in handled ==> h.outcome == OutcomeOf(cfg, h.item.event)
    ensures var n := |handled| - 1;
            var e := handled[n].item.event;
            NewInTrace(start, handled, x, n) <==>
              && handled[n].outcome == Ingested && e.eventId !in start.spans && e.traceId == Some(x)
              && FirstOf(Requests(cfg, handled[..n]), e.eventId).None?
  {
    var n := |handled| - 1;
    FirstIngestedIsFirstRequest(cfg, handled[..n], handled[n].item.event.eventId);
    FirstIngestedFinds(handled[..n], handled[n].item.event.eventId);
    assert forall j :: 0 <= j < n ==> handled[..n][j] == handled[j];
  }

  /** And the trace table: a trace there before stays as it was, and a new one keeps the entry point and
      the box that the resolvers gave for the first new event of it. */
  lemma HandledEventsOpenTraces(cfg: Config, s: Sys, steps: seq<Step>, x: TraceId)
    requires s.handled == [] && Run(cfg, s, steps)
    ensures var end := Final(cfg, s, steps);
            && (x in end.db.traces <==> x in s.db.traces || exists i :: Opens(s.db, end.handled, x, i))
            && (x in s.db.traces ==> end.db.traces[x] == s.db.traces[x])
            && forall i :: x !in s.db.traces && Opens(s.db, end.handled, x, i) ==>
                 && end.db.traces[x].entryPoint == cfg.entryPoint(end.handled[i].item.event)
                 && end.db.traces[x].appBox == cfg.appBox(end.handled[i].item.event)
  {
    TablesFollowHandling(cfg, s.db, s, steps);
    var end := Final(cfg, s, steps);
    OpenerIsHandled(cfg, s.db, end.handled, x);
    TracesByOpener(s.db, Requests(cfg, end.handled), x);
    forall i, j | Opens(s.db, end.handled, x, i) && Opens(s.db, end.handled, x, j) ensures i == j {}
  }

  // ---------- what the gate makes of an event ----------

  /** Under the names of the request's fields, exactly what the event and the resolvers brought. */
  ghost predicate AttributesOf(cfg: Config, e: Event, attrs: map<string, Val>)
    requires e.traceId.Some? && e.spanId.Some? && e.payload.JObject?
  {
    && {"event_id", "trace_id", "span_id", "channel", "recorded_at_ns", "monotonic_ns", "payload", "entry_point",
        "app_box", "source_activity_info"} <= attrs.Keys
    && attrs["event_id"] == VJson(JStr(e.eventId))
    && attrs["trace_id"] == VJson(JStr(e.traceId.value)) && attrs["span_id"] == VJson(JStr(e.spanId.value))
    && attrs["channel"] == VJson(JStr(e.channel))
    && attrs["recorded_at_ns"] == VJson(JInt(e.recordedAt)) && attrs["monotonic_ns"] == VJson(JInt(e.monotonic))
    && attrs["payload"] == VDict(map k | k in e.payload.fields :: VJson(e.payload.fields[k]))
    && attrs["entry_point"] == VJson(JStr(cfg.entryPoint(e)))
    && attrs["app_box"] == VJson(match cfg.appBox(e) case None => JNull case Some(box) => JStr(box))
    && attrs["source_activity_info"] == VJson(JNull)
  }

  lemma PayloadIsCopied(fields: map<string, Json>)
    ensures Coerce(JObject(fields), TDict(TAny)) == Ok(VDict(map k | k in fields :: VJson(fields[k])))
  {
    var outs := CoerceEntries(fields, TAny);
    assert forall k :: k in fields ==> outs[k] == Ok(VJson(fields[k]));
    assert (map k | k in outs :: outs[k].value) == map k | k in fields :: VJson(fields[k]);
  }

  lemma BoxIsCopied(v: Json)
    requires v.JNull? || v.JStr?
    ensures Coerce(v, OPTIONAL_STRING) == Ok(VJson(v))
  {
    if v.JStr? {
      assert OPTIONAL_STRING.arms == [TStr];
      assert CoerceArms(v, [TStr]) == Coerce(v, TStr);
    }
  }

  lemma RequestNamesDistinct()
    ensures NamesDistinct(INGEST_SPAN_REQUEST)
  {
    var f := INGEST_SPAN_REQUEST;
    assert |f[0].name| == |f[1].name| == 8 && f[0].name[0] == 'e' && f[1].name[0] == 't';
    assert |f[2].name| == |f[3].name| == |f[6].name| == |f[8].name| == 7;
    assert f[2].name[0] == 's' && f[3].name[0] == 'c' && f[6].name[0] == 'p' && f[8].name[0] == 'a';
    assert |f[4].name| == 14 && |f[5].name| == 12 && |f[7].name| == 11 && |f[9].name| == 20;
  }

  lemma NamesParse(cfg: Config, e: Event)
    requires HasTraceContext(e)
    ensures var raw, f := Raw(cfg, e), INGEST_SPAN_REQUEST;
            && CoerceField(raw, f[0]) == Ok(VJson(JStr(e.eventId)))
            && CoerceField(raw, f[1]) == Ok(VJson(JStr(e.traceId.value)))
            && CoerceField(raw, f[2]) == Ok(VJson(JStr(e.spanId.value)))
            && CoerceField(raw, f[3]) == Ok(VJson(JStr(e.channel)))
  {
  }

  lemma NumbersAndEntryPointParse(cfg: Config, e: Event)
    requires HasTraceContext(e)
    ensures var raw, f := Raw(cfg, e), INGEST_SPAN_REQUEST;
            && CoerceField(raw, f[4]) == Ok(VJson(JInt(e.recordedAt)))
            && CoerceField(raw, f[5]) == Ok(VJson(JInt(e.monotonic)))
            && CoerceField(raw, f[7]) == Ok(VJson(JStr(cfg.entryPoint(e))))
  {
  }

  lemma OtherFieldsParse(cfg: Config, e: Event)
    requires HasTraceContext(e) && e.payload.JObject?
    ensures var raw, f := Raw(cfg, e), INGEST_SPAN_REQUEST;
            && CoerceField(raw, f[6]) == Ok(VDict(map k | k in e.payload.fields :: VJson(e.payload.fields[k])))
            && CoerceField(raw, f[8]) == Ok(VJson(match cfg.appBox(e) case None => JNull case Some(box) => JStr(box)))
            && CoerceField(raw, f[9]) == Ok(VJson(JNull))
  {
    PayloadIsCopied(e.payload.fields);
    BoxIsCopied(OptionalString(cfg.appBox(e)));
  }

  /** The instance that the gate builds of an event. */
  lemma GateBuildsRequest(cfg: Config, e: Event)
    requires e.traceId.Some? && e.spanId.Some? && e.payload.JObject?
    ensures var parsed := Coerce(JObject(Raw(cfg, e)), TClass(INGEST_SPAN_REQUEST));
            parsed.Ok? && parsed.value.VInst? && AttributesOf(cfg, e, parsed.value.attrs)
  {
    GateRejectsExactly(cfg, e);
    RequestNamesDistinct();
    InstanceByField(JObject(Raw(cfg, e)), INGEST_SPAN_REQUEST);
    NamesParse(cfg, e);
    NumbersAndEntryPointParse(cfg, e);
    OtherFieldsParse(cfg, e);
  }

  /** What the gate makes of a source's activity, when a caller gives one: four texts that must be there, and
      two fields that are filled in. */
  lemma SourceActivityParses(info: map<string, Json>)
    requires info.Keys == {"source_name", "source_url", "created_at", "created_by"}
    requires forall k :: k in info ==> info[k].JStr?
    ensures var parsed := Coerce(JObject(info), SOURCE_ACTIVITY_INFO);
            && parsed.Ok? && parsed.value.VInst?
            && (forall k :: k in info ==> k in parsed.value.attrs && parsed.value.attrs[k] == VJson(info[k]))
            && "security_info" in parsed.value.attrs && parsed.value.attrs["security_info"] == VList([])
            && "security_checked" in parsed.value.attrs
            && parsed.value.attrs["security_checked"] == VJson(JBool(false))
  {
    SourceNamesDistinct();
    SourceFieldsParse(info);
    var f := SOURCE_ACTIVITY_INFO.fields;
    InstanceByField(JObject(info), f);
    forall k | k in info ensures exists i :: 0 <= i < 4 && f[i].name == k {
      assert f[0].name == "source_name" && f[1].name == "source_url";
      assert f[2].name == "created_at" && f[3].name == "created_by";
    }
  }

  lemma SourceFieldsParse(info: map<string, Json>)
    requires info.Keys == {"source_name", "source_url", "created_at", "created_by"}
    requires forall k :: k in info ==> info[k].JStr?
    ensures var f := SOURCE_ACTIVITY_INFO.fields;
            && Coerce(JObject(info), SOURCE_ACTIVITY_INFO).Ok?
            && (forall i :: 0 <= i < 4 ==> f[i].name in info && CoerceField(info, f[i]) == Ok(VJson(info[f[i].name])))
            && CoerceField(info, f[4]) == Ok(VList([])) && CoerceField(info, f[5]) == Ok(VJson(JBool(false)))
  {
    var f := SOURCE_ACTIVITY_INFO.fields;
    assert |f[4].name| == 13 && |f[5].name| == 16;
    assert forall k :: k in info ==> |k| <= 11;
    var outs := CoerceFields(info, f);
    assert forall i :: 0 <= i < 6 ==> outs[i] == CoerceField(info, f[i]);
  }

  lemma SourceNamesDistinct()
    ensures NamesDistinct(SOURCE_ACTIVITY_INFO.fields)
  {
    var f := SOURCE_ACTIVITY_INFO.fields;
    assert |f[0].name| == 11 && |f[1].name| == |f[2].name| == |f[3].name| == 10;
    assert |f[4].name| == 13 && |f[5].name| == 16;
    assert f[1].name[0] == 's' && f[2].name[0] == f[3].name[0] == 'c' && f[2].name[8] == 'a' && f[3].name[8] == 'b';
  }
}
