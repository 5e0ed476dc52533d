/** `generate_bricks` over the tables, and what any number of its calls has done. */
module Scanner {
  import opened Options
  import opened OrderedSelect
  import opened Json
  import opened Telemetry
  import opened Generate
  import opened BrickContents
  import opened Collections

  // ---------- the backlog ----------

  function Unprocessed(t: Tables, channel: string): set<EventId> {
    set e | e in t.spans && t.spans[e].channel == channel && !t.spans[e].processed
  }

  function Backlog(t: Tables, channel: string, x: TraceId): set<EventId> {
    set e | e in Unprocessed(t, channel) && t.spans[e].traceId == x
  }

  /** The traces with something unprocessed on the channel. */
  function Waiting(t: Tables, channel: string): set<TraceId> {
    set e | e in Unprocessed(t, channel) :: t.spans[e].traceId
  }

  function SpanTime(t: Tables): EventId -> int {
    e => if e in t.spans then t.spans[e].recordedAt else 0
  }

  /** `func.min(Span.recorded_at_ns)` over a trace's backlog. */
  ghost predicate IsFirst(t: Tables, channel: string, x: TraceId, ns: int) {
    && (exists e :: e in Backlog(t, channel, x) && t.spans[e].recordedAt == ns)
    && (forall e :: e in Backlog(t, channel, x) ==> ns <= t.spans[e].recordedAt)
  }

  /** A sort key for waiting traces: the time of their oldest unprocessed span. */
  ghost predicate TraceKey(t: Tables, channel: string, key: TraceId -> int) {
    forall x :: x in Waiting(t, channel) ==> IsFirst(t, channel, x, key(x))
  }

  /** A legal answer of `list_with_unprocessed_spans`. */
  ghost predicate OldestTraces(t: Tables, channel: string, limit: int, picked: seq<TraceId>) {
    exists key :: TraceKey(t, channel, key) && OldestFirst(Waiting(t, channel), key, limit, picked)
  }

  /** The span is one of the trace's, was captured on the channel and has not been processed. */
  predicate Awaits(t: Tables, channel: string, x: TraceId, e: EventId) {
    e in t.spans && t.spans[e].traceId == x && t.spans[e].channel == channel && !t.spans[e].processed
  }

  /** The first trace has such a span that is no younger than any of the second's. */
  ghost predicate OlderTrace(t: Tables, channel: string, x: TraceId, y: TraceId) {
    exists e :: Awaits(t, channel, x, e) &&
      forall e' :: Awaits(t, channel, y, e') ==> t.spans[e].recordedAt <= t.spans[e'].recordedAt
  }

  lemma WaitingExactlyAwaits(t: Tables, channel: string, x: TraceId)
    ensures x in Waiting(t, channel) <==> exists e :: Awaits(t, channel, x, e)
    ensures forall e :: e in Backlog(t, channel, x) <==> Awaits(t, channel, x, e)
  {
    if e :| Awaits(t, channel, x, e) {
      assert e in Unprocessed(t, channel) && t.spans[e].traceId == x;
    }
    if x in Waiting(t, channel) {
      var e :| e in Unprocessed(t, channel) && t.spans[e].traceId == x;
      assert Awaits(t, channel, x, e);
    }
  }

  lemma KeyOrdersTraces(t: Tables, channel: string, key: TraceId -> int, x: TraceId, y: TraceId)
    requires TraceKey(t, channel, key) && x in Waiting(t, channel) && y in Waiting(t, channel) && key(x) <= key(y)
    ensures OlderTrace(t, channel, x, y)
  {
    WaitingExactlyAwaits(t, channel, x);
    WaitingExactlyAwaits(t, channel, y);
    assert IsFirst(t, channel, x, key(x)) && IsFirst(t, channel, y, key(y));
    var e :| e in Backlog(t, channel, x) && t.spans[e].recordedAt == key(x);
    assert Awaits(t, channel, x, e);
  }

  /** What the query answers: traces with something to process, once each, those with the oldest such span
      first, as many as the limit lets through. */
  ghost predicate ListsOldest(t: Tables, channel: string, limit: int, picked: seq<TraceId>) {
    && Distinct(picked) && (0 <= limit ==> |picked| <= limit)
    && (forall x :: x in picked ==> exists e :: Awaits(t, channel, x, e))
    && (forall i, j :: 0 <= i < j < |picked| ==> OlderTrace(t, channel, picked[i], picked[j]))
    && forall y :: y !in picked && (exists e :: Awaits(t, channel, y, e)) ==>
         |picked| == limit && forall x :: x in picked ==> OlderTrace(t, channel, x, y)
  }

  lemma OldestTracesAreListed(t: Tables, channel: string, limit: int, picked: seq<TraceId>)
    requires OldestTraces(t, channel, limit, picked)
    ensures ListsOldest(t, channel, limit, picked)
  {
    var all := Waiting(t, channel);
    var key :| TraceKey(t, channel, key) && OldestFirst(all, key, limit, picked);
    forall x ensures x in all <==> exists e :: Awaits(t, channel, x, e) {
      WaitingExactlyAwaits(t, channel, x);
    }
    forall i, j | 0 <= i < j < |picked| ensures OlderTrace(t, channel, picked[i], picked[j]) {
      KeyOrdersTraces(t, channel, key, picked[i], picked[j]);
    }
    forall y | y !in picked && y in all
      ensures |picked| == limit && forall x :: x in picked ==> OlderTrace(t, channel, x, y)
    {
      if |picked| == |all| {
        DistinctCardinality(picked);
        SubsetOfSameSize(Elements(picked), all);
        assert false;
      }
      forall x | x in picked ensures OlderTrace(t, channel, x, y) {
        KeyOrdersTraces(t, channel, key, x, y);
      }
    }
  }

  method ListWithUnprocessedSpans(db: TelemetryDb, channel: string, limit: int) returns (picked: seq<TraceId>)
    ensures ListsOldest(db.Contents(), channel, limit, picked)
    ensures OldestTraces(db.Contents(), channel, limit, picked)
  {
    var t := db.Contents();
    var first: map<TraceId, int> := map[];
    var rest := Waiting(t, channel);
    while rest != {}
      invariant rest <= Waiting(t, channel) && first.Keys == Waiting(t, channel) - rest
      invariant forall x :: x in first ==> IsFirst(t, channel, x, first[x])
      decreases rest
    {
      var x :| x in rest;
      WaitingHasBacklog(t, channel, x);
      var e := Oldest(Backlog(t, channel, x), SpanTime(t));
      first := first[x := t.spans[e].recordedAt];
      rest := rest - {x};
    }
    var key := x => if x in first then first[x] else 0;
    picked := SelectOldest(Waiting(t, channel), key, limit);
    assert TraceKey(t, channel, key);
    OldestTracesAreListed(t, channel, limit, picked);
  }

  lemma WaitingHasBacklog(t: Tables, channel: string, x: TraceId)
    requires x in Waiting(t, channel)
    ensures Backlog(t, channel, x) != {}
  {
    var e :| e in Unprocessed(t, channel) && t.spans[e].traceId == x;
    assert e in Backlog(t, channel, x);
  }

  predicate NoYounger(t: Tables, e: EventId, e': EventId) {
    e in t.spans && e' in t.spans && t.spans[e].recordedAt <= t.spans[e'].recordedAt
  }

  /** Of one trace: such spans, once each, oldest first, as many as the limit lets through. */
  ghost predicate ListsOldestSpans(t: Tables, channel: string, x: TraceId, limit: int, picked: seq<EventId>) {
    && Distinct(picked) && (0 <= limit ==> |picked| <= limit)
    && (forall e :: e in picked ==> Awaits(t, channel, x, e))
    && (forall i, j :: 0 <= i < j < |picked| ==> NoYounger(t, picked[i], picked[j]))
    && forall e :: Awaits(t, channel, x, e) && e !in picked ==>
         |picked| == limit && forall p :: p in picked ==> NoYounger(t, p, e)
  }

  lemma OldestSpansAreListed(t: Tables, channel: string, x: TraceId, limit: int, picked: seq<EventId>)
    requires OldestFirst(Backlog(t, channel, x), SpanTime(t), limit, picked)
    ensures ListsOldestSpans(t, channel, x, limit, picked)
  {
    var all, key := Backlog(t, channel, x), SpanTime(t);
    WaitingExactlyAwaits(t, channel, x);
    assert forall e :: e in all ==> key(e) == t.spans[e].recordedAt;
    assert forall i, j :: 0 <= i < j < |picked| ==> key(picked[i]) <= key(picked[j]);
    forall e | e in all && e !in picked
      ensures |picked| == limit && forall p :: p in picked ==> NoYounger(t, p, e)
    {
      if |picked| == |all| {
        DistinctCardinality(picked);
        SubsetOfSameSize(Elements(picked), all);
        assert false;
      }
      assert forall p :: p in picked ==> key(p) <= key(e);
    }
  }

  method ListUnprocessedForTrace(db: TelemetryDb, x: TraceId, channel: string,
                                 limit: int) returns (picked: seq<EventId>)
    ensures ListsOldestSpans(db.Contents(), channel, x, limit, picked)
    ensures OldestFirst(Backlog(db.Contents(), channel, x), SpanTime(db.Contents()), limit, picked)
  {
    var t := db.Contents();
    picked := SelectOldest(Backlog(t, channel, x), SpanTime(t), limit);
    OldestSpansAreListed(t, channel, x, limit, picked);
  }

  // ---------- one call of generate_bricks ----------

  ghost function Flat(perTrace: seq<seq<EventId>>): seq<EventId> {
    if perTrace == [] then [] else Flat(perTrace[..|perTrace| - 1]) + perTrace[|perTrace| - 1]
  }

  /** Each trace's spans are its oldest unprocessed ones, up to the limit. */
  ghost predicate Selected(t: Tables, channel: string, limit: int, traces: seq<TraceId>, perTrace: seq<seq<EventId>>) {
    && |perTrace| == |traces|
    && forall i :: 0 <= i < |traces| ==> OldestFirst(Backlog(t, channel, traces[i]), SpanTime(t), limit, perTrace[i])
  }

  lemma {:induction false} FlatComesFrom(perTrace: seq<seq<EventId>>, e: EventId) returns (i: nat)
    requires e in Flat(perTrace)
    ensures i < |perTrace| && e in perTrace[i]
  {
    var n := |perTrace| - 1;
    if e in perTrace[n] {
      i := n;
    } else {
      i := FlatComesFrom(perTrace[..n], e);
    }
  }

  lemma {:induction false} FlatHolds(perTrace: seq<seq<EventId>>, i: nat, e: EventId)
    requires i < |perTrace| && e in perTrace[i]
    ensures e in Flat(perTrace)
  {
    var n := |perTrace| - 1;
    if i < n {
      FlatHolds(perTrace[..n], i, e);
    }
  }

  lemma FlatIsBacklog(t: Tables, channel: string, limit: int, traces: seq<TraceId>, perTrace: seq<seq<EventId>>)
    requires Selected(t, channel, limit, traces, perTrace)
    ensures forall e :: e in Flat(perTrace) ==> e in Unprocessed(t, channel) && t.spans[e].traceId in traces
    ensures forall i, e :: 0 <= i < |traces| && e in perTrace[i] ==> e in Flat(perTrace)
  {
    forall i, e | 0 <= i < |traces| && e in perTrace[i] ensures e in Flat(perTrace) {
      FlatHolds(perTrace, i, e);
    }
    forall e | e in Flat(perTrace) ensures e in Unprocessed(t, channel) && t.spans[e].traceId in traces {
      var i := FlatComesFrom(perTrace, e);
      assert e in Backlog(t, channel, traces[i]);
    }
  }

  /** What one call has done: it visited some of the channel's unprocessed spans and, unless a visit
      raised, marked exactly those. */
  ghost predicate Performed(codec: Codec, channel: string, t0: Tables, b0: seq<Brick>,
                            t1: Tables, b1: seq<Brick>, raised: bool, visited: seq<EventId>)
  {
    Visited(codec, t0, channel, b0, visited, Progress(b1, raised)) && t1 == (if raised then t0 else Marked(t0, visited))
  }

  /** One call: its visits go, trace by trace, through the oldest spans of the oldest traces. */
  ghost predicate Round(codec: Codec, channel: string, limit: int, t0: Tables, b0: seq<Brick>,
                        t1: Tables, b1: seq<Brick>, raised: bool, visited: seq<EventId>)
  {
    && Performed(codec, channel, t0, b0, t1, b1, raised, visited)
    && exists traces, perTrace :: InOrder(t0, channel, limit, raised, visited, traces, perTrace)
  }

  /** The visits follow the plan: all of it, or, up to the one that raised, the beginning of it. */
  ghost predicate InOrder(t: Tables, channel: string, limit: int, raised: bool, visited: seq<EventId>,
                          traces: seq<TraceId>, perTrace: seq<seq<EventId>>)
  {
    if raised then
      && |perTrace| <= |traces| && Planned(t, channel, limit, traces, traces[..|perTrace|], perTrace)
      && visited <= Flat(perTrace)
    else
      Planned(t, channel, limit, traces, traces, perTrace) && visited == Flat(perTrace)
  }

  ghost predicate Planned(t: Tables, channel: string, limit: int, traces: seq<TraceId>, listed: seq<TraceId>,
                          perTrace: seq<seq<EventId>>) {
    OldestTraces(t, channel, limit, traces) && Selected(t, channel, limit, listed, perTrace)
  }

  /** Some of the channel's unprocessed spans have been visited, with this outcome. */
  ghost predicate Visited(codec: Codec, t: Tables, channel: string, start: seq<Brick>, visited: seq<EventId>,
                          now: Progress) {
    && Known(t, visited)
    && (forall e :: e in visited ==> e in Unprocessed(t, channel))
    && Visit(codec, t, start, visited) == now
  }

  lemma VisitedStep(codec: Codec, t: Tables, channel: string, start: seq<Brick>, visited: seq<EventId>, now: Progress,
                    e: EventId)
    requires Visited(codec, t, channel, start, visited, now) && e in Unprocessed(t, channel)
    ensures Visited(codec, t, channel, start, visited + [e], VisitOne(codec, t, now, e))
  {
    assert (visited + [e])[..|visited|] == visited;
  }

  method VisitSpan(db: TelemetryDb, store: BrickStore, codec: Codec, e: EventId) returns (added: seq<Brick>,
                   raised: bool)
    requires TracesExist(db.Contents()) && e in db.spans
    modifies store
    ensures Progress(store.bricks, raised) == VisitOne(codec, db.Contents(), Progress(old(store.bricks), false), e)
    ensures store.bricks == old(store.bricks) + added
  {
    var span := db.spans[e];
    var built := Build(codec, db.traces[span.traceId], span);
    if built.Raises? {
      return [], true;
    }
    if built.Makes? {
      var existing := store.GetByContentHash(built.brick.contentHash);
      if existing.None? {
        var ok := store.Create(built.brick);
        return if ok then [built.brick] else [], !ok;
      }
    }
    return [], false;
  }

  /** The inner loop, over one trace's spans. `visited` records the visits made, the raising one included. */
  method VisitTrace(db: TelemetryDb, store: BrickStore, codec: Codec, channel: string, spans: seq<EventId>,
                    ghost start: seq<Brick>, ghost before: seq<EventId>)
    returns (added: seq<Brick>, raised: bool, ghost visited: seq<EventId>)
    requires Visited(codec, db.Contents(), channel, start, before, Progress(store.bricks, false))
    requires forall e :: e in spans ==> e in Unprocessed(db.Contents(), channel)
    modifies store
    ensures if raised then visited <= before + spans else visited == before + spans
    ensures Visited(codec, db.Contents(), channel, start, visited, Progress(store.bricks, raised))
    ensures store.bricks == old(store.bricks) + added
  {
    ghost var t := db.Contents();
    visited, added := before, [];
    for i := 0 to |spans|
      invariant visited == before + spans[..i]
      invariant Visited(codec, t, channel, start, visited, Progress(store.bricks, false))
      invariant store.bricks == old(store.bricks) + added
    {
      VisitedStep(codec, t, channel, start, visited, Progress(store.bricks, false), spans[i]);
      visited := visited + [spans[i]];
      PrefixStep(before, spans, i);
      var more;
      more, raised := VisitSpan(db, store, codec, spans[i]);
      Associative(old(store.bricks), added, more);
      added := added + more;
      if raised {
        return;
      }
    }
    assert spans[..|spans|] == spans;
    raised := false;
  }

  /** The nested loop: trace by trace, span by span. */
  method VisitTraces(db: TelemetryDb, store: BrickStore, codec: Codec, channel: string, limit: int,
                     traces: seq<TraceId>)
    returns (processed: seq<EventId>, added: seq<Brick>, raised: bool, ghost visited: seq<EventId>,
             ghost perTrace: seq<seq<EventId>>)
    requires TracesExist(db.Contents())
    modifies store
    ensures Visited(codec, db.Contents(), channel, old(store.bricks), visited, Progress(store.bricks, raised))
    ensures store.bricks == old(store.bricks) + added
    ensures !raised ==>
              Selected(db.Contents(), channel, limit, traces, perTrace)
              && processed == visited == Flat(perTrace)
    ensures raised ==>
              |perTrace| <= |traces| && visited <= Flat(perTrace)
              && Selected(db.Contents(), channel, limit, traces[..|perTrace|], perTrace)
  {
    ghost var t, start := db.Contents(), store.bricks;
    processed, visited, perTrace, raised, added := [], [], [], false, [];
    for i := 0 to |traces|
      invariant Selected(t, channel, limit, traces[..i], perTrace) && visited == processed == Flat(perTrace)
      invariant Visited(codec, t, channel, start, visited, Progress(store.bricks, false))
      invariant store.bricks == start + added
    {
      var spans := ListUnprocessedForTrace(db, traces[i], channel, limit);
      SelectedStep(t, channel, limit, traces, i, perTrace, spans);
      var more;
      more, raised, visited := VisitTrace(db, store, codec, channel, spans, start, visited);
      Associative(start, added, more);
      added := added + more;
      perTrace := perTrace + [spans];
      if raised {
        return;
      }
      processed := processed + spans;
    }
    assert traces[..|traces|] == traces;
    raised := false;
  }

  lemma SelectedStep(t: Tables, channel: string, limit: int, traces: seq<TraceId>, i: nat, perTrace: seq<seq<EventId>>,
                     spans: seq<EventId>)
    requires i < |traces| && Selected(t, channel, limit, traces[..i], perTrace)
    requires OldestFirst(Backlog(t, channel, traces[i]), SpanTime(t), limit, spans)
    ensures Selected(t, channel, limit, traces[..i + 1], perTrace + [spans])
    ensures Flat(perTrace + [spans]) == Flat(perTrace) + spans
    ensures forall e :: e in spans ==> e in Unprocessed(t, channel)
  {
    assert (perTrace + [spans])[..|perTrace|] == perTrace;
  }

  method GenerateBricks(db: TelemetryDb, store: BrickStore, codec: Codec, channel: string, limit: int)
    returns (newBricks: seq<Brick>, raised: bool, ghost visited: seq<EventId>)
    requires TracesExist(db.Contents())
    modifies db, store
    ensures Round(codec, channel, limit, old(db.Contents()), old(store.bricks), db.Contents(), store.bricks, raised,
            visited)
    ensures store.bricks == old(store.bricks) + newBricks
    ensures StoresVisited(codec, old(db.Contents()), old(store.bricks), store.bricks, raised, visited)
    ensures forall e :: e in visited ==>
              e in old(db.spans) && old(db.spans)[e].channel == channel && !old(db.spans)[e].processed
    ensures db.traces == old(db.traces) && db.spans.Keys == old(db.spans).Keys
    ensures forall e :: e in db.spans ==>
              db.spans[e] == if !raised && e in visited then old(db.spans)[e].(processed := true) else old(db.spans)[e]
  {
    var traces := ListWithUnprocessedSpans(db, channel, limit);
    ghost var t := db.Contents();
    var processed;
    ghost var perTrace;
    processed, newBricks, raised, visited, perTrace := VisitTraces(db, store, codec, channel, limit, traces);
    assert InOrder(t, channel, limit, raised, visited, traces, perTrace);
    VisitStoresVisited(codec, t, old(store.bricks), visited);
    if !raised {
      db.MarkProcessed(processed);
    }
  }

  // ---------- progress, interrupted or not ----------

  /** `t1` is `t0` with some of the channel's unprocessed spans marked, and nothing else changed. */
  ghost predicate OnlyMarks(channel: string, t0: Tables, t1: Tables) {
    && t1.traces == t0.traces && t1.spans.Keys == t0.spans.Keys
    && forall e :: e in t0.spans ==>
         t1.spans[e] == t0.spans[e] || (e in Unprocessed(t0, channel) && t1.spans[e] == t0.spans[e].(processed := true))
  }

  /** What any amount of scanning has done, whether it finished, raised or crashed between commits:
      spans only get marked, bricks only get added, every brick added is made of a span that was
      unprocessed, and every span marked has its hash stored. */
  ghost predicate Progressed(codec: Codec, channel: string, t0: Tables, b0: seq<Brick>, t1: Tables, b1: seq<Brick>) {
    && TracesExist(t0) && OnlyMarks(channel, t0, t1)
    && b0 <= b1 && (UniqueHashes(b0) ==> UniqueHashes(b1)) && MadeOfBacklog(codec, channel, t0, b0, b1)
    && Hashes(b1) <= Hashes(b0) + HashesOf(codec, t0, Unprocessed(t0, channel))
    && Hashes(b0) + HashesOf(codec, t0, Unprocessed(t0, channel) - Unprocessed(t1, channel)) <= Hashes(b1)
    && forall e :: e in Unprocessed(t0, channel) - Unprocessed(t1, channel) ==> !BuildAt(codec, t0, e).Raises?
  }

  /** Each brick added is made of some span of the backlog. */
  ghost predicate MadeOfBacklog(codec: Codec, channel: string, t: Tables, b0: seq<Brick>, b1: seq<Brick>)
    requires TracesExist(t)
  {
    forall i :: |b0| <= i < |b1| ==> FromBacklog(codec, channel, t, b1[i])
  }

  ghost predicate FromBacklog(codec: Codec, channel: string, t: Tables, b: Brick)
    requires TracesExist(t)
  {
    exists e :: e in t.spans && t.spans[e].channel == channel && !t.spans[e].processed && DepictsAt(codec, t, b, e)
  }

  lemma VisitsMakeOfBacklog(codec: Codec, channel: string, t: Tables, b: seq<Brick>, visited: seq<EventId>)
    requires Known(t, visited) && forall e :: e in visited ==> e in Unprocessed(t, channel)
    ensures MadeOfBacklog(codec, channel, t, b, Visit(codec, t, b, visited).bricks)
  {
    VisitStoresVisited(codec, t, b, visited);
    var b1 := Visit(codec, t, b, visited).bricks;
    forall i | |b| <= i < |b1| ensures FromBacklog(codec, channel, t, b1[i]) {
      assert Added(codec, t, b, visited, b1[i]);
      var k :| MadeOf(codec, t, visited, b1[i], k);
      assert visited[k] in visited && DepictsAt(codec, t, b1[i], visited[k]);
    }
  }

  lemma BacklogOfMore(codec: Codec, channel: string, t0: Tables, t1: Tables, b: Brick)
    requires TracesExist(t0) && TracesExist(t1) && OnlyMarks(channel, t0, t1) && FromBacklog(codec, channel, t1, b)
    ensures FromBacklog(codec, channel, t0, b)
  {
    var e :| e in t1.spans && t1.spans[e].channel == channel && !t1.spans[e].processed && DepictsAt(codec, t1, b, e);
    assert e in t0.spans && t0.spans[e] == t1.spans[e];
  }

  lemma MadeOfBacklogTransitive(codec: Codec, channel: string, t0: Tables, b0: seq<Brick>, t1: Tables, b1: seq<Brick>,
                                b2: seq<Brick>)
    requires TracesExist(t0) && TracesExist(t1) && OnlyMarks(channel, t0, t1) && b0 <= b1 <= b2
    requires MadeOfBacklog(codec, channel, t0, b0, b1) && MadeOfBacklog(codec, channel, t1, b1, b2)
    ensures MadeOfBacklog(codec, channel, t0, b0, b2)
  {
    forall i | |b0| <= i < |b2| ensures FromBacklog(codec, channel, t0, b2[i]) {
      if i < |b1| {
        assert FromBacklog(codec, channel, t0, b1[i]);
      } else {
        BacklogOfMore(codec, channel, t0, t1, b2[i]);
      }
    }
  }

  lemma MarkedOnlyMarks(channel: string, t: Tables, visited: seq<EventId>)
    requires forall e :: e in visited ==> e in Unprocessed(t, channel)
    ensures OnlyMarks(channel, t, Marked(t, visited))
    ensures Unprocessed(Marked(t, visited), channel) == Unprocessed(t, channel) - Elements(visited)
  {
  }

  lemma SameBuilds(codec: Codec, channel: string, t0: Tables, t1: Tables)
    requires TracesExist(t0) && OnlyMarks(channel, t0, t1)
    ensures TracesExist(t1) && Unprocessed(t1, channel) <= Unprocessed(t0, channel)
    ensures forall e :: e in t0.spans ==> BuildAt(codec, t1, e) == BuildAt(codec, t0, e)
    ensures forall ids: set<EventId> :: (forall e :: e in ids ==> e in t0.spans) ==>
              HashesOf(codec, t1, ids) == HashesOf(codec, t0, ids)
  {
    forall e | e in t1.spans ensures t1.spans[e].traceId in t1.traces {
      assert e in t0.spans;
    }
    forall e | e in t0.spans ensures BuildAt(codec, t1, e) == BuildAt(codec, t0, e) {
      IgnoresMark(codec, t0.traces[t0.spans[e].traceId], t0.spans[e]);
    }
  }

  lemma IgnoresMark(codec: Codec, trace: Trace, span: Span)
    ensures Build(codec, trace, span.(processed := true)) == Build(codec, trace, span)
  {
  }

  lemma HashesOfUnion(codec: Codec, t: Tables, a: set<EventId>, b: set<EventId>)
    requires TracesExist(t) && forall e :: e in a + b ==> e in t.spans
    ensures HashesOf(codec, t, a + b) == HashesOf(codec, t, a) + HashesOf(codec, t, b)
  {
  }

  /** A call that crashed after visiting some spans has progressed: bricks were committed, nothing marked. */
  lemma CrashedRoundProgressed(codec: Codec, channel: string, t: Tables, b: seq<Brick>, visited: seq<EventId>)
    requires Known(t, visited) && forall e :: e in visited ==> e in Unprocessed(t, channel)
    ensures Progressed(codec, channel, t, b, t, Visit(codec, t, b, visited).bricks)
  {
    VisitStoresHashes(codec, t, b, visited);
    VisitsMakeOfBacklog(codec, channel, t, b, visited);
    var all := Unprocessed(t, channel);
    assert Elements(visited) + all == all;
    HashesOfUnion(codec, t, Elements(visited), all);
    assert all - all == {};
    assert HashesOf(codec, t, {}) == {};
  }

  lemma RoundProgressed(codec: Codec, channel: string, t0: Tables, b0: seq<Brick>,
                        t1: Tables, b1: seq<Brick>, raised: bool, visited: seq<EventId>)
    requires Performed(codec, channel, t0, b0, t1, b1, raised, visited)
    ensures Progressed(codec, channel, t0, b0, t1, b1)
  {
    CrashedRoundProgressed(codec, channel, t0, b0, visited);
    if !raised {
      VisitStoresHashes(codec, t0, b0, visited);
      VisitRaises(codec, t0, b0, visited);
      MarkedOnlyMarks(channel, t0, visited);
      assert Unprocessed(t0, channel) - Unprocessed(t1, channel) == Elements(visited);
    }
  }

  lemma OnlyMarksTransitive(channel: string, t0: Tables, t1: Tables, t2: Tables)
    requires OnlyMarks(channel, t0, t1) && OnlyMarks(channel, t1, t2)
    ensures OnlyMarks(channel, t0, t2)
    ensures Unprocessed(t2, channel) <= Unprocessed(t1, channel) <= Unprocessed(t0, channel)
  {
  }

  lemma Shrinking<T>(a: set<T>, b: set<T>, c: set<T>)
    requires c <= b <= a
    ensures a - c == (a - b) + (b - c) && a == b + a
  {
  }

  /** Progress composes, so it covers any number of rounds, crashes and reruns. */
  lemma ProgressedTransitive(codec: Codec, channel: string, t0: Tables, b0: seq<Brick>,
                             t1: Tables, b1: seq<Brick>, t2: Tables, b2: seq<Brick>)
    requires Progressed(codec, channel, t0, b0, t1, b1) && Progressed(codec, channel, t1, b1, t2, b2)
    ensures Progressed(codec, channel, t0, b0, t2, b2)
  {
    OnlyMarksTransitive(channel, t0, t1, t2);
    SameBuilds(codec, channel, t0, t1);
    MadeOfBacklogTransitive(codec, channel, t0, b0, t1, b1, b2);
    var u0, u1, u2 := Unprocessed(t0, channel), Unprocessed(t1, channel), Unprocessed(t2, channel);
    Shrinking(u0, u1, u2);
    HashesOfUnion(codec, t0, u0 - u1, u1 - u2);
    HashesOfUnion(codec, t0, u1, u0);
  }

  /** When nothing is left unprocessed, the outcome is the same whatever happened on the way: every span
      of the backlog is marked and nothing else, and the brick hashes are the old ones and those of the
      backlog's well-shaped spans. */
  lemma FinishedIsDetermined(codec: Codec, channel: string, t0: Tables, b0: seq<Brick>, t1: Tables, b1: seq<Brick>)
    requires Progressed(codec, channel, t0, b0, t1, b1) && Unprocessed(t1, channel) == {}
    ensures Hashes(b1) == Hashes(b0) + HashesOf(codec, t0, Unprocessed(t0, channel))
    ensures t1.traces == t0.traces && t1.spans.Keys == t0.spans.Keys
    ensures forall e :: e in t0.spans ==>
              t1.spans[e] == if e in Unprocessed(t0, channel) then t0.spans[e].(processed := true) else t0.spans[e]
  {
    assert Unprocessed(t0, channel) - {} == Unprocessed(t0, channel);
    forall e | e in t0.spans
      ensures t1.spans[e] == if e in Unprocessed(t0, channel) then t0.spans[e].(processed := true) else t0.spans[e]
    {
      if e in Unprocessed(t0, channel) {
        assert e !in Unprocessed(t1, channel);
      }
    }
  }

  /** Every well-shaped span that scanning has marked has a brick under its own hash. */
  lemma MarkedHaveBricks(codec: Codec, channel: string, t0: Tables, b0: seq<Brick>, t1: Tables, b1: seq<Brick>,
                         e: EventId, h: string)
    requires Progressed(codec, channel, t0, b0, t1, b1) && HasHash(codec, t0, e, h)
    requires !t0.spans[e].processed && e in t1.spans && t1.spans[e].processed
    ensures exists b :: b in b1 && b.contentHash == h
  {
    HashOfBuilt(codec, t0, e, h);
    assert t0.spans[e].channel == channel && e in Unprocessed(t0, channel) - Unprocessed(t1, channel);
    assert h in HashesOf(codec, t0, Unprocessed(t0, channel) - Unprocessed(t1, channel));
  }

  /** Crash anywhere and rerun: if an interrupted history and an uninterrupted one both end with nothing
      unprocessed, they end in the same span table and the same set of brick hashes. */
  lemma CrashesDoNotShow(codec: Codec, channel: string, t0: Tables, b0: seq<Brick>,
                         t1: Tables, b1: seq<Brick>, t2: Tables, b2: seq<Brick>)
    requires Progressed(codec, channel, t0, b0, t1, b1) && Unprocessed(t1, channel) == {}
    requires Progressed(codec, channel, t0, b0, t2, b2) && Unprocessed(t2, channel) == {}
    ensures t1 == t2 && Hashes(b1) == Hashes(b2)
  {
    FinishedIsDetermined(codec, channel, t0, b0, t1, b1);
    FinishedIsDetermined(codec, channel, t0, b0, t2, b2);
    assert t1.spans == t2.spans;
  }
}
