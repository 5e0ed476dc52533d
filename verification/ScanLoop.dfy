/** `TelemetryScannerService`'s loop over `generate_bricks`: when it ends, what it leaves, and what stops it. */
module ScanLoop {
  import opened Collections
  import opened Options
  import opened OrderedSelect
  import opened Json
  import opened Telemetry
  import opened Generate
  import opened BrickContents
  import opened Scanner

  // ---------- what a round leaves ----------

  /** No trace holds more unprocessed spans on the channel than one round visits. */
  ghost predicate BacklogFits(t: Tables, channel: string, limit: int) {
    limit < 0 || forall x :: x in Waiting(t, channel) ==> |Backlog(t, channel, x)| <= limit
  }

  /** A round over at least one trace marks something. */
  lemma RoundVisitsSomething(t: Tables, channel: string, limit: int, traces: seq<TraceId>, perTrace: seq<seq<EventId>>)
    requires OldestTraces(t, channel, limit, traces) && Selected(t, channel, limit, traces, perTrace)
    requires Waiting(t, channel) != {} && limit != 0
    ensures Flat(perTrace) != []
  {
    assert traces != [];
    assert traces[0] in Waiting(t, channel);
    WaitingHasBacklog(t, channel, traces[0]);
    FlatIsBacklog(t, channel, limit, traces, perTrace);
    assert perTrace[0] != [];
    assert perTrace[0][0] in Flat(perTrace);
  }

  /** A round that reaches every waiting trace finishes the backlog exactly when it fits. */
  lemma LastRoundFinishes(t: Tables, channel: string, limit: int, traces: seq<TraceId>, perTrace: seq<seq<EventId>>)
    requires OldestTraces(t, channel, limit, traces) && Selected(t, channel, limit, traces, perTrace)
    requires limit < 0 || |Waiting(t, channel)| <= limit
    ensures Elements(Flat(perTrace)) == Unprocessed(t, channel) <==> BacklogFits(t, channel, limit)
  {
    FlatIsBacklog(t, channel, limit, traces, perTrace);
    AllTracesPicked(t, channel, limit, traces);
    if BacklogFits(t, channel, limit) {
      forall e | e in Unprocessed(t, channel) ensures e in Flat(perTrace) {
        var x := t.spans[e].traceId;
        assert x in Waiting(t, channel);
        var i :| 0 <= i < |traces| && traces[i] == x;
        AllOfTracePicked(t, channel, limit, x, perTrace[i], e);
      }
    } else {
      var x :| x in Waiting(t, channel) && |Backlog(t, channel, x)| > limit;
      var i :| 0 <= i < |traces| && traces[i] == x;
      TraceLeavesSome(t, channel, limit, traces, perTrace, i);
    }
  }

  lemma AllTracesPicked(t: Tables, channel: string, limit: int, traces: seq<TraceId>)
    requires OldestTraces(t, channel, limit, traces) && (limit < 0 || |Waiting(t, channel)| <= limit)
    ensures Distinct(traces) && forall x :: x in Waiting(t, channel) ==> x in traces
  {
    var key :| TraceKey(t, channel, key) && OldestFirst(Waiting(t, channel), key, limit, traces);
    UnboundedTakesAll(Waiting(t, channel), key, limit, traces);
    assert forall x :: x in Waiting(t, channel) ==> x in Elements(traces);
  }

  lemma AllOfTracePicked(t: Tables, channel: string, limit: int, x: TraceId, picked: seq<EventId>, e: EventId)
    requires OldestFirst(Backlog(t, channel, x), SpanTime(t), limit, picked)
    requires (limit < 0 || |Backlog(t, channel, x)| <= limit) && e in Unprocessed(t, channel) && t.spans[e].traceId == x
    ensures e in picked
  {
    UnboundedTakesAll(Backlog(t, channel, x), SpanTime(t), limit, picked);
    assert e in Elements(picked);
  }

  lemma TraceLeavesSome(t: Tables, channel: string, limit: int, traces: seq<TraceId>, perTrace: seq<seq<EventId>>,
                        i: nat)
    requires Selected(t, channel, limit, traces, perTrace) && Distinct(traces) && i < |traces|
    requires 0 <= limit < |Backlog(t, channel, traces[i])|
    ensures Elements(Flat(perTrace)) != Unprocessed(t, channel)
  {
    DistinctCardinality(perTrace[i]);
    var all, some := Backlog(t, channel, traces[i]), Elements(perTrace[i]);
    if all <= some {
      SubsetIsSmaller(all, some);
    }
    var e :| e in all && e !in some;
    if e in Flat(perTrace) {
      OwnSpansOnly(t, channel, limit, traces, perTrace, i, e);
    }
  }

  lemma OwnSpansOnly(t: Tables, channel: string, limit: int, traces: seq<TraceId>, perTrace: seq<seq<EventId>>, i: nat,
                     e: EventId)
    requires Selected(t, channel, limit, traces, perTrace) && Distinct(traces) && i < |traces|
    requires e in Backlog(t, channel, traces[i]) && e in Flat(perTrace)
    ensures e in perTrace[i]
  {
    var j := FlatComesFrom(perTrace, e);
    PickedFromBacklog(t, channel, limit, traces[j], perTrace[j], e);
    SamePlace(traces, i, j);
  }

  lemma SamePlace<T>(s: seq<T>, i: nat, j: nat)
    requires Distinct(s) && i < |s| && j < |s| && s[i] == s[j]
    ensures i == j
  {
  }

  lemma PickedFromBacklog(t: Tables, channel: string, limit: int, x: TraceId, picked: seq<EventId>, e: EventId)
    requires OldestFirst(Backlog(t, channel, x), SpanTime(t), limit, picked) && e in picked
    ensures e in Unprocessed(t, channel) && t.spans[e].traceId == x
  {
    assert e in Backlog(t, channel, x);
  }

  lemma FitsStays(t0: Tables, t1: Tables, channel: string, limit: int)
    requires OnlyMarks(channel, t0, t1) && BacklogFits(t0, channel, limit)
    ensures BacklogFits(t1, channel, limit)
  {
    if limit >= 0 {
      forall x | x in Waiting(t1, channel) ensures |Backlog(t1, channel, x)| <= limit {
        var e :| e in Unprocessed(t1, channel) && t1.spans[e].traceId == x;
        assert e in Unprocessed(t0, channel) && t0.spans[e].traceId == x;
        assert Backlog(t1, channel, x) <= Backlog(t0, channel, x);
        SubsetIsSmaller(Backlog(t1, channel, x), Backlog(t0, channel, x));
      }
    }
  }

  /** Every planned round but that of limit zero marks something. */
  lemma PlannedMarksSome(t: Tables, channel: string, limit: int, traces: seq<TraceId>, perTrace: seq<seq<EventId>>)
    requires Planned(t, channel, limit, traces, traces, perTrace)
    requires Waiting(t, channel) != {} && limit != 0
    ensures Unprocessed(Marked(t, Flat(perTrace)), channel) < Unprocessed(t, channel)
  {
    var visited := Flat(perTrace);
    FlatIsBacklog(t, channel, limit, traces, perTrace);
    MarkedOnlyMarks(channel, t, visited);
    RoundVisitsSomething(t, channel, limit, traces, perTrace);
    assert visited[0] in Elements(visited);
  }

  lemma PlannedLast(t: Tables, channel: string, limit: int, traces: seq<TraceId>, perTrace: seq<seq<EventId>>)
    requires Planned(t, channel, limit, traces, traces, perTrace)
    requires limit < 0 || |Waiting(t, channel)| < limit
    ensures Unprocessed(Marked(t, Flat(perTrace)), channel) == {} <==> BacklogFits(t, channel, limit)
  {
    var visited := Flat(perTrace);
    FlatIsBacklog(t, channel, limit, traces, perTrace);
    MarkedOnlyMarks(channel, t, visited);
    LastRoundFinishes(t, channel, limit, traces, perTrace);
    SubsetDifference(Elements(visited), Unprocessed(t, channel));
  }

  lemma SubsetDifference<T>(a: set<T>, b: set<T>)
    requires a <= b
    ensures b - a == {} <==> a == b
  {
    assert b == a + (b - a);
  }

  /** What a round leaves when it ends the loop, and that it makes progress when it does not. */
  lemma AfterRound(codec: Codec, channel: string, limit: int, t0: Tables, b0: seq<Brick>, t1: Tables, b1: seq<Brick>,
                   visited: seq<EventId>)
    requires Round(codec, channel, limit, t0, b0, t1, b1, false, visited)
    requires Waiting(t0, channel) != {} && limit != 0
    ensures Unprocessed(t1, channel) < Unprocessed(t0, channel)
    ensures limit < 0 || |Waiting(t0, channel)| < limit ==>
              (Unprocessed(t1, channel) == {} <==> BacklogFits(t0, channel, limit))
  {
    var traces, perTrace :| InOrder(t0, channel, limit, false, visited, traces, perTrace);
    PlannedMarksSome(t0, channel, limit, traces, perTrace);
    if limit < 0 || |Waiting(t0, channel)| < limit {
      PlannedLast(t0, channel, limit, traces, perTrace);
    }
  }

  lemma SomethingWaiting(t: Tables, channel: string, limit: int, candidates: seq<TraceId>)
    requires OldestTraces(t, channel, limit, candidates) && candidates != []
    ensures Waiting(t, channel) != {} && limit != 0
    ensures |candidates| < limit ==> |Waiting(t, channel)| < limit
  {
    assert candidates[0] in Waiting(t, channel);
  }

  lemma WaitingExactly(t: Tables, channel: string)
    ensures Waiting(t, channel) == {} <==> Unprocessed(t, channel) == {}
  {
    forall e | e in Unprocessed(t, channel) ensures t.spans[e].traceId in Waiting(t, channel) {}
  }

  // ---------- spans that stop a call ----------

  /** Some unprocessed span would make a visit raise now. */
  ghost predicate SomeStops(codec: Codec, t: Tables, b: seq<Brick>, channel: string) {
    TracesExist(t) && exists e :: e in Unprocessed(t, channel) && Stops(codec, t, b, e)
  }

  /** Some unprocessed span raises, whatever of the backlog is visited before it. */
  ghost predicate Poisoned(codec: Codec, t: Tables, b: seq<Brick>, channel: string) {
    TracesExist(t) && exists e :: Fatal(codec, t, b, Unprocessed(t, channel), e)
  }

  /** One call is allowed to visit the whole backlog. */
  ghost predicate ReachesAll(t: Tables, channel: string, limit: int) {
    (limit < 0 || |Waiting(t, channel)| <= limit) && BacklogFits(t, channel, limit)
  }

  /** No span that cannot be stored shares its hash with one that can. */
  ghost predicate HashesSeparate(codec: Codec, t: Tables, channel: string) {
    && TracesExist(t)
    && forall e ::
      e in Unprocessed(t, channel) && BuildAt(codec, t, e).Makes? && !Storable(BuildAt(codec, t, e).brick) ==>
        BuildAt(codec, t, e).brick.contentHash !in StorableHashes(codec, t, Unprocessed(t, channel))
  }

  /** Then the two come to the same: some span of the backlog stops every visit exactly when one stops a
      visit now, by an undecodable body, a status code that is a string, a list or an object, or a type
      that is a list, an object or an integer of more than 64 bits. */
  lemma PoisonedExactly(codec: Codec, t: Tables, b: seq<Brick>, channel: string)
    requires HashesSeparate(codec, t, channel)
    ensures Poisoned(codec, t, b, channel) <==> SomeStops(codec, t, b, channel)
  {
    if SomeStops(codec, t, b, channel) {
      var e :| e in Unprocessed(t, channel) && Stops(codec, t, b, e);
      assert Fatal(codec, t, b, Unprocessed(t, channel), e);
    }
  }

  /** What stops a call now, has been there and would have stopped it before. */
  lemma StopsBefore(codec: Codec, channel: string, t0: Tables, b0: seq<Brick>, t1: Tables, b1: seq<Brick>)
    requires Progressed(codec, channel, t0, b0, t1, b1) && SomeStops(codec, t1, b1, channel)
    ensures SomeStops(codec, t0, b0, channel)
  {
    SameBuilds(codec, channel, t0, t1);
    var e :| e in Unprocessed(t1, channel) && Stops(codec, t1, b1, e);
    assert e in Unprocessed(t0, channel) && BuildAt(codec, t1, e) == BuildAt(codec, t0, e);
    assert Hashes(b0) <= Hashes(b1);
  }

  lemma FatalCallRaises(codec: Codec, channel: string, limit: int, t0: Tables, b0: seq<Brick>,
                        t1: Tables, b1: seq<Brick>, raised: bool, visited: seq<EventId>, e: EventId)
    requires Round(codec, channel, limit, t0, b0, t1, b1, raised, visited)
    requires Fatal(codec, t0, b0, Unprocessed(t0, channel), e) && ReachesAll(t0, channel, limit)
    ensures raised && t1 == t0 && Fatal(codec, t1, b1, Unprocessed(t1, channel), e)
  {
    var all := Unprocessed(t0, channel);
    assert Elements(visited) <= all;
    if !raised {
      AllVisited(codec, channel, limit, t0, b0, t1, b1, visited);
      assert e in Elements(visited);
      FatalStops(codec, t0, b0, visited, all, e);
    }
    FatalStays(codec, t0, b0, visited, all, e);
  }

  /** A call that is allowed to visit the whole backlog, with such a span in it, raises and marks nothing,
      and leaves the span as it is. */
  lemma PoisonedCallRaises(codec: Codec, channel: string, limit: int, t0: Tables, b0: seq<Brick>,
                           t1: Tables, b1: seq<Brick>, raised: bool, visited: seq<EventId>)
    requires Round(codec, channel, limit, t0, b0, t1, b1, raised, visited)
    requires Poisoned(codec, t0, b0, channel) && ReachesAll(t0, channel, limit)
    ensures raised && t1 == t0 && Poisoned(codec, t1, b1, channel)
  {
    var e :| Fatal(codec, t0, b0, Unprocessed(t0, channel), e);
    FatalCallRaises(codec, channel, limit, t0, b0, t1, b1, raised, visited, e);
  }

  lemma AllVisited(codec: Codec, channel: string, limit: int, t0: Tables, b0: seq<Brick>, t1: Tables, b1: seq<Brick>,
                   visited: seq<EventId>)
    requires Round(codec, channel, limit, t0, b0, t1, b1, false, visited) && ReachesAll(t0, channel, limit)
    ensures Elements(visited) == Unprocessed(t0, channel)
  {
    var traces, perTrace :| InOrder(t0, channel, limit, false, visited, traces, perTrace);
    LastRoundFinishes(t0, channel, limit, traces, perTrace);
  }

  datatype State = State(t: Tables, b: seq<Brick>)

  /** A call of `generate_bricks`, or one that crashed after some visits. */
  ghost predicate CalledOrCrashed(codec: Codec, channel: string, limit: int, s: State, s': State) {
    || (exists raised, visited :: Round(codec, channel, limit, s.t, s.b, s'.t, s'.b, raised, visited))
    || (s'.t == s.t && exists visited, now :: Visited(codec, s.t, channel, s.b, visited, now) && s'.b == now.bricks)
  }

  /** A delivery, of a new event or a repeat, to the tables the scanner reads. */
  ghost predicate Delivered(s: State, s': State) {
    s'.b == s.b && exists r :: s'.t == Ingest(s.t, r)
  }

  lemma DeliveryKeeps(codec: Codec, channel: string, s: State, s': State, e: EventId)
    requires TracesExist(s.t) && Delivered(s, s')
    ensures TracesExist(s'.t) && Unprocessed(s.t, channel) <= Unprocessed(s'.t, channel)
    ensures e in s.t.spans ==> e in s'.t.spans && BuildAt(codec, s'.t, e) == BuildAt(codec, s.t, e)
  {
    var r :| s'.t == Ingest(s.t, r);
  }

  /** The span `e` of the backlog is fatal, whatever of the backlog is visited before it. */
  ghost predicate FatalIn(codec: Codec, channel: string, s: State, e: EventId) {
    TracesExist(s.t) && Fatal(codec, s.t, s.b, Unprocessed(s.t, channel), e)
  }

  /** No storable span of the backlog has the hash of `e`. */
  ghost predicate AloneWithItsHash(codec: Codec, channel: string, s: State, e: EventId) {
    TracesExist(s.t) && e in s.t.spans && BuildAt(codec, s.t, e).Makes? ==>
      BuildAt(codec, s.t, e).brick.contentHash !in StorableHashes(codec, s.t, Unprocessed(s.t, channel))
  }

  /** One scan, crash or delivery. */
  lemma PoisonStays(codec: Codec, channel: string, limit: int, s: State, s': State, e: EventId)
    requires CalledOrCrashed(codec, channel, limit, s, s') || Delivered(s, s')
    requires FatalIn(codec, channel, s, e) && ReachesAll(s.t, channel, limit)
    requires AloneWithItsHash(codec, channel, s', e)
    ensures FatalIn(codec, channel, s', e) && Unprocessed(s.t, channel) <= Unprocessed(s'.t, channel)
    ensures BuildAt(codec, s'.t, e) == BuildAt(codec, s.t, e)
  {
    if raised, visited :| Round(codec, channel, limit, s.t, s.b, s'.t, s'.b, raised, visited) {
      FatalCallRaises(codec, channel, limit, s.t, s.b, s'.t, s'.b, raised, visited, e);
    } else if CalledOrCrashed(codec, channel, limit, s, s') {
      var visited, now :| Visited(codec, s.t, channel, s.b, visited, now) && s'.b == now.bricks;
      assert Elements(visited) <= Unprocessed(s.t, channel);
      FatalStays(codec, s.t, s.b, visited, Unprocessed(s.t, channel), e);
    } else {
      DeliveryKeeps(codec, channel, s, s', e);
    }
  }

  /** Scans, crashes and deliveries, each scan being allowed to visit the whole backlog. */
  ghost predicate History(codec: Codec, channel: string, limit: int, states: seq<State>) {
    && (forall j :: 0 <= j < |states| ==> ReachesAll(states[j].t, channel, limit))
    && (forall j, k :: 0 <= j < |states| && 0 <= k < |states| && k == j + 1 ==>
          CalledOrCrashed(codec, channel, limit, states[j], states[k]) || Delivered(states[j], states[k]))
  }

  lemma HistoryAt(codec: Codec, channel: string, limit: int, states: seq<State>, j: nat, k: nat)
    requires History(codec, channel, limit, states) && k == j + 1 && k < |states|
    ensures CalledOrCrashed(codec, channel, limit, states[j], states[k]) || Delivered(states[j], states[k])
    ensures ReachesAll(states[j].t, channel, limit)
  {
  }

  ghost predicate AloneThroughout(codec: Codec, channel: string, states: seq<State>, e: EventId) {
    forall j :: 0 <= j < |states| ==> AloneWithItsHash(codec, channel, states[j], e)
  }

  /** For ever: however often the channel is scanned, with crashes anywhere and deliveries in between, no
      span of the first backlog is ever marked, the well-formed ones included, as long as one call can
      reach all. That takes a span which raises by itself, or one which cannot be stored and whose hash
      no storable span, of the backlog or delivered, shares. */
  lemma {:induction false} PoisonBlocksTheChannel(codec: Codec, channel: string, limit: int, states: seq<State>,
                                                  i: nat, e: EventId)
    requires i < |states| && FatalIn(codec, channel, states[0], e)
    requires History(codec, channel, limit, states)
    requires BuildAt(codec, states[0].t, e).Raises? || AloneThroughout(codec, channel, states, e)
    ensures Unprocessed(states[0].t, channel) <= Unprocessed(states[i].t, channel)
    ensures FatalIn(codec, channel, states[i], e) && BuildAt(codec, states[i].t, e) == BuildAt(codec, states[0].t, e)
  {
    if i > 0 {
      PoisonBlocksTheChannel(codec, channel, limit, states, i - 1, e);
      HistoryAt(codec, channel, limit, states, i - 1, i);
      AloneNext(codec, channel, limit, states[i - 1], states[i], e);
      assert AloneWithItsHash(codec, channel, states[i], e);
      PoisonStays(codec, channel, limit, states[i - 1], states[i], e);
    }
  }

  /** A span that raises by itself makes no brick in the next state either. */
  lemma AloneNext(codec: Codec, channel: string, limit: int, s: State, s': State, e: EventId)
    requires CalledOrCrashed(codec, channel, limit, s, s') || Delivered(s, s')
    requires FatalIn(codec, channel, s, e) && ReachesAll(s.t, channel, limit)
    ensures BuildAt(codec, s.t, e).Raises? ==> AloneWithItsHash(codec, channel, s', e)
  {
    if raised, visited :| Round(codec, channel, limit, s.t, s.b, s'.t, s'.b, raised, visited) {
      FatalCallRaises(codec, channel, limit, s.t, s.b, s'.t, s'.b, raised, visited, e);
    } else if Delivered(s, s') {
      DeliveryKeeps(codec, channel, s, s', e);
    }
  }

  /** A table of one captured HTTP exchange. */
  function OneSnapshot(request: map<string, Json>, response: map<string, Json>): Tables {
    var payload := map["request" := JObject(request), "response" := JObject(response), "content_hash" := JStr("h")];
    Tables(map["x" := Trace("e", None)], map["e" := Span("s", "x", "snapshot", 0, 0, payload, false)])
  }

  lemma OneIsEnough(codec: Codec, request: map<string, Json>, response: map<string, Json>)
    requires var status := GetOrNull(response, "status_code");
             || codec.decodeBody(GetOr(request, "body_b64", JStr(""))).None?
             || status.JStr? || status.JArray? || status.JObject?
    ensures var t := OneSnapshot(request, response);
            Poisoned(codec, t, [], "snapshot") && ReachesAll(t, "snapshot", 100)
  {
    var t := OneSnapshot(request, response);
    assert Unprocessed(t, "snapshot") == {"e"};
    RaisesExactly(codec, t, [], "e");
    OnlyStopsRaise(codec, t, [], "e");
    assert Fatal(codec, t, [], Unprocessed(t, "snapshot"), "e");
    assert Waiting(t, "snapshot") == {"x"};
    assert Backlog(t, "snapshot", "x") == {"e"};
  }

  /** A body that does not decode is enough, and a client chooses the body: valid JSON with an integer of
      more digits than Python converts raises what the source does not catch. */
  lemma UndecodableBodyPoisons(codec: Codec, body: Json)
    requires codec.decodeBody(body).None?
    ensures var t := OneSnapshot(map["body_b64" := body], map["status_code" := JInt(200)]);
            Poisoned(codec, t, [], "snapshot") && ReachesAll(t, "snapshot", 100)
  {
    OneIsEnough(codec, map["body_b64" := body], map["status_code" := JInt(200)]);
  }

  /** So is a status code that was captured as a string. */
  lemma StringStatusPoisons(codec: Codec)
    ensures var t := OneSnapshot(map[], map["status_code" := JStr("200")]);
            Poisoned(codec, t, [], "snapshot") && ReachesAll(t, "snapshot", 100)
  {
    OneIsEnough(codec, map[], map["status_code" := JStr("200")]);
  }

  // ---------- one turn ----------

  /** What a turn of the loop comes to. */
  ghost predicate TurnTaken(codec: Codec, channel: string, limit: int, t0: Tables, b0: seq<Brick>,
                            t1: Tables, b1: seq<Brick>, raised: bool, done: bool)
  {
    && Progressed(codec, channel, t0, b0, t1, b1)
    && (raised ==> t1 == t0 && SomeStops(codec, t1, b1, channel))
    && (!raised && !done ==> Unprocessed(t1, channel) < Unprocessed(t0, channel) && limit <= |Waiting(t0, channel)|)
    && (!raised && done ==> (Unprocessed(t1, channel) == {} <==> BacklogFits(t0, channel, limit)))
    && (Poisoned(codec, t0, b0, channel) && ReachesAll(t0, channel, limit) ==> raised)
  }

  lemma NoCandidates(codec: Codec, channel: string, limit: int, t: Tables, b: seq<Brick>, candidates: seq<TraceId>)
    requires TracesExist(t) && OldestTraces(t, channel, limit, candidates) && candidates == []
    ensures TurnTaken(codec, channel, limit, t, b, t, b, false, true)
  {
    CrashedRoundProgressed(codec, channel, t, b, []);
    WaitingExactly(t, channel);
    assert limit == 0 || Waiting(t, channel) == {};
    forall x | x in Waiting(t, channel) ensures |Backlog(t, channel, x)| > 0 {
      WaitingHasBacklog(t, channel, x);
    }
  }

  lemma CalledTurn(codec: Codec, channel: string, limit: int, t0: Tables, b0: seq<Brick>,
                   t1: Tables, b1: seq<Brick>, raised: bool, visited: seq<EventId>, candidates: seq<TraceId>)
    requires OldestTraces(t0, channel, limit, candidates) && candidates != []
    requires Round(codec, channel, limit, t0, b0, t1, b1, raised, visited)
    ensures TurnTaken(codec, channel, limit, t0, b0, t1, b1, raised, |candidates| < limit)
  {
    RoundProgressed(codec, channel, t0, b0, t1, b1, raised, visited);
    SomethingWaiting(t0, channel, limit, candidates);
    if raised {
      VisitRaises(codec, t0, b0, visited);
    } else {
      AfterRound(codec, channel, limit, t0, b0, t1, b1, visited);
    }
    if Poisoned(codec, t0, b0, channel) && ReachesAll(t0, channel, limit) {
      PoisonedCallRaises(codec, channel, limit, t0, b0, t1, b1, raised, visited);
    }
  }

  method ScanTurn(db: TelemetryDb, store: BrickStore, codec: Codec, channel: string, limit: int)
    returns (added: seq<Brick>, raised: bool, done: bool)
    requires TracesExist(db.Contents())
    modifies db, store
    ensures TurnTaken(codec, channel, limit, old(db.Contents()), old(store.bricks), db.Contents(), store.bricks,
            raised, done)
    ensures store.bricks == old(store.bricks) + added
  {
    ghost var t0, b0 := db.Contents(), store.bricks;
    var candidates := ListWithUnprocessedSpans(db, channel, limit);
    if candidates == [] {
      NoCandidates(codec, channel, limit, t0, b0, candidates);
      return [], false, true;
    }
    ghost var visited;
    added, raised, visited := GenerateBricks(db, store, codec, channel, limit);
    CalledTurn(codec, channel, limit, t0, b0, db.Contents(), store.bricks, raised, visited, candidates);
    done := |candidates| < limit;
  }

  // ---------- the loop ----------

  /** Where the loop stands: `last` is the table as its latest turn began, or the first. */
  ghost predicate Scanning(codec: Codec, channel: string, limit: int, t0: Tables, b0: seq<Brick>,
                           t1: Tables, b1: seq<Brick>, raised: bool, done: bool, last: Tables)
  {
    && Progressed(codec, channel, t0, b0, t1, b1) && TracesExist(t1) && OnlyMarks(channel, t0, last)
    && (raised ==> SomeStops(codec, t1, b1, channel))
    && (!raised && done ==> (Unprocessed(t1, channel) == {} <==> BacklogFits(last, channel, limit)))
    && (|Waiting(t0, channel)| < limit ==> last == t0 && (raised || done || t1 == t0))
    && (Poisoned(codec, t0, b0, channel) && ReachesAll(t0, channel, limit) ==>
          t1 == t0 && (raised || (!done && b1 == b0)))
  }

  lemma ScanStarts(codec: Codec, channel: string, limit: int, t: Tables, b: seq<Brick>)
    requires TracesExist(t)
    ensures Scanning(codec, channel, limit, t, b, t, b, false, false, t)
  {
    CrashedRoundProgressed(codec, channel, t, b, []);
  }

  lemma ScanContinues(codec: Codec, channel: string, limit: int, t0: Tables, b0: seq<Brick>,
                      t1: Tables, b1: seq<Brick>, last: Tables, t2: Tables, b2: seq<Brick>, raised: bool, done: bool)
    requires Scanning(codec, channel, limit, t0, b0, t1, b1, false, false, last)
    requires TurnTaken(codec, channel, limit, t1, b1, t2, b2, raised, done)
    ensures Scanning(codec, channel, limit, t0, b0, t2, b2, raised, done, t1)
    ensures Unprocessed(t2, channel) <= Unprocessed(t1, channel)
    ensures !raised && !done ==> Unprocessed(t2, channel) < Unprocessed(t1, channel)
  {
    ProgressedTransitive(codec, channel, t0, b0, t1, b1, t2, b2);
    SameBuilds(codec, channel, t1, t2);
  }

  lemma ScanEnds(codec: Codec, channel: string, limit: int, t0: Tables, b0: seq<Brick>,
                 t1: Tables, b1: seq<Brick>, raised: bool, done: bool, last: Tables)
    requires Scanning(codec, channel, limit, t0, b0, t1, b1, raised, done, last) && (raised || done)
    ensures raised ==> SomeStops(codec, t0, b0, channel)
    ensures HashesSeparate(codec, t0, channel) && ReachesAll(t0, channel, limit) ==>
              (raised <==> SomeStops(codec, t0, b0, channel))
    ensures !raised && BacklogFits(t0, channel, limit) ==> Unprocessed(t1, channel) == {}
  {
    if HashesSeparate(codec, t0, channel) {
      PoisonedExactly(codec, t0, b0, channel);
    }
    if raised {
      StopsBefore(codec, channel, t0, b0, t1, b1);
    } else if BacklogFits(t0, channel, limit) {
      FitsStays(t0, last, channel, limit);
    }
  }

  /** `TelemetryScannerService.__call__`. The loop ends for every limit. It raises only if some span of the
      backlog stops a visit, and surely if one stops every visit and the first call is allowed to reach
      all; nothing is then marked. Where hashes tell storable spans from others and the first call can
      reach all, it raises exactly when some span stops a visit. If it does not raise, the spans left are
      none exactly when, as the last round began, no trace held more than the limit; with fewer waiting
      traces than the limit that round is the first. `last` is the table as the last round began. */
  method Scan(db: TelemetryDb, store: BrickStore, codec: Codec, channel: string, limit: int)
    returns (newBricks: seq<Brick>, raised: bool, ghost last: Tables)
    requires TracesExist(db.Contents())
    modifies db, store
    ensures Progressed(codec, channel, old(db.Contents()), old(store.bricks), db.Contents(), store.bricks)
    ensures store.bricks == old(store.bricks) + newBricks
    ensures raised ==>
              SomeStops(codec, old(db.Contents()), old(store.bricks), channel)
              && SomeStops(codec, db.Contents(), store.bricks, channel)
    ensures Poisoned(codec, old(db.Contents()), old(store.bricks), channel)
            && ReachesAll(old(db.Contents()), channel, limit) ==>
              raised && db.Contents() == old(db.Contents())
    ensures HashesSeparate(codec, old(db.Contents()), channel) && ReachesAll(old(db.Contents()), channel, limit) ==>
              (raised <==> SomeStops(codec, old(db.Contents()), old(store.bricks), channel))
    ensures !raised ==> (Unprocessed(db.Contents(), channel) == {} <==> BacklogFits(last, channel, limit))
    ensures !raised && BacklogFits(old(db.Contents()), channel, limit) ==> Unprocessed(db.Contents(), channel) == {}
    ensures |Waiting(old(db.Contents()), channel)| < limit ==> last == old(db.Contents())
  {
    newBricks, raised := [], false;
    ghost var t0, b0 := db.Contents(), store.bricks;
    ScanStarts(codec, channel, limit, t0, b0);
    last := t0;
    var done := false;
    while !raised && !done
      invariant Scanning(codec, channel, limit, t0, b0, db.Contents(), store.bricks, raised, done, last)
      invariant store.bricks == b0 + newBricks
      decreases Unprocessed(db.Contents(), channel), !raised && !done
    {
      ghost var t1, b1 := db.Contents(), store.bricks;
      var added;
      added, raised, done := ScanTurn(db, store, codec, channel, limit);
      ScanContinues(codec, channel, limit, t0, b0, t1, b1, last, db.Contents(), store.bricks, raised, done);
      last := t1;
      Associative(b0, newBricks, added);
      newBricks := newBricks + added;
    }
    ScanEnds(codec, channel, limit, t0, b0, db.Contents(), store.bricks, raised, done, last);
  }

  /** The service is to drain the backlog; it does not when a trace holds more than the limit and few
      traces wait. Here the limit is two and one trace holds three spans: by its contract `Scan` does not
      raise, and leaves some. */
  lemma ScanCanLeaveSome(codec: Codec)
    ensures var span := Span("s", "x", "snapshot", 0, 0, map[], false);
            var t := Tables(map["x" := Trace("e", None)], map["a" := span, "b" := span, "c" := span]);
            && TracesExist(t) && |Waiting(t, "snapshot")| < 2 && !BacklogFits(t, "snapshot", 2)
            && !SomeStops(codec, t, [], "snapshot")
  {
    var span := Span("s", "x", "snapshot", 0, 0, map[], false);
    var t := Tables(map["x" := Trace("e", None)], map["a" := span, "b" := span, "c" := span]);
    assert Waiting(t, "snapshot") == {"x"} by {
      assert "a" in Unprocessed(t, "snapshot") && t.spans["a"].traceId in Waiting(t, "snapshot");
    }
    assert Backlog(t, "snapshot", "x") == {"a", "b", "c"};
  }
}
