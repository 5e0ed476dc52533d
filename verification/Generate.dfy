/** `bricks/generate.py`: turning unprocessed spans into regression bricks, one per content hash. */
module Generate {
  import opened Options
  import opened OrderedSelect
  import opened Json
  import opened Telemetry

  datatype Brick = Brick(
    contentHash: string,
    request: Json,
    response: Json,
    scenario: Option<string>,
    nanobarType: Option<Json>,
    routeKey: Option<Json>,
    traceId: TraceId,
    spanId: string,
    channel: string,
    entryPoint: string,
    appBox: Option<string>)

  /** What the source leaves to Python's libraries: how a hash that is not a string prints, and
      decoding a base64 JSON body, where None stands for a raised exception. */
  datatype Codec = Codec(render: Json -> string, decodeBody: Json -> Option<map<string, Json>>)

  /** What visiting a span comes to. `Raises` is an exception the loop does not catch. */
  datatype Built = Skips | Raises | Makes(brick: Brick)

  // ---------- scenario classification ----------

  datatype Classified = Scenario(value: Option<string>) | TypeError

  function ClassifyStatus(status: Json): Classified {
    if status.JNull? then Scenario(None)
    else if status.JStr? || status.JArray? || status.JObject? then TypeError
    else if Number(status).None? then Scenario(None)
    else
      var x := Number(status).value;
      Scenario(
        if 200.0 <= x < 300.0 then Some("success")
        else if x == 400.0 then Some("invalid_input")
        else if x == 401.0 then Some("unauthorized")
        else if x == 403.0 then Some("forbidden")
        else if x == 404.0 then Some("not_found")
        else if x == 409.0 then Some("conflict")
        else if x == 422.0 then Some("validation_error")
        else if 500.0 <= x < 600.0 then Some("server_error")
        else None)
  }

  function ClassifyCapture(payload: map<string, Json>, response: map<string, Json>): string {
    if GetOrNull(payload, "error") == JBool(true) then "server_error"
    else if "errors" in response then "invalid_input"
    else "success"
  }

  function ClassifyDb(errorType: Json): string {
    if errorType.JNull? then "success"
    else if errorType == JStr("IntegrityError") then "conflict"
    else "server_error"
  }

  // ---------- one span ----------

  function GetOr(fields: map<string, Json>, key: string, default: Json): Json {
    if key in fields then fields[key] else default
  }

  function Present(fields: map<string, Json>, key: string): Option<Json> {
    if GetOrNull(fields, key).JNull? then None else Some(GetOrNull(fields, key))
  }

  predicate WellShaped(payload: map<string, Json>) {
    && "request" in payload && "response" in payload && "content_hash" in payload
    && payload["request"].JObject? && payload["response"].JObject?
  }

  function ContentHash(codec: Codec, payload: map<string, Json>): string
    requires WellShaped(payload)
  {
    var h := payload["content_hash"];
    "sha256:" + (if h.JStr? then h.s else codec.render(h))
  }

  function Build(codec: Codec, trace: Trace, span: Span): Built {
    if !WellShaped(span.payload) then Skips
    else
      var request, response := span.payload["request"].fields, span.payload["response"].fields;
      var nanobarType := Present(span.payload, "nanobar_type");
      var brick := Brick(
        ContentHash(codec, span.payload), span.payload["request"], span.payload["response"], None,
        nanobarType, Present(span.payload, "route_key"),
        span.traceId, span.spanId, span.channel, trace.entryPoint, trace.appBox);
      if nanobarType == Some(JStr("orm-request-response")) then
        Makes(brick.(scenario := Some(ClassifyDb(GetOrNull(response, "error_type")))))
      else if nanobarType.Some? then
        Makes(brick.(scenario := Some(ClassifyCapture(span.payload, response))))
      else
        var requestBody := codec.decodeBody(GetOr(request, "body_b64", JStr("")));
        var responseBody := codec.decodeBody(GetOr(response, "body_b64", JStr("")));
        var scenario := ClassifyStatus(GetOrNull(response, "status_code"));
        if requestBody.None? || responseBody.None? || scenario.TypeError? then Raises
        else Makes(brick.(
          request := JObject(map[
            "method" := GetOrNull(request, "method"), "path" := GetOrNull(request, "path"),
            "headers" := GetOr(request, "headers", JObject(map[])),
            "query_params" := GetOr(request, "query_params", JObject(map[])),
            "payload" := JObject(requestBody.value)]),
          response := JObject(map[
            "status_code" := GetOrNull(response, "status_code"), "payload" := JObject(responseBody.value)]),
          scenario := scenario.value))
  }

  // ---------- the brick table ----------

  ghost predicate UniqueHashes(bricks: seq<Brick>) {
    forall i, j :: 0 <= i < j < |bricks| ==> bricks[i].contentHash != bricks[j].contentHash
  }

  ghost function Hashes(bricks: seq<Brick>): set<string> {
    set b | b in bricks :: b.contentHash
  }

  predicate Stored(bricks: seq<Brick>, hash: string) {
    exists i :: 0 <= i < |bricks| && bricks[i].contentHash == hash
  }

  function AddBrick(bricks: seq<Brick>, b: Brick): seq<Brick> {
    if Stored(bricks, b.contentHash) then bricks else bricks + [b]
  }

  /** What sqlite3 takes for a column of text: no list, no object, no integer of more than 64 bits. */
  predicate Bindable(v: Json) {
    match v
    case JInt(i) => -0x8000_0000_0000_0000 <= i < 0x8000_0000_0000_0000
    case JArray(_) => false
    case JObject(_) => false
    case _ => true
  }

  /** The type a brick was captured with need not be a string; storing one that sqlite3 does not take is
      an exception. */
  predicate Storable(b: Brick) {
    b.nanobarType.Some? ==> Bindable(b.nanobarType.value)
  }

  class BrickStore {
    var bricks: seq<Brick>

    constructor ()
      ensures bricks == []
    {
      bricks := [];
    }

    method GetByContentHash(hash: string) returns (found: Option<Brick>)
      ensures found.Some? <==> Stored(bricks, hash)
      ensures found.Some? ==> found.value in bricks && found.value.contentHash == hash
    {
      for i := 0 to |bricks|
        invariant forall j :: 0 <= j < i ==> bricks[j].contentHash != hash
      {
        if bricks[i].contentHash == hash {
          return Some(bricks[i]);
        }
      }
      return None;
    }

    /** The table's unique index on `content_hash` is the caller's to respect. Not `ok` is an exception. */
    method Create(b: Brick) returns (ok: bool)
      requires !Stored(bricks, b.contentHash)
      modifies this
      ensures ok <==> Storable(b)
      ensures bricks == if ok then old(bricks) + [b] else old(bricks)
    {
      if !Storable(b) {
        return false;
      }
      bricks := bricks + [b];
      return true;
    }
  }

  // ---------- visiting spans ----------

  ghost predicate Known(t: Tables, ids: seq<EventId>) {
    TracesExist(t) && forall e :: e in ids ==> e in t.spans
  }

  ghost function BuildAt(codec: Codec, t: Tables, e: EventId): Built
    requires TracesExist(t) && e in t.spans
  {
    Build(codec, t.traces[t.spans[e].traceId], t.spans[e])
  }

  /** The brick table after visiting spans in order, and whether some visit raised, which stops the loop. */
  datatype Progress = Progress(bricks: seq<Brick>, raised: bool)

  ghost function Visit(codec: Codec, t: Tables, bricks: seq<Brick>, ids: seq<EventId>): Progress
    requires Known(t, ids)
  {
    if ids == [] then Progress(bricks, false)
    else
      var n := |ids| - 1;
      VisitOne(codec, t, Visit(codec, t, bricks, ids[..n]), ids[n])
  }

  ghost function VisitOne(codec: Codec, t: Tables, p: Progress, e: EventId): Progress
    requires TracesExist(t) && e in t.spans
  {
    if p.raised then p else
    match BuildAt(codec, t, e)
    case Skips => p
    case Raises => p.(raised := true)
    case Makes(b) =>
      if !Stored(p.bricks, b.contentHash) && !Storable(b) then p.(raised := true)
      else p.(bricks := AddBrick(p.bricks, b))
  }

  ghost function HashesOf(codec: Codec, t: Tables, ids: set<EventId>): set<string>
    requires TracesExist(t) && forall e :: e in ids ==> e in t.spans
  {
    set e | e in ids && BuildAt(codec, t, e).Makes? :: BuildAt(codec, t, e).brick.contentHash
  }

  lemma AddBrickHashes(bricks: seq<Brick>, b: Brick)
    ensures Hashes(AddBrick(bricks, b)) == Hashes(bricks) + {b.contentHash}
    ensures UniqueHashes(bricks) ==> UniqueHashes(AddBrick(bricks, b))
    ensures bricks <= AddBrick(bricks, b)
  {
    if Stored(bricks, b.contentHash) {
      var i :| 0 <= i < |bricks| && bricks[i].contentHash == b.contentHash;
      assert bricks[i] in bricks;
    } else {
      assert Hashes(bricks + [b]) == Hashes(bricks) + {b.contentHash};
    }
  }

  /** A visit to the span raises as long as no brick of its hash is stored. */
  ghost predicate Stops(codec: Codec, t: Tables, bricks: seq<Brick>, e: EventId)
    requires TracesExist(t) && e in t.spans
  {
    match BuildAt(codec, t, e)
    case Skips => false
    case Raises => true
    case Makes(b) => !Storable(b) && b.contentHash !in Hashes(bricks)
  }

  /** The hashes of the bricks that visiting these spans can itself store. */
  ghost function StorableHashes(codec: Codec, t: Tables, ids: set<EventId>): set<string>
    requires TracesExist(t) && forall e :: e in ids ==> e in t.spans
  {
    set e | e in ids && BuildAt(codec, t, e).Makes? && Storable(BuildAt(codec, t, e).brick) ::
      BuildAt(codec, t, e).brick.contentHash
  }

  lemma StoredExactly(bricks: seq<Brick>, hash: string)
    ensures Stored(bricks, hash) <==> hash in Hashes(bricks)
  {
    if hash in Hashes(bricks) {
      var b :| b in bricks && b.contentHash == hash;
      var i :| 0 <= i < |bricks| && bricks[i] == b;
    }
  }

  ghost function HashAt(codec: Codec, t: Tables, e: EventId): set<string>
    requires TracesExist(t) && e in t.spans
  {
    if BuildAt(codec, t, e).Makes? then {BuildAt(codec, t, e).brick.contentHash} else {}
  }

  lemma VisitOneStores(codec: Codec, t: Tables, p: Progress, e: EventId)
    requires TracesExist(t) && e in t.spans
    ensures var q := VisitOne(codec, t, p, e);
            && p.bricks <= q.bricks && (UniqueHashes(p.bricks) ==> UniqueHashes(q.bricks))
            && Hashes(q.bricks) <= Hashes(p.bricks) + HashAt(codec, t, e)
            && (!q.raised ==> !p.raised && Hashes(q.bricks) == Hashes(p.bricks) + HashAt(codec, t, e))
  {
    if !p.raised && BuildAt(codec, t, e).Makes? {
      AddBrickHashes(p.bricks, BuildAt(codec, t, e).brick);
    }
  }

  /** Visiting keeps one brick per hash, never changes a stored brick, and, unless it raises, stores
      exactly the hashes of the well-shaped spans visited. */
  lemma {:induction false} VisitStoresHashes(codec: Codec, t: Tables, bricks: seq<Brick>, ids: seq<EventId>)
    requires Known(t, ids)
    ensures var p := Visit(codec, t, bricks, ids);
            && bricks <= p.bricks
            && (UniqueHashes(bricks) ==> UniqueHashes(p.bricks))
            && Hashes(p.bricks) <= Hashes(bricks) + HashesOf(codec, t, Elements(ids))
            && (!p.raised ==> Hashes(p.bricks) == Hashes(bricks) + HashesOf(codec, t, Elements(ids)))
  {
    if ids == [] {
      assert Elements(ids) == {};
    } else {
      var n := |ids| - 1;
      var front, e := ids[..n], ids[n];
      assert ids == front + [e];
      VisitStoresHashes(codec, t, bricks, front);
      HashesOfMore(codec, t, front, e);
      VisitOneStores(codec, t, Visit(codec, t, bricks, front), e);
    }
  }

  /** A visit that raises leaves a span that would raise again; one that does not has met none that
      raises whatever is stored. */
  lemma {:induction false} VisitRaises(codec: Codec, t: Tables, bricks: seq<Brick>, ids: seq<EventId>)
    requires Known(t, ids)
    ensures var p := Visit(codec, t, bricks, ids);
            if p.raised then exists e :: e in ids && Stops(codec, t, p.bricks, e)
            else forall e :: e in ids ==> !BuildAt(codec, t, e).Raises?
  {
    if ids != [] {
      var n := |ids| - 1;
      var front, e := ids[..n], ids[n];
      assert ids == front + [e];
      VisitRaises(codec, t, bricks, front);
      var p := Visit(codec, t, bricks, front);
      if p.raised {
        var x :| x in front && Stops(codec, t, p.bricks, x);
        assert x in ids;
      } else if Visit(codec, t, bricks, ids).raised {
        OnlyStopsRaise(codec, t, p.bricks, e);
        assert e in ids;
      }
    }
  }

  lemma OnlyStopsRaise(codec: Codec, t: Tables, bricks: seq<Brick>, e: EventId)
    requires TracesExist(t) && e in t.spans
    ensures var p := VisitOne(codec, t, Progress(bricks, false), e);
            (p.raised <==> Stops(codec, t, bricks, e)) && (p.raised ==> p.bricks == bricks)
  {
    if BuildAt(codec, t, e).Makes? {
      StoredExactly(bricks, BuildAt(codec, t, e).brick.contentHash);
    }
  }

  /** What a visit stores, it stores for a storable span; and one of these it stops at if it reaches a
      span whose hash none of them can store. */
  lemma {:induction false} VisitStoresOnlyStorable(codec: Codec, t: Tables, bricks: seq<Brick>, ids: seq<EventId>)
    requires Known(t, ids)
    ensures Hashes(Visit(codec, t, bricks, ids).bricks) <= Hashes(bricks) + StorableHashes(codec, t, Elements(ids))
  {
    if ids != [] {
      var n := |ids| - 1;
      var front, e := ids[..n], ids[n];
      assert ids == front + [e];
      VisitStoresOnlyStorable(codec, t, bricks, front);
      var p := Visit(codec, t, bricks, front);
      if !p.raised && BuildAt(codec, t, e).Makes? {
        AddBrickHashes(p.bricks, BuildAt(codec, t, e).brick);
        StoredExactly(p.bricks, BuildAt(codec, t, e).brick.contentHash);
      }
    }
  }

  /** A span that raises, or whose hash neither the table holds nor any of these spans can store. */
  ghost predicate Fatal(codec: Codec, t: Tables, bricks: seq<Brick>, ids: set<EventId>, e: EventId)
    requires TracesExist(t) && forall x :: x in ids ==> x in t.spans
  {
    e in ids && Stops(codec, t, bricks, e) &&
    (BuildAt(codec, t, e).Makes? ==> BuildAt(codec, t, e).brick.contentHash !in StorableHashes(codec, t, ids))
  }

  /** Whatever has been visited before, such a span stops the visit ... */
  lemma {:induction false} FatalStops(codec: Codec, t: Tables, bricks: seq<Brick>, visited: seq<EventId>,
                                      ids: set<EventId>, e: EventId)
    requires Known(t, visited) && (forall x :: x in ids ==> x in t.spans) && Elements(visited) <= ids
    requires Fatal(codec, t, bricks, ids, e) && e in visited
    ensures Visit(codec, t, bricks, visited).raised
  {
    var n := |visited| - 1;
    var front := visited[..n];
    assert visited == front + [visited[n]];
    assert Elements(front) <= ids;
    if e in front {
      FatalStops(codec, t, bricks, front, ids, e);
    } else {
      FatalStays(codec, t, bricks, front, ids, e);
    }
  }

  /** ... and goes on doing so. */
  lemma FatalStays(codec: Codec, t: Tables, bricks: seq<Brick>, visited: seq<EventId>, ids: set<EventId>, e: EventId)
    requires Known(t, visited) && (forall x :: x in ids ==> x in t.spans) && Elements(visited) <= ids
    requires Fatal(codec, t, bricks, ids, e)
    ensures Fatal(codec, t, Visit(codec, t, bricks, visited).bricks, ids, e)
    ensures VisitOne(codec, t, Progress(Visit(codec, t, bricks, visited).bricks, false), e).raised
  {
    VisitStoresOnlyStorable(codec, t, bricks, visited);
    var now := Visit(codec, t, bricks, visited).bricks;
    assert StorableHashes(codec, t, Elements(visited)) <= StorableHashes(codec, t, ids);
    OnlyStopsRaise(codec, t, now, e);
  }

  lemma HashesOfMore(codec: Codec, t: Tables, front: seq<EventId>, e: EventId)
    requires Known(t, front + [e])
    ensures HashesOf(codec, t, Elements(front + [e]))
         == HashesOf(codec, t, Elements(front))
            + HashAt(codec, t, e)
  {
    assert Elements(front + [e]) == Elements(front) + {e};
  }

  // ---------- crash and rerun over the same spans ----------

  /** A visit of spans whose hashes are all stored already changes nothing. */
  lemma {:induction false} RevisitAddsNothing(codec: Codec, t: Tables, bricks: seq<Brick>, ids: seq<EventId>)
    requires Known(t, ids) && HashesOf(codec, t, Elements(ids)) <= Hashes(bricks)
    requires forall e :: e in ids ==> !BuildAt(codec, t, e).Raises?
    ensures Visit(codec, t, bricks, ids) == Progress(bricks, false)
  {
    if ids != [] {
      var n := |ids| - 1;
      var front, e := ids[..n], ids[n];
      assert ids == front + [e];
      HashesOfMore(codec, t, front, e);
      RevisitAddsNothing(codec, t, bricks, front);
      if BuildAt(codec, t, e).Makes? {
        var h := BuildAt(codec, t, e).brick.contentHash;
        var b :| b in bricks && b.contentHash == h;
        var i :| 0 <= i < |bricks| && bricks[i] == b;
        assert Stored(bricks, h);
      }
    }
  }

  lemma {:induction false} VisitSplit(codec: Codec, t: Tables, bricks: seq<Brick>, a: seq<EventId>, b: seq<EventId>)
    requires Known(t, a + b) && !Visit(codec, t, bricks, a).raised
    ensures Visit(codec, t, bricks, a + b) == Visit(codec, t, Visit(codec, t, bricks, a).bricks, b)
  {
    if b == [] {
      assert a + b == a;
    } else {
      var n := |b| - 1;
      assert (a + b)[..|a + b| - 1] == a + b[..n];
      VisitSplit(codec, t, bricks, a, b[..n]);
    }
  }

  /** Bricks are committed one by one and spans marked only at the end: a crash after any number of
      visits, followed by a rerun over the same spans, ends with the very bricks of an uninterrupted
      call, and raises where that would. */
  lemma CrashThenRerun(codec: Codec, t: Tables, bricks: seq<Brick>, ids: seq<EventId>, k: nat)
    requires Known(t, ids) && k <= |ids| && !Visit(codec, t, bricks, ids[..k]).raised
    ensures Visit(codec, t, Visit(codec, t, bricks, ids[..k]).bricks, ids) == Visit(codec, t, bricks, ids)
  {
    var done, rest := ids[..k], ids[k..];
    assert ids == done + rest;
    var bricks' := Visit(codec, t, bricks, done).bricks;
    VisitStoresHashes(codec, t, bricks, done);
    VisitRaises(codec, t, bricks, done);
    RevisitAddsNothing(codec, t, bricks', done);
    VisitSplit(codec, t, bricks, done, rest);
    VisitSplit(codec, t, bricks', done, rest);
  }
}
