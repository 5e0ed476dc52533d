/** What a regression brick holds of the span it was made from, column by column, and which span that is. */
module BrickContents {
  import opened Options
  import opened OrderedSelect
  import opened Json
  import opened Telemetry
  import opened Generate

  // ---------- the columns of a brick ----------

  predicate Shaped(payload: map<string, Json>) {
    && "request" in payload && payload["request"].JObject? && "response" in payload && payload["response"].JObject?
    && "content_hash" in payload
  }

  /** The hash a span's brick is stored under: a captured string goes in as it is. */
  predicate HashIs(codec: Codec, payload: map<string, Json>, hash: string)
    requires Shaped(payload)
  {
    match payload["content_hash"]
    case JStr(h) => hash == "sha256:" + h
    case other => hash == "sha256:" + codec.render(other)
  }

  predicate AbsentOrNull(fields: map<string, Json>, key: string) {
    key !in fields || fields[key] == JNull
  }

  /** An optional column is NULL exactly when the payload has nothing, or null, under the key. */
  predicate ColumnIs(column: Option<Json>, payload: map<string, Json>, key: string) {
    if AbsentOrNull(payload, key) then column == None else column == Some(payload[key])
  }

  /** The scenario of a status code written as an integer or a float: Python compares them alike. */
  predicate StatusScenario(status: Json, scenario: Option<string>) {
    match status
    case JInt(i) => ScenarioOf(i as real, scenario)
    case JFloat(Finite(r)) => ScenarioOf(r, scenario)
    case JStr(_) => false
    case JArray(_) => false
    case JObject(_) => false
    case _ => scenario == None
  }

  predicate ScenarioOf(x: real, scenario: Option<string>) {
    match scenario
    case Some(name) =>
      || (name == "success" && 200.0 <= x < 300.0)
      || (name == "invalid_input" && x == 400.0)
      || (name == "unauthorized" && x == 401.0)
      || (name == "forbidden" && x == 403.0)
      || (name == "not_found" && x == 404.0)
      || (name == "conflict" && x == 409.0)
      || (name == "validation_error" && x == 422.0)
      || (name == "server_error" && 500.0 <= x < 600.0)
    case None =>
      && !(200.0 <= x < 300.0) && x != 400.0 && x != 401.0 && x != 403.0 && x != 404.0 && x != 409.0 && x != 422.0
      && !(500.0 <= x < 600.0)
  }

  /** The scenario of a captured layer: of the ORM by the exception's name, of any other by the error flag
      and the shape of the response. */
  predicate CaptureScenario(payload: map<string, Json>, scenario: string)
    requires Shaped(payload) && !AbsentOrNull(payload, "nanobar_type")
  {
    var response := payload["response"].fields;
    if payload["nanobar_type"] == JStr("orm-request-response") then
      if AbsentOrNull(response, "error_type") then scenario == "success"
      else if response["error_type"] == JStr("IntegrityError") then scenario == "conflict"
      else scenario == "server_error"
    else if "error" in payload && payload["error"] == JBool(true) then scenario == "server_error"
    else if "errors" in response then scenario == "invalid_input"
    else scenario == "success"
  }

  predicate FieldIs(v: Json, fields: map<string, Json>, key: string, default: Json) {
    if key in fields then v == fields[key] else v == default
  }

  predicate BodyIs(codec: Codec, v: Json, fields: map<string, Json>) {
    v.JObject? && codec.decodeBody(if "body_b64" in fields then fields["body_b64"] else JStr("")) == Some(v.fields)
  }

  predicate RequestIs(codec: Codec, v: Json, request: map<string, Json>) {
    && v.JObject? && v.fields.Keys == {"method", "path", "headers", "query_params", "payload"}
    && FieldIs(v.fields["method"], request, "method", JNull) && FieldIs(v.fields["path"], request, "path", JNull)
    && FieldIs(v.fields["headers"], request, "headers", JObject(map[]))
    && FieldIs(v.fields["query_params"], request, "query_params", JObject(map[]))
    && BodyIs(codec, v.fields["payload"], request)
  }

  predicate ResponseIs(codec: Codec, v: Json, response: map<string, Json>) {
    && v.JObject? && v.fields.Keys == {"status_code", "payload"}
    && FieldIs(v.fields["status_code"], response, "status_code", JNull)
    && BodyIs(codec, v.fields["payload"], response)
  }

  /** The columns that do not depend on the kind of capture. */
  predicate Identifies(b: Brick, trace: Trace, span: Span) {
    && b.traceId == span.traceId && b.spanId == span.spanId && b.channel == span.channel
    && b.entryPoint == trace.entryPoint && b.appBox == trace.appBox
    && ColumnIs(b.nanobarType, span.payload, "nanobar_type") && ColumnIs(b.routeKey, span.payload, "route_key")
  }

  predicate Depicts(codec: Codec, b: Brick, trace: Trace, span: Span) {
    && Shaped(span.payload) && HashIs(codec, span.payload, b.contentHash) && Identifies(b, trace, span)
    && if AbsentOrNull(span.payload, "nanobar_type") then
         var request, response := span.payload["request"].fields, span.payload["response"].fields;
         && RequestIs(codec, b.request, request) && ResponseIs(codec, b.response, response)
         && StatusScenario(b.response.fields["status_code"], b.scenario)
       else
         && b.request == span.payload["request"] && b.response == span.payload["response"]
         && b.scenario.Some? && CaptureScenario(span.payload, b.scenario.value)
  }

  lemma StatusClassified(status: Json)
    ensures var c := ClassifyStatus(status);
            if c.TypeError? then status.JStr? || status.JArray? || status.JObject?
            else StatusScenario(status, c.value)
  {
  }

  lemma DecodedBody(codec: Codec, fields: map<string, Json>, decoded: map<string, Json>)
    requires codec.decodeBody(GetOr(fields, "body_b64", JStr(""))) == Some(decoded)
    ensures BodyIs(codec, JObject(decoded), fields)
  {
  }

  lemma IdentifiesItsSpan(codec: Codec, trace: Trace, span: Span)
    requires Build(codec, trace, span).Makes?
    ensures var b := Build(codec, trace, span).brick;
            Shaped(span.payload) && HashIs(codec, span.payload, b.contentHash) && Identifies(b, trace, span)
  {
  }

  lemma RequestDepicted(codec: Codec, trace: Trace, span: Span)
    requires Build(codec, trace, span).Makes? && AbsentOrNull(span.payload, "nanobar_type")
    ensures RequestIs(codec, Build(codec, trace, span).brick.request, span.payload["request"].fields)
  {
    var request := span.payload["request"].fields;
    DecodedBody(codec, request, codec.decodeBody(GetOr(request, "body_b64", JStr(""))).value);
  }

  lemma ResponseDepicted(codec: Codec, trace: Trace, span: Span)
    requires Build(codec, trace, span).Makes? && AbsentOrNull(span.payload, "nanobar_type")
    ensures var b, response := Build(codec, trace, span).brick, span.payload["response"].fields;
            ResponseIs(codec, b.response, response) && StatusScenario(b.response.fields["status_code"], b.scenario)
  {
    var response := span.payload["response"].fields;
    StatusClassified(GetOrNull(response, "status_code"));
    DecodedBody(codec, response, codec.decodeBody(GetOr(response, "body_b64", JStr(""))).value);
  }

  lemma SnapshotDepicted(codec: Codec, trace: Trace, span: Span)
    requires Build(codec, trace, span).Makes? && AbsentOrNull(span.payload, "nanobar_type")
    ensures Depicts(codec, Build(codec, trace, span).brick, trace, span)
  {
    IdentifiesItsSpan(codec, trace, span);
    RequestDepicted(codec, trace, span);
    ResponseDepicted(codec, trace, span);
  }

  lemma CaptureDepicted(codec: Codec, trace: Trace, span: Span)
    requires Build(codec, trace, span).Makes? && !AbsentOrNull(span.payload, "nanobar_type")
    ensures Depicts(codec, Build(codec, trace, span).brick, trace, span)
  {
    IdentifiesItsSpan(codec, trace, span);
  }

  /** A span is skipped exactly when it is not well-shaped, and a brick made of it depicts it. */
  lemma BuiltAsDepicted(codec: Codec, trace: Trace, span: Span)
    ensures Build(codec, trace, span).Skips? <==> !Shaped(span.payload)
    ensures Build(codec, trace, span).Makes? ==> Depicts(codec, Build(codec, trace, span).brick, trace, span)
  {
    if Build(codec, trace, span).Makes? {
      if AbsentOrNull(span.payload, "nanobar_type") {
        SnapshotDepicted(codec, trace, span);
      } else {
        CaptureDepicted(codec, trace, span);
      }
    }
  }

  /** Two spans with captured strings for hashes are one brick exactly when the strings are the same. */
  lemma HashesTellApart(codec: Codec, p: map<string, Json>, q: map<string, Json>, h: string, k: string)
    requires Shaped(p) && Shaped(q) && p["content_hash"].JStr? && q["content_hash"].JStr?
    requires HashIs(codec, p, h) && HashIs(codec, q, k)
    ensures h == k <==> p["content_hash"].s == q["content_hash"].s
  {
    assert h[7..] == p["content_hash"].s && k[7..] == q["content_hash"].s;
  }

  // ---------- which visits raise ----------

  predicate BodyFails(codec: Codec, fields: map<string, Json>) {
    codec.decodeBody(if "body_b64" in fields then fields["body_b64"] else JStr("")).None?
  }

  /** What Python cannot compare with a number. */
  predicate StatusFails(response: map<string, Json>) {
    "status_code" in response &&
    match response["status_code"] case JStr(_) => true case JArray(_) => true case JObject(_) => true case _ => false
  }

  /** What sqlite3 does not take for a column of text. */
  predicate TypeFails(ty: Json) {
    match ty
    case JArray(_) => true
    case JObject(_) => true
    case JInt(i) => i < -9223372036854775808 || i > 9223372036854775807
    case _ => false
  }

  /** Exactly which visits abort the whole call: those of a well-shaped HTTP snapshot with an undecodable
      body or a status code that is a string, a list or an object, and those of a well-shaped capture whose
      type is a list, an object or an integer of more than 64 bits, unless a brick of its hash is stored
      already. */
  lemma RaisesExactly(codec: Codec, t: Tables, bricks: seq<Brick>, e: EventId)
    requires TracesExist(t) && e in t.spans
    ensures VisitOne(codec, t, Progress(bricks, false), e).raised <==>
              var payload := t.spans[e].payload;
              && Shaped(payload)
              && if AbsentOrNull(payload, "nanobar_type") then
                   || BodyFails(codec, payload["request"].fields) || BodyFails(codec, payload["response"].fields)
                   || StatusFails(payload["response"].fields)
                 else
                   && TypeFails(payload["nanobar_type"])
                   && !exists b :: b in bricks && HashIs(codec, payload, b.contentHash)
  {
    OnlyStopsRaise(codec, t, bricks, e);
    var trace, span := t.traces[t.spans[e].traceId], t.spans[e];
    if Shaped(span.payload) {
      HashIsContentHash(codec, span.payload);
      StatusClassified(GetOrNull(span.payload["response"].fields, "status_code"));
      if BuildAt(codec, t, e).Makes? {
        IdentifiesItsSpan(codec, trace, span);
      }
    }
  }

  lemma HashIsContentHash(codec: Codec, payload: map<string, Json>)
    requires Shaped(payload)
    ensures forall h :: HashIs(codec, payload, h) <==> h == ContentHash(codec, payload)
  {
  }

  // ---------- which spans the stored bricks depict ----------

  ghost predicate DepictsAt(codec: Codec, t: Tables, b: Brick, e: EventId)
    requires TracesExist(t) && e in t.spans
  {
    Depicts(codec, b, t.traces[t.spans[e].traceId], t.spans[e])
  }

  ghost predicate HasHash(codec: Codec, t: Tables, e: EventId, hash: string) {
    e in t.spans && Shaped(t.spans[e].payload) && HashIs(codec, t.spans[e].payload, hash)
  }

  /** The brick was made of the k-th span visited, and no earlier one has its hash. */
  ghost predicate MadeOf(codec: Codec, t: Tables, ids: seq<EventId>, b: Brick, k: int) {
    && Known(t, ids) && 0 <= k < |ids| && DepictsAt(codec, t, b, ids[k])
    && forall j :: 0 <= j < k ==> !HasHash(codec, t, ids[j], b.contentHash)
  }

  ghost predicate Added(codec: Codec, t: Tables, b0: seq<Brick>, ids: seq<EventId>, b: Brick) {
    b.contentHash !in Hashes(b0) && exists k :: MadeOf(codec, t, ids, b, k)
  }

  /** The table keeps the bricks it had. Each one added is made of the first span visited that has its hash,
      which no brick had before; and if nothing raised there is one for every well-shaped span visited. */
  ghost predicate StoresVisited(codec: Codec, t: Tables, b0: seq<Brick>, b1: seq<Brick>, raised: bool,
                                ids: seq<EventId>)
  {
    && Known(t, ids) && b0 <= b1
    && (forall i :: |b0| <= i < |b1| ==> Added(codec, t, b0, ids, b1[i]))
    && (!raised ==> forall e, h :: e in ids && HasHash(codec, t, e, h) ==> h in Hashes(b1))
  }

  lemma MadeOfMore(codec: Codec, t: Tables, ids: seq<EventId>, e: EventId, b: Brick, k: int)
    requires Known(t, ids + [e]) && MadeOf(codec, t, ids, b, k)
    ensures MadeOf(codec, t, ids + [e], b, k)
  {
    assert forall j :: 0 <= j <= k ==> (ids + [e])[j] == ids[j];
  }

  /** A span that makes a brick of a hash not stored yet. */
  lemma NewIsMadeOf(codec: Codec, t: Tables, b0: seq<Brick>, b1: seq<Brick>, ids: seq<EventId>, e: EventId)
    requires StoresVisited(codec, t, b0, b1, false, ids) && e in t.spans && BuildAt(codec, t, e).Makes?
    requires BuildAt(codec, t, e).brick.contentHash !in Hashes(b1)
    ensures Known(t, ids + [e]) && MadeOf(codec, t, ids + [e], BuildAt(codec, t, e).brick, |ids|)
    ensures BuildAt(codec, t, e).brick.contentHash !in Hashes(b0)
  {
    BuiltAsDepicted(codec, t.traces[t.spans[e].traceId], t.spans[e]);
    assert forall b :: b in b0 ==> b in b1;
    assert (ids + [e])[|ids|] == e && forall j :: 0 <= j < |ids| ==> (ids + [e])[j] == ids[j];
  }

  lemma HashOfBuilt(codec: Codec, t: Tables, e: EventId, h: string)
    requires TracesExist(t) && HasHash(codec, t, e, h)
    ensures !BuildAt(codec, t, e).Skips?
    ensures BuildAt(codec, t, e).Makes? ==> h == BuildAt(codec, t, e).brick.contentHash
  {
    BuiltAsDepicted(codec, t.traces[t.spans[e].traceId], t.spans[e]);
  }

  lemma OneMoreVisited(codec: Codec, t: Tables, b0: seq<Brick>, p: Progress, ids: seq<EventId>, e: EventId)
    requires StoresVisited(codec, t, b0, p.bricks, p.raised, ids) && e in t.spans
    ensures var q := VisitOne(codec, t, p, e); StoresVisited(codec, t, b0, q.bricks, q.raised, ids + [e])
  {
    var q := VisitOne(codec, t, p, e);
    VisitOneStores(codec, t, p, e);
    assert Known(t, ids + [e]);
    forall i | |b0| <= i < |q.bricks| ensures Added(codec, t, b0, ids + [e], q.bricks[i]) {
      if i < |p.bricks| {
        assert Added(codec, t, b0, ids, p.bricks[i]);
        var k :| MadeOf(codec, t, ids, p.bricks[i], k);
        MadeOfMore(codec, t, ids, e, p.bricks[i], k);
      } else {
        StoredExactly(p.bricks, BuildAt(codec, t, e).brick.contentHash);
        NewIsMadeOf(codec, t, b0, p.bricks, ids, e);
      }
    }
    if !q.raised {
      forall x, h | x in ids + [e] && HasHash(codec, t, x, h) ensures h in Hashes(q.bricks) {
        if x in ids {
          assert h in Hashes(p.bricks);
          assert forall b :: b in p.bricks ==> b in q.bricks;
        } else {
          HashOfBuilt(codec, t, e, h);
        }
      }
    }
  }

  lemma {:induction false} VisitStoresVisited(codec: Codec, t: Tables, bricks: seq<Brick>, ids: seq<EventId>)
    requires Known(t, ids)
    ensures var p := Visit(codec, t, bricks, ids); StoresVisited(codec, t, bricks, p.bricks, p.raised, ids)
  {
    if ids != [] {
      var n := |ids| - 1;
      var front, e := ids[..n], ids[n];
      assert ids == front + [e];
      VisitStoresVisited(codec, t, bricks, front);
      OneMoreVisited(codec, t, bricks, Visit(codec, t, bricks, front), front, e);
    }
  }
}
