/** Classifying span names into component tags and back: `derive_component` and `component_span_name`
    in `eventbus/store.py`, and the `"kind:name"` facets built from them. */
module SpanNames {
  import opened Options

  const WORKER_PREFIX := "worker."
  const WORKER_SUFFIX := ".process"
  const CONTROLLER_PREFIX := "controller."
  const VALIDATOR_PREFIX := "validator."
  const EVENT_CALLBACK_PREFIX := "event-callback."

  datatype Component = Component(kind: string, name: string)

  predicate StartsWith(s: string, prefix: string) {
    |prefix| <= |s| && s[..|prefix|] == prefix
  }

  predicate EndsWith(s: string, suffix: string) {
    |suffix| <= |s| && s[|s| - |suffix|..] == suffix
  }

  /** `s[i:j]` as Python reads it: empty when the bounds cross. */
  function Slice(s: string, i: nat, j: int): string
    requires j <= |s|
  {
    if i <= j then s[i..j] else ""
  }

  /** The position of the first `c`, or the length when there is none. */
  function FirstIndex(s: string, c: char): (i: nat)
    ensures i <= |s| && (i < |s| ==> s[i] == c)
    ensures forall j :: 0 <= j < i ==> s[j] != c
    ensures i < |s| <==> c in s
  {
    if s == "" then 0 else if s[0] == c then 0 else 1 + FirstIndex(s[1..], c)
  }

  /** `s.split(" ", 1)[0]`, when there is a space. */
  function BeforeSpace(s: string): string {
    s[..FirstIndex(s, ' ')]
  }

  function Derive(spanName: string): Component {
    if spanName == "service" then Component("service", "service")
    else if StartsWith(spanName, CONTROLLER_PREFIX) then Component("controller", spanName[|CONTROLLER_PREFIX|..])
    else if StartsWith(spanName, VALIDATOR_PREFIX) then Component("validator", spanName[|VALIDATOR_PREFIX|..])
    else if StartsWith(spanName, WORKER_PREFIX) && EndsWith(spanName, WORKER_SUFFIX) then
      Component("worker", Slice(spanName, |WORKER_PREFIX|, |spanName| - |WORKER_SUFFIX|))
    else if StartsWith(spanName, EVENT_CALLBACK_PREFIX) then Component("event", spanName[|EVENT_CALLBACK_PREFIX|..])
    else if ' ' in spanName && '.' !in BeforeSpace(spanName) then Component("api", spanName)
    else Component("other", spanName)
  }

  function ComponentSpanName(kind: string, name: string): Option<string> {
    if kind == "api" || kind == "other" then Some(name)
    else if kind == "controller" then Some(CONTROLLER_PREFIX + name)
    else if kind == "validator" then Some(VALIDATOR_PREFIX + name)
    else if kind == "worker" then Some(WORKER_PREFIX + name + WORKER_SUFFIX)
    else if kind == "event" then Some(EVENT_CALLBACK_PREFIX + name)
    else if kind == "service" then Some("service")
    else None
  }

  /** The facet a dashboard shows: `"kind:name"`. */
  function Facet(spanName: string): string {
    var c := Derive(spanName);
    c.kind + ":" + c.name
  }

  /** `_component_span_name`: split at the first colon and rebuild the span name. */
  function FacetSpanName(component: string): Option<string> {
    var i := FirstIndex(component, ':');
    var name := if i < |component| then component[i + 1..] else "";
    ComponentSpanName(component[..i], name)
  }

  // ---------- the tags, name by name ----------

  lemma PrefixStripped(prefix: string, rest: string)
    ensures StartsWith(prefix + rest, prefix) && (prefix + rest)[|prefix|..] == rest
  {
  }

  /** Which kind a name is of, and what is left of it. */
  lemma KindsByPrefix(rest: string)
    ensures Derive("service") == Component("service", "service")
    ensures Derive("controller." + rest) == Component("controller", rest)
    ensures Derive("validator." + rest) == Component("validator", rest)
    ensures Derive("event-callback." + rest) == Component("event", rest)
  {
    PrefixStripped("controller.", rest);
    PrefixStripped("validator.", rest);
    PrefixStripped("event-callback.", rest);
    assert ("controller." + rest)[0] == 'c' && ("validator." + rest)[0] == 'v' && ("event-callback." + rest)[0] == 'e';
    assert "service"[0] == 's' && CONTROLLER_PREFIX[0] == 'c' && VALIDATOR_PREFIX[0] == 'v' && WORKER_PREFIX[0] == 'w';
  }

  lemma WorkerKind(channel: string)
    ensures Derive("worker." + channel + ".process") == Component("worker", channel)
  {
    var s := "worker." + channel + ".process";
    assert s == "worker." + (channel + ".process");
    PrefixStripped("worker.", channel + ".process");
    assert s[|s| - 8..] == ".process";
    assert s[0] == 'w' && CONTROLLER_PREFIX[0] == 'c' && VALIDATOR_PREFIX[0] == 'v' && "service"[0] == 's';
    assert s[7..|s| - 8] == channel;
  }

  /** The name has a first word, ended by a space, and no dot in it: a method and a route. */
  predicate FirstWordHasNoDot(s: string) {
    exists k :: 0 <= k < |s| && s[k] == ' ' && forall j :: 0 <= j < k ==> s[j] != ' ' && s[j] != '.'
  }

  /** Every other name is its own tag, of kind api or other. */
  lemma OtherKinds(s: string)
    requires s != "service" && !("controller." <= s) && !("validator." <= s) && !("event-callback." <= s)
    requires !("worker." <= s && |s| >= 8 && s[|s| - 8..] == ".process")
    ensures Derive(s) == Component(if FirstWordHasNoDot(s) then "api" else "other", s)
  {
    var i := FirstIndex(s, ' ');
    if FirstWordHasNoDot(s) {
      var k :| 0 <= k < |s| && s[k] == ' ' && forall j :: 0 <= j < k ==> s[j] != ' ' && s[j] != '.';
      assert i == k;
    }
    assert WORKER_SUFFIX == ".process" && |WORKER_SUFFIX| == 8;
  }

  /** The span name of a tag, kind by kind; any other kind has none. */
  lemma SpanNamesByKind(kind: string, name: string)
    ensures ComponentSpanName("api", name) == ComponentSpanName("other", name) == Some(name)
    ensures ComponentSpanName("controller", name) == Some("controller." + name)
    ensures ComponentSpanName("validator", name) == Some("validator." + name)
    ensures ComponentSpanName("worker", name) == Some("worker." + name + ".process")
    ensures ComponentSpanName("event", name) == Some("event-callback." + name)
    ensures ComponentSpanName("service", name) == Some("service")
    ensures kind !in {"api", "other", "controller", "validator", "worker", "event", "service"} ==>
              ComponentSpanName(kind, name) == None
  {
    assert "api"[0] == 'a' && "other"[0] == 'o' && "controller"[0] == 'c' && "validator"[0] == 'v';
    assert "worker"[0] == 'w' && "event"[0] == 'e' && "service"[0] == 's';
  }

  /** The one name whose `worker.` and `.process` share their dot. */
  const OVERLAPPING := "worker.process"

  lemma OverlapIsOneName(s: string)
    requires StartsWith(s, WORKER_PREFIX) && EndsWith(s, WORKER_SUFFIX)
    ensures |s| < |WORKER_PREFIX| + |WORKER_SUFFIX| <==> s == OVERLAPPING
  {
    var p, q := WORKER_PREFIX, WORKER_SUFFIX;
    if |s| < |p| + |q| {
      var k := |s| - |q|;
      assert forall i :: 0 <= i < |p| ==> s[i] == p[i];
      assert forall i :: 0 <= i < |q| ==> s[k + i] == s[k..][i] == q[i];
      assert s[0] == 'w' && s[6] == '.';
      assert s[k] == '.';
      assert k != 0 && k != 1 && k != 2 && k != 3 && k != 4 && k != 5 by {
        assert p[0] != '.' && p[1] != '.' && p[2] != '.' && p[3] != '.' && p[4] != '.' && p[5] != '.';
      }
      assert k == 6;
      assert s == s[..7] + s[7..];
      assert s[7..] == s[6..][1..] == q[1..];
      assert p + q[1..] == OVERLAPPING;
    }
  }

  lemma Rebuild(s: string, prefix: string)
    requires StartsWith(s, prefix)
    ensures prefix + s[|prefix|..] == s
  {
  }

  lemma RebuildWorker(s: string)
    requires StartsWith(s, WORKER_PREFIX) && EndsWith(s, WORKER_SUFFIX)
    ensures WORKER_PREFIX + Slice(s, |WORKER_PREFIX|, |s| - |WORKER_SUFFIX|) + WORKER_SUFFIX == s <==> s != OVERLAPPING
  {
    OverlapIsOneName(s);
    if s != OVERLAPPING {
      var i, j := |WORKER_PREFIX|, |s| - |WORKER_SUFFIX|;
      assert s == s[..i] + s[i..j] + s[j..];
    }
  }

  /** Codec: rebuilding the span name from its tag gives the original back for every name but one. */
  lemma TagRoundTrip(s: string)
    ensures ComponentSpanName(Derive(s).kind, Derive(s).name) == Some(s) <==> s != OVERLAPPING
  {
    if StartsWith(s, CONTROLLER_PREFIX) {
      Rebuild(s, CONTROLLER_PREFIX);
      assert s[0] == 'c';
    } else if StartsWith(s, VALIDATOR_PREFIX) {
      Rebuild(s, VALIDATOR_PREFIX);
      assert s[0] == 'v';
    } else if StartsWith(s, WORKER_PREFIX) && EndsWith(s, WORKER_SUFFIX) {
      RebuildWorker(s);
    } else {
      assert s != OVERLAPPING by {
        assert StartsWith(OVERLAPPING, WORKER_PREFIX);
        assert OVERLAPPING[6..] == WORKER_SUFFIX;
      }
      if StartsWith(s, EVENT_CALLBACK_PREFIX) {
        Rebuild(s, EVENT_CALLBACK_PREFIX);
      }
    }
  }

  /** No kind contains a colon, so the first colon of a facet ends its kind. */
  lemma FacetSplits(s: string)
    ensures FacetSpanName(Facet(s)) == ComponentSpanName(Derive(s).kind, Derive(s).name)
  {
    KindHasNoColon(s);
    SplitsAtFirstColon(Derive(s).kind, Derive(s).name);
  }

  lemma KindHasNoColon(s: string)
    ensures ':' !in Derive(s).kind
  {
  }

  lemma SplitsAtFirstColon(kind: string, name: string)
    requires ':' !in kind
    ensures FacetSpanName(kind + ":" + name) == ComponentSpanName(kind, name)
  {
    var facet := kind + ":" + name;
    var i := FirstIndex(facet, ':');
    assert facet[|kind|] == ':';
    assert forall j :: 0 <= j < |kind| ==> facet[j] == kind[j];
    assert i == |kind|;
    assert facet[..i] == kind && facet[i + 1..] == name;
  }

  /** Without a colon there is no name. */
  lemma NoColonMeansNoName(component: string)
    requires ':' !in component
    ensures FacetSpanName(component) == ComponentSpanName(component, "")
  {
    assert component[..|component|] == component;
  }

  /** The printed facet, split at its first colon and rebuilt, is the original span name for every name
      but one. */
  lemma FacetRoundTrip(s: string)
    ensures FacetSpanName(Facet(s)) == Some(s) <==> s != OVERLAPPING
  {
    FacetSplits(s);
    TagRoundTrip(s);
  }

  /** A filter on one facet selects the spans whose name is the facet's span name. */
  predicate Selected(facet: string, spanName: string) {
    FacetSpanName(facet) == Some(spanName)
  }

  /** Filtering by a facet that some span shows selects exactly the spans that show it, save that it
      never selects the overlapping name. */
  lemma FilterSelectsItsFacet(shown: string, spanName: string)
    ensures Selected(Facet(shown), spanName) <==> Facet(spanName) == Facet(shown) && spanName != OVERLAPPING
  {
    FacetRoundTrip(shown);
    FacetRoundTrip(spanName);
    if shown == OVERLAPPING {
      OverlappingFacet();
      if Selected(Facet(shown), spanName) {
        FacetRoundTrip("worker..process");
      }
    }
  }

  /** The overlapping name shows the facet of `worker..process`. */
  lemma OverlappingFacet()
    ensures Facet(OVERLAPPING) == Facet("worker..process")
    ensures FacetSpanName(Facet(OVERLAPPING)) == Some("worker..process")
  {
    var s, t := OVERLAPPING, "worker..process";
    assert StartsWith(s, WORKER_PREFIX) && StartsWith(t, WORKER_PREFIX);
    assert s[6..] == WORKER_SUFFIX && t[7..] == WORKER_SUFFIX;
    assert EndsWith(s, WORKER_SUFFIX) && EndsWith(t, WORKER_SUFFIX);
    assert s[0] == 'w' && t[0] == 'w' && CONTROLLER_PREFIX[0] == 'c' && VALIDATOR_PREFIX[0] == 'v';
    assert Derive(s) == Component("worker", "") && Derive(t) == Component("worker", "");
    FacetRoundTrip(t);
  }
}
