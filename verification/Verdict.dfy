/** `nanobar_api/bricks/verdict.py`: the structural diff behind a replay verdict. */
module Verdict {
  import opened Options
  import opened Json
  import opened Schema
  import opened SortedKeys

  datatype Segment = Key(name: string) | Index(i: nat)

  datatype Difference =
    | OnlyInBrick
    | OnlyInReplay
    | Lengths(brickLength: nat, replayedLength: nat)
    | Values(brick: Json, replayed: Json)

  /** One reported line: where, and how the two sides differ there. */
  datatype Line = Line(path: seq<Segment>, what: Difference)

  // ---------- Python's == on what the diff compares ----------

  predicate IsNaN(v: Json) {
    v == JFloat(NaN)
  }

  /** `==` on two values that are not both objects and not both arrays. NaN equals nothing. */
  predicate ScalarEqual(a: Json, b: Json) {
    if Number(a).Some? || Number(b).Some? then Number(a) == Number(b)
    else if a.JObject? || b.JObject? || a.JArray? || b.JArray? then false
    else a == b && !IsNaN(a)
  }

  // ---------- the diff ----------

  ghost function Diff(a: Json, b: Json, path: seq<Segment>, hidden: set<string>): seq<Line>
    decreases a, 1, 0
  {
    if a.JObject? && b.JObject? then DiffKeys(a, b, Sorted(a.fields.Keys + b.fields.Keys), path, hidden)
    else if a.JArray? && b.JArray? then
      if |a.items| != |b.items| then [Line(path, Lengths(|a.items|, |b.items|))]
      else DiffItems(a, b, |a.items|, path, hidden)
    else if ScalarEqual(a, b) then []
    else [Line(path, Values(a, b))]
  }

  /** The first `n` items, in order. */
  ghost function DiffItems(a: Json, b: Json, n: nat, path: seq<Segment>, hidden: set<string>): seq<Line>
    requires a.JArray? && b.JArray? && n <= |a.items| == |b.items|
    decreases a, 0, n
  {
    if n == 0 then []
    else DiffItems(a, b, n - 1, path, hidden) + Diff(a.items[n - 1], b.items[n - 1], path + [Index(n - 1)], hidden)
  }

  ghost function DiffKeys(a: Json, b: Json, keys: seq<string>, path: seq<Segment>, hidden: set<string>): seq<Line>
    requires a.JObject? && b.JObject?
    decreases a, 0, |keys|
  {
    if keys == [] then []
    else
      var n := |keys| - 1;
      DiffKeys(a, b, keys[..n], path, hidden) + DiffKey(a, b, keys[n], path, hidden)
  }

  ghost function DiffKey(a: Json, b: Json, key: string, path: seq<Segment>, hidden: set<string>): seq<Line>
    requires a.JObject? && b.JObject?
    decreases a, 0, 0
  {
    var here := path + [Key(key)];
    if key in a.fields && key !in b.fields then [Line(here, OnlyInBrick)]
    else if key !in a.fields && key in b.fields then [Line(here, OnlyInReplay)]
    else if key in a.fields && key !in hidden then Diff(a.fields[key], b.fields[key], here, hidden)
    else []
  }

  /** The list every recursive call appends to. */
  class Report {
    var diffs: seq<Line>

    constructor ()
      ensures diffs == []
    {
      diffs := [];
    }

    method DiffPaths(original: Json, replayed: Json, path: seq<Segment>, hidden: set<string>)
      modifies this
      ensures diffs == old(diffs) + Diff(original, replayed, path, hidden)
      decreases original, 1
    {
      if original.JObject? && replayed.JObject? {
        var keys := Sort(original.fields.Keys + replayed.fields.Keys);
        for i := 0 to |keys|
          invariant diffs == old(diffs) + DiffKeys(original, replayed, keys[..i], path, hidden)
        {
          assert keys[..i + 1][..i] == keys[..i];
          OneKey(original, replayed, keys[i], path, hidden);
        }
        assert keys[..|keys|] == keys;
        return;
      }
      if original.JArray? && replayed.JArray? {
        if |original.items| != |replayed.items| {
          diffs := diffs + [Line(path, Lengths(|original.items|, |replayed.items|))];
          return;
        }
        for i := 0 to |original.items|
          invariant diffs == old(diffs) + DiffItems(original, replayed, i, path, hidden)
        {
          DiffPaths(original.items[i], replayed.items[i], path + [Index(i)], hidden);
        }
        return;
      }
      if !ScalarEqual(original, replayed) {
        diffs := diffs + [Line(path, Values(original, replayed))];
      }
    }

    method OneKey(original: Json, replayed: Json, key: string, path: seq<Segment>, hidden: set<string>)
      requires original.JObject? && replayed.JObject?
      modifies this
      ensures diffs == old(diffs) + DiffKey(original, replayed, key, path, hidden)
      decreases original, 0
    {
      var here := path + [Key(key)];
      var inOriginal, inReplayed := key in original.fields, key in replayed.fields;
      if key in hidden {
        if inOriginal != inReplayed {
          diffs := diffs + [Line(here, if inOriginal then OnlyInBrick else OnlyInReplay)];
        }
      } else if !inOriginal {
        if inReplayed {
          diffs := diffs + [Line(here, OnlyInReplay)];
        }
      } else if !inReplayed {
        diffs := diffs + [Line(here, OnlyInBrick)];
      } else {
        DiffPaths(original.fields[key], replayed.fields[key], here, hidden);
      }
    }
  }

  // ---------- what an empty diff means ----------

  /** A tree with every value under a hidden key erased (the key stays) and every number in one form. */
  ghost function Canonical(v: Json, hidden: set<string>): Json {
    match v
    case JArray(items) => JArray(seq(|items|, i requires 0 <= i < |items| => Canonical(items[i], hidden)))
    case JObject(fields) => JObject(map k | k in fields :: if k in hidden then JNull else Canonical(fields[k], hidden))
    case _ => if Number(v).Some? then JFloat(Finite(Number(v).value)) else v
  }

  /** A NaN the diff can see. */
  ghost predicate ShowsNaN(v: Json, hidden: set<string>) {
    match v
    case JArray(items) => exists i :: 0 <= i < |items| && ShowsNaN(items[i], hidden)
    case JObject(fields) => exists k :: k in fields && k !in hidden && ShowsNaN(fields[k], hidden)
    case _ => IsNaN(v)
  }

  lemma {:induction false} DiffKeysEmpty(a: Json, b: Json, keys: seq<string>, path: seq<Segment>, hidden: set<string>)
    requires a.JObject? && b.JObject?
    ensures DiffKeys(a, b, keys, path, hidden) == [] <==>
              forall k :: k in keys ==> DiffKey(a, b, k, path, hidden) == []
  {
    if keys != [] {
      var n := |keys| - 1;
      DiffKeysEmpty(a, b, keys[..n], path, hidden);
      var front, last := DiffKeys(a, b, keys[..n], path, hidden), DiffKey(a, b, keys[n], path, hidden);
      assert DiffKeys(a, b, keys, path, hidden) == front + last;
      forall k | k in keys ensures k in keys[..n] || k == keys[n] {
        var i :| 0 <= i < |keys| && keys[i] == k;
        assert i < n ==> keys[..n][i] == k;
      }
      if front == [] && last == [] {
        assert front + last == [];
      } else {
        assert |front + last| == |front| + |last|;
        assert keys[n] in keys;
      }
    }
  }

  lemma {:induction false} DiffItemsEmpty(a: Json, b: Json, n: nat, path: seq<Segment>, hidden: set<string>)
    requires a.JArray? && b.JArray? && n <= |a.items| == |b.items|
    ensures DiffItems(a, b, n, path, hidden) == [] <==>
              forall i :: 0 <= i < n ==> Diff(a.items[i], b.items[i], path + [Index(i)], hidden) == []
  {
    if n > 0 {
      DiffItemsEmpty(a, b, n - 1, path, hidden);
    }
  }

  /** No line is reported exactly when the two trees have the same canonical form and show no NaN. */
  lemma {:induction false} EmptyDiffExactly(a: Json, b: Json, path: seq<Segment>, hidden: set<string>)
    ensures Diff(a, b, path, hidden) == [] <==> Canonical(a, hidden) == Canonical(b, hidden) && !ShowsNaN(a, hidden)
    decreases a
  {
    if a.JObject? && b.JObject? {
      EmptyObjectDiff(a, b, path, hidden);
    } else if a.JArray? && b.JArray? {
      EmptyArrayDiff(a, b, path, hidden);
    }
  }

  lemma {:induction false} EmptyArrayDiff(a: Json, b: Json, path: seq<Segment>, hidden: set<string>)
    requires a.JArray? && b.JArray?
    ensures Diff(a, b, path, hidden) == [] <==> Canonical(a, hidden) == Canonical(b, hidden) && !ShowsNaN(a, hidden)
    decreases a, 0
  {
    var ca, cb := Canonical(a, hidden).items, Canonical(b, hidden).items;
    if |a.items| == |b.items| {
      DiffItemsEmpty(a, b, |a.items|, path, hidden);
      forall i | 0 <= i < |a.items|
        ensures Diff(a.items[i], b.items[i], path + [Index(i)], hidden) == [] <==>
                  ca[i] == cb[i] && !ShowsNaN(a.items[i], hidden)
      {
        EmptyDiffExactly(a.items[i], b.items[i], path + [Index(i)], hidden);
      }
      assert ca == cb <==> forall i :: 0 <= i < |ca| ==> ca[i] == cb[i];
    } else {
      assert |ca| != |cb|;
    }
  }

  lemma {:induction false} EmptyObjectDiff(a: Json, b: Json, path: seq<Segment>, hidden: set<string>)
    requires a.JObject? && b.JObject?
    ensures Diff(a, b, path, hidden) == [] <==> Canonical(a, hidden) == Canonical(b, hidden) && !ShowsNaN(a, hidden)
    decreases a, 0
  {
    var keys := a.fields.Keys + b.fields.Keys;
    DiffKeysEmpty(a, b, Sorted(keys), path, hidden);
    forall k ensures k in Sorted(keys) <==> k in keys {
      SortedHasAll(keys, k);
    }
    var ca, cb := Canonical(a, hidden).fields, Canonical(b, hidden).fields;
    forall k | k in keys
      ensures DiffKey(a, b, k, path, hidden) == [] <==>
                (k in ca <==> k in cb) && (k in ca && k in cb ==> ca[k] == cb[k])
                && !(k in a.fields && k in b.fields && k !in hidden && ShowsNaN(a.fields[k], hidden))
    {
      if k in a.fields && k in b.fields && k !in hidden {
        EmptyDiffExactly(a.fields[k], b.fields[k], path + [Key(k)], hidden);
      }
    }
    if Diff(a, b, path, hidden) == [] {
      assert ca.Keys == cb.Keys;
      assert ca == cb;
    }
  }

  // ---------- the same, value by value ----------

  /** Numbers are the same when they are equal, whether written as integers, floats or booleans. NaN is the
      same as nothing. */
  predicate SameNumber(a: Json, b: Json) {
    match (a, b)
    case (JInt(i), JInt(j)) => i == j
    case (JInt(i), JFloat(Finite(r))) => i as real == r
    case (JFloat(Finite(r)), JInt(i)) => r == i as real
    case (JFloat(Finite(r)), JFloat(Finite(q))) => r == q
    case (JFloat(Infinite(m)), JFloat(Infinite(n))) => m == n
    case (JBool(x), JBool(y)) => x == y
    case (JBool(x), JInt(i)) => i == if x then 1 else 0
    case (JInt(i), JBool(x)) => i == if x then 1 else 0
    case (JBool(x), JFloat(Finite(r))) => r == if x then 1.0 else 0.0
    case (JFloat(Finite(r)), JBool(x)) => r == if x then 1.0 else 0.0
    case _ => false
  }

  /** Two trees are the same when they have the same shape, and the same text or number wherever no hidden
      key leads. */
  ghost predicate SameValue(a: Json, b: Json, hidden: set<string>) {
    match a
    case JNull => b.JNull?
    case JStr(s) => b.JStr? && b.s == s
    case JArray(items) =>
      b.JArray? && |b.items| == |items| && forall i :: 0 <= i < |items| ==> SameValue(items[i], b.items[i], hidden)
    case JObject(fields) =>
      && b.JObject? && b.fields.Keys == fields.Keys
      && forall k :: k in fields && k !in hidden ==> SameValue(fields[k], b.fields[k], hidden)
    case _ => SameNumber(a, b)
  }

  lemma {:induction false} SameCanonically(a: Json, b: Json, hidden: set<string>)
    ensures SameValue(a, b, hidden) <==> Canonical(a, hidden) == Canonical(b, hidden) && !ShowsNaN(a, hidden)
    decreases a
  {
    if a.JArray? && b.JArray? && |a.items| == |b.items| {
      SameItemsCanonically(a, b, hidden);
    } else if a.JObject? && b.JObject? && a.fields.Keys == b.fields.Keys {
      SameFieldsCanonically(a, b, hidden);
    } else if a.JArray? && b.JArray? {
      assert |Canonical(a, hidden).items| != |Canonical(b, hidden).items|;
    } else if a.JObject? && b.JObject? {
      assert Canonical(a, hidden).fields.Keys == a.fields.Keys && Canonical(b, hidden).fields.Keys == b.fields.Keys;
    }
  }

  lemma {:induction false} SameItemsCanonically(a: Json, b: Json, hidden: set<string>)
    requires a.JArray? && b.JArray? && |a.items| == |b.items|
    ensures SameValue(a, b, hidden) <==> Canonical(a, hidden) == Canonical(b, hidden) && !ShowsNaN(a, hidden)
    decreases a, 0
  {
    var ca, cb := Canonical(a, hidden).items, Canonical(b, hidden).items;
    forall i | 0 <= i < |a.items|
      ensures SameValue(a.items[i], b.items[i], hidden) <==> ca[i] == cb[i] && !ShowsNaN(a.items[i], hidden)
    {
      SameCanonically(a.items[i], b.items[i], hidden);
    }
    assert ca == cb <==> forall i :: 0 <= i < |ca| ==> ca[i] == cb[i];
  }

  lemma {:induction false} SameFieldsCanonically(a: Json, b: Json, hidden: set<string>)
    requires a.JObject? && b.JObject? && a.fields.Keys == b.fields.Keys
    ensures SameValue(a, b, hidden) <==> Canonical(a, hidden) == Canonical(b, hidden) && !ShowsNaN(a, hidden)
    decreases a, 0
  {
    var ca, cb := Canonical(a, hidden).fields, Canonical(b, hidden).fields;
    forall k | k in a.fields && k !in hidden
      ensures SameValue(a.fields[k], b.fields[k], hidden) <==> ca[k] == cb[k] && !ShowsNaN(a.fields[k], hidden)
    {
      SameCanonically(a.fields[k], b.fields[k], hidden);
    }
    assert ca.Keys == cb.Keys;
    assert ca == cb <==> forall k :: k in ca ==> ca[k] == cb[k];
  }

  /** No line is reported exactly when the two trees are the same, value by value. */
  lemma EmptyDiffMeansSame(a: Json, b: Json, path: seq<Segment>, hidden: set<string>)
    ensures Diff(a, b, path, hidden) == [] <==> SameValue(a, b, hidden)
  {
    EmptyDiffExactly(a, b, path, hidden);
    SameCanonically(a, b, hidden);
  }

  /** `a` passes as a replay of `b`. Where the report is placed does not matter. */
  ghost predicate SameUpTo(a: Json, b: Json, hidden: set<string>) {
    Diff(a, b, [], hidden) == []
  }

  /** The relation is reflexive exactly on trees that show no NaN. */
  lemma SameReflexive(a: Json, hidden: set<string>)
    ensures SameUpTo(a, a, hidden) <==> !ShowsNaN(a, hidden)
  {
    EmptyDiffExactly(a, a, [], hidden);
  }

  /** A response that carries NaN does not pass as its own replay. */
  lemma NaNFailsItsOwnReplay(hidden: set<string>, key: string) returns (v: Json)
    requires key !in hidden
    ensures v == JObject(map[key := JFloat(NaN)]) && !SameUpTo(v, v, hidden)
  {
    v := JObject(map[key := JFloat(NaN)]);
    assert ShowsNaN(v.fields[key], hidden);
    SameReflexive(v, hidden);
  }

  lemma SameTransitive(a: Json, b: Json, c: Json, hidden: set<string>)
    requires SameUpTo(a, b, hidden) && SameUpTo(b, c, hidden)
    ensures SameUpTo(a, c, hidden)
  {
    EmptyDiffExactly(a, b, [], hidden);
    EmptyDiffExactly(b, c, [], hidden);
    EmptyDiffExactly(a, c, [], hidden);
  }

  // ---------- swapping the sides ----------

  function Mirrored(d: Difference): Difference {
    match d
    case OnlyInBrick => OnlyInReplay
    case OnlyInReplay => OnlyInBrick
    case Lengths(m, n) => Lengths(n, m)
    case Values(x, y) => Values(y, x)
  }

  function MirrorAll(lines: seq<Line>): seq<Line> {
    seq(|lines|, i requires 0 <= i < |lines| => Line(lines[i].path, Mirrored(lines[i].what)))
  }

  lemma MirrorAppend(x: seq<Line>, y: seq<Line>)
    ensures MirrorAll(x + y) == MirrorAll(x) + MirrorAll(y)
  {
  }

  /** Swapping brick and replay reports the same lines at the same paths in the same order, each with
      its two sides exchanged. */
  lemma {:induction false} SwapMirrors(a: Json, b: Json, path: seq<Segment>, hidden: set<string>)
    ensures Diff(b, a, path, hidden) == MirrorAll(Diff(a, b, path, hidden))
    decreases a, 1, 0
  {
    if a.JObject? && b.JObject? {
      var keys := a.fields.Keys + b.fields.Keys;
      assert b.fields.Keys + a.fields.Keys == keys;
      SwapKeys(a, b, Sorted(keys), path, hidden);
    } else if a.JArray? && b.JArray? && |a.items| == |b.items| {
      SwapItems(a, b, |a.items|, path, hidden);
    }
  }

  lemma {:induction false} SwapItems(a: Json, b: Json, n: nat, path: seq<Segment>, hidden: set<string>)
    requires a.JArray? && b.JArray? && n <= |a.items| == |b.items|
    ensures DiffItems(b, a, n, path, hidden) == MirrorAll(DiffItems(a, b, n, path, hidden))
    decreases a, 0, n
  {
    if n > 0 {
      SwapItems(a, b, n - 1, path, hidden);
      var last := Diff(a.items[n - 1], b.items[n - 1], path + [Index(n - 1)], hidden);
      SwapMirrors(a.items[n - 1], b.items[n - 1], path + [Index(n - 1)], hidden);
      MirrorAppend(DiffItems(a, b, n - 1, path, hidden), last);
    }
  }

  lemma {:induction false} SwapKeys(a: Json, b: Json, keys: seq<string>, path: seq<Segment>, hidden: set<string>)
    requires a.JObject? && b.JObject?
    ensures DiffKeys(b, a, keys, path, hidden) == MirrorAll(DiffKeys(a, b, keys, path, hidden))
    decreases a, 0, |keys|
  {
    if keys != [] {
      var n := |keys| - 1;
      SwapKeys(a, b, keys[..n], path, hidden);
      SwapKey(a, b, keys[n], path, hidden);
      MirrorAppend(DiffKeys(a, b, keys[..n], path, hidden), DiffKey(a, b, keys[n], path, hidden));
    }
  }

  lemma {:induction false} SwapKey(a: Json, b: Json, key: string, path: seq<Segment>, hidden: set<string>)
    requires a.JObject? && b.JObject?
    ensures DiffKey(b, a, key, path, hidden) == MirrorAll(DiffKey(a, b, key, path, hidden))
    decreases a, 0, 0
  {
    if key in a.fields && key in b.fields && key !in hidden {
      SwapMirrors(a.fields[key], b.fields[key], path + [Key(key)], hidden);
    }
  }

  lemma SameSymmetric(a: Json, b: Json, hidden: set<string>)
    ensures SameUpTo(a, b, hidden) <==> SameUpTo(b, a, hidden)
  {
    SwapMirrors(a, b, [], hidden);
  }

  // ---------- hiding more ----------

  /** Every line reported while more keys are hidden is also reported while fewer are. */
  lemma {:induction false} HidingOnlyRemoves(a: Json, b: Json, path: seq<Segment>, fewer: set<string>,
                                             more: set<string>, l: Line)
    requires fewer <= more && l in Diff(a, b, path, more)
    ensures l in Diff(a, b, path, fewer)
    decreases a, 1, 0
  {
    if a.JObject? && b.JObject? {
      HidingKeys(a, b, Sorted(a.fields.Keys + b.fields.Keys), path, fewer, more, l);
    } else if a.JArray? && b.JArray? && |a.items| == |b.items| {
      HidingItems(a, b, |a.items|, path, fewer, more, l);
    }
  }

  lemma {:induction false} HidingItems(a: Json, b: Json, n: nat, path: seq<Segment>, fewer: set<string>,
                                       more: set<string>, l: Line)
    requires a.JArray? && b.JArray? && n <= |a.items| == |b.items|
    requires fewer <= more && l in DiffItems(a, b, n, path, more)
    ensures l in DiffItems(a, b, n, path, fewer)
    decreases a, 0, n
  {
    if l in DiffItems(a, b, n - 1, path, more) {
      HidingItems(a, b, n - 1, path, fewer, more, l);
    } else {
      HidingOnlyRemoves(a.items[n - 1], b.items[n - 1], path + [Index(n - 1)], fewer, more, l);
    }
  }

  lemma {:induction false} HidingKeys(a: Json, b: Json, keys: seq<string>, path: seq<Segment>, fewer: set<string>,
                                      more: set<string>, l: Line)
    requires a.JObject? && b.JObject?
    requires fewer <= more && l in DiffKeys(a, b, keys, path, more)
    ensures l in DiffKeys(a, b, keys, path, fewer)
    decreases a, 0, |keys|
  {
    var n := |keys| - 1;
    if l in DiffKeys(a, b, keys[..n], path, more) {
      HidingKeys(a, b, keys[..n], path, fewer, more, l);
    } else if keys[n] in a.fields && keys[n] in b.fields {
      HidingOnlyRemoves(a.fields[keys[n]], b.fields[keys[n]], path + [Key(keys[n])], fewer, more, l);
    }
  }

  /** So the relation grows with the set of hidden keys. */
  lemma SameGrowsWithHidden(a: Json, b: Json, fewer: set<string>, more: set<string>)
    requires fewer <= more && SameUpTo(a, b, fewer)
    ensures SameUpTo(a, b, more)
  {
    if Diff(a, b, [], more) != [] {
      HidingOnlyRemoves(a, b, [], fewer, more, Diff(a, b, [], more)[0]);
    }
  }

  // ---------- the verdict ----------

  const DEFAULT_VOLATILE_FIELDS: set<string> :=
    {"timestamp", "created_at", "updated_at", "id", "request_id", "trace_id"}

  /** The keys that are not compared by default are the six of a clock or a random id, so the status code and
      the payload always are. */
  lemma DefaultsCompareTheRest(a: map<string, Json>, b: map<string, Json>, key: string)
    requires SameValue(JObject(a), JObject(b), DEFAULT_VOLATILE_FIELDS) && key in a
    requires key !in {"timestamp", "created_at", "updated_at", "id", "request_id", "trace_id"}
    ensures key in b && SameValue(a[key], b[key], DEFAULT_VOLATILE_FIELDS)
  {
  }

  /** `evaluate_verdict`: it passes exactly when the two responses are the same, value by value, and the
      replayed payload matches the schema, if one is given. */
  method EvaluateVerdict(brick: map<string, Json>, replayed: map<string, Json>, schema: Option<Schema>,
                         hidden: set<string> := DEFAULT_VOLATILE_FIELDS) returns (passed: bool)
    ensures passed <==>
              && SameValue(JObject(brick), JObject(replayed), hidden)
              && (schema.Some? ==> Matches(GetOrNull(replayed, "payload"), schema.value))
  {
    var report := new Report();
    report.DiffPaths(JObject(brick), JObject(replayed), [Key("response")], hidden);
    EmptyDiffMeansSame(JObject(brick), JObject(replayed), [Key("response")], hidden);
    var mismatch := schema.Some? && !Matches(GetOrNull(replayed, "payload"), schema.value);
    passed := report.diffs == [] && !mismatch;
  }
}
