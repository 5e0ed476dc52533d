/** What the lines of a structural diff say: one for each place where the two trees differ, in the order
    of the places. */
module DiffLines {
  import opened Json
  import opened SortedKeys
  import opened Verdict

  /** Following the path into both trees, key by key and index by index, ends where they differ in this
      way. A hidden key is not followed; one that only one side has ends the path. */
  ghost predicate DiffersAt(a: Json, b: Json, path: seq<Segment>, what: Difference, hidden: set<string>)
    decreases |path|
  {
    if path == [] then
      if a.JObject? && b.JObject? then false
      else if a.JArray? && b.JArray? then |a.items| != |b.items| && what == Lengths(|a.items|, |b.items|)
      else !SameValue(a, b, hidden) && what == Values(a, b)
    else
      match path[0]
      case Key(k) =>
        && a.JObject? && b.JObject?
        && (if k in a.fields && k in b.fields then
              k !in hidden && DiffersAt(a.fields[k], b.fields[k], path[1..], what, hidden)
            else
              |path| == 1 && ((k in a.fields && what == OnlyInBrick) || (k in b.fields && what == OnlyInReplay)))
      case Index(i) =>
        && a.JArray? && b.JArray? && |a.items| == |b.items| && i < |a.items|
        && DiffersAt(a.items[i], b.items[i], path[1..], what, hidden)
  }

  ghost predicate Below(l: Line, base: seq<Segment>, first: Segment) {
    base <= l.path && |l.path| > |base| && l.path[|base|] == first
  }

  /** A difference is reported exactly where following the path finds it. */
  lemma {:induction false} ReportsExactly(a: Json, b: Json, base: seq<Segment>, hidden: set<string>, l: Line)
    ensures l in Diff(a, b, base, hidden) <==>
              base <= l.path && DiffersAt(a, b, l.path[|base|..], l.what, hidden)
    decreases a, 1, 0
  {
    if a.JObject? && b.JObject? {
      ReportsKeys(a, b, Sorted(a.fields.Keys + b.fields.Keys), base, hidden, l);
      forall k ensures k in Sorted(a.fields.Keys + b.fields.Keys) <==> k in a.fields.Keys + b.fields.Keys {
        SortedHasAll(a.fields.Keys + b.fields.Keys, k);
      }
      if base <= l.path && DiffersAt(a, b, l.path[|base|..], l.what, hidden) {
        assert Below(l, base, l.path[|base|]);
      }
    } else if a.JArray? && b.JArray? && |a.items| == |b.items| {
      ReportsItems(a, b, |a.items|, base, hidden, l);
    } else {
      ReportsHere(a, b, base, hidden, l);
    }
  }

  lemma ReportsHere(a: Json, b: Json, base: seq<Segment>, hidden: set<string>, l: Line)
    requires !(a.JObject? && b.JObject?) && !(a.JArray? && b.JArray? && |a.items| == |b.items|)
    ensures l in Diff(a, b, base, hidden) <==>
              base <= l.path && DiffersAt(a, b, l.path[|base|..], l.what, hidden)
  {
    if base <= l.path && |l.path| == |base| {
      assert l.path == base;
    }
  }

  lemma {:induction false} ReportsItems(a: Json, b: Json, n: nat, base: seq<Segment>, hidden: set<string>, l: Line)
    requires a.JArray? && b.JArray? && n <= |a.items| == |b.items|
    ensures l in DiffItems(a, b, n, base, hidden) <==>
              exists i: nat :: i < n && Below(l, base, Index(i)) && DiffersAt(a, b, l.path[|base|..], l.what, hidden)
    decreases a, 0, n
  {
    if n > 0 {
      ReportsItems(a, b, n - 1, base, hidden, l);
      var here := base + [Index(n - 1)];
      ReportsExactly(a.items[n - 1], b.items[n - 1], here, hidden, l);
      OneDeeper(l, base, Index(n - 1));
      if here <= l.path {
        assert l.path[|base|..][1..] == l.path[|here|..];
      }
      assert l in DiffItems(a, b, n, base, hidden) <==>
             l in DiffItems(a, b, n - 1, base, hidden) || l in Diff(a.items[n - 1], b.items[n - 1], here, hidden);
    }
  }

  lemma OneDeeper(l: Line, base: seq<Segment>, first: Segment)
    ensures base + [first] <= l.path <==> Below(l, base, first)
  {
    if Below(l, base, first) {
      assert l.path[..|base| + 1] == base + [first];
    }
  }

  lemma {:induction false} ReportsKeys(a: Json, b: Json, keys: seq<string>, base: seq<Segment>, hidden: set<string>,
                                       l: Line)
    requires a.JObject? && b.JObject?
    ensures l in DiffKeys(a, b, keys, base, hidden) <==>
              exists k :: k in keys && Below(l, base, Key(k)) && DiffersAt(a, b, l.path[|base|..], l.what, hidden)
    decreases a, 0, |keys|
  {
    if keys != [] {
      var n := |keys| - 1;
      ReportsKeys(a, b, keys[..n], base, hidden, l);
      ReportsKey(a, b, keys[n], base, hidden, l);
      assert keys == keys[..n] + [keys[n]];
      assert l in DiffKeys(a, b, keys, base, hidden) <==>
             l in DiffKeys(a, b, keys[..n], base, hidden) || l in DiffKey(a, b, keys[n], base, hidden);
    }
  }

  lemma {:induction false} ReportsKey(a: Json, b: Json, key: string, base: seq<Segment>, hidden: set<string>, l: Line)
    requires a.JObject? && b.JObject?
    ensures l in DiffKey(a, b, key, base, hidden) <==>
              Below(l, base, Key(key)) && DiffersAt(a, b, l.path[|base|..], l.what, hidden)
    decreases a, 0, 0
  {
    var here := base + [Key(key)];
    OneDeeper(l, base, Key(key));
    if here <= l.path {
      assert l.path[|base|..][1..] == l.path[|here|..];
      if |l.path| == |here| {
        assert l.path == here;
      }
    }
    if key in a.fields && key in b.fields && key !in hidden {
      ReportsExactly(a.fields[key], b.fields[key], here, hidden, l);
    }
  }

  // ---------- the order of the lines ----------

  ghost predicate SegmentBefore(x: Segment, y: Segment) {
    match (x, y)
    case (Key(k), Key(m)) => k != m && InOrder(k, m)
    case (Index(i), Index(j)) => i < j
    case _ => false
  }

  /** The two paths part, and the first goes to the smaller key or index there. */
  ghost predicate PathBefore(p: seq<Segment>, q: seq<Segment>) {
    exists n :: 0 <= n < |p| && n < |q| && p[..n] == q[..n] && SegmentBefore(p[n], q[n])
  }

  ghost predicate Ascending(lines: seq<Line>) {
    forall i, j :: 0 <= i < j < |lines| ==> PathBefore(lines[i].path, lines[j].path)
  }

  lemma AscendingAppend(x: seq<Line>, y: seq<Line>)
    requires Ascending(x) && Ascending(y)
    requires forall l, m :: l in x && m in y ==> PathBefore(l.path, m.path)
    ensures Ascending(x + y)
  {
  }

  lemma PartHere(l: Line, m: Line, base: seq<Segment>, x: Segment, y: Segment)
    requires Below(l, base, x) && Below(m, base, y) && SegmentBefore(x, y)
    ensures PathBefore(l.path, m.path)
  {
    assert l.path[..|base|] == base == m.path[..|base|];
  }

  /** The lines come in the order of their paths, so no place is reported twice. */
  lemma {:induction false} LinesAscend(a: Json, b: Json, base: seq<Segment>, hidden: set<string>)
    ensures Ascending(Diff(a, b, base, hidden))
    decreases a, 1, 0
  {
    if a.JObject? && b.JObject? {
      var keys := a.fields.Keys + b.fields.Keys;
      SortedAscends(keys);
      KeysAscend(a, b, Sorted(keys), base, hidden);
    } else if a.JArray? && b.JArray? && |a.items| == |b.items| {
      ItemsAscend(a, b, |a.items|, base, hidden);
    }
  }

  lemma {:induction false} ItemsAscend(a: Json, b: Json, n: nat, base: seq<Segment>, hidden: set<string>)
    requires a.JArray? && b.JArray? && n <= |a.items| == |b.items|
    ensures Ascending(DiffItems(a, b, n, base, hidden))
    decreases a, 0, n
  {
    if n > 0 {
      var here := base + [Index(n - 1)];
      ItemsAscend(a, b, n - 1, base, hidden);
      LinesAscend(a.items[n - 1], b.items[n - 1], here, hidden);
      var front, last := DiffItems(a, b, n - 1, base, hidden), Diff(a.items[n - 1], b.items[n - 1], here, hidden);
      forall l, m | l in front && m in last ensures PathBefore(l.path, m.path) {
        ReportsItems(a, b, n - 1, base, hidden, l);
        ReportsExactly(a.items[n - 1], b.items[n - 1], here, hidden, m);
        OneDeeper(m, base, Index(n - 1));
        var i: nat :| i < n - 1 && Below(l, base, Index(i));
        PartHere(l, m, base, Index(i), Index(n - 1));
      }
      AscendingAppend(front, last);
    }
  }

  ghost predicate StrictlySorted(keys: seq<string>) {
    forall i, j :: 0 <= i < j < |keys| ==> keys[i] != keys[j] && InOrder(keys[i], keys[j])
  }

  lemma {:induction false} KeysAscend(a: Json, b: Json, keys: seq<string>, base: seq<Segment>, hidden: set<string>)
    requires a.JObject? && b.JObject? && StrictlySorted(keys)
    ensures Ascending(DiffKeys(a, b, keys, base, hidden))
    decreases a, 0, |keys|
  {
    if keys != [] {
      var n := |keys| - 1;
      KeysAscend(a, b, keys[..n], base, hidden);
      KeyAscends(a, b, keys[n], base, hidden);
      var front, last := DiffKeys(a, b, keys[..n], base, hidden), DiffKey(a, b, keys[n], base, hidden);
      forall l, m | l in front && m in last ensures PathBefore(l.path, m.path) {
        ReportsKeys(a, b, keys[..n], base, hidden, l);
        ReportsKey(a, b, keys[n], base, hidden, m);
        var k :| k in keys[..n] && Below(l, base, Key(k));
        PartHere(l, m, base, Key(k), Key(keys[n]));
      }
      AscendingAppend(front, last);
    }
  }

  lemma {:induction false} KeyAscends(a: Json, b: Json, key: string, base: seq<Segment>, hidden: set<string>)
    requires a.JObject? && b.JObject?
    ensures Ascending(DiffKey(a, b, key, base, hidden))
    decreases a, 0, 0
  {
    if key in a.fields && key in b.fields && key !in hidden {
      LinesAscend(a.fields[key], b.fields[key], base + [Key(key)], hidden);
    }
  }
}
