/** `taxonomy.py`: which scenarios a nanobar type is expected to be covered by, and what its coverage
    weighs. Documents are taken as parsed; weights are reals. */
module Taxonomy {
  import opened Options
  import opened OrderedSelect

  // ---------- dictionaries that keep insertion order ----------

  type Dict<V> = seq<(string, V)>

  predicate WellFormed<V>(d: Dict<V>) {
    forall i, j :: 0 <= i < j < |d| ==> d[i].0 != d[j].0
  }

  function Get<V>(d: Dict<V>, k: string): Option<V> {
    if d == [] then None else if d[|d| - 1].0 == k then Some(d[|d| - 1].1) else Get(d[..|d| - 1], k)
  }

  /** Assignment: an old key keeps its place, a new one comes last. */
  function Put<V>(d: Dict<V>, k: string, v: V): Dict<V> {
    if Get(d, k).None? then d + [(k, v)]
    else if d[|d| - 1].0 == k then d[..|d| - 1] + [(k, v)]
    else Put(d[..|d| - 1], k, v) + [d[|d| - 1]]
  }

  /** `{**a, **b}`. */
  function Update<V>(a: Dict<V>, b: Dict<V>): Dict<V> {
    if b == [] then a else Put(Update(a, b[..|b| - 1]), b[|b| - 1].0, b[|b| - 1].1)
  }

  lemma {:induction false} GetNone<V>(d: Dict<V>, k: string)
    ensures Get(d, k).None? <==> forall i :: 0 <= i < |d| ==> d[i].0 != k
  {
    if d != [] {
      var n := |d| - 1;
      GetNone(d[..n], k);
      assert forall i :: 0 <= i < n ==> d[..n][i] == d[i];
    }
  }

  lemma {:induction false} GetPut<V>(d: Dict<V>, k: string, v: V, j: string)
    ensures Get(Put(d, k, v), j) == if j == k then Some(v) else Get(d, j)
  {
    if d != [] {
      var n := |d| - 1;
      if d[n].0 == k {
        assert (d[..n] + [(k, v)])[..n] == d[..n];
      } else {
        GetPut(d[..n], k, v, j);
        var front := Put(d[..n], k, v);
        assert (front + [d[n]])[..|front|] == front;
      }
    }
  }

  lemma {:induction false} PutWellFormed<V>(d: Dict<V>, k: string, v: V)
    requires WellFormed(d)
    ensures WellFormed(Put(d, k, v))
  {
    if Get(d, k).None? {
      GetNone(d, k);
      WellFormedMore(d, (k, v));
    } else {
      var n := |d| - 1;
      if d[n].0 == k {
        WellFormedMore(d[..n], (k, v));
      } else {
        PutWellFormed(d[..n], k, v);
        var front := Put(d[..n], k, v);
        GetPut(d[..n], k, v, d[n].0);
        GetNone(d[..n], d[n].0);
        GetNone(front, d[n].0);
        WellFormedMore(front, d[n]);
      }
    }
  }

  lemma WellFormedMore<V>(d: Dict<V>, e: (string, V))
    requires WellFormed(d) && forall i :: 0 <= i < |d| ==> d[i].0 != e.0
    ensures WellFormed(d + [e])
  {
  }

  lemma {:induction false} GetUpdate<V>(a: Dict<V>, b: Dict<V>, k: string)
    ensures Get(Update(a, b), k) == if Get(b, k).Some? then Get(b, k) else Get(a, k)
  {
    if b != [] {
      var n := |b| - 1;
      GetUpdate(a, b[..n], k);
      GetPut(Update(a, b[..n]), b[n].0, b[n].1, k);
    }
  }

  lemma {:induction false} UpdateWellFormed<V>(a: Dict<V>, b: Dict<V>)
    requires WellFormed(a)
    ensures WellFormed(Update(a, b))
  {
    if b != [] {
      var n := |b| - 1;
      UpdateWellFormed(a, b[..n]);
      PutWellFormed(Update(a, b[..n]), b[n].0, b[n].1);
    }
  }

  function Keys<V>(d: Dict<V>): seq<string> {
    seq(|d|, i requires 0 <= i < |d| => d[i].0)
  }

  /** Assigning to a key that is there leaves every key in its place; a new key comes last. */
  lemma {:induction false} PutKeepsPlaces<V>(d: Dict<V>, k: string, v: V)
    ensures Keys(Put(d, k, v)) == if k in Keys(d) then Keys(d) else Keys(d) + [k]
  {
    KeyThere(d, k);
    if Get(d, k).None? {
      KeysMore(d, (k, v));
    } else {
      var n := |d| - 1;
      assert d == d[..n] + [d[n]];
      KeysMore(d[..n], d[n]);
      if d[n].0 == k {
        KeysMore(d[..n], (k, v));
      } else {
        KeyThere(d[..n], k);
        PutKeepsPlaces(d[..n], k, v);
        KeysMore(Put(d[..n], k, v), d[n]);
      }
    }
  }

  lemma KeysMore<V>(d: Dict<V>, e: (string, V))
    ensures Keys(d + [e]) == Keys(d) + [e.0]
  {
  }

  lemma KeyThere<V>(d: Dict<V>, k: string)
    ensures k in Keys(d) <==> Get(d, k).Some?
  {
    GetNone(d, k);
    if i :| 0 <= i < |d| && d[i].0 == k {
      assert Keys(d)[i] == k;
    }
  }

  // ---------- loading ----------

  datatype Scenario = Scenario(weight: real, required: bool, synthesizable: bool)

  type Entry = Dict<Scenario>
  type Types = Dict<Entry>

  ghost predicate Loaded(t: Types) {
    WellFormed(t) && forall i :: 0 <= i < |t| ==> WellFormed(t[i].1)
  }

  function Lookup(t: Types, nanobarType: string, name: string): Option<Scenario> {
    var entry := Get(t, nanobarType);
    if entry.None? then None else Get(entry.value, name)
  }

  function Override(t: Types, nanobarType: string, entry: Entry): Types {
    var existing := Get(t, nanobarType);
    Put(t, nanobarType, if existing.None? then entry else Update(existing.value, entry))
  }

  function Merge(t: Types, overrides: Types): Types {
    if overrides == [] then t
    else
      var n := |overrides| - 1;
      Override(Merge(t, overrides[..n]), overrides[n].0, overrides[n].1)
  }

  function MergeAll(t: Types, files: seq<Types>): Types {
    if files == [] then t else Merge(MergeAll(t, files[..|files| - 1]), files[|files| - 1])
  }

  lemma {:induction false} GetLoaded(t: Types, k: string)
    requires Loaded(t) && Get(t, k).Some?
    ensures WellFormed(Get(t, k).value)
  {
    var n := |t| - 1;
    if t[n].0 != k {
      GetLoaded(t[..n], k);
    }
  }

  lemma {:induction false} PutLoaded(t: Types, k: string, entry: Entry)
    requires Loaded(t) && WellFormed(entry)
    ensures Loaded(Put(t, k, entry))
  {
    PutWellFormed(t, k, entry);
    if t != [] && t[|t| - 1].0 != k {
      PutLoaded(t[..|t| - 1], k, entry);
    }
  }

  lemma OverrideLoaded(t: Types, nanobarType: string, entry: Entry)
    requires Loaded(t) && WellFormed(entry)
    ensures Loaded(Override(t, nanobarType, entry))
  {
    var existing := Get(t, nanobarType);
    if existing.Some? {
      GetLoaded(t, nanobarType);
      UpdateWellFormed(existing.value, entry);
      PutLoaded(t, nanobarType, Update(existing.value, entry));
    } else {
      PutLoaded(t, nanobarType, entry);
    }
  }

  /** `load_taxonomy`. */
  method LoadTaxonomy(vendored: Types, files: seq<Types>) returns (t: Types)
    requires Loaded(vendored) && forall f :: f in files ==> Loaded(f)
    ensures t == MergeAll(vendored, files) && Loaded(t)
  {
    t := vendored;
    for i := 0 to |files|
      invariant t == MergeAll(vendored, files[..i]) && Loaded(t)
    {
      ghost var start := t;
      var overrides := files[i];
      assert overrides in files && Loaded(overrides);
      for j := 0 to |overrides|
        invariant t == Merge(start, overrides[..j]) && Loaded(t)
      {
        var nanobarType, entry := overrides[j].0, overrides[j].1;
        OverrideLoaded(t, nanobarType, entry);
        var existing := Get(t, nanobarType);
        t := Put(t, nanobarType, if existing.None? then entry else Update(existing.value, entry));
        assert overrides[..j + 1][..j] == overrides[..j];
      }
      assert overrides[..|overrides|] == overrides;
      assert files[..i + 1][..i] == files[..i];
    }
    assert files[..|files|] == files;
  }

  lemma {:induction false} MergeLookup(t: Types, overrides: Types, nanobarType: string, name: string)
    requires WellFormed(overrides)
    ensures Lookup(Merge(t, overrides), nanobarType, name)
         == if Lookup(overrides, nanobarType, name).Some? then Lookup(overrides, nanobarType, name)
           else Lookup(t, nanobarType, name)
    ensures Get(Merge(t, overrides), nanobarType).None? <==>
              Get(t, nanobarType).None? && Get(overrides, nanobarType).None?
  {
    if overrides != [] {
      var n := |overrides| - 1;
      var front := overrides[..n];
      MergeLookup(t, front, nanobarType, name);
      var so := Merge(t, front);
      var existing := Get(so, overrides[n].0);
      var entry := if existing.None? then overrides[n].1 else Update(existing.value, overrides[n].1);
      GetPut(so, overrides[n].0, entry, nanobarType);
      if existing.Some? {
        GetUpdate(existing.value, overrides[n].1, name);
      }
      if overrides[n].0 == nanobarType {
        GetNone(front, nanobarType);
      }
    }
  }

  /** The last file that defines a scenario of a type, and the vendored catalogue if none does. */
  function LastDefinition(vendored: Types, files: seq<Types>, nanobarType: string, name: string): Option<Scenario> {
    if files == [] then Lookup(vendored, nanobarType, name)
    else
      var last := Lookup(files[|files| - 1], nanobarType, name);
      if last.Some? then last else LastDefinition(vendored, files[..|files| - 1], nanobarType, name)
  }

  /** Scenario by scenario the last file wins, nothing a file does not mention is lost, and a type is
      known as soon as any file, even one that expects nothing of it, names it. */
  lemma {:induction false} LastFileWins(vendored: Types, files: seq<Types>, nanobarType: string, name: string)
    requires forall f :: f in files ==> WellFormed(f)
    ensures Lookup(MergeAll(vendored, files), nanobarType, name) == LastDefinition(vendored, files, nanobarType, name)
    ensures Get(MergeAll(vendored, files), nanobarType).None?
       <==> Get(vendored, nanobarType).None? && forall f :: f in files ==> Get(f, nanobarType).None?
  {
    if files != [] {
      var n := |files| - 1;
      LastFileWins(vendored, files[..n], nanobarType, name);
      MergeLookup(MergeAll(vendored, files[..n]), files[n], nanobarType, name);
      assert files == files[..n] + [files[n]];
    }
  }

  // ---------- resolving a type ----------

  const REPLAY := "replay-"
  const WORKER := "worker-"

  function Resolve(t: Types, nanobarType: string): Option<Entry>
    decreases |nanobarType|
  {
    var entry := Get(t, nanobarType);
    if entry.Some? then entry
    else if REPLAY <= nanobarType then Resolve(t, nanobarType[|REPLAY|..])
    else if WORKER <= nanobarType then Get(t, "worker")
    else None
  }

  /** By name: a type of its own first, then what it replays, then the entry of all workers, then nothing. */
  lemma ResolvesByName(t: Types, nanobarType: string, rest: string)
    ensures Get(t, nanobarType).Some? ==> Resolve(t, nanobarType) == Get(t, nanobarType)
    ensures Get(t, nanobarType).None? && nanobarType == "replay-" + rest ==> Resolve(t, nanobarType) == Resolve(t, rest)
    ensures Get(t, nanobarType).None? && nanobarType == "worker-" + rest ==> Resolve(t, nanobarType) == Get(t, "worker")
    ensures Get(t, nanobarType).None? && !("replay-" <= nanobarType) && !("worker-" <= nanobarType) ==>
              Resolve(t, nanobarType).None?
  {
    if nanobarType == "replay-" + rest {
      assert nanobarType[7..] == rest;
    } else if nanobarType == "worker-" + rest {
      assert nanobarType[0] == 'w' && REPLAY[0] == 'r';
    }
  }

  /** A type replayed `k` times over. */
  function Replayed(k: nat, nanobarType: string): string {
    if k == 0 then nanobarType else REPLAY + Replayed(k - 1, nanobarType)
  }

  /** Replaying any number of times does not change what covers a type, unless some of the names on
      the way has an entry of its own, and then the outermost of these counts. */
  lemma {:induction false} ReplaysResolve(t: Types, k: nat, nanobarType: string, outermost: nat)
    requires outermost <= k
    requires forall j :: outermost < j <= k ==> Get(t, Replayed(j, nanobarType)).None?
    ensures Get(t, Replayed(outermost, nanobarType)).Some? ==>
              Resolve(t, Replayed(k, nanobarType)) == Get(t, Replayed(outermost, nanobarType))
    ensures outermost == 0 ==> Resolve(t, Replayed(k, nanobarType)) == Resolve(t, nanobarType)
  {
    if k > outermost {
      ReplaysResolve(t, k - 1, nanobarType, outermost);
      assert Replayed(k, nanobarType)[|REPLAY|..] == Replayed(k - 1, nanobarType);
    }
  }

  /** Every channel's worker, replayed or not, falls back on the one channel-agnostic entry. */
  lemma WorkersShareOneEntry(t: Types, k: nat, channel: string)
    requires forall j :: 0 <= j <= k ==> Get(t, Replayed(j, WORKER + channel)).None?
    ensures Resolve(t, Replayed(k, WORKER + channel)) == Get(t, "worker")
  {
    ReplaysResolve(t, k, WORKER + channel, 0);
    assert (WORKER + channel)[0] == 'w' && REPLAY[0] == 'r';
    assert Get(t, Replayed(0, WORKER + channel)).None?;
  }

  // ---------- coverage ----------

  /** The weight of the required scenarios with one of these names. */
  function WeightOf(e: Entry, names: set<string>): real {
    if e == [] then 0.0
    else
      var n := |e| - 1;
      WeightOf(e[..n], names) + if e[n].1.required && e[n].0 in names then e[n].1.weight else 0.0
  }

  function TotalWeight(e: Entry): real {
    if e == [] then 0.0
    else TotalWeight(e[..|e| - 1]) + if e[|e| - 1].1.required then e[|e| - 1].1.weight else 0.0
  }

  /** `detect_coverage_gaps`, in the entry's order. */
  function Gaps(e: Entry, covered: set<string>): seq<string> {
    if e == [] then []
    else
      var n := |e| - 1;
      Gaps(e[..n], covered) + if e[n].1.required && e[n].0 !in covered then [e[n].0] else []
  }

  /** `compute_regression_weight` for a resolved entry. */
  function Score(e: Entry, covered: set<string>, criticality: real): real {
    if TotalWeight(e) == 0.0 then criticality else WeightOf(e, covered) / TotalWeight(e) * criticality
  }

  /** The same for any type: an unresolvable one keeps the weight it has. */
  function RegressionWeight(t: Types, nanobarType: string, covered: set<string>, criticality: real,
                            current: real): real {
    var entry := Resolve(t, nanobarType);
    if entry.None? then current else Score(entry.value, covered, criticality)
  }

  /** A type that nothing is known of keeps the weight it has; any other is scored by its entry. */
  lemma WeighedByEntry(t: Types, nanobarType: string, covered: set<string>, criticality: real, current: real)
    ensures var w := RegressionWeight(t, nanobarType, covered, criticality, current);
            match Resolve(t, nanobarType) case None => w == current case Some(e) => w == Score(e, covered, criticality)
  {
  }

  ghost predicate NonNegative(e: Entry) {
    forall i :: 0 <= i < |e| && e[i].1.required ==> e[i].1.weight >= 0.0
  }

  ghost predicate Positive(e: Entry) {
    forall i :: 0 <= i < |e| && e[i].1.required ==> e[i].1.weight > 0.0
  }

  lemma {:induction false} GapsExactly(e: Entry, covered: set<string>, name: string)
    ensures name in Gaps(e, covered) <==>
              name !in covered && exists i :: 0 <= i < |e| && e[i].0 == name && e[i].1.required
  {
    if e != [] {
      var n := |e| - 1;
      GapsExactly(e[..n], covered, name);
      if i :| 0 <= i < n && e[i].0 == name && e[i].1.required {
        assert e[..n][i] == e[i];
      }
    }
  }

  ghost predicate ComesBefore(e: Entry, a: string, b: string) {
    exists i, j :: 0 <= i < j < |e| && e[i].0 == a && e[j].0 == b
  }

  /** The gaps come in the entry's order, each once. */
  lemma {:induction false} GapsInOrder(e: Entry, covered: set<string>, g: nat, h: nat)
    requires WellFormed(e) && g < h < |Gaps(e, covered)|
    ensures ComesBefore(e, Gaps(e, covered)[g], Gaps(e, covered)[h])
  {
    var n := |e| - 1;
    var front := Gaps(e[..n], covered);
    if h < |front| {
      GapsInOrder(e[..n], covered, g, h);
      var i, j :| 0 <= i < j < n && e[..n][i].0 == front[g] && e[..n][j].0 == front[h];
      assert e[i].0 == front[g] && e[j].0 == front[h];
    } else {
      assert Gaps(e, covered)[g] == front[g] && Gaps(e, covered)[h] == e[n].0;
      GapsExactly(e[..n], covered, front[g]);
      var i :| 0 <= i < n && e[..n][i].0 == front[g];
      assert e[i].0 == front[g];
    }
  }

  /** Weights add up over names: what a set weighs is settled by what single names weigh. */
  lemma {:induction false} WeightsAddUp(e: Entry, a: set<string>, b: set<string>)
    ensures WeightOf(e, a + b) + WeightOf(e, a * b) == WeightOf(e, a) + WeightOf(e, b)
  {
    if e != [] {
      WeightsAddUp(e[..|e| - 1], a, b);
    }
  }

  /** A name weighs its scenario's weight if that is required, and nothing otherwise; so nothing does what
      is not in the entry. */
  lemma {:induction false} NameWeighs(e: Entry, i: nat)
    requires WellFormed(e) && i < |e|
    ensures WeightOf(e, {e[i].0}) == if e[i].1.required then e[i].1.weight else 0.0
  {
    var n := |e| - 1;
    if i < n {
      NameWeighs(e[..n], i);
    } else {
      WeightOfSame(e[..n], {e[n].0}, {});
      WeightlessNames(e[..n], {});
    }
  }

  /** The total is the weight of all names there are. */
  lemma {:induction false} TotalIsWeightOfAll(e: Entry, names: set<string>)
    requires forall i :: 0 <= i < |e| ==> e[i].0 in names
    ensures TotalWeight(e) == WeightOf(e, names)
  {
    if e != [] {
      TotalIsWeightOfAll(e[..|e| - 1], names);
    }
  }

  /** The score is to the criticality as the covered weight is to the total; with nothing to weigh it is the
      criticality. */
  lemma ScoreIsProportional(e: Entry, covered: set<string>, criticality: real)
    ensures TotalWeight(e) == 0.0 ==> Score(e, covered, criticality) == criticality
    ensures TotalWeight(e) != 0.0 ==>
              Score(e, covered, criticality) * TotalWeight(e) == WeightOf(e, covered) * criticality
  {
    if TotalWeight(e) != 0.0 {
      Proportional(WeightOf(e, covered), TotalWeight(e), criticality);
    }
  }

  lemma Proportional(x: real, total: real, c: real)
    requires total != 0.0
    ensures x / total * c * total == x * c
  {
    var f := x / total;
    assert f * total == x;
    assert f * c * total == f * total * c;
  }

  /** Weighing a set of names does not see names the entry lacks. */
  lemma {:induction false} WeightOfSame(e: Entry, a: set<string>, b: set<string>)
    requires forall i :: 0 <= i < |e| ==> (e[i].0 in a <==> e[i].0 in b)
    ensures WeightOf(e, a) == WeightOf(e, b)
  {
    if e != [] {
      WeightOfSame(e[..|e| - 1], a, b);
    }
  }

  /** Conservation: what is covered and what the reported gaps weigh is all there is. */
  lemma {:induction false} CoveredAndGapsAreTotal(e: Entry, covered: set<string>)
    requires WellFormed(e)
    ensures WeightOf(e, covered) + WeightOf(e, Elements(Gaps(e, covered))) == TotalWeight(e)
  {
    if e != [] {
      var n := |e| - 1;
      CoveredAndGapsAreTotal(e[..n], covered);
      var gaps, front := Elements(Gaps(e, covered)), Elements(Gaps(e[..n], covered));
      forall i | 0 <= i < n ensures e[..n][i].0 in gaps <==> e[..n][i].0 in front {
        assert e[i].0 != e[n].0;
      }
      WeightOfSame(e[..n], gaps, front);
      GapsExactly(e, covered, e[n].0);
      assert e[n].0 in covered ==> e[n].0 !in gaps;
    }
  }

  lemma {:induction false} WeightsGrow(e: Entry, a: set<string>, b: set<string>)
    requires NonNegative(e) && a <= b
    ensures 0.0 <= WeightOf(e, a) <= WeightOf(e, b) <= TotalWeight(e)
  {
    if e != [] {
      assert NonNegative(e[..|e| - 1]);
      WeightsGrow(e[..|e| - 1], a, b);
    }
  }

  lemma Fraction(x: real, y: real, total: real, c: real)
    requires 0.0 <= x <= y <= total && total > 0.0 && c >= 0.0
    ensures 0.0 <= x / total * c <= y / total * c <= c
  {
    assert 0.0 <= x / total <= y / total <= 1.0;
    Scale(x / total, y / total, c);
    Scale(0.0, x / total, c);
    Scale(y / total, 1.0, c);
  }

  lemma Scale(x: real, y: real, c: real)
    requires x <= y && c >= 0.0
    ensures x * c <= y * c
  {
    assert (y - x) * c >= 0.0;
  }

  /** The score lies between nothing and the criticality, so the table's check that a weight is at most
      one holds whenever the criticality is; and binding more bricks never lowers it. */
  lemma ScoreInRangeAndMonotone(e: Entry, covered: set<string>, more: set<string>, criticality: real)
    requires NonNegative(e) && criticality >= 0.0 && covered <= more
    ensures 0.0 <= Score(e, covered, criticality) <= Score(e, more, criticality) <= criticality
  {
    WeightsGrow(e, covered, more);
    if TotalWeight(e) != 0.0 {
      Fraction(WeightOf(e, covered), WeightOf(e, more), TotalWeight(e), criticality);
    }
  }

  /** Whatever the signs of the weights: unless they cancel, and for a criticality other than zero, full
      score means the gaps weigh nothing. */
  lemma FullScoreExactly(e: Entry, covered: set<string>, criticality: real)
    requires WellFormed(e) && TotalWeight(e) != 0.0 && criticality != 0.0
    ensures Score(e, covered, criticality) == criticality <==> WeightOf(e, Elements(Gaps(e, covered))) == 0.0
  {
    CoveredAndGapsAreTotal(e, covered);
    WholeFraction(WeightOf(e, covered), TotalWeight(e), criticality);
  }

  lemma WholeFraction(x: real, total: real, c: real)
    requires total != 0.0 && c != 0.0
    ensures x / total * c == c <==> x == total
  {
    var f := x / total;
    assert f * total == x;
    if f * c == c {
      assert (f - 1.0) * c == 0.0;
      assert f == 1.0;
    }
  }

  lemma {:induction false} PositiveGapsWeigh(e: Entry, names: set<string>, i: nat)
    requires Positive(e) && i < |e| && e[i].1.required && e[i].0 in names
    ensures WeightOf(e, names) > 0.0
  {
    var n := |e| - 1;
    assert NonNegative(e[..n]) && Positive(e[..n]);
    WeightsGrow(e[..n], names, names);
    if i < n {
      assert e[..n][i] == e[i];
      PositiveGapsWeigh(e[..n], names, i);
    }
  }

  /** With positive weights and criticality, full score means no gaps. */
  lemma FullScoreMeansNoGaps(e: Entry, covered: set<string>, criticality: real)
    requires WellFormed(e) && Positive(e) && criticality > 0.0
    ensures Score(e, covered, criticality) == criticality <==> Gaps(e, covered) == []
  {
    var gaps := Gaps(e, covered);
    CoveredAndGapsAreTotal(e, covered);
    WeightsGrow(e, {}, Elements(gaps));
    if gaps != [] {
      GapsExactly(e, covered, gaps[0]);
      var i :| 0 <= i < |e| && e[i].0 == gaps[0] && e[i].1.required;
      PositiveGapsWeigh(e, Elements(gaps), i);
      FullScoreExactly(e, covered, criticality);
    } else {
      WeightlessNames(e, Elements(gaps));
      if TotalWeight(e) != 0.0 {
        FullScoreExactly(e, covered, criticality);
      }
    }
  }

  lemma {:induction false} WeightlessNames(e: Entry, names: set<string>)
    requires forall i :: 0 <= i < |e| && e[i].1.required && e[i].0 in names ==> e[i].1.weight == 0.0
    ensures WeightOf(e, names) == 0.0
  {
    if e != [] {
      WeightlessNames(e[..|e| - 1], names);
    }
  }

  /** A required scenario of no weight can be the only gap, and the score is then full all the same. */
  lemma WeightlessGapHides(e: Entry, criticality: real, i: nat) returns (covered: set<string>)
    requires WellFormed(e) && i < |e| && e[i].1.required && e[i].1.weight == 0.0 && criticality != 0.0
    ensures Gaps(e, covered) != [] && Score(e, covered, criticality) == criticality
  {
    covered := (set j | 0 <= j < |e| :: e[j].0) - {e[i].0};
    GapsExactly(e, covered, e[i].0);
    var gaps := Elements(Gaps(e, covered));
    forall j | 0 <= j < |e| && e[j].1.required && e[j].0 in gaps ensures e[j].1.weight == 0.0 {
      GapsExactly(e, covered, e[j].0);
      assert j == i;
    }
    WeightlessNames(e, gaps);
    if TotalWeight(e) != 0.0 {
      FullScoreExactly(e, covered, criticality);
    }
  }

  /** When does the score show every gap? Exactly when every required scenario of the entry has a positive
      weight. */
  lemma ScoreShowsGapsExactly(e: Entry, criticality: real)
    requires WellFormed(e) && NonNegative(e) && criticality > 0.0
    ensures (forall covered :: Score(e, covered, criticality) == criticality <==> Gaps(e, covered) == [])
            <==> Positive(e)
  {
    if Positive(e) {
      forall covered ensures Score(e, covered, criticality) == criticality <==> Gaps(e, covered) == [] {
        FullScoreMeansNoGaps(e, covered, criticality);
      }
    } else {
      var i :| 0 <= i < |e| && e[i].1.required && e[i].1.weight <= 0.0;
      var covered := WeightlessGapHides(e, criticality, i);
    }
  }

  /** The smallest such entry. */
  lemma WeightlessGapGoesUnscored(criticality: real)
    ensures var e := [("success", Scenario(0.0, true, false))];
            Score(e, {}, criticality) == criticality && Gaps(e, {}) == ["success"]
  {
    var e := [("success", Scenario(0.0, true, false))];
    assert e[..0] == [];
    assert TotalWeight(e[..0]) == 0.0 && Gaps(e[..0], {}) == [];
  }
}
