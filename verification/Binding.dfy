/** `bricks/binding.py` over `nanobar/repository.py`: every stamped brick is bound to the one nanobar of
    its type and route key, which is created on first sight. */
module Binding {
  import opened Options
  import opened OrderedSelect
  import opened Taxonomy

  type BrickId = string

  datatype Ref = Ref(targetType: string, stableName: string)

  datatype Nanobar = Nanobar(
    nanobarType: string,
    refs: seq<Ref>,
    weight: real,
    criticality: real,
    domain: Option<string>,
    appBox: Option<string>)

  /** A row of `nanobar_regression_bricks`. A nanobar is named by its position in the table. */
  datatype Bound = Bound(nanobar: nat, brick: BrickId)

  datatype Brick = Brick(id: BrickId, nanobarType: Option<string>, routeKey: Option<string>)

  datatype Key = Key(nanobarType: string, routeKey: string)

  /** What a newly created nanobar may be stamped with, by route key. */
  datatype Stamps = Stamps(domains: map<string, string>, appBoxes: map<string, string>)

  const ROUTE := "route"

  function Find(m: map<string, string>, k: string): Option<string> {
    if k in m then Some(m[k]) else None
  }

  function NewNanobar(k: Key, stamps: Stamps): Nanobar {
    Nanobar(k.nanobarType, [Ref(ROUTE, k.routeKey)], 0.5, 0.5, Find(stamps.domains, k.routeKey),
      Find(stamps.appBoxes, k.routeKey))
  }

  predicate Carries(n: Nanobar, k: Key) {
    n.nanobarType == k.nanobarType && Ref(ROUTE, k.routeKey) in n.refs
  }

  /** At most one nanobar per type and route key. */
  ghost predicate OnePerKey(t: seq<Nanobar>) {
    forall k, i, j :: 0 <= i < |t| && 0 <= j < |t| && Carries(t[i], k) && Carries(t[j], k) ==> i == j
  }

  ghost predicate Referential(t: seq<Nanobar>, bindings: seq<Bound>) {
    forall b :: b in bindings ==> b.nanobar < |t|
  }

  predicate Stamped(b: Brick) {
    b.nanobarType.Some? && b.routeKey.Some?
  }

  function KeyOf(b: Brick): Key
    requires Stamped(b)
  {
    Key(b.nanobarType.value, b.routeKey.value)
  }

  ghost function KeysOf(bricks: seq<Brick>): set<Key> {
    set b | b in bricks && Stamped(b) :: KeyOf(b)
  }

  function CountStamped(bricks: seq<Brick>): nat {
    if bricks == [] then 0 else CountStamped(bricks[..|bricks| - 1]) + if Stamped(bricks[|bricks| - 1]) then 1 else 0
  }

  /** The bindings made when each key stands for the nanobar `chosen` says. */
  ghost function BindingsFor(bricks: seq<Brick>, chosen: map<Key, nat>): seq<Bound>
    requires KeysOf(bricks) <= chosen.Keys
  {
    if bricks == [] then []
    else
      var front, last := bricks[..|bricks| - 1], bricks[|bricks| - 1];
      BindingsFor(front, chosen) + if Stamped(last) then [Bound(chosen[KeyOf(last)], last.id)] else []
  }

  /** What binding a list of bricks does to the two tables. Rows there before are kept as they were; each
      key gets one nanobar that carries it; a row is added only for a key that no row carried before. */
  ghost predicate Binds(t0: seq<Nanobar>, b0: seq<Bound>, bricks: seq<Brick>, stamps: Stamps,
                        t1: seq<Nanobar>, b1: seq<Bound>, chosen: map<Key, nat>)
  {
    && t0 <= t1 && chosen.Keys == KeysOf(bricks)
    && (forall k :: k in chosen ==> chosen[k] < |t1| && Carries(t1[chosen[k]], k))
    && (forall i :: |t0| <= i < |t1| ==> AddedFor(t0, stamps, t1, chosen, i))
    && b1 == b0 + BindingsFor(bricks, chosen)
  }

  ghost predicate AddedFor(t0: seq<Nanobar>, stamps: Stamps, t1: seq<Nanobar>, chosen: map<Key, nat>, i: nat)
    requires i < |t1|
  {
    exists k :: k in chosen && chosen[k] == i && t1[i] == NewNanobar(k, stamps) && !Known(t0, k)
  }

  ghost predicate Known(t: seq<Nanobar>, k: Key) {
    exists i :: 0 <= i < |t| && Carries(t[i], k)
  }

  // ---------- what the rows say, column by column ----------

  predicate HasRoute(n: Nanobar, nanobarType: string, routeKey: string) {
    n.nanobarType == nanobarType && Ref("route", routeKey) in n.refs
  }

  predicate StampIs(stamp: Option<string>, stamps: map<string, string>, routeKey: string) {
    if routeKey in stamps then stamp == Some(stamps[routeKey]) else stamp == None
  }

  /** A nanobar as it is created on first sight of its key. */
  predicate JustCreated(n: Nanobar, nanobarType: string, routeKey: string, stamps: Stamps) {
    && n.nanobarType == nanobarType && n.refs == [Ref("route", routeKey)] && n.weight == 0.5 && n.criticality == 0.5
    && StampIs(n.domain, stamps.domains, routeKey) && StampIs(n.appBox, stamps.appBoxes, routeKey)
  }

  lemma CarriesIsHasRoute(n: Nanobar, k: Key)
    ensures Carries(n, k) <==> HasRoute(n, k.nanobarType, k.routeKey)
  {
  }

  lemma NewIsJustCreated(k: Key, stamps: Stamps)
    ensures JustCreated(NewNanobar(k, stamps), k.nanobarType, k.routeKey, stamps)
  {
  }

  /** The binding is of the brick, to a nanobar of its type and route key. */
  predicate BindsTo(t: seq<Nanobar>, x: Bound, b: Brick) {
    && b.nanobarType.Some? && b.routeKey.Some? && x.brick == b.id
    && x.nanobar < |t| && HasRoute(t[x.nanobar], b.nanobarType.value, b.routeKey.value)
  }

  ghost predicate BoundFor(t: seq<Nanobar>, bricks: seq<Brick>, x: Bound) {
    exists b :: b in bricks && BindsTo(t, x, b)
  }

  ghost predicate CreatedFor(t0: seq<Nanobar>, bricks: seq<Brick>, stamps: Stamps, n: Nanobar) {
    exists b :: b in bricks && b.nanobarType.Some? && b.routeKey.Some?
      && JustCreated(n, b.nanobarType.value, b.routeKey.value, stamps)
      && forall i :: 0 <= i < |t0| ==> !HasRoute(t0[i], b.nanobarType.value, b.routeKey.value)
  }

  /** The rows that are new: nanobars created for bricks whose key nothing had, and bindings of bricks to
      nanobars of their key; and every brick with a type and a route key has such a binding. */
  ghost predicate RowsAdded(t0: seq<Nanobar>, b0: seq<Bound>, bricks: seq<Brick>, stamps: Stamps,
                            t1: seq<Nanobar>, b1: seq<Bound>)
  {
    && t0 <= t1 && b0 <= b1
    && (forall i :: |t0| <= i < |t1| ==> CreatedFor(t0, bricks, stamps, t1[i]))
    && (forall i :: |b0| <= i < |b1| ==> BoundFor(t1, bricks, b1[i]))
    && forall b :: b in bricks && b.nanobarType.Some? && b.routeKey.Some? ==> exists x :: x in b1 && BindsTo(t1, x, b)
  }

  lemma BindingAddsRows(t0: seq<Nanobar>, b0: seq<Bound>, bricks: seq<Brick>, stamps: Stamps,
                        t1: seq<Nanobar>, b1: seq<Bound>, chosen: map<Key, nat>)
    requires Binds(t0, b0, bricks, stamps, t1, b1, chosen)
    ensures RowsAdded(t0, b0, bricks, stamps, t1, b1)
  {
    forall i | |t0| <= i < |t1| ensures CreatedFor(t0, bricks, stamps, t1[i]) {
      assert AddedFor(t0, stamps, t1, chosen, i);
      var k :| k in chosen && chosen[k] == i && t1[i] == NewNanobar(k, stamps) && !Known(t0, k);
      CreatedForKey(t0, bricks, stamps, k);
    }
    forall i | |b0| <= i < |b1| ensures BoundFor(t1, bricks, b1[i]) {
      var x := BindingsFor(bricks, chosen)[i - |b0|];
      assert b1[i] == x;
      BindingsForExactly(bricks, chosen, x);
      var b :| b in bricks && Stamped(b) && x == Bound(chosen[KeyOf(b)], b.id);
      CarriesIsHasRoute(t1[x.nanobar], KeyOf(b));
      assert BindsTo(t1, x, b);
    }
    forall b | b in bricks && b.nanobarType.Some? && b.routeKey.Some? ensures exists x :: x in b1 && BindsTo(t1, x, b) {
      var x := Bound(chosen[KeyOf(b)], b.id);
      BindingsForExactly(bricks, chosen, x);
      CarriesIsHasRoute(t1[x.nanobar], KeyOf(b));
      assert x in b1 && BindsTo(t1, x, b);
    }
  }

  lemma CreatedForKey(t0: seq<Nanobar>, bricks: seq<Brick>, stamps: Stamps, k: Key)
    requires k in KeysOf(bricks) && !Known(t0, k)
    ensures CreatedFor(t0, bricks, stamps, NewNanobar(k, stamps))
  {
    var b :| b in bricks && Stamped(b) && KeyOf(b) == k;
    NewIsJustCreated(k, stamps);
    forall i | 0 <= i < |t0| ensures !HasRoute(t0[i], b.nanobarType.value, b.routeKey.value) {
      CarriesIsHasRoute(t0[i], k);
    }
  }

  // ---------- one more brick ----------

  lemma {:induction false} BindingsForSame(bricks: seq<Brick>, a: map<Key, nat>, b: map<Key, nat>)
    requires KeysOf(bricks) <= a.Keys && KeysOf(bricks) <= b.Keys
    requires forall k :: k in KeysOf(bricks) ==> a[k] == b[k]
    ensures BindingsFor(bricks, a) == BindingsFor(bricks, b)
  {
    if bricks != [] {
      assert bricks == bricks[..|bricks| - 1] + [bricks[|bricks| - 1]];
      BindingsForSame(bricks[..|bricks| - 1], a, b);
    }
  }

  lemma KeysOfMore(bricks: seq<Brick>, b: Brick)
    ensures KeysOf(bricks + [b]) == KeysOf(bricks) + if Stamped(b) then {KeyOf(b)} else {}
  {
    assert forall x :: x in bricks + [b] <==> x in bricks || x == b;
  }

  lemma OldRowsKnown(t0: seq<Nanobar>, t1: seq<Nanobar>, k: Key)
    requires t0 <= t1
    ensures Known(t0, k) ==> Known(t1, k)
    ensures forall j :: 0 <= j < |t0| && Carries(t1[j], k) ==> Known(t0, k)
  {
    forall j | 0 <= j < |t0| ensures Carries(t1[j], k) <==> Carries(t0[j], k) {}
  }

  lemma BindsSkip(t0: seq<Nanobar>, b0: seq<Bound>, bricks: seq<Brick>, stamps: Stamps,
                  t1: seq<Nanobar>, b1: seq<Bound>, chosen: map<Key, nat>, b: Brick)
    requires Binds(t0, b0, bricks, stamps, t1, b1, chosen) && !Stamped(b)
    ensures Binds(t0, b0, bricks + [b], stamps, t1, b1, chosen)
  {
    KeysOfMore(bricks, b);
    assert (bricks + [b])[..|bricks|] == bricks;
  }

  lemma BindsKnown(t0: seq<Nanobar>, b0: seq<Bound>, bricks: seq<Brick>, stamps: Stamps,
                   t1: seq<Nanobar>, b1: seq<Bound>, chosen: map<Key, nat>, b: Brick)
    requires Binds(t0, b0, bricks, stamps, t1, b1, chosen) && Stamped(b) && KeyOf(b) in chosen
    ensures Binds(t0, b0, bricks + [b], stamps, t1, b1 + [Bound(chosen[KeyOf(b)], b.id)], chosen)
  {
    KeysOfMore(bricks, b);
    assert (bricks + [b])[..|bricks|] == bricks;
  }

  /** A key seen for the first time, and the nanobar `get_or_create_by_route_key` answers. */
  lemma BindsFirst(t0: seq<Nanobar>, b0: seq<Bound>, bricks: seq<Brick>, stamps: Stamps,
                   t1: seq<Nanobar>, b1: seq<Bound>, chosen: map<Key, nat>, b: Brick, t2: seq<Nanobar>, id: nat)
    requires Binds(t0, b0, bricks, stamps, t1, b1, chosen) && Stamped(b) && KeyOf(b) !in chosen
    requires Answered(t1, KeyOf(b), stamps, t2, id)
    ensures Binds(t0, b0, bricks + [b], stamps, t2, b1 + [Bound(id, b.id)], chosen[KeyOf(b) := id])
  {
    KeysOfMore(bricks, b);
    var k := KeyOf(b);
    var chosen' := chosen[k := id];
    assert (bricks + [b])[..|bricks|] == bricks;
    BindingsForSame(bricks, chosen, chosen');
    OldRowsKnown(t0, t1, k);
    forall i | |t0| <= i < |t2| ensures AddedFor(t0, stamps, t2, chosen', i) {
      if i < |t1| {
        assert AddedFor(t0, stamps, t1, chosen, i);
      } else {
        assert chosen'[k] == i;
      }
    }
  }

  ghost predicate Answered(t1: seq<Nanobar>, k: Key, stamps: Stamps, t2: seq<Nanobar>, id: nat) {
    if Known(t1, k) then t2 == t1 && id < |t1| && Carries(t1[id], k)
    else t2 == t1 + [NewNanobar(k, stamps)] && id == |t1|
  }

  // ---------- what binding promises ----------

  lemma CarriesOwnKey(k: Key, stamps: Stamps, other: Key)
    ensures Carries(NewNanobar(k, stamps), other) <==> other == k
  {
  }

  /** Binding keeps at most one nanobar per type and route key. */
  lemma BindingKeepsOnePerKey(t0: seq<Nanobar>, b0: seq<Bound>, bricks: seq<Brick>, stamps: Stamps,
                              t1: seq<Nanobar>, b1: seq<Bound>, chosen: map<Key, nat>)
    requires Binds(t0, b0, bricks, stamps, t1, b1, chosen) && OnePerKey(t0)
    ensures OnePerKey(t1)
  {
    forall k, i, j | 0 <= i < |t1| && 0 <= j < |t1| && Carries(t1[i], k) && Carries(t1[j], k) ensures i == j {
      if i >= |t0| {
        CarriesOnlyAsNew(t0, b0, bricks, stamps, t1, b1, chosen, k, i, j);
      } else if j >= |t0| {
        CarriesOnlyAsNew(t0, b0, bricks, stamps, t1, b1, chosen, k, j, i);
      }
    }
  }

  lemma CarriesOnlyAsNew(t0: seq<Nanobar>, b0: seq<Bound>, bricks: seq<Brick>, stamps: Stamps,
                         t1: seq<Nanobar>, b1: seq<Bound>, chosen: map<Key, nat>, k: Key, i: nat, j: nat)
    requires Binds(t0, b0, bricks, stamps, t1, b1, chosen)
    requires |t0| <= i < |t1| && j < |t1| && Carries(t1[i], k) && Carries(t1[j], k)
    ensures i == j && k in chosen && chosen[k] == i && !Known(t0, k)
  {
    assert AddedFor(t0, stamps, t1, chosen, i);
    var k' :| k' in chosen && chosen[k'] == i && t1[i] == NewNanobar(k', stamps) && !Known(t0, k');
    CarriesOwnKey(k', stamps, k);
    OldRowsKnown(t0, t1, k);
    if j >= |t0| {
      assert AddedFor(t0, stamps, t1, chosen, j);
      var k'' :| k'' in chosen && chosen[k''] == j && t1[j] == NewNanobar(k'', stamps) && !Known(t0, k'');
      CarriesOwnKey(k'', stamps, k);
    }
  }

  /** A brick of the list is bound to a nanobar that carries its key if it is stamped, and the bindings
      added are these and no others. */
  lemma {:induction false} BindingsForExactly(bricks: seq<Brick>, chosen: map<Key, nat>, b: Bound)
    requires KeysOf(bricks) <= chosen.Keys
    ensures b in BindingsFor(bricks, chosen)
       <==> exists x :: x in bricks && Stamped(x) && b == Bound(chosen[KeyOf(x)], x.id)
    ensures |BindingsFor(bricks, chosen)| == CountStamped(bricks) <= |bricks|
  {
    if bricks != [] {
      var n := |bricks| - 1;
      assert bricks == bricks[..n] + [bricks[n]];
      BindingsForExactly(bricks[..n], chosen, b);
      if Stamped(bricks[n]) && b == Bound(chosen[KeyOf(bricks[n])], bricks[n].id) {
        assert bricks[n] in bricks;
      }
    }
  }

  /** A nanobar is created exactly for the keys that had none, one for each. */
  lemma CreatedExactlyWhenMissing(t0: seq<Nanobar>, b0: seq<Bound>, bricks: seq<Brick>, stamps: Stamps,
                                  t1: seq<Nanobar>, b1: seq<Bound>, chosen: map<Key, nat>)
    requires Binds(t0, b0, bricks, stamps, t1, b1, chosen)
    ensures forall k :: k in chosen ==> (chosen[k] >= |t0| <==> !Known(t0, k))
    ensures |t1| - |t0| == |set k | k in chosen && !Known(t0, k)|
  {
    forall k | k in chosen ensures chosen[k] >= |t0| <==> !Known(t0, k) {
      if chosen[k] >= |t0| {
        CarriesOnlyAsNew(t0, b0, bricks, stamps, t1, b1, chosen, k, chosen[k], chosen[k]);
      } else {
        assert t0[chosen[k]] == t1[chosen[k]];
      }
    }
    var missing := set k | k in chosen && !Known(t0, k);
    var rows := Range(|t0|, |t1|);
    forall i | i in rows ensures exists k :: k in missing && chosen[k] == i {
      assert AddedFor(t0, stamps, t1, chosen, i);
    }
    forall k, k' | k in missing && k' in missing && chosen[k] == chosen[k'] ensures k == k' {
      assert AddedFor(t0, stamps, t1, chosen, chosen[k]);
      var k0 :| k0 in chosen && chosen[k0] == chosen[k] && t1[chosen[k]] == NewNanobar(k0, stamps) && !Known(t0, k0);
      CarriesOwnKey(k0, stamps, k);
      CarriesOwnKey(k0, stamps, k');
    }
    MatchedSizes(missing, rows, chosen);
  }

  /** The positions from `lo` up to `hi`. */
  ghost function Range(lo: nat, hi: nat): (r: set<nat>)
    requires lo <= hi
    ensures |r| == hi - lo && forall i: nat :: i in r <==> lo <= i < hi
    decreases hi
  {
    if lo == hi then {} else Range(lo, hi - 1) + {hi - 1}
  }

  lemma {:induction false} MatchedSizes(keys: set<Key>, rows: set<nat>, chosen: map<Key, nat>)
    requires keys <= chosen.Keys
    requires forall k :: k in keys ==> chosen[k] in rows
    requires forall i :: i in rows ==> exists k :: k in keys && chosen[k] == i
    requires forall k, k' :: k in keys && k' in keys && chosen[k] == chosen[k'] ==> k == k'
    ensures |keys| == |rows|
    decreases rows
  {
    if keys == {} {
      assert rows == {};
    } else {
      var k :| k in keys;
      forall i | i in rows - {chosen[k]} ensures exists k' :: k' in keys - {k} && chosen[k'] == i {
        var k' :| k' in keys && chosen[k'] == i;
        assert k' in keys - {k};
      }
      MatchedSizes(keys - {k}, rows - {chosen[k]}, chosen);
    }
  }

  /** Bricks of keys bound before create no nanobar. */
  lemma KnownKeysCreateNone(t0: seq<Nanobar>, b0: seq<Bound>, bricks: seq<Brick>, stamps: Stamps,
                            t1: seq<Nanobar>, b1: seq<Bound>, chosen: map<Key, nat>,
                            more: seq<Brick>, stamps': Stamps, t2: seq<Nanobar>, b2: seq<Bound>, chosen': map<Key, nat>)
    requires Binds(t0, b0, bricks, stamps, t1, b1, chosen) && Binds(t1, b1, more, stamps', t2, b2, chosen')
    requires KeysOf(more) <= KeysOf(bricks)
    ensures t2 == t1
    ensures OnePerKey(t1) ==> forall k :: k in chosen' ==> chosen'[k] == chosen[k]
  {
    CreatedExactlyWhenMissing(t1, b1, more, stamps', t2, b2, chosen');
    forall k | k in chosen' ensures Known(t1, k) {
      assert Carries(t1[chosen[k]], k);
    }
    assert (set k | k in chosen' && !Known(t1, k)) == {};
  }

  // ---------- the repository and the batch step ----------

  datatype BindingResult = BindingResult(nanobarsCreated: nat, bindingsCreated: nat, skipped: nat)

  class NanobarRepository {
    var nanobars: seq<Nanobar>
    var bindings: seq<Bound>

    /** The brick table's column the weights depend on. */
    var scenarios: map<BrickId, Option<string>>

    constructor (nanobars: seq<Nanobar>, bindings: seq<Bound>, scenarios: map<BrickId, Option<string>>)
      ensures this.nanobars == nanobars && this.bindings == bindings && this.scenarios == scenarios
    {
      this.nanobars, this.bindings, this.scenarios := nanobars, bindings, scenarios;
    }

    /** The query names no order, so any nanobar that carries the key may come back. */
    method FindByRouteKey(k: Key) returns (found: Option<nat>)
      ensures found.Some? ==> found.value < |nanobars| && Carries(nanobars[found.value], k)
      ensures found.None? ==> !Known(nanobars, k)
    {
      for i := 0 to |nanobars|
        invariant forall j :: 0 <= j < i ==> !Carries(nanobars[j], k)
      {
        if Carries(nanobars[i], k) {
          return Some(i);
        }
      }
      return None;
    }

    method GetOrCreateByRouteKey(k: Key, stamps: Stamps) returns (id: nat, created: bool)
      modifies this`nanobars
      ensures created <==>
                forall i :: 0 <= i < |old(nanobars)| ==> !HasRoute(old(nanobars)[i], k.nanobarType, k.routeKey)
      ensures !created ==>
                nanobars == old(nanobars) && id < |nanobars| && HasRoute(nanobars[id], k.nanobarType, k.routeKey)
      ensures created ==>
                && id == |old(nanobars)| < |nanobars| && nanobars == old(nanobars) + [nanobars[id]]
                && JustCreated(nanobars[id], k.nanobarType, k.routeKey, stamps)
      ensures Answered(old(nanobars), k, stamps, nanobars, id)
      ensures created <==> !Known(old(nanobars), k)
    {
      forall i | 0 <= i < |nanobars|
        ensures Carries(nanobars[i], k) <==> HasRoute(nanobars[i], k.nanobarType, k.routeKey)
      {
        CarriesIsHasRoute(nanobars[i], k);
      }
      NewIsJustCreated(k, stamps);
      var existing := FindByRouteKey(k);
      if existing.Some? {
        return existing.value, false;
      }
      nanobars := nanobars + [NewNanobar(k, stamps)];
      return |nanobars| - 1, true;
    }

    /** The pair is the primary key: binding it again is an exception. */
    method BindBrick(b: Bound) returns (ok: bool)
      modifies this`bindings
      ensures ok <==> b !in old(bindings)
      ensures bindings == if ok then old(bindings) + [b] else old(bindings)
    {
      if b in bindings {
        return false;
      }
      bindings := bindings + [b];
      return true;
    }

    ghost function CoveredBy(id: nat): set<string>
      reads this
    {
      Covered(bindings, scenarios, id)
    }

    /** `bricks_for`, reduced to the scenarios its bricks carry. */
    method BoundScenarios(id: nat) returns (covered: set<string>)
      ensures covered == CoveredBy(id)
    {
      covered := {};
      for i := 0 to |bindings|
        invariant covered == Covered(bindings[..i], scenarios, id)
      {
        var b := bindings[i];
        CoveredMore(bindings[..i], scenarios, id, b);
        assert bindings[..i + 1] == bindings[..i] + [b];
        if b.nanobar == id && b.brick in scenarios && scenarios[b.brick].Some? {
          covered := covered + {scenarios[b.brick].value};
        }
      }
      assert bindings[..|bindings|] == bindings;
    }

    /** `_recompute_weight`. A weight the table's check refuses is an exception. */
    method RecomputeWeight(id: nat, types: Types) returns (ok: bool)
      requires id < |nanobars|
      modifies this`nanobars
      ensures var w := WeightNow(old(nanobars)[id], old(CoveredBy(id)), types);
              && (ok <==> 0.0 <= w <= 1.0)
              && nanobars == if ok then old(nanobars)[id := old(nanobars)[id].(weight := w)] else old(nanobars)
    {
      var covered := BoundScenarios(id);
      var n := nanobars[id];
      var w := RegressionWeight(types, n.nanobarType, covered, n.criticality, n.weight);
      if w < 0.0 || 1.0 < w {
        return false;
      }
      nanobars := nanobars[id := n.(weight := w)];
      return true;
    }
  }

  function WeightNow(n: Nanobar, covered: set<string>, types: Types): real {
    RegressionWeight(types, n.nanobarType, covered, n.criticality, n.weight)
  }

  ghost function Covered(bindings: seq<Bound>, scenarios: map<BrickId, Option<string>>, id: nat): set<string> {
    set b | b in bindings && b.nanobar == id && b.brick in scenarios && scenarios[b.brick].Some? ::
      scenarios[b.brick].value
  }

  lemma CoveredMore(bindings: seq<Bound>, scenarios: map<BrickId, Option<string>>, id: nat, b: Bound)
    ensures Covered(bindings + [b], scenarios, id)
         == Covered(bindings, scenarios, id)
            + if b.nanobar == id && b.brick in scenarios && scenarios[b.brick].Some?
              then {scenarios[b.brick].value} else {}
  {
    assert forall x :: x in bindings + [b] <==> x in bindings || x == b;
  }

  /** A scenario is covered exactly when a brick bound to the nanobar carries it. */
  lemma CoveredExactly(bindings: seq<Bound>, scenarios: map<BrickId, Option<string>>, id: nat, name: string)
    ensures name in Covered(bindings, scenarios, id) <==>
              exists b :: b in bindings && b.nanobar == id && b.brick in scenarios && scenarios[b.brick] == Some(name)
  {
  }

  /** No binding made was there before. */
  ghost predicate NoneTwice(b0: seq<Bound>, bricks: seq<Brick>, chosen: map<Key, nat>)
    requires KeysOf(bricks) <= chosen.Keys
  {
    bricks == [] ||
    var front, last := bricks[..|bricks| - 1], bricks[|bricks| - 1];
    && NoneTwice(b0, front, chosen)
    && (Stamped(last) ==> Bound(chosen[KeyOf(last)], last.id) !in b0 + BindingsFor(front, chosen))
  }

  lemma {:induction false} NoneTwiceSame(b0: seq<Bound>, bricks: seq<Brick>, a: map<Key, nat>, b: map<Key, nat>)
    requires KeysOf(bricks) <= a.Keys && KeysOf(bricks) <= b.Keys && NoneTwice(b0, bricks, a)
    requires forall k :: k in KeysOf(bricks) ==> a[k] == b[k]
    ensures NoneTwice(b0, bricks, b)
  {
    if bricks != [] {
      var front, last := bricks[..|bricks| - 1], bricks[|bricks| - 1];
      assert bricks == front + [last];
      NoneTwiceSame(b0, front, a, b);
      BindingsForSame(front, a, b);
    }
  }

  lemma NoneTwiceMore(b0: seq<Bound>, bricks: seq<Brick>, chosen: map<Key, nat>, b: Brick, chosen': map<Key, nat>)
    requires KeysOf(bricks) <= chosen.Keys && NoneTwice(b0, bricks, chosen)
    requires KeysOf(bricks + [b]) <= chosen'.Keys
    requires forall k :: k in KeysOf(bricks) ==> k in chosen' && chosen'[k] == chosen[k]
    requires Stamped(b) ==> Bound(chosen'[KeyOf(b)], b.id) !in b0 + BindingsFor(bricks, chosen)
    ensures NoneTwice(b0, bricks + [b], chosen')
  {
    KeysOfMore(bricks, b);
    NoneTwiceSame(b0, bricks, chosen, chosen');
    BindingsForSame(bricks, chosen, chosen');
    assert (bricks + [b])[..|bricks|] == bricks;
  }

  lemma {:induction false} NoneTwiceAt(b0: seq<Bound>, bricks: seq<Brick>, chosen: map<Key, nat>, i: nat)
    requires KeysOf(bricks) <= chosen.Keys && NoneTwice(b0, bricks, chosen) && i < |bricks| && Stamped(bricks[i])
    ensures KeysOf(bricks[..i]) <= chosen.Keys && KeyOf(bricks[i]) in chosen
    ensures Bound(chosen[KeyOf(bricks[i])], bricks[i].id) !in b0 + BindingsFor(bricks[..i], chosen)
  {
    var n := |bricks| - 1;
    assert bricks == bricks[..n] + [bricks[n]];
    if i < n {
      assert bricks[..n][..i] == bricks[..i];
      NoneTwiceAt(b0, bricks[..n], chosen, i);
    }
  }

  // ---------- which calls raise ----------

  /** Some row carries both keys. */
  ghost predicate SameNanobar(t: seq<Nanobar>, k: Key, k': Key) {
    k == k' || exists r :: 0 <= r < |t| && Carries(t[r], k) && Carries(t[r], k')
  }

  /** What a caller can see before the call: the brick is bound already to a nanobar that carries its key,
      or stands in the list before, under a key of the same nanobar. */
  ghost predicate BoundBefore(t: seq<Nanobar>, bindings: seq<Bound>, bricks: seq<Brick>, i: nat) {
    i < |bricks| && Stamped(bricks[i]) &&
    (Clashes(t, bindings, bricks[i]) || RepeatedBefore(t, bricks, i))
  }

  ghost predicate RepeatedBefore(t: seq<Nanobar>, bricks: seq<Brick>, i: nat)
    requires i < |bricks| && Stamped(bricks[i])
  {
    exists j :: 0 <= j < i && Stamped(bricks[j]) && bricks[j].id == bricks[i].id
      && SameNanobar(t, KeyOf(bricks[j]), KeyOf(bricks[i]))
  }

  /** A brick that clashes in mid-call was bound before. */
  lemma ClashWasBoundBefore(t0: seq<Nanobar>, b0: seq<Bound>, bricks: seq<Brick>, n: nat, stamps: Stamps,
                            t1: seq<Nanobar>, b1: seq<Bound>, chosen: map<Key, nat>)
    requires n < |bricks| && Stamped(bricks[n]) && Referential(t0, b0)
    requires Binds(t0, b0, bricks[..n], stamps, t1, b1, chosen) && Clashes(t1, b1, bricks[n])
    ensures BoundBefore(t0, b0, bricks, n)
  {
    var k := KeyOf(bricks[n]);
    var i: nat :| i < |t1| && Carries(t1[i], k) && Bound(i, bricks[n].id) in b1;
    if Bound(i, bricks[n].id) in b0 {
      assert t0[i] == t1[i];
      assert Clashes(t0, b0, bricks[n]);
    } else {
      BindingsForExactly(bricks[..n], chosen, Bound(i, bricks[n].id));
      var x :| x in bricks[..n] && Stamped(x) && Bound(i, bricks[n].id) == Bound(chosen[KeyOf(x)], x.id);
      var j :| 0 <= j < n && bricks[j] == x;
      CarryTogether(t0, b0, bricks[..n], stamps, t1, b1, chosen, KeyOf(x), k, i);
      assert RepeatedBefore(t0, bricks, n);
    }
  }

  lemma CarryTogether(t0: seq<Nanobar>, b0: seq<Bound>, bricks: seq<Brick>, stamps: Stamps,
                      t1: seq<Nanobar>, b1: seq<Bound>, chosen: map<Key, nat>, k: Key, k': Key, i: nat)
    requires Binds(t0, b0, bricks, stamps, t1, b1, chosen) && i < |t1| && Carries(t1[i], k) && Carries(t1[i], k')
    ensures SameNanobar(t0, k, k')
  {
    if i < |t0| {
      assert t0[i] == t1[i];
    } else {
      assert AddedFor(t0, stamps, t1, chosen, i);
      var own :| own in chosen && chosen[own] == i && t1[i] == NewNanobar(own, stamps) && !Known(t0, own);
      CarriesOwnKey(own, stamps, k);
      CarriesOwnKey(own, stamps, k');
    }
  }

  /** With one nanobar per key, a brick bound before makes the call raise there or earlier. */
  lemma BoundBeforeStops(t0: seq<Nanobar>, b0: seq<Bound>, bricks: seq<Brick>, stamps: Stamps,
                         t1: seq<Nanobar>, b1: seq<Bound>, chosen: map<Key, nat>, i: nat)
    requires OnePerKey(t0) && Binds(t0, b0, bricks, stamps, t1, b1, chosen) && NoneTwice(b0, bricks, chosen)
    ensures !BoundBefore(t0, b0, bricks, i)
  {
    if i < |bricks| && Stamped(bricks[i]) {
      BindingKeepsOnePerKey(t0, b0, bricks, stamps, t1, b1, chosen);
      NoneTwiceAt(b0, bricks, chosen, i);
      var k := KeyOf(bricks[i]);
      var id := chosen[k];
      forall r: nat | r < |t0| && Carries(t0[r], k) ensures r == id {
        assert t1[r] == t0[r];
      }
      if RepeatedBefore(t0, bricks, i) {
        var j :| 0 <= j < i && Stamped(bricks[j]) && bricks[j].id == bricks[i].id
          && SameNanobar(t0, KeyOf(bricks[j]), k);
        assert bricks[j] in bricks[..i] && bricks[j] in bricks;
        ChosenTogether(t0, b0, bricks, stamps, t1, b1, chosen, KeyOf(bricks[j]), k);
        BindingsForExactly(bricks[..i], chosen, Bound(id, bricks[i].id));
      }
    }
  }

  lemma ChosenTogether(t0: seq<Nanobar>, b0: seq<Bound>, bricks: seq<Brick>, stamps: Stamps,
                       t1: seq<Nanobar>, b1: seq<Bound>, chosen: map<Key, nat>, k: Key, k': Key)
    requires OnePerKey(t1) && Binds(t0, b0, bricks, stamps, t1, b1, chosen)
    requires k in chosen && k' in chosen && SameNanobar(t0, k, k')
    ensures chosen[k] == chosen[k']
  {
    if k != k' {
      var r :| 0 <= r < |t0| && Carries(t0[r], k) && Carries(t0[r], k');
      assert t1[r] == t0[r];
    }
  }

  /** Bricks that are all different and not bound yet are never bound before. */
  lemma NewBricksNeverClash(t: seq<Nanobar>, bindings: seq<Bound>, bricks: seq<Brick>, i: nat)
    requires forall i, j :: 0 <= i < j < |bricks| ==> bricks[i].id != bricks[j].id
    requires forall b, x :: b in bindings && x in bricks ==> b.brick != x.id
    ensures !BoundBefore(t, bindings, bricks, i)
  {
    if i < |bricks| {
      assert bricks[i] in bricks;
    }
  }

  /** The brick is already bound to a nanobar that carries its key. */
  ghost predicate Clashes(t: seq<Nanobar>, bindings: seq<Bound>, brick: Brick)
    requires Stamped(brick)
  {
    exists i: nat :: i < |t| && Carries(t[i], KeyOf(brick)) && Bound(i, brick.id) in bindings
  }

  lemma ValuesMore(m: map<Key, nat>, k: Key, id: nat)
    requires k in m ==> m[k] == id
    ensures m[k := id].Values == m.Values + {id}
  {
    var m' := m[k := id];
    assert k in m' && m'[k] == id;
    forall v | v in m.Values ensures v in m'.Values {
      var j :| j in m && m[j] == v;
      assert j in m' && m'[j] == v;
    }
  }

  /** One stamped brick: look its key up in what this call has resolved, then in the table, and bind. */
  method BindOne(repo: NanobarRepository, brick: Brick, stamps: Stamps, resolved: map<Key, nat>,
                 ghost t0: seq<Nanobar>, ghost b0: seq<Bound>, ghost done: seq<Brick>)
    returns (id: nat, created: bool, ok: bool)
    requires Stamped(brick) && Referential(repo.nanobars, repo.bindings)
    requires Binds(t0, b0, done, stamps, repo.nanobars, repo.bindings, resolved)
    modifies repo`nanobars, repo`bindings
    ensures Referential(repo.nanobars, repo.bindings)
    ensures !ok ==>
              repo.nanobars == old(repo.nanobars) && repo.bindings == old(repo.bindings)
              && Clashes(repo.nanobars, repo.bindings, brick)
    ensures ok ==> Binds(t0, b0, done + [brick], stamps, repo.nanobars, repo.bindings, resolved[KeyOf(brick) := id])
    ensures ok ==> (KeyOf(brick) in resolved ==> resolved[KeyOf(brick)] == id)
    ensures ok ==>
              |repo.nanobars| == |old(repo.nanobars)| + (if created then 1 else 0)
              && |repo.bindings| == |old(repo.bindings)| + 1
    ensures ok ==> Bound(id, brick.id) !in old(repo.bindings)
  {
    var k := KeyOf(brick);
    ghost var t1, b1 := repo.nanobars, repo.bindings;
    if k in resolved {
      id, created := resolved[k], false;
      BindsKnown(t0, b0, done, stamps, t1, b1, resolved, brick);
      assert resolved[k := id] == resolved;
    } else {
      id, created := repo.GetOrCreateByRouteKey(k, stamps);
      BindsFirst(t0, b0, done, stamps, t1, b1, resolved, brick, repo.nanobars, id);
    }
    assert id < |repo.nanobars| && Carries(repo.nanobars[id], k);
    ok := repo.BindBrick(Bound(id, brick.id));
  }

  /** The loop over the bricks. On an exception `done` bricks have been bound and the next one, whose
      binding was already there, is the culprit. */
  method BindEach(repo: NanobarRepository, bricks: seq<Brick>, stamps: Stamps)
    returns (result: BindingResult, touched: set<nat>, raised: bool, ghost done: nat, ghost chosen: map<Key, nat>)
    requires Referential(repo.nanobars, repo.bindings)
    modifies repo`nanobars, repo`bindings
    ensures done <= |bricks| && (!raised ==> done == |bricks|)
    ensures Binds(old(repo.nanobars), old(repo.bindings), bricks[..done], stamps, repo.nanobars, repo.bindings, chosen)
    ensures Referential(repo.nanobars, repo.bindings)
    ensures raised ==> done < |bricks| && Stamped(bricks[done]) && Clashes(repo.nanobars, repo.bindings, bricks[done])
    ensures touched == chosen.Values && NoneTwice(old(repo.bindings), bricks[..done], chosen)
    ensures !raised ==>
              && result.nanobarsCreated == |repo.nanobars| - |old(repo.nanobars)|
              && result.bindingsCreated == |repo.bindings| - |old(repo.bindings)|
              && result.bindingsCreated + result.skipped == |bricks|
  {
    ghost var t0, b0 := repo.nanobars, repo.bindings;
    var nanobarsCreated, bindingsCreated, skipped := 0, 0, 0;
    var resolved: map<Key, nat> := map[];
    touched, chosen := {}, map[];
    for i := 0 to |bricks|
      invariant resolved == chosen && touched == chosen.Values
      invariant Binds(t0, b0, bricks[..i], stamps, repo.nanobars, repo.bindings, chosen)
      invariant Referential(repo.nanobars, repo.bindings) && NoneTwice(b0, bricks[..i], chosen)
      invariant nanobarsCreated == |repo.nanobars| - |t0| && bindingsCreated == |repo.bindings| - |b0|
      invariant bindingsCreated + skipped == i
    {
      var brick := bricks[i];
      assert bricks[..i + 1] == bricks[..i] + [brick];
      if !Stamped(brick) {
        BindsSkip(t0, b0, bricks[..i], stamps, repo.nanobars, repo.bindings, chosen, brick);
        NoneTwiceMore(b0, bricks[..i], chosen, brick, chosen);
        skipped := skipped + 1;
        continue;
      }
      var id, created, ok := BindOne(repo, brick, stamps, resolved, t0, b0, bricks[..i]);
      if !ok {
        return BindingResult(nanobarsCreated, bindingsCreated, skipped), touched, true, i, chosen;
      }
      nanobarsCreated := nanobarsCreated + if created then 1 else 0;
      ValuesMore(resolved, KeyOf(brick), id);
      NoneTwiceMore(b0, bricks[..i], chosen, brick, resolved[KeyOf(brick) := id]);
      resolved := resolved[KeyOf(brick) := id];
      chosen := resolved;
      bindingsCreated := bindingsCreated + 1;
      touched := touched + {id};
    }
    assert bricks[..|bricks|] == bricks;
    return BindingResult(nanobarsCreated, bindingsCreated, skipped), touched, false, |bricks|, chosen;
  }

  /** Exactly the given rows are weighed again, by all their bindings. */
  ghost predicate Reweighed(t1: seq<Nanobar>, t2: seq<Nanobar>, ids: set<nat>, bindings: seq<Bound>,
                            scenarios: map<BrickId, Option<string>>, types: Types)
  {
    && |t2| == |t1|
    && forall i :: 0 <= i < |t1| ==>
         t2[i] == if i in ids then t1[i].(weight := WeightNow(t1[i], Covered(bindings, scenarios, i), types)) else t1[i]
  }

  ghost predicate WeightRefused(t: seq<Nanobar>, bindings: seq<Bound>, scenarios: map<BrickId, Option<string>>,
                                types: Types, i: nat) {
    i < |t| && !(0.0 <= WeightNow(t[i], Covered(bindings, scenarios, i), types) <= 1.0)
  }

  /** The loop over the touched nanobars; an exception leaves those `weighed` before it. */
  method RecomputeWeights(repo: NanobarRepository, touched: set<nat>, types: Types) returns (ok: bool,
                          ghost weighed: set<nat>)
    requires forall i :: i in touched ==> i < |repo.nanobars|
    modifies repo`nanobars
    ensures weighed <= touched && (ok ==> weighed == touched)
    ensures Reweighed(old(repo.nanobars), repo.nanobars, weighed, repo.bindings, repo.scenarios, types)
    ensures !ok <==> exists i ::
              i in touched && WeightRefused(old(repo.nanobars), repo.bindings, repo.scenarios, types, i)
  {
    ghost var t1 := repo.nanobars;
    var rest := touched;
    while rest != {}
      invariant rest <= touched
      invariant Reweighed(t1, repo.nanobars, touched - rest, repo.bindings, repo.scenarios, types)
      invariant forall i :: i in touched - rest ==> !WeightRefused(t1, repo.bindings, repo.scenarios, types, i)
      decreases rest
    {
      var id :| id in rest;
      assert repo.nanobars[id] == t1[id];
      ok := repo.RecomputeWeight(id, types);
      if !ok {
        return false, touched - rest;
      }
      rest := rest - {id};
    }
    assert touched - rest == touched;
    return true, touched;
  }

  /** Weighing changes no key, so it keeps one nanobar for each. */
  lemma ReweighingKeepsOnePerKey(t1: seq<Nanobar>, t2: seq<Nanobar>, ids: set<nat>, bindings: seq<Bound>,
                                 scenarios: map<BrickId, Option<string>>, types: Types)
    requires Reweighed(t1, t2, ids, bindings, scenarios, types)
    ensures OnePerKey(t2) <==> OnePerKey(t1)
  {
    forall i, k | 0 <= i < |t1| ensures Carries(t2[i], k) <==> Carries(t1[i], k) {}
  }

  /** `bind_new_bricks_to_nanobars`. `bound` is the nanobar table before the weights are recomputed. With
      one nanobar per key, the loop over the bricks raises if and only if some brick is bound before, and
      the `done` bricks ahead of the first to clash stay bound; a call whose bricks are all bound raises
      if and only if some weight is refused, and then only the nanobars `weighed` so far have changed. */
  method BindNewBricksToNanobars(repo: NanobarRepository, bricks: seq<Brick>, stamps: Stamps, taxonomy: Option<Types>)
    returns (result: BindingResult, raised: bool, ghost done: nat,
             ghost bound: seq<Nanobar>, ghost chosen: map<Key, nat>, ghost weighed: set<nat>)
    requires Referential(repo.nanobars, repo.bindings)
    modifies repo`nanobars, repo`bindings
    ensures Referential(repo.nanobars, repo.bindings)
    ensures OnePerKey(old(repo.nanobars)) ==> OnePerKey(repo.nanobars)
    ensures done <= |bricks|
    ensures RowsAdded(old(repo.nanobars), old(repo.bindings), bricks[..done], stamps, bound, repo.bindings)
    ensures Binds(old(repo.nanobars), old(repo.bindings), bricks[..done], stamps, bound, repo.bindings, chosen)
    ensures done < |bricks| ==>
              raised && repo.nanobars == bound
              && BoundBefore(old(repo.nanobars), old(repo.bindings), bricks, done)
    ensures OnePerKey(old(repo.nanobars)) ==>
              (done < |bricks| <==> exists i :: BoundBefore(old(repo.nanobars), old(repo.bindings), bricks, i))
    ensures done == |bricks| ==>
              (raised <==> taxonomy.Some? && exists i ::
                 i in chosen.Values && WeightRefused(bound, repo.bindings, repo.scenarios, taxonomy.value, i))
    ensures done == |bricks| ==>
              if taxonomy.None? then repo.nanobars == bound
              else Reweighed(bound, repo.nanobars, weighed, repo.bindings, repo.scenarios, taxonomy.value)
    ensures weighed <= chosen.Values && (!raised && taxonomy.Some? ==> weighed == chosen.Values)
    ensures !raised ==>
              && result.nanobarsCreated == |repo.nanobars| - |old(repo.nanobars)|
              && result.bindingsCreated == |repo.bindings| - |old(repo.bindings)| == CountStamped(bricks)
              && result.bindingsCreated + result.skipped == |bricks|
  {
    ghost var t0, b0 := repo.nanobars, repo.bindings;
    var touched;
    result, touched, raised, done, chosen := BindEach(repo, bricks, stamps);
    bound, weighed := repo.nanobars, {};
    BindingAddsRows(t0, b0, bricks[..done], stamps, bound, repo.bindings, chosen);
    BindingOutcome(t0, b0, bricks, done, stamps, bound, repo.bindings, chosen);
    if raised {
      return;
    }
    assert bricks[..done] == bricks;
    BindingsForExactly(bricks, chosen, Bound(0, ""));
    if taxonomy.Some? {
      var ok;
      ok, weighed := RecomputeWeights(repo, touched, taxonomy.value);
      ReweighingKeepsOnePerKey(bound, repo.nanobars, weighed, repo.bindings, repo.scenarios, taxonomy.value);
      raised := !ok;
    }
  }

  lemma BindingOutcome(t0: seq<Nanobar>, b0: seq<Bound>, bricks: seq<Brick>, done: nat, stamps: Stamps,
                       t1: seq<Nanobar>, b1: seq<Bound>, chosen: map<Key, nat>)
    requires Referential(t0, b0) && done <= |bricks|
    requires Binds(t0, b0, bricks[..done], stamps, t1, b1, chosen) && NoneTwice(b0, bricks[..done], chosen)
    requires done < |bricks| ==> Stamped(bricks[done]) && Clashes(t1, b1, bricks[done])
    ensures OnePerKey(t0) ==> OnePerKey(t1)
    ensures done < |bricks| ==> BoundBefore(t0, b0, bricks, done)
    ensures OnePerKey(t0) ==> (done < |bricks| <==> exists i :: BoundBefore(t0, b0, bricks, i))
  {
    if done < |bricks| {
      ClashWasBoundBefore(t0, b0, bricks, done, stamps, t1, b1, chosen);
    }
    if OnePerKey(t0) {
      BindingKeepsOnePerKey(t0, b0, bricks[..done], stamps, t1, b1, chosen);
      if done == |bricks| {
        assert bricks[..done] == bricks;
        forall i ensures !BoundBefore(t0, b0, bricks, i) {
          BoundBeforeStops(t0, b0, bricks, stamps, t1, b1, chosen, i);
        }
      }
    }
  }

  /** Binding more bricks never lowers the weight of a nanobar whose type is known, and a criticality of
      at most one is what the table's check on weights needs. */
  lemma BindingNeverLowersWeight(n: Nanobar, b0: seq<Bound>, b1: seq<Bound>, scenarios: map<BrickId, Option<string>>,
                                 id: nat, types: Types)
    requires b0 <= b1 && Resolve(types, n.nanobarType).Some? && NonNegative(Resolve(types, n.nanobarType).value)
    requires n.criticality >= 0.0
    ensures 0.0 <= WeightNow(n, Covered(b0, scenarios, id), types)
         <= WeightNow(n, Covered(b1, scenarios, id), types) <= n.criticality
  {
    assert forall b :: b in b0 ==> b in b1;
    ScoreInRangeAndMonotone(Resolve(types, n.nanobarType).value, Covered(b0, scenarios, id),
      Covered(b1, scenarios, id), n.criticality);
  }
}
