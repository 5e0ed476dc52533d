/** `lint.py`: no module that defines a service may construct a service or a controller. Which names are
    banned is a transitive closure over the class definitions of every scanned file. */
module Lint {
  import opened Options

  /** The shapes of an expression that carry a name, a bare one or an attribute's last part. */
  datatype Expr = Name(id: string) | Attribute(attr: string) | Other

  datatype ClassDef = ClassDef(name: string, bases: seq<Expr>)
  datatype Call = Call(func: Expr, line: int)

  /** What `ast.walk` meets in one file, in its order. */
  datatype Tree = Tree(path: string, classes: seq<ClassDef>, calls: seq<Call>)

  const SERVICE := "NanobarAPIService"
  const CONTROLLER := "NanobarAPIController"

  function Seeds(): set<string> {
    {SERVICE, CONTROLLER}
  }

  function NameOf(e: Expr): Option<string> {
    match e
    case Name(id) => Some(id)
    case Attribute(attr) => Some(attr)
    case Other => None
  }

  function BaseNames(c: ClassDef): set<string> {
    set b | b in c.bases && NameOf(b).Some? :: NameOf(b).value
  }

  /** A base is named by itself or by the last part of an attribute. */
  predicate NamesBase(c: ClassDef, base: string) {
    Name(base) in c.bases || Attribute(base) in c.bases
  }

  lemma BaseNamesExactly(c: ClassDef, base: string)
    ensures base in BaseNames(c) <==> NamesBase(c, base)
  {
    if base in BaseNames(c) {
      var b :| b in c.bases && NameOf(b) == Some(base);
      assert b == Name(base) || b == Attribute(base);
    }
    if Name(base) in c.bases {
      assert NameOf(Name(base)) == Some(base);
    }
    if Attribute(base) in c.bases {
      assert NameOf(Attribute(base)) == Some(base);
    }
  }

  type Bases = map<string, set<string>>

  /** A class defined again replaces the earlier definition. */
  function LastBases(classes: seq<ClassDef>): Bases {
    if classes == [] then map[]
    else
      var last := classes[|classes| - 1];
      LastBases(classes[..|classes| - 1])[last.name := BaseNames(last)]
  }

  function AllClasses(trees: seq<Tree>): seq<ClassDef> {
    if trees == [] then [] else AllClasses(trees[..|trees| - 1]) + trees[|trees| - 1].classes
  }

  // ---------- the closure ----------

  /** Each name has the next among its bases, and the last is a seed. */
  ghost predicate Chain(bases: Bases, names: seq<string>) {
    && names != [] && names[|names| - 1] in Seeds()
    && forall i, j :: 0 <= i < |names| && 0 <= j < |names| && j == i + 1 ==> Link(bases, names[i], names[j])
  }

  predicate Link(bases: Bases, name: string, base: string) {
    name in bases && base in bases[name]
  }

  ghost predicate Reaches(bases: Bases, name: string) {
    exists names :: Chain(bases, names) && names[0] == name
  }

  ghost predicate Closed(bases: Bases, banned: set<string>) {
    Seeds() <= banned && forall n :: n in bases && bases[n] * banned != {} ==> n in banned
  }

  lemma ChainExtends(bases: Bases, name: string, base: string)
    requires name in bases && base in bases[name] && Reaches(bases, base)
    ensures Reaches(bases, name)
  {
    var names :| Chain(bases, names) && names[0] == base;
    var longer := [name] + names;
    forall i, j | 0 <= i < |longer| && 0 <= j < |longer| && j == i + 1 ensures Link(bases, longer[i], longer[j]) {
      if i > 0 {
        assert longer[i] == names[i - 1] && longer[j] == names[j - 1];
      }
    }
    assert Chain(bases, longer);
  }

  lemma SeedsReach(bases: Bases, name: string)
    requires name in Seeds()
    ensures Reaches(bases, name)
  {
    assert Chain(bases, [name]);
  }

  lemma {:induction false} ClosedHoldsChains(bases: Bases, banned: set<string>, names: seq<string>)
    requires Closed(bases, banned) && Chain(bases, names)
    ensures names[0] in banned
    decreases |names|
  {
    if |names| > 1 {
      var rest := names[1..];
      forall i, j | 0 <= i < |rest| && 0 <= j < |rest| && j == i + 1 ensures Link(bases, rest[i], rest[j]) {
        assert rest[i] == names[i + 1] && rest[j] == names[j + 1];
      }
      assert Link(bases, names[0], names[1]);
      ClosedHoldsChains(bases, banned, names[1..]);
      assert names[1] in bases[names[0]] * banned;
    }
  }

  /** A closed set holds everything that reaches a seed; so the names that do are the least closed set. */
  lemma ClosedHoldsReaching(bases: Bases, banned: set<string>, name: string)
    requires Closed(bases, banned) && Reaches(bases, name)
    ensures name in banned
  {
    var names :| Chain(bases, names) && names[0] == name;
    ClosedHoldsChains(bases, banned, names);
  }

  /** The inner loop, over the classes of one file. */
  method FileBases(classes: seq<ClassDef>, sofar: Bases, ghost seen: seq<ClassDef>) returns (bases: Bases)
    requires sofar == LastBases(seen)
    ensures bases == LastBases(seen + classes)
  {
    bases := sofar;
    assert seen + classes[..0] == seen;
    for j := 0 to |classes|
      invariant bases == LastBases(seen + classes[..j])
    {
      LastBasesMore(seen + classes[..j], classes[j]);
      assert seen + classes[..j + 1] == seen + classes[..j] + [classes[j]];
      bases := bases[classes[j].name := BaseNames(classes[j])];
    }
    assert classes[..|classes|] == classes;
  }

  method ClassBases(trees: seq<Tree>) returns (bases: Bases)
    ensures bases == LastBases(AllClasses(trees))
  {
    bases := map[];
    for i := 0 to |trees|
      invariant bases == LastBases(AllClasses(trees[..i]))
    {
      bases := FileBases(trees[i].classes, bases, AllClasses(trees[..i]));
      assert trees[..i + 1][..i] == trees[..i];
    }
    assert trees[..|trees|] == trees;
  }

  /** The names that reach a seed are the least closed set. */
  lemma LeastClosed(bases: Bases, banned: set<string>, other: set<string>)
    requires AllReach(bases, banned) && HoldsReaching(bases, banned)
    ensures Closed(bases, banned)
    ensures Closed(bases, other) ==> banned <= other
  {
    SeedsHeld(bases, banned);
    AllReachingExactly(bases, banned);
    if Closed(bases, other) {
      forall n | n in banned ensures n in other {
        ClosedHoldsReaching(bases, other, n);
      }
    }
  }

  lemma SeedsHeld(bases: Bases, banned: set<string>)
    requires HoldsReaching(bases, banned)
    ensures Seeds() <= banned
  {
    forall n | n in Seeds() ensures n in banned {
      SeedsReach(bases, n);
    }
  }

  /** The `while changed` loop: neither the order in which a dictionary is run through nor names added during
      a pass matter. */
  method Closure(bases: Bases) returns (banned: set<string>)
    ensures AllReach(bases, banned) && HoldsReaching(bases, banned)
  {
    banned := Seeds();
    forall n | n in banned ensures Reaches(bases, n) { SeedsReach(bases, n); }
    var changed := true;
    while changed
      invariant Seeds() <= banned
      invariant forall n :: n in banned ==> Reaches(bases, n)
      invariant changed || Closed(bases, banned)
      decreases bases.Keys - banned, changed
    {
      changed := false;
      ghost var before := banned;
      var rest := bases.Keys;
      while rest != {}
        invariant rest <= bases.Keys && before <= banned
        invariant forall n :: n in banned ==> Reaches(bases, n)
        invariant changed ==> exists n :: n in bases && n in banned && n !in before
        invariant !changed ==>
                    banned == before && forall n :: n in bases && n !in rest && bases[n] * banned != {} ==> n in banned
        decreases rest
      {
        var name :| name in rest;
        if name !in banned && bases[name] * banned != {} {
          var base :| base in bases[name] * banned;
          ChainExtends(bases, name, base);
          banned := banned + {name};
          changed := true;
        }
        rest := rest - {name};
      }
      assert changed ==> bases.Keys - banned < bases.Keys - before;
    }
    forall n | Reaches(bases, n) ensures n in banned {
      ClosedHoldsReaching(bases, banned, n);
    }
  }

  lemma LastBasesMore(classes: seq<ClassDef>, c: ClassDef)
    ensures LastBases(classes + [c]) == LastBases(classes)[c.name := BaseNames(c)]
  {
    assert (classes + [c])[..|classes|] == classes;
  }

  // ---------- what defining a class twice does ----------

  function ClassNames(classes: seq<ClassDef>): set<string> {
    set c | c in classes :: c.name
  }

  function BasesOf(classes: seq<ClassDef>, n: string): set<string> {
    set c, b | c in classes && c.name == n && b in BaseNames(c) :: b
  }

  /** The bases of a name over every one of its definitions. */
  function EveryBase(classes: seq<ClassDef>): Bases {
    map n | n in ClassNames(classes) :: BasesOf(classes, n)
  }

  lemma {:induction false} LastBasesFromClasses(classes: seq<ClassDef>, n: string)
    ensures n in LastBases(classes) <==> exists c :: c in classes && c.name == n
    ensures n in LastBases(classes) ==> exists c :: c in classes && c.name == n && BaseNames(c) == LastBases(classes)[n]
  {
    if classes != [] {
      var k := |classes| - 1;
      LastBasesFromClasses(classes[..k], n);
      assert classes == classes[..k] + [classes[k]];
    }
  }

  lemma LastChainsAreChains(classes: seq<ClassDef>, n: string)
    requires Reaches(LastBases(classes), n)
    ensures Reaches(EveryBase(classes), n)
  {
    var last, every := LastBases(classes), EveryBase(classes);
    var names :| Chain(last, names) && names[0] == n;
    forall i, j | 0 <= i < |names| && 0 <= j < |names| && j == i + 1 ensures Link(every, names[i], names[j]) {
      assert Link(last, names[i], names[j]);
      LastBasesFromClasses(classes, names[i]);
    }
    assert Chain(every, names);
  }

  /** No definition found its bases banned without its own name being so. */
  ghost predicate ClosedForAll(classes: seq<ClassDef>, banned: set<string>) {
    forall c :: c in classes && BaseNames(c) * banned != {} ==> c.name in banned
  }

  lemma ClosedForAllExactly(classes: seq<ClassDef>, banned: set<string>)
    requires Seeds() <= banned
    ensures Closed(EveryBase(classes), banned) <==> ClosedForAll(classes, banned)
  {
    var every := EveryBase(classes);
    if Closed(every, banned) {
      forall c | c in classes && BaseNames(c) * banned != {} ensures c.name in banned {
        var b :| b in BaseNames(c) * banned;
        assert c.name in every && b in every[c.name] * banned;
      }
    }
    if ClosedForAll(classes, banned) {
      forall n | n in every && every[n] * banned != {} ensures n in banned {
        var b :| b in every[n] * banned;
        var c :| c in classes && c.name == n && b in BaseNames(c);
        assert b in BaseNames(c) * banned;
      }
    }
  }

  ghost predicate AllReach(bases: Bases, banned: set<string>) {
    forall n :: n in banned ==> Reaches(bases, n)
  }

  ghost predicate HoldsReaching(bases: Bases, banned: set<string>) {
    forall n :: Reaches(bases, n) ==> n in banned
  }

  lemma AllReachingExactly(bases: Bases, banned: set<string>)
    requires Seeds() <= banned && AllReach(bases, banned)
    ensures Closed(bases, banned) <==> HoldsReaching(bases, banned)
  {
    if Closed(bases, banned) {
      forall n | Reaches(bases, n) ensures n in banned {
        ClosedHoldsReaching(bases, banned, n);
      }
    } else {
      var n :| n in bases && bases[n] * banned != {} && n !in banned;
      var b :| b in bases[n] * banned;
      ChainExtends(bases, n, b);
    }
  }

  lemma BannedReachesEvery(classes: seq<ClassDef>, last: Bases, every: Bases, banned: set<string>)
    requires last == LastBases(classes) && every == EveryBase(classes) && AllReach(last, banned)
    ensures AllReach(every, banned)
  {
    forall n | n in banned ensures Reaches(every, n) {
      LastChainsAreChains(classes, n);
    }
  }

  /** Every definition, replaced ones included, that has a base name with a chain to a seed has a name with
      one: what can be read off the class list. */
  ghost predicate NothingHidden(classes: seq<ClassDef>) {
    forall c, b :: c in classes && b in BaseNames(c) && Reaches(LastBases(classes), b) ==>
      Reaches(LastBases(classes), c.name)
  }

  lemma NothingHiddenExactly(classes: seq<ClassDef>, last: Bases, banned: set<string>)
    requires last == LastBases(classes) && AllReach(last, banned) && HoldsReaching(last, banned)
    ensures NothingHidden(classes) <==> ClosedForAll(classes, banned)
  {
    if NothingHidden(classes) {
      forall c | c in classes && BaseNames(c) * banned != {} ensures c.name in banned {
        var b :| b in BaseNames(c) * banned;
        assert Reaches(last, b);
      }
    }
    if ClosedForAll(classes, banned) {
      forall c, b | c in classes && b in BaseNames(c) && Reaches(last, b) ensures Reaches(last, c.name) {
        assert b in BaseNames(c) * banned;
      }
    }
  }

  lemma EveryReachingExactly(every: Bases, classes: seq<ClassDef>, banned: set<string>)
    requires every == EveryBase(classes) && Seeds() <= banned && AllReach(every, banned)
    ensures HoldsReaching(every, banned) <==> ClosedForAll(classes, banned)
  {
    ClosedForAllExactly(classes, banned);
    AllReachingExactly(every, banned);
  }

  ghost predicate NamedApart(classes: seq<ClassDef>) {
    forall i, j :: 0 <= i < j < |classes| ==> classes[i].name != classes[j].name
  }

  /** The names promised are those with a chain over all definitions. None too many is ever found
      (`BannedReachesEvery`), and none is missed if and only if no definition, those replaced by a later
      one of the same name included, is hidden. */
  lemma NothingMissedExactly(classes: seq<ClassDef>, last: Bases, every: Bases, banned: set<string>)
    requires last == LastBases(classes) && every == EveryBase(classes)
    requires AllReach(last, banned) && HoldsReaching(last, banned)
    ensures HoldsReaching(every, banned) <==> NothingHidden(classes)
  {
    assert ClosedForAll(classes, banned) <==> NothingHidden(classes) by {
      NothingHiddenExactly(classes, last, banned);
    }
    assert HoldsReaching(every, banned) <==> ClosedForAll(classes, banned) by {
      SeedsHeld(last, banned);
      BannedReachesEvery(classes, last, every, banned);
      EveryReachingExactly(every, classes, banned);
    }
  }

  /** In particular nothing is missed when no two classes share a name. */
  lemma DistinctNamesMissNothing(classes: seq<ClassDef>)
    requires NamedApart(classes)
    ensures NothingHidden(classes)
  {
    forall c, b | c in classes && b in BaseNames(c) && Reaches(LastBases(classes), b)
      ensures Reaches(LastBases(classes), c.name)
    {
      OnlyDefinition(classes, c);
      ChainExtends(LastBases(classes), c.name, b);
    }
  }

  lemma {:induction false} OnlyDefinition(classes: seq<ClassDef>, c: ClassDef)
    requires NamedApart(classes) && c in classes
    ensures c.name in LastBases(classes) && LastBases(classes)[c.name] == BaseNames(c)
  {
    var k := |classes| - 1;
    if c in classes[..k] {
      OnlyDefinition(classes[..k], c);
    } else {
      assert classes == classes[..k] + [classes[k]];
    }
  }

  /** A later class of the same name hides a service from the check. */
  lemma RedefinitionHidesAService()
    ensures var classes := [ClassDef("Billing", [Name(SERVICE)]), ClassDef("Billing", [])];
            Reaches(EveryBase(classes), "Billing") && !Reaches(LastBases(classes), "Billing")
  {
    var first, second := ClassDef("Billing", [Name(SERVICE)]), ClassDef("Billing", []);
    var classes := [first, second];
    assert first in classes && Name(SERVICE) in first.bases && SERVICE in BaseNames(first);
    assert SERVICE in EveryBase(classes)["Billing"];
    assert Chain(EveryBase(classes), ["Billing", SERVICE]);
    var last := LastBases(classes);
    assert classes[..1] == [first] && last["Billing"] == {};
    assert Closed(last, Seeds()) by {
      LastBasesFromClasses(classes, "Billing");
      forall n | n in last ensures n == "Billing" { LastBasesFromClasses(classes, n); }
    }
    if Reaches(last, "Billing") {
      ClosedHoldsReaching(last, Seeds(), "Billing");
    }
  }

  // ---------- in terms of the class definitions ----------

  /** The last definition of its name. */
  ghost predicate Stands(classes: seq<ClassDef>, i: int) {
    0 <= i < |classes| && forall j :: i < j < |classes| ==> classes[j].name != classes[i].name
  }

  /** The definition of `name` that stands has the base. */
  ghost predicate Derives(classes: seq<ClassDef>, name: string, base: string) {
    exists i :: Stands(classes, i) && classes[i].name == name && NamesBase(classes[i], base)
  }

  /** From name to base to base the classes lead to a service or a controller. */
  ghost predicate Leads(classes: seq<ClassDef>, names: seq<string>) {
    && names != [] && (names[|names| - 1] == "NanobarAPIService" || names[|names| - 1] == "NanobarAPIController")
    && forall i, j :: 0 <= i < |names| && 0 <= j < |names| && j == i + 1 ==> Derives(classes, names[i], names[j])
  }

  ghost predicate MustNotBeBuilt(classes: seq<ClassDef>, name: string) {
    exists names :: Leads(classes, names) && names[0] == name
  }

  lemma StandsInFront(classes: seq<ClassDef>, i: nat)
    requires i < |classes| - 1 && classes[i].name != classes[|classes| - 1].name
    ensures Stands(classes[..|classes| - 1], i) <==> Stands(classes, i)
  {
    assert forall j :: 0 <= j < |classes| - 1 ==> classes[..|classes| - 1][j] == classes[j];
  }

  lemma {:induction false} StandingExactly(classes: seq<ClassDef>, name: string)
    ensures name in LastBases(classes) <==> exists i :: Stands(classes, i) && classes[i].name == name
    ensures forall i :: Stands(classes, i) && classes[i].name == name ==>
              name in LastBases(classes) && LastBases(classes)[name] == BaseNames(classes[i])
  {
    if classes != [] {
      var n := |classes| - 1;
      var front := classes[..n];
      StandingExactly(front, name);
      assert Stands(classes, n);
      if classes[n].name != name {
        forall i | 0 <= i < n && classes[i].name == name ensures Stands(front, i) <==> Stands(classes, i) {
          StandsInFront(classes, i);
        }
        if name in LastBases(front) {
          var i :| Stands(front, i) && front[i].name == name;
          assert Stands(classes, i);
        }
      }
    }
  }

  lemma DerivesExactly(classes: seq<ClassDef>, name: string, base: string)
    ensures Link(LastBases(classes), name, base) <==> Derives(classes, name, base)
  {
    StandingExactly(classes, name);
    if Link(LastBases(classes), name, base) {
      var i :| Stands(classes, i) && classes[i].name == name;
      BaseNamesExactly(classes[i], base);
    }
    if Derives(classes, name, base) {
      var i :| Stands(classes, i) && classes[i].name == name && NamesBase(classes[i], base);
      BaseNamesExactly(classes[i], base);
    }
  }

  lemma ReachesExactly(classes: seq<ClassDef>, name: string)
    ensures Reaches(LastBases(classes), name) <==> MustNotBeBuilt(classes, name)
  {
    var bases := LastBases(classes);
    forall names: seq<string> ensures Chain(bases, names) <==> Leads(classes, names) {
      forall i, j | 0 <= i < |names| && 0 <= j < |names| && j == i + 1
        ensures Link(bases, names[i], names[j]) <==> Derives(classes, names[i], names[j])
      {
        DerivesExactly(classes, names[i], names[j]);
      }
    }
  }

  /** `_collect_banned_construction_targets`: the loop ends, with exactly the names that have a chain of
      base names to a seed (by `LeastClosed`, the least closed set). Over all definitions that is none too
      many; and it is none too few if and only if no definition is hidden. */
  method CollectBannedConstructionTargets(trees: seq<Tree>) returns (banned: set<string>)
    ensures var bases := LastBases(AllClasses(trees));
            AllReach(bases, banned) && HoldsReaching(bases, banned)
    ensures forall n :: n in banned <==> MustNotBeBuilt(AllClasses(trees), n)
    ensures AllReach(EveryBase(AllClasses(trees)), banned)
    ensures HoldsReaching(EveryBase(AllClasses(trees)), banned) <==> NothingHidden(AllClasses(trees))
  {
    var bases := ClassBases(trees);
    banned := Closure(bases);
    ghost var classes := AllClasses(trees);
    BannedReachesEvery(classes, bases, EveryBase(classes), banned);
    NothingMissedExactly(classes, bases, EveryBase(classes), banned);
    forall n ensures Reaches(bases, n) <==> MustNotBeBuilt(classes, n) {
      ReachesExactly(classes, n);
    }
  }
}
