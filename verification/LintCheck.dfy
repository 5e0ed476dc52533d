/** `check_service_boundaries` in `lint.py`: which calls are reported, and in which order. */
module LintCheck {
  import opened Options
  import opened Lint

  datatype Violation = Violation(path: string, line: int, name: string)

  /** Where a call stands: the position of its file and its own position in that file. */
  datatype Place = Place(file: int, call: int)

  ghost predicate Precedes(p: Place, q: Place) {
    p.file < q.file || (p.file == q.file && p.call < q.call)
  }

  predicate DefinesService(tree: Tree) {
    exists c :: c in tree.classes && SERVICE in BaseNames(c)
  }

  /** Some class of the file has the service base for a direct base. */
  ghost predicate ServiceFile(tree: Tree) {
    exists c :: c in tree.classes && NamesBase(c, "NanobarAPIService")
  }

  lemma DefinesServiceExactly(tree: Tree)
    ensures DefinesService(tree) <==> ServiceFile(tree)
  {
    forall c ensures SERVICE in BaseNames(c) <==> NamesBase(c, "NanobarAPIService") {
      BaseNamesExactly(c, "NanobarAPIService");
    }
  }

  /** The violation reports the call: of the name it calls, by itself or as an attribute. */
  ghost predicate Reports(trees: seq<Tree>, p: Place, v: Violation) {
    && 0 <= p.file < |trees| && 0 <= p.call < |trees[p.file].calls|
    && v.path == trees[p.file].path && v.line == trees[p.file].calls[p.call].line
    && (trees[p.file].calls[p.call].func == Name(v.name) || trees[p.file].calls[p.call].func == Attribute(v.name))
  }

  ghost predicate Flags(trees: seq<Tree>, banned: set<string>, p: Place, v: Violation) {
    Reports(trees, p, v) && ServiceFile(trees[p.file]) && v.name in banned
  }

  /** The violations up to a place, one for each, in order. */
  ghost predicate Collected(trees: seq<Tree>, banned: set<string>, end: Place, violations: seq<Violation>,
                            places: seq<Place>)
  {
    && |places| == |violations|
    && (forall i, j :: 0 <= i < j < |places| ==> Precedes(places[i], places[j]))
    && (forall i :: 0 <= i < |places| ==> Precedes(places[i], end) && Flags(trees, banned, places[i], violations[i]))
    && forall p, v :: Flags(trees, banned, p, v) && Precedes(p, end) ==> p in places
  }

  lemma FlaggedCall(trees: seq<Tree>, banned: set<string>, p: Place, violations: seq<Violation>, places: seq<Place>,
                    v: Violation)
    requires Collected(trees, banned, p, violations, places) && Flags(trees, banned, p, v)
    ensures Collected(trees, banned, Place(p.file, p.call + 1), violations + [v], places + [p])
  {
    forall q, w | Flags(trees, banned, q, w) && Precedes(q, Place(p.file, p.call + 1)) ensures q in places + [p] {
      if q != p {
        assert Precedes(q, p);
      }
    }
  }

  lemma OtherCall(trees: seq<Tree>, banned: set<string>, p: Place, violations: seq<Violation>, places: seq<Place>)
    requires Collected(trees, banned, p, violations, places) && forall v :: !Flags(trees, banned, p, v)
    ensures Collected(trees, banned, Place(p.file, p.call + 1), violations, places)
  {
    forall q, w | Flags(trees, banned, q, w) && Precedes(q, Place(p.file, p.call + 1)) ensures q in places {
      assert q != p;
    }
  }

  lemma FileDone(trees: seq<Tree>, banned: set<string>, i: int, n: int, violations: seq<Violation>, places: seq<Place>)
    requires Collected(trees, banned, Place(i, n), violations, places)
    requires forall p, v :: Flags(trees, banned, p, v) && p.file == i ==> p.call < n
    ensures Collected(trees, banned, Place(i + 1, 0), violations, places)
  {
    forall p, v | Flags(trees, banned, p, v) && Precedes(p, Place(i + 1, 0)) ensures p in places {
      assert Precedes(p, Place(i, n));
    }
  }

  /** One call of a file that defines a service. */
  lemma CallSeen(trees: seq<Tree>, banned: set<string>, p: Place, violations: seq<Violation>, places: seq<Place>)
    requires Collected(trees, banned, p, violations, places)
    requires 0 <= p.file < |trees| && 0 <= p.call < |trees[p.file].calls| && ServiceFile(trees[p.file])
    ensures var call, next := trees[p.file].calls[p.call], Place(p.file, p.call + 1);
            var name := NameOf(call.func);
            if name.Some? && name.value in banned then
              var v := Violation(trees[p.file].path, call.line, name.value);
              Collected(trees, banned, next, violations + [v], places + [p])
            else Collected(trees, banned, next, violations, places)
  {
    var call := trees[p.file].calls[p.call];
    var name := NameOf(call.func);
    if name.Some? && name.value in banned {
      FlaggedCall(trees, banned, p, violations, places, Violation(trees[p.file].path, call.line, name.value));
    } else {
      OtherCall(trees, banned, p, violations, places);
    }
  }

  /** The call is a construction that is not allowed, and the violation reports it. */
  ghost predicate NotAllowed(trees: seq<Tree>, p: Place, v: Violation) {
    Reports(trees, p, v) && ServiceFile(trees[p.file]) && MustNotBeBuilt(AllClasses(trees), v.name)
  }

  lemma ReportedExactly(trees: seq<Tree>, violations: seq<Violation>, places: seq<Place>, v: Violation)
    requires Sound(trees, violations, places) && Complete(trees, places)
    ensures v in violations <==> exists p :: NotAllowed(trees, p, v)
  {
    if v in violations {
      var i :| 0 <= i < |violations| && violations[i] == v;
      assert NotAllowed(trees, places[i], v);
    }
    if p :| NotAllowed(trees, p, v) {
      assert p in places;
      var i :| 0 <= i < |places| && places[i] == p;
      assert NotAllowed(trees, places[i], violations[i]) && violations[i] == v;
    }
  }

  /** Each place is a construction that is not allowed, and its violation reports it. */
  ghost predicate Sound(trees: seq<Tree>, violations: seq<Violation>, places: seq<Place>) {
    && |places| == |violations|
    && (forall i, j :: 0 <= i < j < |places| ==> Precedes(places[i], places[j]))
    && forall i :: 0 <= i < |places| ==> NotAllowed(trees, places[i], violations[i])
  }

  /** No such construction is left out. */
  ghost predicate Complete(trees: seq<Tree>, places: seq<Place>) {
    forall p, v :: NotAllowed(trees, p, v) ==> p in places
  }

  lemma AllCollected(trees: seq<Tree>, banned: set<string>, violations: seq<Violation>, places: seq<Place>)
    requires Collected(trees, banned, Place(|trees|, 0), violations, places)
    requires forall n :: n in banned <==> MustNotBeBuilt(AllClasses(trees), n)
    ensures Sound(trees, violations, places) && Complete(trees, places)
  {
    forall p, v | NotAllowed(trees, p, v) ensures p in places {
      assert Flags(trees, banned, p, v) && Precedes(p, Place(|trees|, 0));
    }
  }

  /** `check_service_boundaries`: exactly one violation for each construction, inside a file that defines a
      direct subclass of the service base, of a name from which the classes lead to a service or a
      controller; file by file and call by call. */
  method CheckServiceBoundaries(trees: seq<Tree>) returns (violations: seq<Violation>)
    ensures forall v :: v in violations <==> exists p :: NotAllowed(trees, p, v)
    ensures exists places :: Sound(trees, violations, places) && Complete(trees, places)
  {
    var banned := CollectBannedConstructionTargets(trees);
    violations := [];
    ghost var places := [];
    for i := 0 to |trees|
      invariant Collected(trees, banned, Place(i, 0), violations, places)
    {
      DefinesServiceExactly(trees[i]);
      if !DefinesService(trees[i]) {
        FileDone(trees, banned, i, 0, violations, places);
        continue;
      }
      violations, places := CheckFile(trees, banned, i, violations, places);
    }
    AllCollected(trees, banned, violations, places);
    forall v ensures v in violations <==> exists p :: NotAllowed(trees, p, v) {
      ReportedExactly(trees, violations, places, v);
    }
  }

  /** The inner loop, over the calls of one file. */
  method CheckFile(trees: seq<Tree>, banned: set<string>, i: nat, sofar: seq<Violation>, ghost seen: seq<Place>)
    returns (violations: seq<Violation>, ghost places: seq<Place>)
    requires i < |trees| && ServiceFile(trees[i]) && Collected(trees, banned, Place(i, 0), sofar, seen)
    ensures Collected(trees, banned, Place(i + 1, 0), violations, places)
  {
    violations, places := sofar, seen;
    for j := 0 to |trees[i].calls|
      invariant Collected(trees, banned, Place(i, j), violations, places)
    {
      CallSeen(trees, banned, Place(i, j), violations, places);
      var name := NameOf(trees[i].calls[j].func);
      if name.Some? && name.value in banned {
        violations := violations + [Violation(trees[i].path, trees[i].calls[j].line, name.value)];
        places := places + [Place(i, j)];
      }
    }
    FileDone(trees, banned, i, |trees[i].calls|, violations, places);
  }
}
