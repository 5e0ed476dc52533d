/** What `SELECT ... ORDER BY <integer column> LIMIT n` promises about the rows it returns.
    SQLite leaves the order of ties open, so the answer is a relation, not a function. */
module OrderedSelect {

  /** The number of rows a LIMIT lets through: SQLite reads a negative limit as no limit. */
  function Cap(limit: int, available: nat): (n: nat)
    ensures n <= available
    ensures 0 <= limit ==> n <= limit
    ensures n == available || n == limit
  {
    if limit < 0 || available <= limit then available else limit
  }

  ghost predicate Distinct<T>(s: seq<T>) {
    forall i, j :: 0 <= i < j < |s| ==> s[i] != s[j]
  }

  ghost function Elements<T>(s: seq<T>): set<T> {
    set x | x in s
  }

  /** `picked` is a legal answer: no row twice, all of them eligible, as many as the limit lets
      through, in ascending key order, and nothing left behind is older than anything picked. */
  ghost predicate OldestFirst<T(!new)>(eligible: set<T>, key: T -> int, limit: int, picked: seq<T>) {
    && Distinct(picked)
    && (forall x :: x in picked ==> x in eligible)
    && |picked| == Cap(limit, |eligible|)
    && (forall i, j :: 0 <= i < j < |picked| ==> key(picked[i]) <= key(picked[j]))
    && (forall x, y :: x in picked && y in eligible && y !in picked ==> key(x) <= key(y))
  }

  lemma {:induction false} DistinctCardinality<T>(s: seq<T>)
    requires Distinct(s)
    ensures |Elements(s)| == |s|
  {
    if s == [] {
      assert Elements(s) == {};
    } else {
      var n := |s| - 1;
      DistinctCardinality(s[..n]);
      assert s == s[..n] + [s[n]];
      assert Elements(s) == Elements(s[..n]) + {s[n]};
      assert s[n] !in s[..n];
    }
  }

  /** When the limit does not bind, the answer is every eligible row. */
  lemma {:induction false} UnboundedTakesAll<T(!new)>(eligible: set<T>, key: T -> int, limit: int, picked: seq<T>)
    requires OldestFirst(eligible, key, limit, picked)
    requires limit < 0 || |eligible| <= limit
    ensures Elements(picked) == eligible
  {
    DistinctCardinality(picked);
    SubsetOfSameSize(Elements(picked), eligible);
  }

  lemma {:induction false} SubsetOfSameSize<T>(a: set<T>, b: set<T>)
    requires a <= b && |a| == |b|
    ensures a == b
  {
    assert |b - a| == |b| - |a|;
    assert b == a + (b - a);
  }

  /** A smallest element of a non-empty set. */
  method Oldest<T(==,!new)>(rows: set<T>, key: T -> int) returns (m: T)
    requires rows != {}
    ensures m in rows
    ensures forall x :: x in rows ==> key(m) <= key(x)
  {
    m :| m in rows;
    var rest := rows - {m};
    while rest != {}
      invariant m in rows && rest <= rows
      invariant forall x :: x in rows && x !in rest ==> key(m) <= key(x)
      decreases rest
    {
      var x :| x in rest;
      if key(x) < key(m) {
        m := x;
      }
      rest := rest - {x};
    }
  }

  /** Selects by taking the oldest remaining row until the limit is reached. */
  method SelectOldest<T(==,!new)>(eligible: set<T>, key: T -> int, limit: int) returns (picked: seq<T>)
    ensures OldestFirst(eligible, key, limit, picked)
  {
    picked := [];
    var rest := eligible;
    var n := Cap(limit, |eligible|);
    while |picked| < n
      invariant Distinct(picked) && |picked| <= n
      invariant rest <= eligible && |rest| == |eligible| - |picked|
      invariant forall x :: x in picked <==> x in eligible && x !in rest
      invariant forall i, j :: 0 <= i < j < |picked| ==> key(picked[i]) <= key(picked[j])
      invariant forall x, y :: x in picked && y in rest ==> key(x) <= key(y)
    {
      var m := Oldest(rest, key);
      picked := picked + [m];
      rest := rest - {m};
    }
  }
}
