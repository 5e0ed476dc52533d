/** Python's `sorted` on a set of strings: code-point lexicographic order. */
module SortedKeys {

  predicate Leq(s: string, t: string) {
    s == [] || (t != [] && (s[0] < t[0] || (s[0] == t[0] && Leq(s[1..], t[1..]))))
  }

  lemma {:induction false} LeqReflexive(s: string)
    ensures Leq(s, s)
  {
    if s != [] {
      LeqReflexive(s[1..]);
    }
  }

  lemma {:induction false} LeqTotal(s: string, t: string)
    ensures Leq(s, t) || Leq(t, s)
  {
    if s != [] && t != [] && s[0] == t[0] {
      LeqTotal(s[1..], t[1..]);
    }
  }

  lemma {:induction false} LeqAntisymmetric(s: string, t: string)
    requires Leq(s, t) && Leq(t, s)
    ensures s == t
  {
    if s != [] {
      LeqAntisymmetric(s[1..], t[1..]);
      assert s == [s[0]] + s[1..] && t == [t[0]] + t[1..];
    }
  }

  lemma {:induction false} LeqTransitive(s: string, t: string, u: string)
    requires Leq(s, t) && Leq(t, u)
    ensures Leq(s, u)
  {
    if s != [] && s[0] == t[0] == u[0] {
      LeqTransitive(s[1..], t[1..], u[1..]);
    }
  }

  /** Code-point order: one string begins the other, or at the first place where they differ it has the
      smaller character. */
  ghost predicate InOrder(s: string, t: string) {
    s <= t || exists i :: 0 <= i < |s| && i < |t| && s[..i] == t[..i] && s[i] < t[i]
  }

  lemma {:induction false} LeqIsCodePointOrder(s: string, t: string)
    ensures Leq(s, t) <==> InOrder(s, t)
  {
    if s != [] && t != [] {
      LeqIsCodePointOrder(s[1..], t[1..]);
      if s[0] == t[0] {
        RestInOrder(s, t);
      } else if s[0] < t[0] {
        assert s[..0] == t[..0];
      }
    }
  }

  lemma RestInOrder(s: string, t: string)
    requires s != [] && t != [] && s[0] == t[0]
    ensures InOrder(s, t) <==> InOrder(s[1..], t[1..])
  {
    assert s == [s[0]] + s[1..] && t == [t[0]] + t[1..];
    if i :| 0 <= i < |s| && i < |t| && s[..i] == t[..i] && s[i] < t[i] {
      assert s[1..][..i - 1] == s[..i][1..] && t[1..][..i - 1] == t[..i][1..];
      assert s[1..][i - 1] < t[1..][i - 1];
    }
    if i :| 0 <= i < |s| - 1 && i < |t| - 1 && s[1..][..i] == t[1..][..i] && s[1..][i] < t[1..][i] {
      assert s[..i + 1] == [s[0]] + s[1..][..i] && t[..i + 1] == [t[0]] + t[1..][..i];
      assert s[i + 1] < t[i + 1];
    }
  }

  ghost predicate IsLeast(m: string, keys: set<string>) {
    m in keys && forall k :: k in keys ==> Leq(m, k)
  }

  lemma {:induction false} LeastExists(keys: set<string>)
    requires keys != {}
    ensures exists m :: IsLeast(m, keys)
  {
    var k :| k in keys;
    if keys == {k} {
      LeqReflexive(k);
      assert IsLeast(k, keys);
    } else {
      LeastExists(keys - {k});
      var m :| IsLeast(m, keys - {k});
      var least := if Leq(k, m) then k else m;
      LeqTotal(k, m);
      forall x | x in keys ensures Leq(least, x) {
        LeqReflexive(x);
        if x != k && Leq(k, m) {
          LeqTransitive(k, m, x);
        }
      }
      assert IsLeast(least, keys);
    }
  }

  ghost function Sorted(keys: set<string>): seq<string> {
    if keys == {} then []
    else
      LeastExists(keys);
      var m :| IsLeast(m, keys);
      [m] + Sorted(keys - {m})
  }

  lemma {:induction false} SortedHasAll(keys: set<string>, k: string)
    ensures k in Sorted(keys) <==> k in keys
  {
    if keys != {} {
      LeastExists(keys);
      var m :| IsLeast(m, keys) && Sorted(keys) == [m] + Sorted(keys - {m});
      SortedHasAll(keys - {m}, k);
    }
  }

  /** Every key once, in code-point order: with `SortedHasAll`, this is all there is to say. */
  lemma {:induction false} SortedAscends(keys: set<string>)
    ensures forall i, j :: 0 <= i < j < |Sorted(keys)| ==>
              Sorted(keys)[i] != Sorted(keys)[j] && InOrder(Sorted(keys)[i], Sorted(keys)[j])
  {
    if keys != {} {
      LeastExists(keys);
      var m :| IsLeast(m, keys) && Sorted(keys) == [m] + Sorted(keys - {m});
      var rest := Sorted(keys - {m});
      SortedAscends(keys - {m});
      forall j | 0 <= j < |rest| ensures m != rest[j] && InOrder(m, rest[j]) {
        SortedHasAll(keys - {m}, rest[j]);
        LeqIsCodePointOrder(m, rest[j]);
      }
    }
  }

  lemma LeastIsUnique(m: string, n: string, keys: set<string>)
    requires IsLeast(m, keys) && IsLeast(n, keys)
    ensures m == n
  {
    LeqAntisymmetric(m, n);
  }

  /** Selection sort over the set. */
  method Sort(keys: set<string>) returns (sorted: seq<string>)
    ensures sorted == Sorted(keys)
  {
    sorted := [];
    var rest := keys;
    while rest != {}
      invariant sorted + Sorted(rest) == Sorted(keys)
      decreases rest
    {
      var m := Least(rest);
      ghost var n :| IsLeast(n, rest) && Sorted(rest) == [n] + Sorted(rest - {n});
      LeastIsUnique(m, n, rest);
      assert sorted + ([m] + Sorted(rest - {m})) == (sorted + [m]) + Sorted(rest - {m});
      sorted := sorted + [m];
      rest := rest - {m};
    }
  }

  method Least(keys: set<string>) returns (m: string)
    requires keys != {}
    ensures IsLeast(m, keys)
  {
    m :| m in keys;
    var rest := keys - {m};
    LeqReflexive(m);
    while rest != {}
      invariant m in keys && rest <= keys
      invariant forall k :: k in keys && k !in rest ==> Leq(m, k)
      decreases rest
    {
      var k :| k in rest;
      rest := rest - {k};
      LeqTotal(m, k);
      if !Leq(m, k) {
        forall x | x in keys && x !in rest ensures Leq(k, x) {
          LeqReflexive(k);
          if x != k {
            LeqTransitive(k, m, x);
          }
        }
        m := k;
      }
    }
  }
}
