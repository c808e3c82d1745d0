/** Code-point lexicographic order on strings, and a deterministic
    enumeration of a finite set of keys in that order.

    Python iterates a set of strings in hash order, which changes from
    one interpreter run to the next; the model walks key sets in
    ascending order instead (see README.md). */
module StringOrder {

  /** `a` sorts before or equal to `b`, character by character. */
  predicate StrLe(a: string, b: string)
    decreases |a|
  {
    |a| == 0 || (|b| > 0 && (a[0] < b[0] || (a[0] == b[0] && StrLe(a[1..], b[1..]))))
  }

  lemma {:induction false} StrLeReflexive(a: string)
    ensures StrLe(a, a)
    decreases |a|
  {
    if |a| > 0 {
      StrLeReflexive(a[1..]);
    }
  }

  lemma {:induction false} StrLeAntisymmetric(a: string, b: string)
    ensures StrLe(a, b) && StrLe(b, a) ==> a == b
    decreases |a|
  {
    if |a| > 0 && |b| > 0 && a[0] == b[0] {
      StrLeAntisymmetric(a[1..], b[1..]);
      assert a == [a[0]] + a[1..] && b == [b[0]] + b[1..];
    }
  }

  lemma {:induction false} StrLeTotal(a: string, b: string)
    ensures StrLe(a, b) || StrLe(b, a)
    decreases |a|
  {
    if |a| > 0 && |b| > 0 && a[0] == b[0] {
      StrLeTotal(a[1..], b[1..]);
    }
  }

  lemma {:induction false} StrLeTransitive(a: string, b: string, c: string)
    requires StrLe(a, b) && StrLe(b, c)
    ensures StrLe(a, c)
    decreases |a|
  {
    if |a| > 0 && |b| > 0 && |c| > 0 && a[0] == b[0] == c[0] {
      StrLeTransitive(a[1..], b[1..], c[1..]);
    }
  }

  /** Every non-empty key set has a least key. */
  lemma {:induction false} LeastExists(s: set<string>)
    requires s != {}
    ensures exists m :: m in s && forall x :: x in s ==> StrLe(m, x)
    decreases s
  {
    var y :| y in s;
    var rest := s - {y};
    StrLeReflexive(y);
    if rest == {} {
      forall x | x in s
        ensures x == y
      {
        assert x !in rest;
      }
      assert y in s && forall x :: x in s ==> StrLe(y, x);
    } else {
      LeastExists(rest);
      var m :| m in rest && forall x :: x in rest ==> StrLe(m, x);
      StrLeTotal(m, y);
      StrLeReflexive(m);
      if StrLe(m, y) {
        assert m in s && forall x :: x in s ==> StrLe(m, x);
      } else {
        forall x | x in rest
          ensures StrLe(y, x)
        {
          StrLeTransitive(y, m, x);
        }
        assert y in s && forall x :: x in s ==> StrLe(y, x);
      }
    }
  }

  /** The least key of a non-empty set. */
  function Least(s: set<string>): (m: string)
    requires s != {}
    ensures m in s && forall x :: x in s ==> StrLe(m, x)
  {
    LeastExists(s);
    assert forall a, b :: StrLe(a, b) && StrLe(b, a) ==> a == b by {
      forall a, b ensures StrLe(a, b) && StrLe(b, a) ==> a == b {
        StrLeAntisymmetric(a, b);
      }
    }
    var m :| m in s && forall x :: x in s ==> StrLe(m, x);
    m
  }

  /** The keys of `s`, each once, in ascending order. */
  function SortedKeys(s: set<string>): (r: seq<string>)
    ensures forall k :: k in r <==> k in s
    ensures forall i, j :: 0 <= i < j < |r| ==> r[i] != r[j] && StrLe(r[i], r[j])
    decreases s
  {
    if s == {} then []
    else
      var m := Least(s);
      [m] + SortedKeys(s - {m})
  }

  lemma SortedSingleton(k: string)
    ensures SortedKeys({k}) == [k]
  {
    assert Least({k}) == k;
    assert {k} - {k} == {};
  }

  lemma SortedPair(k1: string, k2: string)
    requires k1 != k2 && StrLe(k1, k2)
    ensures SortedKeys({k1, k2}) == [k1, k2]
  {
    var m := Least({k1, k2});
    if m == k2 {
      StrLeAntisymmetric(k1, k2);
    }
    assert {k1, k2} - {k1} == {k2};
    SortedSingleton(k2);
  }
}
