/**
 * Python's ordering of strings (character by character by code point, a
 * proper prefix first) and of pairs of strings, and the sorted listing of a
 * finite set of pairs: the order in which `groupby` emits its groups.
 */
module Order {

  /** `a < b` on Python strings. */
  predicate StrLess(a: string, b: string)
    decreases |a|
  {
    if a == [] then b != []
    else b != [] && (a[0] < b[0] || (a[0] == b[0] && StrLess(a[1..], b[1..])))
  }

  lemma {:induction false} StrLessIrreflexive(a: string)
    ensures !StrLess(a, a)
    decreases |a|
  {
    if a != [] {
      StrLessIrreflexive(a[1..]);
    }
  }

  lemma {:induction false} StrLessTransitive(a: string, b: string, c: string)
    requires StrLess(a, b) && StrLess(b, c)
    ensures StrLess(a, c)
    decreases |a|
  {
    if a != [] && a[0] == b[0] && b[0] == c[0] {
      StrLessTransitive(a[1..], b[1..], c[1..]);
    }
  }

  /** Any two different strings are ordered one way or the other. */
  lemma {:induction false} StrLessTotal(a: string, b: string)
    ensures a == b || StrLess(a, b) || StrLess(b, a)
    decreases |a|
  {
    if a != [] && b != [] && a[0] == b[0] {
      StrLessTotal(a[1..], b[1..]);
      if a[1..] == b[1..] {
        assert a == [a[0]] + a[1..] && b == [b[0]] + b[1..];
      }
    }
  }

  type Key = (string, string)

  /** Tuple comparison: by the first component, then by the second. */
  predicate KeyLess(p: Key, q: Key)
  {
    StrLess(p.0, q.0) || (p.0 == q.0 && StrLess(p.1, q.1))
  }

  lemma KeyLessIrreflexive(p: Key)
    ensures !KeyLess(p, p)
  {
    StrLessIrreflexive(p.0);
    StrLessIrreflexive(p.1);
  }

  lemma KeyLessTransitive(p: Key, q: Key, r: Key)
    requires KeyLess(p, q) && KeyLess(q, r)
    ensures KeyLess(p, r)
  {
    if StrLess(p.0, q.0) && StrLess(q.0, r.0) {
      StrLessTransitive(p.0, q.0, r.0);
    } else if StrLess(p.0, q.0) || StrLess(q.0, r.0) {
    } else {
      StrLessTransitive(p.1, q.1, r.1);
    }
  }

  lemma KeyLessTotal(p: Key, q: Key)
    ensures p == q || KeyLess(p, q) || KeyLess(q, p)
  {
    StrLessTotal(p.0, q.0);
    StrLessTotal(p.1, q.1);
  }

  /** The least key of a non-empty finite set. */
  function MinKey(s: set<Key>): (m: Key)
    requires s != {}
    ensures m in s && forall x :: x in s && x != m ==> KeyLess(m, x)
  {
    MinKeyExists(s);
    MinKeyUnique(s);
    var m :| m in s && forall x :: x in s && x != m ==> KeyLess(m, x);
    m
  }

  /** Two keys can't each be below the other, so a set has at most one least key. */
  lemma MinKeyUnique(s: set<Key>)
    ensures forall m, n ::
              (&& m in s && n in s
               && (forall x :: x in s && x != m ==> KeyLess(m, x))
               && (forall x :: x in s && x != n ==> KeyLess(n, x)))
              ==> m == n
  {
    forall m, n | m in s && n in s && (forall x :: x in s && x != m ==> KeyLess(m, x))
                  && (forall x :: x in s && x != n ==> KeyLess(n, x))
      ensures m == n
    {
      if m != n {
        KeyLessTransitive(m, n, m);
        KeyLessIrreflexive(m);
      }
    }
  }

  lemma {:induction false} MinKeyExists(s: set<Key>)
    requires s != {}
    ensures exists m :: m in s && forall x :: x in s && x != m ==> KeyLess(m, x)
    decreases |s|
  {
    var y := PickKey(s);
    var rest := s - {y};
    assert forall x :: x in s ==> x == y || x in rest;
    if rest != {} {
      MinKeyExists(rest);
      var m :| m in rest && forall x :: x in rest && x != m ==> KeyLess(m, x);
      KeyLessTotal(y, m);
      if KeyLess(y, m) {
        forall x | x in s && x != y ensures KeyLess(y, x) {
          if x != m {
            KeyLessTransitive(y, m, x);
          }
        }
      } else {
        assert forall x :: x in s && x != m ==> x == y || x in rest;
      }
    }
  }

  lemma PickKey(s: set<Key>) returns (y: Key)
    requires s != {}
    ensures y in s
  {
    KeySetEmptyOrMember(s);
    var x :| x in s;
    y := x;
  }

  lemma KeySetEmptyOrMember(s: set<Key>)
    ensures s == {} || exists x :: x in s
  {
    if forall x :: x !in s {
      assert s == {};
    }
  }

  /** The keys of `s` in increasing order. */
  function SortedKeys(s: set<Key>): (r: seq<Key>)
    ensures |r| == |s|
    ensures forall i :: 0 <= i < |r| ==> r[i] in s
    ensures forall i, j :: 0 <= i < j < |r| ==> KeyLess(r[i], r[j])
    decreases |s|
  {
    if s == {} then []
    else
      var m := MinKey(s);
      var rest := SortedKeys(s - {m});
      var r := [m] + rest;
      forall i, j | 0 <= i < j < |r| ensures KeyLess(r[i], r[j]) {
        if i > 0 {
          assert r[i] == rest[i - 1] && r[j] == rest[j - 1];
        } else {
          assert r[j] == rest[j - 1];
        }
      }
      r
  }

  /** Every key of the set is listed. */
  lemma {:induction false} SortedKeysComplete(s: set<Key>, k: Key)
    requires k in s
    ensures k in SortedKeys(s)
    decreases |s|
  {
    var m := MinKey(s);
    if k != m {
      SortedKeysComplete(s - {m}, k);
    }
  }

  /** A sorted listing has no repeated key. */
  lemma SortedKeysDistinct(s: set<Key>, i: nat, j: nat)
    requires i < j < |SortedKeys(s)|
    ensures SortedKeys(s)[i] != SortedKeys(s)[j]
  {
    KeyLessIrreflexive(SortedKeys(s)[i]);
  }
}
