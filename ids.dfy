/**
 * Dense sequential identifiers: `{v: i + 1 for i, v in enumerate(values.unique())}`.
 * The importer numbers players, cities and (by position) stat types this way.
 */
module Ids {

  /** No earlier position of `xs` holds the value at position `i`. */
  predicate IsFirst<T(==)>(xs: seq<T>, i: nat)
    requires i < |xs|
  {
    forall j :: 0 <= j < i ==> xs[j] != xs[i]
  }

  /** Where `x` first occurs in `xs`. */
  function FirstIndex<T(==)>(xs: seq<T>, x: T): (r: nat)
    requires x in xs
    ensures r < |xs| && xs[r] == x && IsFirst(xs, r)
  {
    if xs[0] == x then 0 else 1 + FirstIndex(xs[1..], x)
  }

  lemma FirstIndexUnique<T>(xs: seq<T>, i: nat)
    requires i < |xs| && IsFirst(xs, i)
    ensures FirstIndex(xs, xs[i]) == i
  {
  }

  /** The positions below `n` at which a value occurs for the first time, in increasing order. */
  function FirstIndices<T(==)>(xs: seq<T>, n: nat): (r: seq<nat>)
    requires n <= |xs|
    ensures |r| <= n
    ensures forall k :: 0 <= k < |r| ==> r[k] < n && IsFirst(xs, r[k])
    ensures forall k, l :: 0 <= k < l < |r| ==> r[k] < r[l]
    ensures forall i :: 0 <= i < n && IsFirst(xs, i) ==> i in r
  {
    if n == 0 then []
    else
      var p := FirstIndices(xs, n - 1);
      if IsFirst(xs, n - 1) then p + [n - 1] else p
  }

  /** `pd.Series(xs).unique()`: the distinct values in order of first appearance. */
  function Unique<T(==)>(xs: seq<T>): (r: seq<T>)
    ensures |r| == |FirstIndices(xs, |xs|)| && |r| <= |xs|
    ensures forall k :: 0 <= k < |r| ==> r[k] == xs[FirstIndices(xs, |xs|)[k]]
    ensures Distinct(r)
    ensures forall i :: 0 <= i < |xs| ==> xs[i] in r
    ensures forall k :: 0 <= k < |r| ==> r[k] in xs
  {
    var fi := FirstIndices(xs, |xs|);
    var r := seq(|fi|, k requires 0 <= k < |fi| => xs[fi[k]]);
    forall j | 0 <= j < |xs| ensures xs[j] in r {
      var x := xs[j];
      var i := FirstIndex(xs, x);
      var k :| 0 <= k < |fi| && fi[k] == i;
      assert r[k] == x;
    }
    forall k, l | 0 <= k < l < |r| ensures r[k] != r[l] {
      assert fi[k] < fi[l] && IsFirst(xs, fi[l]);
    }
    r
  }

  predicate Distinct<T(==)>(s: seq<T>)
  {
    forall k, l :: 0 <= k < l < |s| ==> s[k] != s[l]
  }

  /** `{v: i + 1 for i, v in enumerate(unique(xs))}` */
  function DenseIds<T(==)>(xs: seq<T>): (r: map<T, int>)
    ensures forall k :: 0 <= k < |Unique(xs)| ==> Unique(xs)[k] in r && r[Unique(xs)[k]] == k + 1
    ensures forall x :: x in r ==> x in Unique(xs)
  {
    var u := Unique(xs);
    map k | 0 <= k < |u| :: u[k] := k + 1
  }

  /**
   * Every value of `xs` gets an id, the ids are exactly 1..|unique(xs)|,
   * and no two values share one.
   */
  lemma DenseIdsSpec<T>(xs: seq<T>)
    ensures forall i :: 0 <= i < |xs| ==> xs[i] in DenseIds(xs)
    ensures forall x :: x in DenseIds(xs) ==> x in xs
    ensures forall v :: v in DenseIds(xs).Values <==> 1 <= v <= |Unique(xs)|
    ensures forall x, y :: x in DenseIds(xs) && y in DenseIds(xs) && x != y ==> DenseIds(xs)[x] != DenseIds(xs)[y]
  {
    var u, ids := Unique(xs), DenseIds(xs);
    forall x | x in ids ensures exists k :: 0 <= k < |u| && u[k] == x && ids[x] == k + 1 {
      var k :| 0 <= k < |u| && u[k] == x;
    }
    forall v | 1 <= v <= |u| ensures v in ids.Values {
      assert ids[u[v - 1]] == v;
    }
  }

  /** Ids follow first appearance: an earlier first appearance means a smaller id. */
  lemma DenseIdsFollowFirstAppearance<T>(xs: seq<T>, x: T, y: T)
    requires x in xs && y in xs
    ensures DenseIds(xs)[x] < DenseIds(xs)[y] <==> FirstIndex(xs, x) < FirstIndex(xs, y)
  {
    var k := PositionInUnique(xs, x);
    var l := PositionInUnique(xs, y);
    FirstIndicesOrder(xs, k, l);
  }

  lemma FirstIndicesOrder<T>(xs: seq<T>, k: nat, l: nat)
    requires k < |FirstIndices(xs, |xs|)| && l < |FirstIndices(xs, |xs|)|
    ensures k < l <==> FirstIndices(xs, |xs|)[k] < FirstIndices(xs, |xs|)[l]
  {
    var fi := FirstIndices(xs, |xs|);
    if l < k {
      assert fi[l] < fi[k];
    }
  }

  /** Where a value sits among the distinct values: one less than its id, at its first index. */
  lemma PositionInUnique<T>(xs: seq<T>, x: T) returns (k: nat)
    requires x in xs
    ensures k < |FirstIndices(xs, |xs|)| && FirstIndex(xs, x) == FirstIndices(xs, |xs|)[k]
    ensures x in DenseIds(xs) && DenseIds(xs)[x] == k + 1
  {
    var u, fi := Unique(xs), FirstIndices(xs, |xs|);
    k :| 0 <= k < |u| && u[k] == x;
    assert xs[fi[k]] == x && IsFirst(xs, fi[k]);
    FirstIndexUnique(xs, fi[k]);
  }
}
