/**
 * A database table as a map from primary key to row, and the two bulk-insert
 * conflict policies the importer uses: `INSERT OR IGNORE` and `INSERT OR REPLACE`.
 * Also the order in which SQLite scans a table with an integer primary key.
 */
module Tables {

  /** The keys that a batch of `(key, row)` pairs mentions. */
  function KeysOf<K, V>(rows: seq<(K, V)>): set<K>
  {
    set i | 0 <= i < |rows| :: rows[i].0
  }

  /** No earlier pair of the batch has the same key as pair `i`. */
  predicate FirstWithKey<K(==), V>(rows: seq<(K, V)>, i: nat)
    requires i < |rows|
  {
    forall j :: 0 <= j < i ==> rows[j].0 != rows[i].0
  }

  /** No later pair of the batch has the same key as pair `i`. */
  predicate LastWithKey<K(==), V>(rows: seq<(K, V)>, i: nat)
    requires i < |rows|
  {
    forall j :: i < j < |rows| ==> rows[j].0 != rows[i].0
  }

  /**
   * `executemany("INSERT OR IGNORE ...", rows)`: rows whose key is already
   * present are skipped, so existing rows never change and, within the batch,
   * the first row with a new key is the one stored.
   */
  function InsertOrIgnore<K, V>(t: map<K, V>, rows: seq<(K, V)>): (r: map<K, V>)
    ensures r.Keys == t.Keys + KeysOf(rows)
    ensures forall k :: k in t ==> r[k] == t[k]
    ensures forall i :: 0 <= i < |rows| && rows[i].0 !in t && FirstWithKey(rows, i) ==> r[rows[i].0] == rows[i].1
    decreases |rows|
  {
    if rows == [] then t
    else
      var k := rows[0].0;
      var t' := if k in t then t else t[k := rows[0].1];
      var r := InsertOrIgnore(t', rows[1..]);
      assert KeysOf(rows) == {k} + KeysOf(rows[1..]) by {
        forall i | 0 < i < |rows| ensures rows[i].0 in KeysOf(rows[1..]) {
          assert rows[1..][i - 1] == rows[i];
        }
      }
      forall i | 0 < i < |rows| && rows[i].0 !in t && FirstWithKey(rows, i)
        ensures r[rows[i].0] == rows[i].1
      {
        assert rows[1..][i - 1] == rows[i];
        assert FirstWithKey(rows[1..], i - 1);
      }
      r
  }

  /**
   * `executemany("INSERT OR REPLACE ...", rows)`: a row whose key is present
   * overwrites the stored one, so the last row of the batch with a key wins.
   */
  function InsertOrReplace<K, V>(t: map<K, V>, rows: seq<(K, V)>): (r: map<K, V>)
    ensures r.Keys == t.Keys + KeysOf(rows)
    ensures forall k :: k in t && k !in KeysOf(rows) ==> r[k] == t[k]
    ensures forall i :: 0 <= i < |rows| && LastWithKey(rows, i) ==> r[rows[i].0] == rows[i].1
    decreases |rows|
  {
    if rows == [] then t
    else
      var r := InsertOrReplace(t[rows[0].0 := rows[0].1], rows[1..]);
      assert KeysOf(rows) == {rows[0].0} + KeysOf(rows[1..]) by {
        forall i | 0 < i < |rows| ensures rows[i].0 in KeysOf(rows[1..]) {
          assert rows[1..][i - 1] == rows[i];
        }
      }
      forall i | 0 < i < |rows| && LastWithKey(rows, i) ensures r[rows[i].0] == rows[i].1 {
        assert rows[1..][i - 1] == rows[i];
        assert LastWithKey(rows[1..], i - 1);
      }
      forall k | k in KeysOf(rows[1..]) ensures k in KeysOf(rows) {
        var j :| 0 <= j < |rows[1..]| && rows[1..][j].0 == k;
        assert rows[j + 1].0 == k;
      }
      r
  }

  /** For every key of a batch, the last pair with that key. */
  lemma LastPairWithKey<K, V>(rows: seq<(K, V)>, k: K) returns (i: nat)
    requires k in KeysOf(rows)
    ensures i < |rows| && rows[i].0 == k && LastWithKey(rows, i)
  {
    var j :| 0 <= j < |rows| && rows[j].0 == k;
    i := j;
    while i + 1 < |rows| && exists m :: i < m < |rows| && rows[m].0 == k
      invariant j <= i < |rows| && rows[i].0 == k
      decreases |rows| - i
    {
      var m :| i < m < |rows| && rows[m].0 == k;
      i := m;
    }
  }

  /** Re-running an `INSERT OR IGNORE` batch changes nothing. */
  lemma InsertOrIgnoreIdempotent<K, V>(t: map<K, V>, rows: seq<(K, V)>)
    ensures InsertOrIgnore(InsertOrIgnore(t, rows), rows) == InsertOrIgnore(t, rows)
  {
    InsertOrIgnoreOfPresentKeys(InsertOrIgnore(t, rows), rows);
  }

  /** A batch whose keys are all present leaves the table as it was. */
  lemma InsertOrIgnoreOfPresentKeys<K, V>(t: map<K, V>, rows: seq<(K, V)>)
    requires KeysOf(rows) <= t.Keys
    ensures InsertOrIgnore(t, rows) == t
  {
    var r := InsertOrIgnore(t, rows);
    assert r.Keys == t.Keys;
    assert forall k :: k in r ==> r[k] == t[k];
  }

  /** Re-running an `INSERT OR REPLACE` batch changes nothing. */
  lemma InsertOrReplaceIdempotent<K, V>(t: map<K, V>, rows: seq<(K, V)>)
    ensures InsertOrReplace(InsertOrReplace(t, rows), rows) == InsertOrReplace(t, rows)
  {
    var once := InsertOrReplace(t, rows);
    var twice := InsertOrReplace(once, rows);
    forall k | k in twice ensures twice[k] == once[k] {
      if k in KeysOf(rows) {
        var i := LastPairWithKey(rows, k);
      }
    }
  }

  /** The smallest element of a non-empty set of integers. */
  function Min(s: set<int>): (m: int)
    requires s != {}
    ensures m in s && forall x :: x in s ==> m <= x
  {
    MinExists(s);
    var m :| m in s && forall x :: x in s ==> m <= x;
    m
  }

  lemma MinExists(s: set<int>)
    requires s != {}
    ensures exists m :: m in s && forall x :: x in s ==> m <= x
  {
    var m := Least(s);
  }

  /** The least element of a non-empty set, by induction on its size. */
  lemma {:induction false} Least(s: set<int>) returns (m: int)
    requires s != {}
    ensures m in s && forall x :: x in s ==> m <= x
    decreases |s|
  {
    var y := PickOne(s);
    var rest := s - {y};
    assert s == rest + {y};
    if rest == {} {
      m := y;
      assert s == {y};
    } else {
      var n := Least(rest);
      m := if y < n then y else n;
      forall x | x in s ensures m <= x {
        if x != y {
          assert x in rest;
        }
      }
    }
  }

  /** Some element of a non-empty set. */
  lemma PickOne(s: set<int>) returns (y: int)
    requires s != {}
    ensures y in s
  {
    EmptyOrMember(s);
    var x :| x in s;
    y := x;
  }

  lemma EmptyOrMember(s: set<int>)
    ensures s == {} || exists x :: x in s
  {
    if forall x :: x !in s {
      assert s == {};
    }
  }

  /**
   * The keys of a table with an integer primary key in increasing order.
   * This is the order the model assumes for a query without ORDER BY: a full
   * scan of the table's b-tree, which is rowid order. SQLite does not promise
   * any order there; a plan that reads through an index visits rows in the
   * index's order.
   */
  function ScanOrder(keys: set<int>): (r: seq<int>)
    ensures |r| == |keys|
    ensures forall i :: 0 <= i < |r| ==> r[i] in keys
    ensures forall k :: k in keys ==> k in r
    ensures forall i, j :: 0 <= i < j < |r| ==> r[i] < r[j]
    decreases |keys|
  {
    if keys == {} then []
    else
      var m := Min(keys);
      var rest := ScanOrder(keys - {m});
      PrependLeast(keys, m, rest);
      [m] + rest
  }

  /** Where a key sits in the scan. */
  lemma ScanIndex(keys: set<int>, k: int) returns (i: nat)
    requires k in keys
    ensures i < |ScanOrder(keys)| && ScanOrder(keys)[i] == k
  {
    var order := ScanOrder(keys);
    i :| i < |order| && order[i] == k;
  }

  /** The least key followed by the others in order lists all the keys in order. */
  lemma PrependLeast(keys: set<int>, m: int, rest: seq<int>)
    requires m in keys && forall x :: x in keys ==> m <= x
    requires |rest| == |keys - {m}|
    requires forall i :: 0 <= i < |rest| ==> rest[i] in keys - {m}
    requires forall k :: k in keys - {m} ==> k in rest
    requires forall i, j :: 0 <= i < j < |rest| ==> rest[i] < rest[j]
    ensures |[m] + rest| == |keys|
    ensures forall i :: 0 <= i < |[m] + rest| ==> ([m] + rest)[i] in keys
    ensures forall k :: k in keys ==> k in [m] + rest
    ensures forall i, j :: 0 <= i < j < |[m] + rest| ==> ([m] + rest)[i] < ([m] + rest)[j]
  {
    var r := [m] + rest;
    assert forall i :: 0 < i < |r| ==> r[i] == rest[i - 1];
    assert forall k :: k in keys ==> k == m || k in keys - {m};
  }

  /** The rowid SQLite gives the next row of a table: one past the largest key, or 1 when empty. */
  function NextRowId(keys: set<int>): (r: int)
    ensures r !in keys
    ensures forall k :: k in keys ==> k < r
  {
    var order := ScanOrder(keys);
    if order == [] then 1 else order[|order| - 1] + 1
  }
}
