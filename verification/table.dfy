/** One database table: a map from primary key to record. This module holds what the
    generic entity service (`Service<T>`) does for every entity: assign a fresh key on
    insert, enumerate the rows, and order them for a listing. */
module Table {
  import opened Ordering

  /** A non-empty finite set of keys has a least element. */
  lemma {:induction false} MinExists(keys: set<int>)
    requires keys != {}
    ensures exists m :: m in keys && forall k :: k in keys ==> m <= k
    decreases |keys|
  {
    var x := PickKey(keys);
    if forall k :: k in keys ==> k == x {
      assert forall k :: k in keys ==> x <= k;
    } else {
      var y :| y in keys && y != x;
      var rest := keys - {x};
      assert y in rest;
      MinExists(rest);
      var m :| m in rest && forall k :: k in rest ==> m <= k;
      var least := if x < m then x else m;
      assert forall k :: k in keys ==> k == x || k in rest;
      assert least in keys && forall k :: k in keys ==> least <= k;
    }
  }

  lemma PickKey(keys: set<int>) returns (x: int)
    requires keys != {}
    ensures x in keys
  {
    if forall k :: k !in keys {
      assert false;
    }
    x :| x in keys;
  }

  function Least(keys: set<int>): (m: int)
    requires keys != {}
    ensures m in keys && forall k :: k in keys ==> m <= k
  {
    MinExists(keys);
    var m :| m in keys && forall k :: k in keys ==> m <= k;
    m
  }

  /** The keys in ascending order, the order of a scan of the primary key. */
  function SortedKeys(keys: set<int>): (r: seq<int>)
    ensures |r| == |keys|
    ensures forall i, j :: 0 <= i < j < |r| ==> r[i] < r[j]
    ensures forall k :: k in r <==> k in keys
    decreases |keys|
  {
    if keys == {} then []
    else
      var m := Least(keys);
      var rest := SortedKeys(keys - {m});
      assert forall k :: k in rest ==> m < k;
      [m] + rest
  }

  /** Every row of the table as a (key, record) pair, in ascending key order. */
  function Rows<T>(m: map<int, T>): (r: seq<(int, T)>)
    ensures |r| == |m|
    ensures forall i, j :: 0 <= i < j < |r| ==> r[i].0 < r[j].0
    ensures forall i :: 0 <= i < |r| ==> r[i].0 in m && r[i].1 == m[r[i].0]
    ensures forall k :: k in m ==> (k, m[k]) in r
  {
    var keys := SortedKeys(m.Keys);
    assert |keys| == |m.Keys|;
    assert |m.Keys| == |m|;
    var r := RowsAt(keys, m);
    RowsCover(m, keys, r);
    r
  }

  lemma RowsCover<T>(m: map<int, T>, keys: seq<int>, r: seq<(int, T)>)
    requires forall k :: k in keys <==> k in m.Keys
    requires |r| == |keys|
    requires forall i :: 0 <= i < |r| ==> keys[i] in m && r[i] == (keys[i], m[keys[i]])
    ensures forall k :: k in m ==> (k, m[k]) in r
  {
    forall k | k in m ensures (k, m[k]) in r {
      assert k in m.Keys;
      assert k in keys;
      var i :| 0 <= i < |keys| && keys[i] == k;
      assert r[i] == (k, m[k]);
    }
  }

  function RowsAt<T>(keys: seq<int>, m: map<int, T>): (r: seq<(int, T)>)
    requires forall i :: 0 <= i < |keys| ==> keys[i] in m
    ensures |r| == |keys|
    ensures forall i :: 0 <= i < |r| ==> r[i] == (keys[i], m[keys[i]])
  {
    if keys == [] then [] else [(keys[0], m[keys[0]])] + RowsAt(keys[1..], m)
  }

  /** The key the store assigns to an inserted row: one above the largest key in use,
      and at least 1. */
  function FreshId<T>(m: map<int, T>): (id: int)
    ensures id !in m
    ensures id > 0
    ensures forall k :: k in m ==> k < id
  {
    var keys := SortedKeys(m.Keys);
    if keys == [] then 1
    else
      var top := keys[|keys| - 1];
      assert forall k :: k in m ==> k <= top by {
        forall k | k in m ensures k <= top {
          var i :| 0 <= i < |keys| && keys[i] == k;
        }
      }
      if top < 1 then 1 else top + 1
  }

  /** All rows ordered by `leq` on the records: the model of `Query().OrderBy(...)`. */
  function Ordered<T(!new)>(m: map<int, T>, leq: (T, T) -> bool): (r: seq<(int, T)>)
    requires TotalPreorder(leq)
    ensures |r| == |m|
    ensures forall i :: 0 <= i < |r| ==> r[i].0 in m && r[i].1 == m[r[i].0]
    ensures forall k :: k in m ==> (k, m[k]) in r
    ensures forall i, j :: 0 <= i < j < |r| ==> leq(r[i].1, r[j].1)
  {
    OnKeyPreorder(Record, leq);
    var r := SortBy(Rows(m), OnKey(Record, leq));
    OrderedFacts(m, leq, r);
    r
  }

  lemma OrderedFacts<T>(m: map<int, T>, leq: (T, T) -> bool, r: seq<(int, T)>)
    requires multiset(r) == multiset(Rows(m))
    requires Sorted(r, OnKey(Record, leq))
    ensures |r| == |m|
    ensures forall i :: 0 <= i < |r| ==> r[i].0 in m && r[i].1 == m[r[i].0]
    ensures forall k :: k in m ==> (k, m[k]) in r
    ensures forall i, j :: 0 <= i < j < |r| ==> leq(r[i].1, r[j].1)
  {
    var rows := Rows(m);
    SameElements(r, rows);
    SortedOnRecord(r, leq);
    EntriesOfTable(m, rows, r);
  }

  lemma EntriesOfTable<T>(m: map<int, T>, rows: seq<(int, T)>, r: seq<(int, T)>)
    requires forall i :: 0 <= i < |rows| ==> rows[i].0 in m && rows[i].1 == m[rows[i].0]
    requires forall x :: x in r ==> x in rows
    ensures forall i :: 0 <= i < |r| ==> r[i].0 in m && r[i].1 == m[r[i].0]
  {
    forall i | 0 <= i < |r| ensures r[i].0 in m && r[i].1 == m[r[i].0] {
      assert r[i] in rows;
      var j :| 0 <= j < |rows| && rows[j] == r[i];
    }
  }

  function Record<T>(row: (int, T)): T {
    row.1
  }

  lemma SameElements<X>(r: seq<X>, rows: seq<X>)
    requires multiset(r) == multiset(rows)
    ensures |r| == |rows|
    ensures forall x :: x in r <==> x in rows
  {
    assert |r| == |multiset(r)|;
    assert |rows| == |multiset(rows)|;
    forall x ensures x in r <==> x in rows {
      assert x in r <==> x in multiset(r);
      assert x in rows <==> x in multiset(rows);
    }
  }

  lemma SortedOnRecord<T>(r: seq<(int, T)>, leq: (T, T) -> bool)
    requires Sorted(r, OnKey(Record, leq))
    ensures forall i, j :: 0 <= i < j < |r| ==> leq(r[i].1, r[j].1)
  {
    forall i, j | 0 <= i < j < |r| ensures leq(r[i].1, r[j].1) {
      assert OnKey(Record, leq)(r[i], r[j]);
      assert leq(Record(r[i]), Record(r[j]));
    }
  }

  /** A listing that holds the view of every stored row, and only such views, shows `x`
      under key `id` exactly when `x` is the view of stored row `id`. */
  lemma ListedIffViewed<T, R>(m: map<int, T>, r: seq<R>, key: R -> int, view: (int, T) -> R, id: int, x: R)
    requires forall i :: 0 <= i < |r| ==> key(r[i]) in m && r[i] == view(key(r[i]), m[key(r[i])])
    requires forall k :: k in m ==> exists i :: 0 <= i < |r| && key(r[i]) == k
    ensures (id in m && x == view(id, m[id])) <==> x in r && key(x) == id
  {
    if id in m && x == view(id, m[id]) {
      var i :| 0 <= i < |r| && key(r[i]) == id;
      assert r[i] == x;
    }
    if x in r && key(x) == id {
      var i :| 0 <= i < |r| && r[i] == x;
      assert key(r[i]) in m;
    }
  }

  /** Writing back the record a row already holds leaves the table as it was. */
  lemma SameValue<T>(m: map<int, T>, k: int, v: T)
    requires k in m && m[k] == v
    ensures m[k := v] == m
  {
  }

  /** No two rows of the table share the key `key` picks out of a record. */
  ghost predicate UniqueBy<T, K>(m: map<int, T>, key: T -> K) {
    forall i, j :: i in m && j in m && key(m[i]) == key(m[j]) ==> i == j
  }

  /** Inserting a record whose key no row holds keeps keys unique. */
  lemma InsertKeepsUnique<T, K>(m: map<int, T>, key: T -> K, id: int, rec: T)
    requires UniqueBy(m, key)
    requires id !in m
    requires forall k :: k in m ==> key(m[k]) != key(rec)
    ensures UniqueBy(m[id := rec], key)
  {
  }

  /** Overwriting row `id` with a record whose key no other row holds keeps keys unique. */
  lemma ReplaceKeepsUnique<T, K>(m: map<int, T>, key: T -> K, id: int, rec: T)
    requires UniqueBy(m, key)
    requires forall k :: k in m && k != id ==> key(m[k]) != key(rec)
    ensures UniqueBy(m[id := rec], key)
  {
  }
}
