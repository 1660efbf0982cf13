/** Group-by/sum and sort, the two table operations every aggregate of the pipeline
    is made of (`DataFrame.groupby(...).sum()`, `sort_values`, SQL `GROUP BY`,
    `ORDER BY`). Records, keys and values are generic; keys and values are read
    through named functions. */
module GroupBy {

  predicate Distinct<K(==)>(ks: seq<K>)
  {
    forall i, j :: 0 <= i < j < |ks| ==> ks[i] != ks[j]
  }

  /** Sum of `val` over all records. */
  function Total<R>(recs: seq<R>, val: R -> real): real
  {
    if recs == [] then 0.0 else val(recs[0]) + Total(recs[1..], val)
  }

  /** Sum of `val` over the records whose key is `k`. */
  function SumBy<R, K(==)>(recs: seq<R>, key: R -> K, val: R -> real, k: K): real
  {
    if recs == [] then 0.0
    else (if key(recs[0]) == k then val(recs[0]) else 0.0) + SumBy(recs[1..], key, val, k)
  }

  /** The distinct keys of the records, in order of first appearance. */
  function Keys<R, K(==)>(recs: seq<R>, key: R -> K): (ks: seq<K>)
    ensures Distinct(ks)
    ensures forall i :: 0 <= i < |recs| ==> key(recs[i]) in ks
    ensures forall j :: 0 <= j < |ks| ==> exists i :: 0 <= i < |recs| && key(recs[i]) == ks[j]
  {
    if recs == [] then []
    else
      var init := recs[..|recs| - 1];
      var ks := Keys(init, key);
      assert forall i :: 0 <= i < |init| ==> init[i] == recs[i];
      if key(recs[|recs| - 1]) in ks then ks else ks + [key(recs[|recs| - 1])]
  }

  /** Sum over a key list of the per-key sums. */
  function SumOver<R, K(==)>(recs: seq<R>, key: R -> K, val: R -> real, ks: seq<K>): real
  {
    if ks == [] then 0.0 else SumBy(recs, key, val, ks[0]) + SumOver(recs, key, val, ks[1..])
  }

  /** Sum over the keys `k` of a key list with `coarse(k) == c` of the per-key sums. */
  function SumOverWhere<R, K(==), C(==)>(recs: seq<R>, key: R -> K, val: R -> real, ks: seq<K>,
                                         coarse: K -> C, c: C): real
  {
    if ks == [] then 0.0
    else (if coarse(ks[0]) == c then SumBy(recs, key, val, ks[0]) else 0.0) +
         SumOverWhere(recs, key, val, ks[1..], coarse, c)
  }

  /** `val(r)` times the number of times `key(r)` occurs in `ks`. */
  function OccurrenceValue<R, K(==)>(r: R, key: R -> K, val: R -> real, ks: seq<K>): real
  {
    if ks == [] then 0.0
    else (if ks[0] == key(r) then val(r) else 0.0) + OccurrenceValue(r, key, val, ks[1..])
  }

  lemma {:induction false} OccurrenceOnce<R, K>(r: R, key: R -> K, val: R -> real, ks: seq<K>)
    requires Distinct(ks)
    ensures OccurrenceValue(r, key, val, ks) == if key(r) in ks then val(r) else 0.0
  {
    if ks != [] {
      OccurrenceOnce(r, key, val, ks[1..]);
      if ks[0] == key(r) {
        assert key(r) !in ks[1..];
      }
    }
  }

  lemma {:induction false} SumOverSplitExact<R, K>(recs: seq<R>, key: R -> K, val: R -> real, ks: seq<K>)
    requires recs != []
    ensures SumOver(recs, key, val, ks) == OccurrenceValue(recs[0], key, val, ks) + SumOver(recs[1..], key, val, ks)
  {
    if ks != [] {
      SumOverSplitExact(recs, key, val, ks[1..]);
    }
  }

  /** Conservation: when every record's key occurs exactly once in `ks`, the per-key
      sums add up to the grand total. Grouping neither creates nor loses area. */
  lemma {:induction false} Conservation<R, K>(recs: seq<R>, key: R -> K, val: R -> real, ks: seq<K>)
    requires Distinct(ks)
    requires forall i :: 0 <= i < |recs| ==> key(recs[i]) in ks
    ensures SumOver(recs, key, val, ks) == Total(recs, val)
  {
    if recs == [] {
      SumOverEmpty(key, val, ks);
    } else {
      SumOverSplitExact(recs, key, val, ks);
      OccurrenceOnce(recs[0], key, val, ks);
      Conservation(recs[1..], key, val, ks);
    }
  }

  lemma {:induction false} SumOverEmpty<R, K>(key: R -> K, val: R -> real, ks: seq<K>)
    ensures SumOver([], key, val, ks) == 0.0
  {
    if ks != [] {
      SumOverEmpty(key, val, ks[1..]);
    }
  }

  /** `coarse`-filtered analogue of OccurrenceValue. */
  function OccurrenceWhere<R, K(==), C(==)>(r: R, key: R -> K, val: R -> real, ks: seq<K>, coarse: K -> C, c: C): real
  {
    if ks == [] then 0.0
    else (if coarse(ks[0]) == c && ks[0] == key(r) then val(r) else 0.0) + OccurrenceWhere(r, key, val, ks[1..], coarse, c)
  }

  lemma {:induction false} OccurrenceWhereOnce<R, K, C>(r: R, key: R -> K, val: R -> real, ks: seq<K>, coarse: K -> C, c: C)
    requires Distinct(ks)
    ensures OccurrenceWhere(r, key, val, ks, coarse, c) == if key(r) in ks && coarse(key(r)) == c then val(r) else 0.0
  {
    if ks != [] {
      OccurrenceWhereOnce(r, key, val, ks[1..], coarse, c);
      if ks[0] == key(r) {
        assert key(r) !in ks[1..];
      }
    }
  }

  lemma {:induction false} SumOverWhereSplit<R, K, C>(recs: seq<R>, key: R -> K, val: R -> real, ks: seq<K>, coarse: K -> C, c: C)
    requires recs != []
    ensures SumOverWhere(recs, key, val, ks, coarse, c) ==
            OccurrenceWhere(recs[0], key, val, ks, coarse, c) + SumOverWhere(recs[1..], key, val, ks, coarse, c)
  {
    if ks != [] {
      SumOverWhereSplit(recs, key, val, ks[1..], coarse, c);
    }
  }

  lemma {:induction false} SumOverWhereEmpty<R, K, C>(key: R -> K, val: R -> real, ks: seq<K>, coarse: K -> C, c: C)
    ensures SumOverWhere([], key, val, ks, coarse, c) == 0.0
  {
    if ks != [] {
      SumOverWhereEmpty(key, val, ks[1..], coarse, c);
    }
  }

  /** Roll-up: summing the fine groups (say, per ring and year) whose coarse key is
      `c` gives the coarse group sum (per ring) computed directly from the records. */
  lemma {:induction false} Rollup<R, K, C>(recs: seq<R>, key: R -> K, val: R -> real, ks: seq<K>,
                                                   coarse: K -> C, ckey: R -> C, c: C)
    requires Distinct(ks)
    requires forall i :: 0 <= i < |recs| ==> key(recs[i]) in ks
    requires forall i :: 0 <= i < |recs| ==> ckey(recs[i]) == coarse(key(recs[i]))
    ensures SumOverWhere(recs, key, val, ks, coarse, c) == SumBy(recs, ckey, val, c)
  {
    if recs == [] {
      SumOverWhereEmpty(key, val, ks, coarse, c);
    } else {
      SumOverWhereSplit(recs, key, val, ks, coarse, c);
      OccurrenceWhereOnce(recs[0], key, val, ks, coarse, c);
      Rollup(recs[1..], key, val, ks, coarse, ckey, c);
    }
  }

  /** Rows built one per key, carrying the key's group sum, add up like the groups. */
  lemma {:induction false} RowsTotal<R, K, Row>(recs: seq<R>, key: R -> K, val: R -> real, ks: seq<K>,
                                                   rows: seq<Row>, rowVal: Row -> real)
    requires |rows| == |ks|
    requires forall i :: 0 <= i < |ks| ==> rowVal(rows[i]) == SumBy(recs, key, val, ks[i])
    ensures Total(rows, rowVal) == SumOver(recs, key, val, ks)
  {
    if ks != [] {
      RowsTotal(recs, key, val, ks[1..], rows[1..], rowVal);
    }
  }

  lemma {:induction false} RowsSumBy<R, K, C, Row>(recs: seq<R>, key: R -> K, val: R -> real, ks: seq<K>,
                                                           coarse: K -> C, rows: seq<Row>, rowKey: Row -> C,
                                                           rowVal: Row -> real, c: C)
    requires |rows| == |ks|
    requires forall i :: 0 <= i < |ks| ==> rowVal(rows[i]) == SumBy(recs, key, val, ks[i])
    requires forall i :: 0 <= i < |ks| ==> rowKey(rows[i]) == coarse(ks[i])
    ensures SumBy(rows, rowKey, rowVal, c) == SumOverWhere(recs, key, val, ks, coarse, c)
  {
    if ks != [] {
      RowsSumBy(recs, key, val, ks[1..], coarse, rows[1..], rowKey, rowVal, c);
    }
  }

  // ---------------------------------------------------------------------------
  // Group tables
  // ---------------------------------------------------------------------------

  /** The key of each element, in order. */
  function KeysOf<Row, K>(rows: seq<Row>, rowKey: Row -> K): (ks: seq<K>)
    ensures |ks| == |rows| && forall j :: 0 <= j < |rows| ==> ks[j] == rowKey(rows[j])
  {
    seq(|rows|, j requires 0 <= j < |rows| => rowKey(rows[j]))
  }

  /** Every record's key has a row. */
  ghost predicate KeysCovered<R, K, Row>(recs: seq<R>, key: R -> K, rows: seq<Row>, rowKey: Row -> K)
  {
    forall i :: 0 <= i < |recs| ==> key(recs[i]) in KeysOf(rows, rowKey)
  }

  /** Every row's key is the key of some record. */
  ghost predicate KeysPresent<R, K, Row>(recs: seq<R>, key: R -> K, rows: seq<Row>, rowKey: Row -> K)
  {
    forall j :: 0 <= j < |rows| ==> rowKey(rows[j]) in KeysOf(recs, key)
  }

  /** Every row carries the sum of `val` over the records with its key. */
  ghost predicate RowsSummed<R, K, Row>(recs: seq<R>, key: R -> K, val: R -> real,
                                        rows: seq<Row>, rowKey: Row -> K, rowVal: Row -> real)
  {
    forall j :: 0 <= j < |rows| ==> rowVal(rows[j]) == SumBy(recs, key, val, rowKey(rows[j]))
  }

  /** `rows` is what grouping `recs` by `key` and summing `val` yields, in some row
      order: one row per distinct key present in the records, carrying that key's sum. */
  ghost predicate GroupTable<R, K, Row>(recs: seq<R>, key: R -> K, val: R -> real,
                                        rows: seq<Row>, rowKey: Row -> K, rowVal: Row -> real)
  {
    Distinct(KeysOf(rows, rowKey)) && KeysCovered(recs, key, rows, rowKey) &&
    KeysPresent(recs, key, rows, rowKey) && RowsSummed(recs, key, val, rows, rowKey, rowVal)
  }

  /** `groupby(key)[val].sum().reset_index()`: one row per key, in order of first
      appearance, built by `mk` from the key and its sum. */
  function GroupRows<R, K(==), Row>(recs: seq<R>, key: R -> K, val: R -> real, mk: (K, real) -> Row): seq<Row>
  {
    var ks := Keys(recs, key);
    seq(|ks|, i requires 0 <= i < |ks| => mk(ks[i], SumBy(recs, key, val, ks[i])))
  }

  /** The grouped rows list the keys of `Keys` in order, each with its sum. */
  lemma GroupRowsKeys<R, K, Row>(recs: seq<R>, key: R -> K, val: R -> real, mk: (K, real) -> Row,
                                 rowKey: Row -> K, rowVal: Row -> real)
    requires forall k, a :: rowKey(mk(k, a)) == k
    requires forall k, a :: rowVal(mk(k, a)) == a
    ensures KeysOf(GroupRows(recs, key, val, mk), rowKey) == Keys(recs, key)
    ensures RowsSummed(recs, key, val, GroupRows(recs, key, val, mk), rowKey, rowVal)
  {
    var ks := Keys(recs, key);
    var rows := GroupRows(recs, key, val, mk);
    forall j | 0 <= j < |rows|
      ensures rowKey(rows[j]) == ks[j] && rowVal(rows[j]) == SumBy(recs, key, val, ks[j])
    {
      assert rows[j] == mk(ks[j], SumBy(recs, key, val, ks[j]));
    }
  }

  /** The first-appearance key list holds exactly the records' keys. */
  lemma KeysExact<R, K>(recs: seq<R>, key: R -> K)
    ensures forall k :: k in Keys(recs, key) <==> k in KeysOf(recs, key)
  {
    var ks := Keys(recs, key);
    var all := KeysOf(recs, key);
    forall k | k in ks
      ensures k in all
    {
      var j :| 0 <= j < |ks| && ks[j] == k;
      var i :| 0 <= i < |recs| && key(recs[i]) == ks[j];
      assert all[i] == k;
    }
  }

  /** Grouping builds a group table. */
  lemma GroupRowsTable<R, K, Row>(recs: seq<R>, key: R -> K, val: R -> real, mk: (K, real) -> Row,
                                  rowKey: Row -> K, rowVal: Row -> real)
    requires forall k, a :: rowKey(mk(k, a)) == k
    requires forall k, a :: rowVal(mk(k, a)) == a
    ensures GroupTable(recs, key, val, GroupRows(recs, key, val, mk), rowKey, rowVal)
  {
    var rows := GroupRows(recs, key, val, mk);
    GroupRowsKeys(recs, key, val, mk, rowKey, rowVal);
    KeysExact(recs, key);
    assert KeysPresent(recs, key, rows, rowKey) by {
      forall j | 0 <= j < |rows|
        ensures rowKey(rows[j]) in KeysOf(recs, key)
      {
        assert rowKey(rows[j]) == KeysOf(rows, rowKey)[j];
      }
    }
  }

  /** Reordering the rows (`sort_values`, `ORDER BY`) keeps a group table one. */
  lemma GroupTablePermutation<R, K, Row>(recs: seq<R>, key: R -> K, val: R -> real,
                                         rows: seq<Row>, rows': seq<Row>, rowKey: Row -> K, rowVal: Row -> real)
    requires GroupTable(recs, key, val, rows, rowKey, rowVal)
    requires multiset(rows) == multiset(rows')
    ensures GroupTable(recs, key, val, rows', rowKey, rowVal)
  {
    var ks, ks' := KeysOf(rows, rowKey), KeysOf(rows', rowKey);
    assert Distinct(rows) by {
      forall i, j | 0 <= i < j < |rows|
        ensures rows[i] != rows[j]
      {
        assert ks[i] != ks[j];
      }
    }
    DistinctByMultiset(rows, rows');
    forall i, j | 0 <= i < j < |rows'|
      ensures ks'[i] != ks'[j]
    {
      MembershipByMultiset(rows, rows', rows'[i]);
      MembershipByMultiset(rows, rows', rows'[j]);
      var p :| 0 <= p < |rows| && rows[p] == rows'[i];
      var q :| 0 <= q < |rows| && rows[q] == rows'[j];
      assert ks[p] != ks[q];
    }
    forall i | 0 <= i < |recs|
      ensures key(recs[i]) in ks'
    {
      assert key(recs[i]) in ks;
      var p :| 0 <= p < |rows| && ks[p] == key(recs[i]);
      MembershipByMultiset(rows, rows', rows[p]);
      var j :| 0 <= j < |rows'| && rows'[j] == rows[p];
      assert ks'[j] == key(recs[i]);
    }
    forall j | 0 <= j < |rows'|
      ensures rowKey(rows'[j]) in KeysOf(recs, key)
      ensures rowVal(rows'[j]) == SumBy(recs, key, val, rowKey(rows'[j]))
    {
      MembershipByMultiset(rows, rows', rows'[j]);
      var p :| 0 <= p < |rows| && rows[p] == rows'[j];
    }
  }

  /** The rows of a group table add up to the grand total of the records. */
  lemma GroupTableTotal<R, K, Row>(recs: seq<R>, key: R -> K, val: R -> real,
                                   rows: seq<Row>, rowKey: Row -> K, rowVal: Row -> real)
    requires GroupTable(recs, key, val, rows, rowKey, rowVal)
    ensures Total(rows, rowVal) == Total(recs, val)
  {
    var ks := KeysOf(rows, rowKey);
    assert RowsSummed(recs, key, val, rows, rowKey, rowVal) && KeysCovered(recs, key, rows, rowKey);
    RowsTotal(recs, key, val, ks, rows, rowVal);
    Conservation(recs, key, val, ks);
  }

  /** Roll-up of a group table: summing the rows whose coarse key is `c` gives the
      coarse group sum computed directly from the records. */
  lemma GroupTableRollup<R, K, C, Row>(recs: seq<R>, key: R -> K, val: R -> real,
                                       rows: seq<Row>, rowKey: Row -> K, rowVal: Row -> real,
                                       coarse: K -> C, ckey: R -> C, rowCoarse: Row -> C, c: C)
    requires GroupTable(recs, key, val, rows, rowKey, rowVal)
    requires forall i :: 0 <= i < |recs| ==> ckey(recs[i]) == coarse(key(recs[i]))
    requires forall j :: 0 <= j < |rows| ==> rowCoarse(rows[j]) == coarse(rowKey(rows[j]))
    ensures SumBy(rows, rowCoarse, rowVal, c) == SumBy(recs, ckey, val, c)
  {
    var ks := KeysOf(rows, rowKey);
    assert RowsSummed(recs, key, val, rows, rowKey, rowVal) && KeysCovered(recs, key, rows, rowKey);
    RowsSumBy(recs, key, val, ks, coarse, rows, rowCoarse, rowVal, c);
    Rollup(recs, key, val, ks, coarse, ckey, c);
  }

  // ---------------------------------------------------------------------------
  // Sorting
  // ---------------------------------------------------------------------------

  ghost predicate TotalPreorder<T(!new)>(le: (T, T) -> bool)
  {
    (forall a, b :: le(a, b) || le(b, a)) &&
    (forall a, b, c :: le(a, b) && le(b, c) ==> le(a, c))
  }

  ghost predicate Sorted<T>(s: seq<T>, le: (T, T) -> bool)
  {
    forall i, j :: 0 <= i < j < |s| ==> le(s[i], s[j])
  }

  function Insert<T>(x: T, s: seq<T>, le: (T, T) -> bool): (r: seq<T>)
    ensures multiset(r) == multiset{x} + multiset(s)
    ensures |r| == |s| + 1
  {
    if s == [] then [x]
    else if le(x, s[0]) then [x] + s
    else
      assert s == [s[0]] + s[1..];
      [s[0]] + Insert(x, s[1..], le)
  }

  /** Insertion sort by a total preorder (a stable sort). */
  function Sort<T>(s: seq<T>, le: (T, T) -> bool): (r: seq<T>)
    ensures multiset(r) == multiset(s)
    ensures |r| == |s|
  {
    if s == [] then []
    else
      assert s == [s[0]] + s[1..];
      Insert(s[0], Sort(s[1..], le), le)
  }

  /** Inserting a row adds its value to the total. */
  lemma {:induction false} TotalInsert<T>(x: T, s: seq<T>, le: (T, T) -> bool, val: T -> real)
    ensures Total(Insert(x, s, le), val) == val(x) + Total(s, val)
  {
    if s != [] && !le(x, s[0]) {
      var r := Insert(x, s, le);
      assert r[1..] == Insert(x, s[1..], le);
      TotalInsert(x, s[1..], le, val);
    } else if s != [] {
      assert ([x] + s)[1..] == s;
    }
  }

  /** Sorting moves rows around but keeps their total. */
  lemma {:induction false} TotalSort<T>(s: seq<T>, le: (T, T) -> bool, val: T -> real)
    ensures Total(Sort(s, le), val) == Total(s, val)
  {
    if s != [] {
      TotalSort(s[1..], le, val);
      TotalInsert(s[0], Sort(s[1..], le), le, val);
    }
  }

  lemma {:induction false} InsertSorted<T(!new)>(x: T, s: seq<T>, le: (T, T) -> bool)
    requires TotalPreorder(le) && Sorted(s, le)
    ensures Sorted(Insert(x, s, le), le)
  {
    if s != [] && !le(x, s[0]) {
      InsertSorted(x, s[1..], le);
      var r := Insert(x, s[1..], le);
      assert le(s[0], x);
      forall y | y in r
        ensures le(s[0], y)
      {
        assert y in multiset(r);
        if y != x {
          assert y in multiset(s[1..]);
          var j :| 0 <= j < |s[1..]| && s[1..][j] == y;
          assert le(s[0], s[j + 1]);
        }
      }
      forall i, j | 0 <= i < j < |[s[0]] + r|
        ensures le(([s[0]] + r)[i], ([s[0]] + r)[j])
      {
        if i == 0 {
          assert ([s[0]] + r)[j] == r[j - 1];
          assert r[j - 1] in r;
        }
      }
    }
  }

  lemma {:induction false} SortSorted<T(!new)>(s: seq<T>, le: (T, T) -> bool)
    requires TotalPreorder(le)
    ensures Sorted(Sort(s, le), le)
  {
    if s != [] {
      SortSorted(s[1..], le);
      InsertSorted(s[0], Sort(s[1..], le), le);
    }
  }

  lemma DistinctByMultiset<T>(s: seq<T>, t: seq<T>)
    requires Distinct(s) && multiset(s) == multiset(t)
    ensures Distinct(t)
  {
    forall i, j | 0 <= i < j < |t|
      ensures t[i] != t[j]
    {
      if t[i] == t[j] {
        assert t == t[..i] + [t[i]] + t[i + 1..j] + [t[j]] + t[j + 1..];
        assert multiset(t)[t[i]] >= 2;
        MultiplicityDistinct(s, t[i]);
      }
    }
  }

  lemma {:induction false} MultiplicityDistinct<T>(s: seq<T>, x: T)
    requires Distinct(s)
    ensures multiset(s)[x] <= 1
  {
    if s != [] {
      assert s == [s[0]] + s[1..];
      assert Distinct(s[1..]);
      MultiplicityDistinct(s[1..], x);
      if s[0] == x {
        assert x !in s[1..];
      }
    }
  }

  lemma MembershipByMultiset<T>(s: seq<T>, t: seq<T>, x: T)
    requires multiset(s) == multiset(t)
    ensures x in s <==> x in t
  {
    assert x in s <==> x in multiset(s);
    assert x in t <==> x in multiset(t);
  }
}
