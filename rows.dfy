/** Cell values, rows, and the row filter and limit that `Tbl.select`
    applies (table.py:23-36). */
module Rows {
  import opened Seqs

  datatype Option<T> = None | Some(value: T)

  /** A cell value: Python's None, bool, int, float and str. Floats are only
      ever compared for equality, so a real number stands for one. */
  datatype Value = VNone | VBool(b: bool) | VInt(i: int) | VFloat(x: real) | VStr(s: string)

  /** A stored row: column name to value, including the reserved `_id` column. */
  type Row = map<string, Value>

  /** An equality-conjunction filter: column name to expected value. */
  type Where = map<string, Value>

  const IdColumn: string := "_id"

  /** The number a Python bool, int or float stands for; None for the rest. */
  function AsNumber(v: Value): Option<real> {
    match v
    case VBool(b) => Some(if b then 1.0 else 0.0)
    case VInt(i) => Some(i as real)
    case VFloat(x) => Some(x)
    case _ => None
  }

  /** Python's `==` on cell values: numbers compare by value across bool,
      int and float (`1 == 1.0 == True`); anything else compares structurally. */
  predicate PyEq(a: Value, b: Value) {
    if AsNumber(a).Some? && AsNumber(b).Some? then AsNumber(a).value == AsNumber(b).value
    else a == b
  }

  /** `row.get(column)`: a missing column reads as None. */
  function Get(row: Row, column: string): Value {
    if column in row then row[column] else VNone
  }

  /** `all(row.get(k) == v for k, v in where.items())` (table.py:30). */
  predicate Matches(row: Row, where: Where) {
    forall c | c in where :: PyEq(Get(row, c), where[c])
  }

  predicate Increasing(s: seq<int>) {
    forall i, j | 0 <= i < j < |s| :: s[i] < s[j]
  }

  /** The keys of `order`, in order, that are stored in `rows` and whose row
      matches `where` exactly when `keep` holds. */
  function Pick(order: seq<int>, rows: map<int, Row>, where: Where, keep: bool): seq<int> {
    if order == [] then []
    else
      (if order[0] in rows && Matches(rows[order[0]], where) == keep then [order[0]] else [])
      + Pick(order[1..], rows, where, keep)
  }

  /** The rows stored under `ids`, in the order of `ids`. */
  function RowsAt(ids: seq<int>, rows: map<int, Row>): seq<Row> {
    if ids == [] then []
    else (if ids[0] in rows then [rows[ids[0]]] else []) + RowsAt(ids[1..], rows)
  }

  /** `rs[i]` carries the key `ids[i]` as its `_id`, for every `i`. */
  predicate CarriesIds(rs: seq<Row>, ids: seq<int>) {
    && |rs| == |ids|
    && forall i | 0 <= i < |ids| :: IdColumn in rs[i] && rs[i][IdColumn] == VInt(ids[i])
  }

  /** Where a Python slice `s[:stop]` of a list of length `n` ends. */
  function SliceStop(n: nat, stop: int): (k: nat)
    ensures k <= n
  {
    if stop < 0 then (if n + stop < 0 then 0 else n + stop)
    else if stop < n then stop
    else n
  }

  /** `if limit: results = results[:limit]` (table.py:33-34). */
  function Limit<T>(s: seq<T>, limit: Option<int>): (r: seq<T>)
    ensures r <= s
    ensures limit.None? || limit.value == 0 ==> r == s
    ensures limit.Some? && 0 < limit.value ==> |r| == if limit.value < |s| then limit.value else |s|
    ensures limit.Some? && limit.value < 0 ==>
      |s| - |r| == if -limit.value < |s| then -limit.value else |s|
  {
    if limit.None? || limit.value == 0 then s
    else s[..SliceStop(|s|, limit.value)]
  }

  /** A filter with a single column does what `row.get(column) == value` does. */
  lemma MatchesSingle(row: Row, column: string, value: Value)
    ensures Matches(row, map[column := value]) <==> PyEq(Get(row, column), value)
  {
    assert column in map[column := value];
  }

  /** The empty filter keeps every row (`if where:` skips it, table.py:28). */
  lemma MatchesEmpty(row: Row)
    ensures Matches(row, map[])
  {
  }

  /** Pick keeps exactly the stored keys of `order` whose match is `keep`. */
  lemma {:induction false} PickMembers(order: seq<int>, rows: map<int, Row>, where: Where, keep: bool)
    ensures forall k :: k in Pick(order, rows, where, keep) <==>
      k in order && k in rows && Matches(rows[k], where) == keep
  {
    if order != [] {
      PickMembers(order[1..], rows, where, keep);
      assert forall k :: k in order <==> k == order[0] || k in order[1..];
    }
  }

  /** Picking from an increasing key sequence gives an increasing one. */
  lemma {:induction false} PickIncreasing(order: seq<int>, rows: map<int, Row>, where: Where, keep: bool)
    requires Increasing(order)
    ensures Increasing(Pick(order, rows, where, keep))
  {
    if order != [] {
      var tail := order[1..];
      assert Increasing(tail) by {
        forall i, j | 0 <= i < j < |tail| ensures tail[i] < tail[j] {
          assert tail[i] == order[i + 1] && tail[j] == order[j + 1];
        }
      }
      PickIncreasing(tail, rows, where, keep);
      PickMembers(tail, rows, where, keep);
      var rest := Pick(tail, rows, where, keep);
      var head := if order[0] in rows && Matches(rows[order[0]], where) == keep then [order[0]] else [];
      assert Pick(order, rows, where, keep) == head + rest;
      forall j | 0 <= j < |rest| ensures order[0] < rest[j] {
        assert rest[j] in rest;
        assert rest[j] in tail;
        var m :| 0 <= m < |tail| && tail[m] == rest[j];
        assert tail[m] == order[m + 1];
      }
      forall i, j | 0 <= i < j < |head + rest| ensures (head + rest)[i] < (head + rest)[j] {
        if |head| == 1 && i == 0 {
          assert (head + rest)[j] == rest[j - 1];
        } else {
          assert (head + rest)[i] == rest[i - |head|];
          assert (head + rest)[j] == rest[j - |head|];
        }
      }
    }
  }

  /** Picking from `order` leaves a subsequence of `order`. */
  lemma {:induction false} PickSubsequence(order: seq<int>, rows: map<int, Row>, where: Where, keep: bool)
    ensures IsSubsequence(Pick(order, rows, where, keep), order)
  {
    if order != [] {
      var tail := order[1..];
      PickSubsequence(tail, rows, where, keep);
      var p := Pick(order, rows, where, keep);
      if order[0] in rows && Matches(rows[order[0]], where) == keep {
        assert p == [order[0]] + Pick(tail, rows, where, keep);
        assert p[0] == order[0] && p[1..] == Pick(tail, rows, where, keep);
      } else {
        assert p == Pick(tail, rows, where, keep);
        SubsequenceOfTail(p, order);
      }
    }
  }

  lemma SubsequenceOfTail<T>(xs: seq<T>, ys: seq<T>)
    requires ys != []
    requires IsSubsequence(xs, ys[1..])
    ensures IsSubsequence(xs, ys)
  {
  }

  /** Every stored key of `order` is picked on one side or the other. */
  lemma {:induction false} PickPartition(order: seq<int>, rows: map<int, Row>, where: Where)
    requires forall i | 0 <= i < |order| :: order[i] in rows
    ensures |Pick(order, rows, where, true)| + |Pick(order, rows, where, false)| == |order|
  {
    if order != [] {
      assert order[0] in rows;
      assert forall i | 0 <= i < |order[1..]| :: order[1..][i] == order[i + 1];
      PickPartition(order[1..], rows, where);
    }
  }

  /** With the empty filter, every stored key is picked. */
  lemma {:induction false} PickAll(order: seq<int>, rows: map<int, Row>)
    requires forall i | 0 <= i < |order| :: order[i] in rows
    ensures Pick(order, rows, map[], true) == order
  {
    if order != [] {
      assert order[0] in rows;
      assert forall i | 0 <= i < |order[1..]| :: order[1..][i] == order[i + 1];
      PickAll(order[1..], rows);
      MatchesEmpty(rows[order[0]]);
    }
  }

  /** RowsAt of stored keys has one row per key. */
  lemma {:induction false} RowsAtIndex(ids: seq<int>, rows: map<int, Row>)
    requires forall i | 0 <= i < |ids| :: ids[i] in rows
    ensures |RowsAt(ids, rows)| == |ids|
    ensures forall i | 0 <= i < |ids| :: RowsAt(ids, rows)[i] == rows[ids[i]]
  {
    if ids != [] {
      assert ids[0] in rows;
      assert forall i | 0 <= i < |ids[1..]| :: ids[1..][i] == ids[i + 1];
      RowsAtIndex(ids[1..], rows);
      assert RowsAt(ids, rows) == [rows[ids[0]]] + RowsAt(ids[1..], rows);
    }
  }

  /** Looking up the rows of a key subsequence gives a row subsequence. */
  lemma {:induction false} RowsAtSubsequence(xs: seq<int>, ys: seq<int>, rows: map<int, Row>)
    requires IsSubsequence(xs, ys)
    ensures IsSubsequence(RowsAt(xs, rows), RowsAt(ys, rows))
    decreases |ys|
  {
    if xs == [] {
    } else if xs[0] == ys[0] && IsSubsequence(xs[1..], ys[1..]) {
      RowsAtSubsequence(xs[1..], ys[1..], rows);
      var a, b := RowsAt(xs[1..], rows), RowsAt(ys[1..], rows);
      if xs[0] in rows {
        var r := rows[xs[0]];
        assert RowsAt(xs, rows) == [r] + a && RowsAt(ys, rows) == [r] + b;
        assert ([r] + a)[1..] == a && ([r] + b)[1..] == b;
      } else {
        assert RowsAt(xs, rows) == a && RowsAt(ys, rows) == b;
      }
    } else {
      RowsAtSubsequence(xs, ys[1..], rows);
      var b := RowsAt(ys[1..], rows);
      if ys[0] in rows {
        assert RowsAt(ys, rows) == [rows[ys[0]]] + b;
        assert ([rows[ys[0]]] + b)[1..] == b;
        if RowsAt(xs, rows) != [] {
          SubsequenceOfTail(RowsAt(xs, rows), [rows[ys[0]]] + b);
        }
      } else {
        assert RowsAt(ys, rows) == b;
      }
    }
  }

  /** Removing the keys of `drop` from `order`, when `drop` holds exactly the
      matching ones, leaves the non-matching keys. */
  lemma {:induction false} WithoutPicked(order: seq<int>, rows: map<int, Row>, where: Where, drop: seq<int>)
    requires forall i | 0 <= i < |order| :: order[i] in rows && (order[i] in drop <==> Matches(rows[order[i]], where))
    ensures Without(order, drop) == Pick(order, rows, where, false)
  {
    if order != [] {
      assert order[0] in rows;
      assert forall i | 0 <= i < |order[1..]| :: order[1..][i] == order[i + 1];
      WithoutPicked(order[1..], rows, where, drop);
    }
  }
}
