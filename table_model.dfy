/** The state of one `Tbl` (table.py:3-54) as a value, and what each of its
    operations does to that value. The class `Table.Tbl` is proved to do
    exactly this; the lemmas here state what the operations promise. */
module TableModel {
  import opened Seqs
  import opened Rows

  /** The kinds of failure the row store and the catalog raise. */
  datatype DbError =
    | TableExists(table: string)   // create_table on a name already present
    | TableMissing(table: string)  // any operation on an absent table
    | EmptySchema                  // create_table with no columns
    | UnknownColumn(table: string) // insert naming an undeclared column

  datatype Result<T> = Ok(value: T) | Err(error: DbError)

  /** `name`, `columns`, `rows` and `next_id` of a `Tbl`; `order` is the
      insertion order of the keys of the `rows` dict. */
  datatype TableState = TableState(
    name: string,
    columns: map<string, string>,
    rows: map<int, Row>,
    order: seq<int>,
    nextId: int)

  /** `order` lists exactly the keys of `rows`. */
  predicate Indexed(t: TableState) {
    && (forall i | 0 <= i < |t.order| :: t.order[i] in t.rows)
    && (forall k | k in t.rows :: k in t.order)
  }

  /** The invariant the row store keeps: keys appear in ascending order, are
      positive and below `nextId`, and each row's `_id` equals its key. */
  predicate Valid(t: TableState) {
    && Indexed(t)
    && Increasing(t.order)
    && 1 <= t.nextId
    && (forall k | k in t.rows :: 1 <= k < t.nextId && Get(t.rows[k], IdColumn) == VInt(k))
  }

  /** `Tbl.__init__` (table.py:5-9). */
  function Empty(name: string, columns: map<string, string>): TableState {
    TableState(name, columns, map[], [], 1)
  }

  /** `Tbl.count` (table.py:52-54). */
  function Count(t: TableState): nat {
    |t.rows|
  }

  /** `{'_id': row_idx, **data}` (table.py:19): a caller's value wins. */
  function NewRow(id: int, data: Row): (r: Row)
    ensures r.Keys == data.Keys + {IdColumn}
    ensures forall c | c in data :: r[c] == data[c]
    ensures IdColumn !in data ==> r[IdColumn] == VInt(id)
  {
    map[IdColumn := VInt(id)] + data
  }

  /** `Tbl.insert` (table.py:11-21): the new state and the assigned id. */
  function Insert(t: TableState, data: Row): (TableState, Result<int>) {
    if data.Keys <= t.columns.Keys then
      (t.(rows := t.rows[t.nextId := NewRow(t.nextId, data)],
          order := t.order + [t.nextId],
          nextId := t.nextId + 1),
       Ok(t.nextId))
    else
      (t, Err(UnknownColumn(t.name)))
  }

  /** The keys of the rows matching `where`, in insertion order. */
  function Matching(t: TableState, where: Where): seq<int> {
    Pick(t.order, t.rows, where, true)
  }

  /** The keys of the rows `select(where, limit)` returns. */
  function SelectIds(t: TableState, where: Where, limit: Option<int>): seq<int> {
    Limit(Matching(t, where), limit)
  }

  /** `Tbl.select` (table.py:23-36). An absent `where` is the empty map. */
  function Select(t: TableState, where: Where, limit: Option<int>): seq<Row> {
    RowsAt(SelectIds(t, where, limit), t.rows)
  }

  /** All stored rows in insertion order: `list(self.rows.values())`. */
  function AllRows(t: TableState): seq<Row> {
    RowsAt(t.order, t.rows)
  }

  /** The set of keys whose rows match `where`. */
  function MatchedKeys(t: TableState, where: Where): set<int> {
    set k | k in t.rows && Matches(t.rows[k], where)
  }

  /** `Tbl.update` (table.py:38-43): the new state and the number of rows matched. */
  function Update(t: TableState, data: Row, where: Where): (TableState, nat) {
    (t.(rows := map k | k in t.rows :: if Matches(t.rows[k], where) then t.rows[k] + data else t.rows[k]),
     |Matching(t, where)|)
  }

  /** `Tbl.delete` (table.py:45-50): the new state and the number of rows removed. */
  function Delete(t: TableState, where: Where): (TableState, nat) {
    (t.(rows := map k | k in t.rows && !Matches(t.rows[k], where) :: t.rows[k],
        order := Pick(t.order, t.rows, where, false)),
     |Matching(t, where)|)
  }

  /** A row of an import file fits the table once its `_id` is dropped. */
  predicate Fits(t: TableState, row: Row) {
    (row - {IdColumn}).Keys <= t.columns.Keys
  }

  /** The row loop of `PyDBMS.import_table` (pydbms.py:175-182): every row,
      its `_id` removed, is inserted in turn; the first failure stops the loop
      and keeps the rows inserted before it. The count is that of the rows inserted. */
  function ImportAll(t: TableState, rows: seq<Row>): (TableState, Result<nat>)
    decreases |rows|
  {
    if rows == [] then (t, Ok(0))
    else
      var (t1, r1) := ImportAll(t, rows[..|rows| - 1]);
      if r1.Err? then (t1, r1)
      else
        var (t2, r2) := Insert(t1, rows[|rows| - 1] - {IdColumn});
        if r2.Err? then (t2, Err(r2.error)) else (t2, Ok(r1.value + 1))
  }

  /** One call on a table: insert, update or delete. */
  datatype Op = InsertOp(data: Row) | UpdateOp(data: Row, where: Where) | DeleteOp(where: Where)

  /** No update of `ops` writes the `_id` column. */
  predicate NoIdWrites(ops: seq<Op>) {
    forall i | 0 <= i < |ops| :: ops[i].UpdateOp? ==> IdColumn !in ops[i].data
  }

  /** The state after one call, and the id it assigned if it was a
      successful insert. */
  function Step(t: TableState, op: Op): (TableState, Option<int>) {
    match op
    case InsertOp(data) =>
      var (t', r) := Insert(t, data);
      (t', if r.Ok? then Some(r.value) else None)
    case UpdateOp(data, where) => (Update(t, data, where).0, None)
    case DeleteOp(where) => (Delete(t, where).0, None)
  }

  /** The state after all of `ops`, and the ids assigned, in order. */
  function Run(t: TableState, ops: seq<Op>): (TableState, seq<int>)
    decreases |ops|
  {
    if ops == [] then (t, [])
    else
      var (t1, id) := Step(t, ops[0]);
      var (t2, ids) := Run(t1, ops[1..]);
      (t2, (if id.Some? then [id.value] else []) + ids)
  }

  /** The keys `from`, `from + 1`, ..., `from + n - 1`. */
  function Consecutive(from: int, n: nat): (s: seq<int>)
    ensures |s| == n && forall i | 0 <= i < n :: s[i] == from + i
  {
    seq(n, i => from + i)
  }

  // ---------------------------------------------------------------------
  // Properties

  /** A fresh table is valid, holds no rows, selects nothing and will hand
      out id 1 first (table.py:5-9). */
  lemma EmptyTable(name: string, columns: map<string, string>, where: Where, limit: Option<int>)
    ensures Valid(Empty(name, columns))
    ensures Count(Empty(name, columns)) == 0
    ensures Empty(name, columns).nextId == 1
    ensures Select(Empty(name, columns), where, limit) == []
  {
  }

  /** The first successful insert into a fresh table returns 1 (table.py:18-21). */
  lemma FirstInsertIsOne(name: string, columns: map<string, string>, data: Row)
    requires data.Keys <= columns.Keys
    ensures Insert(Empty(name, columns), data).1 == Ok(1)
    ensures Count(Insert(Empty(name, columns), data).0) == 1
  {
  }

  /** `insert(data)` succeeds exactly when every key of `data` is a declared
      column. On success it returns the old `next_id`, advances `next_id` by
      one, appends the new key, and stores under it a row holding `data` and
      an `_id` (the key itself unless `data` supplies one), leaving every
      other row alone. On failure nothing changes (table.py:14-21). */
  lemma InsertSpec(t: TableState, data: Row)
    ensures Insert(t, data).1.Ok? <==> data.Keys <= t.columns.Keys
    ensures Insert(t, data).1.Err? ==>
      Insert(t, data).1.error == UnknownColumn(t.name) && Insert(t, data).0 == t
    ensures Insert(t, data).1.Ok? ==>
      var (t', r) := Insert(t, data);
      && r.value == t.nextId
      && t'.nextId == t.nextId + 1
      && t.nextId in t'.rows
      && t'.rows.Keys == t.rows.Keys + {t.nextId}
      && t'.order == t.order + [t.nextId]
      && t'.name == t.name && t'.columns == t.columns
      && t'.rows[t.nextId].Keys == data.Keys + {IdColumn}
      && (forall c | c in data :: Get(t'.rows[t.nextId], c) == data[c])
      && (IdColumn !in data ==> Get(t'.rows[t.nextId], IdColumn) == VInt(t.nextId))
      && (forall k | k in t.rows && k != t.nextId :: t'.rows[k] == t.rows[k])
  {
  }

  /** Under the invariant, the number of rows equals the number of keys in `order`. */
  lemma {:induction false} CountIsOrderLength(t: TableState)
    requires Indexed(t) && Increasing(t.order)
    ensures Count(t) == |t.order|
  {
    assert t.rows.Keys == set k | k in t.order by {
      forall k | k in t.order ensures k in t.rows {
        var i :| 0 <= i < |t.order| && t.order[i] == k;
      }
      forall k | k in t.rows ensures k in t.order {
      }
    }
    assert NoDup(t.order);
    DistinctCard(t.order);
  }

  /** A successful insert keeps the invariant, unless a caller-supplied `_id`
      overwrites the stored one; the new id was not in use before. */
  lemma InsertKeepsValid(t: TableState, data: Row)
    requires Valid(t)
    requires IdColumn !in data || IdColumn !in t.columns
    ensures Valid(Insert(t, data).0)
    ensures Insert(t, data).1.Ok? ==> t.nextId !in t.rows && Count(Insert(t, data).0) == Count(t) + 1
  {
    var (t', r) := Insert(t, data);
    if r.Ok? {
      var id := t.nextId;
      assert id !in t.rows;
      assert Indexed(t') by {
        forall i | 0 <= i < |t'.order| ensures t'.order[i] in t'.rows {
          if i < |t.order| { assert t'.order[i] == t.order[i]; }
        }
        forall k | k in t'.rows ensures k in t'.order {
          if k != id { assert k in t.order; }
          else { assert t'.order[|t.order|] == id; }
        }
      }
      assert Increasing(t'.order) by {
        forall i, j | 0 <= i < j < |t'.order| ensures t'.order[i] < t'.order[j] {
          if j == |t.order| {
            assert t.order[i] in t.rows;
          }
        }
      }
    }
  }

  /** The keys `select(where, limit)` returns are matching stored keys in
      ascending order; without a limit (None or 0) every matching key is
      returned; a positive limit keeps the first `min(limit, n)` of the
      `n` matches (table.py:25-34). */
  lemma {:induction false} SelectIdsSpec(t: TableState, where: Where, limit: Option<int>)
    requires Valid(t)
    ensures Increasing(SelectIds(t, where, limit))
    ensures IsSubsequence(SelectIds(t, where, limit), t.order)
    ensures forall i | 0 <= i < |SelectIds(t, where, limit)| ::
      SelectIds(t, where, limit)[i] in t.rows && Matches(t.rows[SelectIds(t, where, limit)[i]], where)
    ensures limit.None? || limit.value == 0 ==>
      forall k | k in MatchedKeys(t, where) :: k in SelectIds(t, where, limit)
    ensures limit.Some? && 0 < limit.value ==>
      |SelectIds(t, where, limit)| ==
        (if limit.value < |MatchedKeys(t, where)| then limit.value else |MatchedKeys(t, where)|)
  {
    var m := Matching(t, where);
    var ids := SelectIds(t, where, limit);
    PickMembers(t.order, t.rows, where, true);
    PickIncreasing(t.order, t.rows, where, true);
    PickSubsequence(t.order, t.rows, where, true);
    assert ids == m[..|ids|];
    PrefixSubsequence(m, t.order, |ids|);
    assert Increasing(ids);
    forall i | 0 <= i < |ids| ensures ids[i] in t.rows && Matches(t.rows[ids[i]], where) {
      assert ids[i] == m[i];
      assert m[i] in m;
    }
    if limit.None? || limit.value == 0 {
      forall k | k in MatchedKeys(t, where) ensures k in ids {
        assert k in t.order;
      }
    }
    MatchCount(t, where);
  }

  /** The rows `select(where, limit)` returns are the stored rows under those
      keys, each carrying its key as `_id`, and they form a subsequence of all
      stored rows (copies of them: the source hands out the live dicts). */
  lemma {:induction false} SelectSpec(t: TableState, where: Where, limit: Option<int>)
    requires Valid(t)
    ensures IsSubsequence(Select(t, where, limit), AllRows(t))
    ensures |Select(t, where, limit)| == |SelectIds(t, where, limit)|
    ensures forall i | 0 <= i < |SelectIds(t, where, limit)| ::
      && SelectIds(t, where, limit)[i] in t.rows
      && Select(t, where, limit)[i] == t.rows[SelectIds(t, where, limit)[i]]
      && Matches(Select(t, where, limit)[i], where)
      && Get(Select(t, where, limit)[i], IdColumn) == VInt(SelectIds(t, where, limit)[i])
  {
    var ids := SelectIds(t, where, limit);
    SelectIdsSpec(t, where, limit);
    RowsAtSubsequence(ids, t.order, t.rows);
    RowsAtIndex(ids, t.rows);
  }

  /** Every row `select` returns is a stored row that matches the filter;
      this needs no invariant of the table. */
  lemma SelectedRowsMatch(t: TableState, where: Where, limit: Option<int>)
    ensures forall i | 0 <= i < |Select(t, where, limit)| ::
      Select(t, where, limit)[i] in t.rows.Values && Matches(Select(t, where, limit)[i], where)
  {
    var m := Matching(t, where);
    var ids := SelectIds(t, where, limit);
    PickMembers(t.order, t.rows, where, true);
    forall i | 0 <= i < |ids| ensures ids[i] in t.rows && Matches(t.rows[ids[i]], where) {
      assert ids[i] == m[i];
      assert m[i] in m;
    }
    RowsAtIndex(ids, t.rows);
  }

  /** The number of keys `Matching` lists is the number of matching rows. */
  lemma MatchCount(t: TableState, where: Where)
    requires Valid(t)
    ensures |Matching(t, where)| == |MatchedKeys(t, where)|
  {
    var m := Matching(t, where);
    PickMembers(t.order, t.rows, where, true);
    PickIncreasing(t.order, t.rows, where, true);
    forall k | k in MatchedKeys(t, where) ensures k in m {
      assert k in t.order;
    }
    assert (set k | k in m) == MatchedKeys(t, where);
    DistinctCard(m);
  }

  /** With the empty filter and no limit, `select` returns all rows (table.py:25-28). */
  lemma SelectAll(t: TableState)
    requires Indexed(t)
    ensures Select(t, map[], None) == AllRows(t)
  {
    PickAll(t.order, t.rows);
  }

  /** `update(data, where)` returns the number of matching rows; when that
      is zero the table is left exactly as it was (table.py:40, table.py:43). */
  lemma UpdateCount(t: TableState, data: Row, where: Where)
    requires Valid(t)
    ensures Update(t, data, where).1 == |MatchedKeys(t, where)|
    ensures Update(t, data, where).1 == 0 ==> Update(t, data, where).0 == t
  {
    MatchCount(t, where);
    var (t', n) := Update(t, data, where);
    if n == 0 {
      forall k | k in t.rows ensures t'.rows[k] == t.rows[k] {
        assert k !in MatchedKeys(t, where);
      }
      assert t'.rows == t.rows;
    }
  }

  /** `update(data, where)` overwrites exactly the `data` columns of each
      matching row and leaves every other column, every other row, the key
      order and `next_id` alone (table.py:41-42). */
  lemma UpdateRows(t: TableState, data: Row, where: Where)
    ensures Update(t, data, where).0.rows.Keys == t.rows.Keys
    ensures Update(t, data, where).0.order == t.order && Update(t, data, where).0.nextId == t.nextId
    ensures Update(t, data, where).0.columns == t.columns && Update(t, data, where).0.name == t.name
    ensures forall k | k in t.rows && Matches(t.rows[k], where) ::
      && Update(t, data, where).0.rows[k].Keys == t.rows[k].Keys + data.Keys
      && (forall c | c in data :: Get(Update(t, data, where).0.rows[k], c) == data[c])
      && (forall c | c !in data :: Get(Update(t, data, where).0.rows[k], c) == Get(t.rows[k], c))
    ensures forall k | k in t.rows && !Matches(t.rows[k], where) :: Update(t, data, where).0.rows[k] == t.rows[k]
  {
    var t' := Update(t, data, where).0;
    forall k | k in t.rows && Matches(t.rows[k], where)
      ensures t'.rows[k].Keys == t.rows[k].Keys + data.Keys
      ensures forall c | c in data :: Get(t'.rows[k], c) == data[c]
      ensures forall c | c !in data :: Get(t'.rows[k], c) == Get(t.rows[k], c)
    {
      assert t'.rows[k] == t.rows[k] + data;
    }
  }

  /** An update whose data holds no `_id` keeps the invariant. */
  lemma UpdateKeepsValid(t: TableState, data: Row, where: Where)
    requires Valid(t)
    requires IdColumn !in data
    ensures Valid(Update(t, data, where).0)
  {
    var t' := Update(t, data, where).0;
    assert t'.rows.Keys == t.rows.Keys;
    forall k | k in t'.rows ensures Get(t'.rows[k], IdColumn) == VInt(k) {
      assert Get(t.rows[k], IdColumn) == VInt(k);
    }
  }

  /** `delete(where)` keeps the invariant, removes exactly the matching rows
      and keeps the others unchanged and in order, and leaves `next_id`
      alone (table.py:47-49). */
  lemma DeleteRows(t: TableState, where: Where)
    requires Valid(t)
    ensures Valid(Delete(t, where).0)
    ensures Delete(t, where).0.rows.Keys == t.rows.Keys - MatchedKeys(t, where)
    ensures forall k | k in Delete(t, where).0.rows :: Delete(t, where).0.rows[k] == t.rows[k]
    ensures Delete(t, where).0.nextId == t.nextId && Delete(t, where).0.columns == t.columns
    ensures IsSubsequence(Delete(t, where).0.order, t.order)
  {
    var t' := Delete(t, where).0;
    PickMembers(t.order, t.rows, where, false);
    PickIncreasing(t.order, t.rows, where, false);
    PickSubsequence(t.order, t.rows, where, false);
    assert Indexed(t') by {
      forall i | 0 <= i < |t'.order| ensures t'.order[i] in t'.rows {
        assert t'.order[i] in t'.order;
      }
    }
  }

  /** `delete(where)` returns the number of rows removed, and `count()`
      drops by exactly that number (table.py:50, table.py:52-54). */
  lemma DeleteCount(t: TableState, where: Where)
    requires Valid(t)
    ensures Delete(t, where).1 == |MatchedKeys(t, where)|
    ensures Count(Delete(t, where).0) == Count(t) - Delete(t, where).1
  {
    var t' := Delete(t, where).0;
    DeleteRows(t, where);
    MatchCount(t, where);
    CountIsOrderLength(t);
    CountIsOrderLength(t');
    assert forall i | 0 <= i < |t.order| :: t.order[i] in t.rows;
    PickPartition(t.order, t.rows, where);
  }

  /** One call keeps the invariant and the schema; a successful insert hands
      out `next_id` and advances it by one, and nothing else moves it. */
  lemma StepSpec(t: TableState, op: Op)
    requires Valid(t)
    requires IdColumn !in t.columns
    requires op.UpdateOp? ==> IdColumn !in op.data
    ensures Valid(Step(t, op).0) && Step(t, op).0.columns == t.columns
    ensures Step(t, op).1.Some? ==> Step(t, op).1.value == t.nextId && Step(t, op).0.nextId == t.nextId + 1
    ensures Step(t, op).1.None? ==> Step(t, op).0.nextId == t.nextId
  {
    match op
    case InsertOp(data) => InsertKeepsValid(t, data);
    case UpdateOp(data, where) => UpdateKeepsValid(t, data, where);
    case DeleteOp(where) => DeleteRows(t, where);
  }

  /** Ids are never reused: over any sequence of inserts, updates and deletes
      the invariant holds throughout, `next_id` never decreases, the ids handed
      out are strictly increasing, and none of them is below the starting
      `next_id`, so none was ever in use before, deleted or not
      (table.py:9, table.py:18-20, table.py:45-50). */
  lemma {:induction false} IdsNeverReused(t: TableState, ops: seq<Op>)
    requires Valid(t)
    requires IdColumn !in t.columns
    requires NoIdWrites(ops)
    ensures Valid(Run(t, ops).0) && Run(t, ops).0.columns == t.columns
    ensures t.nextId <= Run(t, ops).0.nextId
    ensures Increasing(Run(t, ops).1)
    ensures forall i | 0 <= i < |Run(t, ops).1| ::
      t.nextId <= Run(t, ops).1[i] < Run(t, ops).0.nextId && Run(t, ops).1[i] !in t.rows
    decreases |ops|
  {
    if ops != [] {
      var (t1, id) := Step(t, ops[0]);
      StepSpec(t, ops[0]);
      assert NoIdWrites(ops[1..]) by {
        forall i | 0 <= i < |ops[1..]| ensures ops[1..][i].UpdateOp? ==> IdColumn !in ops[1..][i].data {
          assert ops[1..][i] == ops[i + 1];
        }
      }
      IdsNeverReused(t1, ops[1..]);
      var (t2, ids) := Run(t1, ops[1..]);
      var head := if id.Some? then [id.value] else [];
      IdsPrepended(t, t1, t2, head, ids);
    }
  }

  lemma IdsPrepended(t: TableState, t1: TableState, t2: TableState, head: seq<int>, ids: seq<int>)
    requires Valid(t) && |head| <= 1
    requires |head| == 1 ==> head[0] == t.nextId && t1.nextId == t.nextId + 1
    requires |head| == 0 ==> t1.nextId == t.nextId
    requires t1.nextId <= t2.nextId && Increasing(ids)
    requires forall i | 0 <= i < |ids| :: t1.nextId <= ids[i] < t2.nextId
    ensures Increasing(head + ids)
    ensures forall i | 0 <= i < |head + ids| ::
      t.nextId <= (head + ids)[i] < t2.nextId && (head + ids)[i] !in t.rows
  {
    var all := head + ids;
    forall i | 0 <= i < |all| ensures t.nextId <= all[i] < t2.nextId && all[i] !in t.rows {
      if i >= |head| {
        assert all[i] == ids[i - |head|];
      }
    }
    forall i, j | 0 <= i < j < |all| ensures all[i] < all[j] {
      assert all[j] == ids[j - |head|];
      if i >= |head| { assert all[i] == ids[i - |head|]; }
    }
  }

  /** `t'` is `t` with the first `n` rows of `rows` imported: each fits the
      schema and is stored, `_id` stripped, under the next consecutive id. */
  predicate ImportedAs(t: TableState, rows: seq<Row>, t': TableState, n: int) {
    && 0 <= n <= |rows|
    && t'.nextId == t.nextId + n
    && Valid(t') && t'.columns == t.columns && t'.name == t.name
    && (forall j | 0 <= j < n :: Fits(t, rows[j]))
    && t'.order == t.order + Consecutive(t.nextId, n)
    && (forall j | 0 <= j < n :: StoredAt(t, rows, t', j))
    && (forall k | k in t.rows :: k in t'.rows && t'.rows[k] == t.rows[k])
    && Count(t') == Count(t) + n
  }

  /** Row `j` of `rows`, `_id` stripped, is stored in `t'` under id `t.nextId + j`. */
  predicate StoredAt(t: TableState, rows: seq<Row>, t': TableState, j: int)
    requires 0 <= j < |rows|
  {
    t.nextId + j in t'.rows && t'.rows[t.nextId + j] == NewRow(t.nextId + j, rows[j] - {IdColumn})
  }

  lemma ImportedAsWiden(t: TableState, init: seq<Row>, rows: seq<Row>, t': TableState, n: int)
    requires ImportedAs(t, init, t', n)
    requires init <= rows
    ensures ImportedAs(t, rows, t', n)
  {
    forall j | 0 <= j < n ensures Fits(t, rows[j]) && StoredAt(t, rows, t', j) {
      assert init[j] == rows[j];
      assert StoredAt(t, init, t', j);
    }
  }

  lemma ImportedAsExtend(t: TableState, rows: seq<Row>, t1: TableState, n: int)
    requires Valid(t) && 0 <= n < |rows|
    requires ImportedAs(t, rows, t1, n)
    requires Insert(t1, rows[n] - {IdColumn}).1.Ok?
    ensures ImportedAs(t, rows, Insert(t1, rows[n] - {IdColumn}).0, n + 1)
  {
    var row := rows[n] - {IdColumn};
    InsertKeepsValid(t1, row);
    var t2 := Insert(t1, row).0;
    assert t2.rows == t1.rows[t1.nextId := NewRow(t1.nextId, row)];
    assert t2.order == t1.order + [t1.nextId];
    assert Fits(t, rows[n]);
    OrderExtended(t.order, t.nextId, n, t1.order, t1.nextId, t2.order);
    StoredExtended(t, rows, t1, t2, n);
    forall k | k in t.rows ensures k in t2.rows && t2.rows[k] == t.rows[k] {
      assert k < t.nextId;
    }
  }

  lemma ConsecutiveSnoc(from: int, n: nat)
    ensures Consecutive(from, n + 1) == Consecutive(from, n) + [from + n]
  {
  }

  lemma OrderExtended(order: seq<int>, from: int, n: nat, o1: seq<int>, next: int, o2: seq<int>)
    requires o1 == order + Consecutive(from, n)
    requires next == from + n && o2 == o1 + [next]
    ensures o2 == order + Consecutive(from, n + 1)
  {
    ConsecutiveSnoc(from, n);
  }

  lemma StoredExtended(t: TableState, rows: seq<Row>, t1: TableState, t2: TableState, n: int)
    requires 0 <= n < |rows| && t1.nextId == t.nextId + n
    requires t2.rows == t1.rows[t1.nextId := NewRow(t1.nextId, rows[n] - {IdColumn})]
    requires forall j | 0 <= j < n :: StoredAt(t, rows, t1, j)
    ensures forall j | 0 <= j < n + 1 :: StoredAt(t, rows, t2, j)
  {
    forall j | 0 <= j < n + 1 ensures StoredAt(t, rows, t2, j) {
      if j < n {
        assert StoredAt(t, rows, t1, j);
      }
    }
  }

  /** What the row loop of `import_table` leaves behind: the rows before the
      first one with an undeclared column are inserted in order under
      consecutive ids starting at the old `next_id`, each with its `_id`
      stripped; the count returned is the number of rows exactly when all of
      them fit, and otherwise the failure is that of the first misfit, with
      the earlier rows kept. */
  predicate ImportOutcome(t: TableState, rows: seq<Row>, res: (TableState, Result<nat>)) {
    var n := res.0.nextId - t.nextId;
    && ImportedAs(t, rows, res.0, n)
    && (res.1.Ok? <==> n == |rows|)
    && (res.1.Ok? ==> res.1.value == |rows|)
    && (res.1.Err? ==> n < |rows| && !Fits(t, rows[n]) && res.1.error == UnknownColumn(t.name))
  }

  /** The row loop of `import_table` (pydbms.py:175-182) does what ImportOutcome says. */
  lemma {:induction false} ImportSpec(t: TableState, rows: seq<Row>)
    requires Valid(t)
    ensures ImportOutcome(t, rows, ImportAll(t, rows))
    decreases |rows|
  {
    if rows == [] {
      assert ImportedAs(t, rows, t, 0);
    } else {
      var init := rows[..|rows| - 1];
      ImportSpec(t, init);
      var (t1, r1) := ImportAll(t, init);
      var n := t1.nextId - t.nextId;
      if r1.Ok? {
        ImportNext(t, init, rows, t1, n);
        var (t2, r2) := Insert(t1, rows[|rows| - 1] - {IdColumn});
        assert ImportAll(t, rows) == (t2, if r2.Err? then Err(r2.error) else Ok(n + 1));
      } else {
        ImportStopped(t, init, rows, (t1, r1));
        assert ImportAll(t, rows) == (t1, r1);
      }
    }
  }

  /** After an import stopped at a misfit, further rows change nothing. */
  lemma ImportStopped(t: TableState, init: seq<Row>, rows: seq<Row>, res: (TableState, Result<nat>))
    requires ImportOutcome(t, init, res) && res.1.Err?
    requires init <= rows
    ensures ImportOutcome(t, rows, res)
  {
    var n := res.0.nextId - t.nextId;
    ImportedAsWiden(t, init, rows, res.0, n);
    assert rows[n] == init[n];
  }

  /** Importing one more row after all of `init` went in. */
  lemma ImportNext(t: TableState, init: seq<Row>, rows: seq<Row>, t1: TableState, n: int)
    requires Valid(t) && 0 < |rows| && init == rows[..|rows| - 1] && n == |init|
    requires ImportedAs(t, init, t1, n)
    ensures var (t2, r2) := Insert(t1, rows[n] - {IdColumn});
      ImportOutcome(t, rows, (t2, if r2.Err? then Err(r2.error) else Ok(n + 1)))
  {
    ImportedAsWiden(t, init, rows, t1, n);
    if Insert(t1, rows[n] - {IdColumn}).1.Ok? {
      ImportNextFits(t, rows, t1, n);
    } else {
      ImportNextMisfit(t, rows, t1, n);
    }
  }

  lemma ImportNextFits(t: TableState, rows: seq<Row>, t1: TableState, n: int)
    requires Valid(t) && 0 <= n && n + 1 == |rows|
    requires ImportedAs(t, rows, t1, n)
    requires Insert(t1, rows[n] - {IdColumn}).1.Ok?
    ensures ImportOutcome(t, rows, (Insert(t1, rows[n] - {IdColumn}).0, Ok(n + 1)))
  {
    ImportedAsExtend(t, rows, t1, n);
  }

  lemma ImportNextMisfit(t: TableState, rows: seq<Row>, t1: TableState, n: int)
    requires 0 <= n && n + 1 == |rows|
    requires ImportedAs(t, rows, t1, n)
    requires Insert(t1, rows[n] - {IdColumn}).1.Err?
    ensures ImportOutcome(t, rows, (t1, Err(Insert(t1, rows[n] - {IdColumn}).1.error)))
  {
    assert !Fits(t, rows[n]);
  }

  /** The import of one more row than `rows[..k]`, when those all went in. */
  lemma ImportOneMore(t: TableState, rows: seq<Row>, k: nat, s: TableState)
    requires k < |rows| && ImportAll(t, rows[..k]) == (s, Ok(k))
    ensures
      var (s', r) := Insert(s, rows[k] - {IdColumn});
      ImportAll(t, rows[..k + 1]) == (s', if r.Err? then Err(r.error) else Ok(k + 1))
  {
    assert rows[..k + 1][..k] == rows[..k];
  }

  /** Once a prefix of the rows has failed, the rest of the rows are never looked at. */
  lemma {:induction false} ImportStops(t: TableState, rows: seq<Row>, k: nat)
    requires k <= |rows|
    requires ImportAll(t, rows[..k]).1.Err?
    ensures ImportAll(t, rows) == ImportAll(t, rows[..k])
    decreases |rows| - k
  {
    if k < |rows| {
      var longer := rows[..k + 1];
      assert longer[..k] == rows[..k];
      assert ImportAll(t, longer) == ImportAll(t, rows[..k]);
      ImportStops(t, rows, k + 1);
    } else {
      assert rows[..k] == rows;
    }
  }
}
