/** The class `Tbl` (table.py:3-54): one table's rows, held in place and
    changed by its methods. Each method is proved to leave the state the
    matching function of `TableModel` describes. */
module Table {
  import opened Seqs
  import opened Rows
  import TableModel

  class Tbl {
    const name: string
    const columns: map<string, string>
    /** The `rows` dict; `order` is its key insertion order. */
    var rows: map<int, Row>
    var order: seq<int>
    var nextId: int

    function State(): TableModel.TableState
      reads this
    {
      TableModel.TableState(name, columns, rows, order, nextId)
    }

    ghost predicate Valid()
      reads this
    {
      TableModel.Valid(State())
    }

    /** `Tbl.__init__` (table.py:5-9). */
    constructor(name: string, columns: map<string, string>)
      ensures State() == TableModel.Empty(name, columns)
      ensures Valid()
    {
      this.name := name;
      this.columns := columns;
      rows := map[];
      order := [];
      nextId := 1;
    }

    /** `Tbl.insert` (table.py:11-21): every key of `data` is checked against
        the schema before anything is stored. */
    method Insert(data: Row) returns (r: TableModel.Result<int>)
      modifies this
      ensures (State(), r) == TableModel.Insert(old(State()), data)
    {
      var keys := data.Keys;
      while keys != {}
        invariant keys <= data.Keys
        invariant data.Keys - keys <= columns.Keys
        decreases keys
      {
        var col :| col in keys;
        if col !in columns {
          return TableModel.Err(TableModel.UnknownColumn(name));
        }
        keys := keys - {col};
      }
      var id := nextId;
      rows := rows[id := TableModel.NewRow(id, data)];
      order := order + [id];
      nextId := nextId + 1;
      return TableModel.Ok(id);
    }

    /** `Tbl.select` (table.py:23-36). */
    function Select(where: Where, limit: Option<int>): (r: seq<Row>)
      reads this
      ensures forall i | 0 <= i < |r| :: r[i] in rows.Values && Matches(r[i], where)
    {
      TableModel.SelectedRowsMatch(State(), where, limit);
      TableModel.Select(State(), where, limit)
    }

    /** `Tbl.count` (table.py:52-54). */
    function Count(): (c: nat)
      reads this
      ensures Valid() ==> c == |order|
    {
      assert Valid() ==> |rows| == |order| by {
        if Valid() {
          TableModel.CountIsOrderLength(State());
        }
      }
      |rows|
    }

    /** `Tbl.update` (table.py:38-43): the matching rows are selected first,
        then each is looked up again by its `_id` and merged with `data`. */
    method Update(data: Row, where: Where) returns (n: nat)
      requires Valid()
      modifies this
      ensures (State(), n) == TableModel.Update(old(State()), data, where)
    {
      var matching: seq<Row> := Select(where, None);
      ghost var t0 := State();
      ghost var ids := TableModel.Matching(t0, where);
      SelectedIds(t0, where);
      var i := 0;
      while i < |matching|
        invariant 0 <= i <= |matching| == |ids|
        invariant order == t0.order && nextId == t0.nextId
        invariant rows == UpdatedAt(t0.rows, ids[..i], data)
      {
        var id := matching[i][IdColumn].i;
        UpdateStep(t0.rows, matching, ids, i, data);
        rows := rows[id := rows[id] + data];
        i := i + 1;
      }
      UpdateDone(t0, data, where, ids, i);
      return |matching|;
    }

    /** `Tbl.delete` (table.py:45-50): the matching rows are selected first,
        then each is removed by its `_id`. */
    method Delete(where: Where) returns (n: nat)
      requires Valid()
      modifies this
      ensures (State(), n) == TableModel.Delete(old(State()), where)
    {
      var matching: seq<Row> := Select(where, None);
      ghost var t0 := State();
      ghost var ids := TableModel.Matching(t0, where);
      SelectedIds(t0, where);
      WithoutNothing(t0.order);
      var i := 0;
      while i < |matching|
        invariant 0 <= i <= |matching| == |ids|
        invariant nextId == t0.nextId
        invariant rows == DroppedAt(t0.rows, ids[..i])
        invariant order == Without(t0.order, ids[..i])
      {
        var id := matching[i][IdColumn].i;
        DeleteStep(t0, matching, ids, i);
        rows := rows - {id};
        order := Without(order, [id]);
        i := i + 1;
      }
      DeleteDone(t0, where, ids, i);
      return |matching|;
    }
  }

  /** `rows` with each row whose key is in `ids` merged with `data`. */
  ghost function UpdatedAt(rows: map<int, Row>, ids: seq<int>, data: Row): map<int, Row> {
    map k | k in rows :: if k in ids then rows[k] + data else rows[k]
  }

  /** `rows` without the keys in `ids`. */
  ghost function DroppedAt(rows: map<int, Row>, ids: seq<int>): map<int, Row> {
    map k | k in rows && k !in ids :: rows[k]
  }

  /** What the loops of `update` and `delete` rely on: `select(where)` returns
      one row per matching key, in the order of the keys, each carrying its
      key as `_id`, and the keys are distinct. */
  lemma SelectedIds(t: TableModel.TableState, where: Where)
    requires TableModel.Valid(t)
    ensures CarriesIds(TableModel.Select(t, where, None), TableModel.Matching(t, where))
    ensures forall i | 0 <= i < |TableModel.Matching(t, where)| :: TableModel.Matching(t, where)[i] in t.rows
    ensures Increasing(TableModel.Matching(t, where))
  {
    TableModel.SelectIdsSpec(t, where, None);
    TableModel.SelectSpec(t, where, None);
  }

  /** One turn of the `update` loop: the row under the `_id` of the `i`-th
      selected row is the `i`-th matching one, not merged yet. */
  lemma UpdateStep(rows: map<int, Row>, matching: seq<Row>, ids: seq<int>, i: nat, data: Row)
    requires i < |ids| && Increasing(ids) && CarriesIds(matching, ids)
    requires forall j | 0 <= j < |ids| :: ids[j] in rows
    ensures IdColumn in matching[i] && matching[i][IdColumn].VInt? && matching[i][IdColumn].i == ids[i]
    ensures ids[i] in UpdatedAt(rows, ids[..i], data)
    ensures UpdatedAt(rows, ids[..i], data)[ids[i] := UpdatedAt(rows, ids[..i], data)[ids[i]] + data]
      == UpdatedAt(rows, ids[..i + 1], data)
  {
    assert ids[i] in rows;
    assert ids[i] !in ids[..i] by {
      forall j | 0 <= j < i ensures ids[j] != ids[i] {
        assert ids[j] < ids[i];
      }
    }
    assert ids[..i + 1] == ids[..i] + [ids[i]];
  }

  /** One turn of the `delete` loop: the `_id` of the `i`-th selected row is
      the `i`-th matching key, and removing it extends the removed prefix. */
  lemma DeleteStep(t: TableModel.TableState, matching: seq<Row>, ids: seq<int>, i: nat)
    requires i < |ids| && CarriesIds(matching, ids)
    ensures IdColumn in matching[i] && matching[i][IdColumn].VInt? && matching[i][IdColumn].i == ids[i]
    ensures DroppedAt(t.rows, ids[..i]) - {ids[i]} == DroppedAt(t.rows, ids[..i + 1])
    ensures Without(Without(t.order, ids[..i]), [ids[i]]) == Without(t.order, ids[..i + 1])
  {
    assert ids[..i + 1] == ids[..i] + [ids[i]];
    WithoutStep(t.order, ids[..i], ids[i]);
  }

  /** When the `update` loop has gone through every matching key, the rows
      are those `TableModel.Update` describes. */
  lemma UpdateDone(t: TableModel.TableState, data: Row, where: Where, ids: seq<int>, i: nat)
    requires TableModel.Valid(t) && ids == TableModel.Matching(t, where) && i == |ids|
    ensures UpdatedAt(t.rows, ids[..i], data) == TableModel.Update(t, data, where).0.rows
    ensures |ids| == TableModel.Update(t, data, where).1
  {
    assert ids[..i] == ids;
    UpdatedMatching(t, data, where);
  }

  /** When the `delete` loop has gone through every matching key, the rows
      and their order are those `TableModel.Delete` describes. */
  lemma DeleteDone(t: TableModel.TableState, where: Where, ids: seq<int>, i: nat)
    requires TableModel.Valid(t) && ids == TableModel.Matching(t, where) && i == |ids|
    ensures DroppedAt(t.rows, ids[..i]) == TableModel.Delete(t, where).0.rows
    ensures Without(t.order, ids[..i]) == TableModel.Delete(t, where).0.order
    ensures |ids| == TableModel.Delete(t, where).1
  {
    assert ids[..i] == ids;
    DroppedMatching(t, where);
  }

  lemma UpdatedMatching(t: TableModel.TableState, data: Row, where: Where)
    requires TableModel.Valid(t)
    ensures UpdatedAt(t.rows, TableModel.Matching(t, where), data) == TableModel.Update(t, data, where).0.rows
  {
    PickMembers(t.order, t.rows, where, true);
    forall k | k in t.rows ensures k in TableModel.Matching(t, where) <==> Matches(t.rows[k], where) {
      assert k in t.order;
    }
  }

  lemma DroppedMatching(t: TableModel.TableState, where: Where)
    requires TableModel.Valid(t)
    ensures DroppedAt(t.rows, TableModel.Matching(t, where)) == TableModel.Delete(t, where).0.rows
    ensures Without(t.order, TableModel.Matching(t, where)) == TableModel.Delete(t, where).0.order
  {
    PickMembers(t.order, t.rows, where, true);
    forall k | k in t.rows ensures k in TableModel.Matching(t, where) <==> Matches(t.rows[k], where) {
      assert k in t.order;
    }
    WithoutPicked(t.order, t.rows, where, TableModel.Matching(t, where));
  }
}
