/** The tables of a `PyDBMS` catalog as values, the invariant the catalog
    keeps over them, and the row total `get_database_info` reports. */
module CatalogModel {
  import opened Seqs
  import TableModel
  import opened Rows

  /** `names` lists the tables once each; every table keeps its row-store
      invariant, carries its own name, declares at least one column and no
      `_id` column. */
  ghost predicate Catalog(names: seq<string>, snapshot: map<string, TableModel.TableState>) {
    && (forall i | 0 <= i < |names| :: names[i] in snapshot)
    && (forall n | n in snapshot :: n in names)
    && NoDup(names)
    && (forall n | n in snapshot :: WellFormedTable(n, snapshot[n]))
  }

  /** One table of the catalog, stored under the name `n`. */
  ghost predicate WellFormedTable(n: string, t: TableModel.TableState) {
    TableModel.Valid(t) && t.name == n && IdColumn !in t.columns && |t.columns| > 0
  }

  /** What `_save_metadata` records for one table (pydbms.py:145-149). */
  datatype TableSummary = TableSummary(columns: map<string, string>, rowCount: nat)

  /** The per-table part of the metadata file, for the tables `snapshot`. */
  function SummaryOf(snapshot: map<string, TableModel.TableState>): map<string, TableSummary> {
    map n | n in snapshot :: TableSummary(snapshot[n].columns, TableModel.Count(snapshot[n]))
  }

  /** One write to disk: `_save` pickles every table (pydbms.py:117-124);
      `_save_metadata` writes the database name and a summary per table
      (pydbms.py:137-153). */
  datatype Event =
    | SnapshotSaved(snapshot: map<string, TableModel.TableState>)
    | MetadataSaved(database: string, summary: map<string, TableSummary>)

  /** `after` is `before` followed by `k` snapshot saves. */
  ghost predicate SavedSnapshots(before: seq<Event>, after: seq<Event>, k: nat) {
    && |after| == |before| + k
    && before <= after
    && forall j | |before| <= j < |after| :: after[j].SnapshotSaved?
  }

  lemma SavedSnapshotsStep(log0: seq<Event>, log1: seq<Event>, k: nat, log2: seq<Event>, e: Event)
    requires SavedSnapshots(log0, log1, k) && e.SnapshotSaved? && log2 == log1 + [e]
    ensures SavedSnapshots(log0, log2, k + 1)
  {
    assert log1 <= log2;
  }

  /** The row counts of the tables `names`, added up. */
  function SumRows(names: seq<string>, snapshot: map<string, TableModel.TableState>): nat {
    if names == [] then 0
    else (if names[0] in snapshot then TableModel.Count(snapshot[names[0]]) else 0) + SumRows(names[1..], snapshot)
  }

  /** Tables not listed in `names` do not enter the total. */
  lemma {:induction false} SumRowsUnlisted(names: seq<string>, snapshot: map<string, TableModel.TableState>, table: string, t: TableModel.TableState)
    requires table !in names
    ensures SumRows(names, snapshot[table := t]) == SumRows(names, snapshot)
  {
    if names != [] {
      assert names[0] != table;
      SumRowsUnlisted(names[1..], snapshot, table, t);
    }
  }

  /** Giving one listed table the state `t` changes the total by the
      difference of its row counts. */
  lemma {:induction false} SumRowsReplace(names: seq<string>, snapshot: map<string, TableModel.TableState>, table: string, t: TableModel.TableState)
    requires NoDup(names) && table in names && table in snapshot
    ensures SumRows(names, snapshot[table := t]) + TableModel.Count(snapshot[table])
         == SumRows(names, snapshot) + TableModel.Count(t)
  {
    var tail := names[1..];
    assert NoDup(tail) by {
      forall i, j | 0 <= i < j < |tail| ensures tail[i] != tail[j] {
        assert tail[i] == names[i + 1] && tail[j] == names[j + 1];
      }
    }
    if names[0] == table {
      assert table !in tail by {
        forall j | 0 <= j < |tail| ensures tail[j] != table {
          assert tail[j] == names[j + 1];
        }
      }
      SumRowsUnlisted(tail, snapshot, table, t);
    } else {
      assert table in tail;
      SumRowsReplace(tail, snapshot, table, t);
    }
  }

  /** A successful insert into one table of a catalog raises the row total
      that `get_database_info` reports by exactly one. */
  lemma InsertAddsOneRow(names: seq<string>, snapshot: map<string, TableModel.TableState>, table: string, data: Row)
    requires Catalog(names, snapshot) && table in snapshot
    requires TableModel.Insert(snapshot[table], data).1.Ok?
    ensures SumRows(names, snapshot[table := TableModel.Insert(snapshot[table], data).0]) == SumRows(names, snapshot) + 1
  {
    assert WellFormedTable(table, snapshot[table]);
    TableModel.InsertKeepsValid(snapshot[table], data);
    SumRowsReplace(names, snapshot, table, TableModel.Insert(snapshot[table], data).0);
  }

  /** A delete on one table of a catalog lowers the row total by the number
      of rows it reports. */
  lemma DeleteDropsRows(names: seq<string>, snapshot: map<string, TableModel.TableState>, table: string, where: Where)
    requires Catalog(names, snapshot) && table in snapshot
    ensures SumRows(names, snapshot[table := TableModel.Delete(snapshot[table], where).0])
         == SumRows(names, snapshot) - TableModel.Delete(snapshot[table], where).1
  {
    assert WellFormedTable(table, snapshot[table]);
    TableModel.DeleteCount(snapshot[table], where);
    SumRowsReplace(names, snapshot, table, TableModel.Delete(snapshot[table], where).0);
  }

  /** A list of distinct names of the keys of a map has as many entries as the map. */
  lemma TablesCounted(names: seq<string>, keys: set<string>)
    requires NoDup(names)
    requires forall i | 0 <= i < |names| :: names[i] in keys
    requires forall n | n in keys :: n in names
    ensures |keys| == |names|
  {
    assert keys == set n | n in names by {
      forall n | n in names ensures n in keys {
        var i :| 0 <= i < |names| && names[i] == n;
      }
    }
    DistinctCard(names);
  }

  lemma CatalogAdd(names: seq<string>, snapshot: map<string, TableModel.TableState>, table: string, columns: map<string, string>)
    requires Catalog(names, snapshot) && table !in snapshot
    requires columns != map[] && IdColumn !in columns
    ensures Catalog(names + [table], snapshot[table := TableModel.Empty(table, columns)])
  {
    TableModel.EmptyTable(table, columns, map[], None);
    var names' := names + [table];
    assert table !in names;
    forall i, j | 0 <= i < j < |names'| ensures names'[i] != names'[j] {
      if j == |names| {
        assert names'[i] == names[i] && names[i] in snapshot;
      }
    }
    forall i | 0 <= i < |names'| ensures names'[i] in snapshot[table := TableModel.Empty(table, columns)] {
      if i < |names| {
        assert names'[i] == names[i];
      }
    }
  }

  lemma CatalogRemove(names: seq<string>, snapshot: map<string, TableModel.TableState>, table: string)
    requires Catalog(names, snapshot) && table in snapshot
    ensures Catalog(Without(names, [table]), snapshot - {table})
  {
    WithoutMembers(names, [table]);
    WithoutNoDup(names, [table]);
    var names' := Without(names, [table]);
    forall i | 0 <= i < |names'| ensures names'[i] in snapshot - {table} {
      assert names'[i] in names';
      var j :| 0 <= j < |names| && names[j] == names'[i];
    }
  }

  lemma CatalogReplace(names: seq<string>, snapshot: map<string, TableModel.TableState>, table: string, t: TableModel.TableState)
    requires Catalog(names, snapshot) && table in snapshot
    requires TableModel.Valid(t) && t.name == snapshot[table].name && t.columns == snapshot[table].columns
    ensures Catalog(names, snapshot[table := t])
  {
    assert WellFormedTable(table, snapshot[table]);
  }
}
