/** The catalog class `PyDBMS` (pydbms.py:18-192): a named database holding
    tables by name. It checks that the table exists, hands the call to the
    table's `Tbl` object, and saves a snapshot after every change. Writing
    files is modelled by a ghost log of the saves made. */
module PyDbms {
  import opened Seqs
  import opened Rows
  import TableModel
  import opened Table
  import opened CatalogModel

  /** The dict `describe` returns (pydbms.py:71-75). */
  datatype Description = Description(name: string, columns: map<string, string>, rowCount: nat)

  /** The dict `get_database_info` returns (pydbms.py:186-192). */
  datatype DbInfo = DbInfo(name: string, path: string, tables: seq<string>, totalTables: nat, totalRows: nat)

  /** `os.path.join('databases', db_name)` (pydbms.py:23): an absolute name
      replaces the prefix. */
  function DbPath(dbName: string): string {
    if |dbName| > 0 && dbName[0] == '/' then dbName else "databases/" + dbName
  }

  class Database {
    const name: string
    const path: string
    var tables: map<string, Tbl>
    /** The key insertion order of the `tables` dict. */
    var names: seq<string>
    /** Everything written to disk so far, oldest first. */
    ghost var log: seq<Event>

    /** Distinct names hold distinct `Tbl` objects, and the tables as values
        satisfy `Catalog`. */
    ghost predicate Valid()
      reads this`tables, this`names, tables.Values
    {
      && Injective(tables)
      && Catalog(names, Snapshot())
    }

    /** The value of every table: what `_save` pickles. */
    function Snapshot(): map<string, TableModel.TableState>
      reads this`tables, tables.Values
    {
      map n | n in tables :: tables[n].State()
    }

    /** `PyDBMS.__init__` (pydbms.py:21-33) for a database without a saved
        snapshot: no tables, and the metadata is written once. */
    constructor(dbName: string := "default")
      ensures name == dbName && path == DbPath(dbName)
      ensures tables == map[] && names == []
      ensures Valid()
      ensures log == [MetadataSaved(dbName, map[])]
    {
      name := dbName;
      path := DbPath(dbName);
      tables := map[];
      names := [];
      log := [MetadataSaved(dbName, map[])];
    }

    /** `create_table` (pydbms.py:37-49): an existing name is refused first,
        then an empty schema; otherwise a fresh empty table is added last and
        both the snapshot and the metadata are saved. */
    method CreateTable(table: string, columns: map<string, string>) returns (r: TableModel.Result<()>)
      requires Valid()
      requires IdColumn !in columns
      modifies this
      ensures Valid()
      ensures r.Ok? <==> table !in old(tables) && columns != map[]
      ensures table in old(tables) ==> r == TableModel.Err(TableModel.TableExists(table))
      ensures table !in old(tables) && columns == map[] ==> r == TableModel.Err(TableModel.EmptySchema)
      ensures r.Err? ==> tables == old(tables) && names == old(names) && log == old(log)
      ensures r.Ok? ==>
        var after := old(Snapshot())[table := TableModel.Empty(table, columns)];
        && table in tables && fresh(tables[table])
        && tables == old(tables)[table := tables[table]]
        && names == old(names) + [table]
        && Snapshot() == after
        && log == old(log) + [SnapshotSaved(after), MetadataSaved(name, SummaryOf(after))]
    {
      if table in tables {
        return TableModel.Err(TableModel.TableExists(table));
      }
      if |columns| == 0 {
        return TableModel.Err(TableModel.EmptySchema);
      }
      CatalogAdd(names, Snapshot(), table, columns);
      AddTable(table, columns);
      return TableModel.Ok(());
    }

    /** The successful path of CreateTable (pydbms.py:43-49). */
    method AddTable(table: string, columns: map<string, string>)
      requires Injective(tables) && table !in tables
      modifies this
      ensures Injective(tables)
      ensures table in tables && fresh(tables[table])
      ensures tables == old(tables)[table := tables[table]]
      ensures names == old(names) + [table]
      ensures Snapshot() == old(Snapshot())[table := TableModel.Empty(table, columns)]
      ensures log == old(log) + [SnapshotSaved(Snapshot()), MetadataSaved(name, SummaryOf(Snapshot()))]
    {
      ghost var after := Snapshot()[table := TableModel.Empty(table, columns)];
      var t := new Tbl(table, columns);
      InjectiveAdd(tables, table, t);
      tables := tables[table := t];
      names := names + [table];
      log := log + [SnapshotSaved(after), MetadataSaved(name, SummaryOf(after))];
      SnapshotReplaced(table);
    }

    /** `drop_table` (pydbms.py:51-59): a missing name is refused; otherwise
        the table is removed, the others keep their order, and both the
        snapshot and the metadata are saved. */
    method DropTable(table: string) returns (r: TableModel.Result<()>)
      requires Valid()
      modifies this
      ensures Valid()
      ensures r.Ok? <==> table in old(tables)
      ensures r.Err? ==> r.error == TableModel.TableMissing(table)
      ensures r.Err? ==> tables == old(tables) && names == old(names) && log == old(log)
      ensures r.Ok? ==>
        var after := old(Snapshot()) - {table};
        && tables == old(tables) - {table}
        && names == Without(old(names), [table])
        && Snapshot() == after
        && log == old(log) + [SnapshotSaved(after), MetadataSaved(name, SummaryOf(after))]
    {
      if table !in tables {
        return TableModel.Err(TableModel.TableMissing(table));
      }
      ghost var after := Snapshot() - {table};
      CatalogRemove(names, Snapshot(), table);
      InjectiveRemove(tables, table);
      tables := tables - {table};
      names := Without(names, [table]);
      log := log + [SnapshotSaved(after), MetadataSaved(name, SummaryOf(after))];
      SnapshotRemoved(table);
      return TableModel.Ok(());
    }

    /** `list_tables` (pydbms.py:61-63): every table name once, in creation order. */
    function ListTables(): (r: seq<string>)
      requires Valid()
      reads this`tables, this`names, tables.Values
      ensures NoDup(r)
      ensures forall n :: n in r <==> n in tables
    {
      names
    }

    /** `describe` (pydbms.py:65-75). */
    function Describe(table: string): (r: TableModel.Result<Description>)
      requires Valid()
      reads this`tables, this`names, tables.Values
      ensures r.Ok? <==> table in Snapshot()
      ensures r.Err? ==> r.error == TableModel.TableMissing(table)
      ensures r.Ok? ==>
        && r.value.name == table
        && r.value.columns == Snapshot()[table].columns
        && r.value.rowCount == TableModel.Count(Snapshot()[table])
    {
      if table !in tables then TableModel.Err(TableModel.TableMissing(table))
      else TableModel.Ok(Description(tables[table].name, tables[table].columns, tables[table].Count()))
    }

    /** `insert` (pydbms.py:79-86): the table's `insert` decides; only a
        successful insert is saved. Every other table is left alone. */
    method Insert(table: string, data: Row) returns (r: TableModel.Result<int>)
      requires Valid()
      modifies this, if table in tables then {tables[table]} else {}
      ensures Valid()
      ensures tables == old(tables) && names == old(names)
      ensures table !in tables ==>
        r == TableModel.Err(TableModel.TableMissing(table)) && log == old(log)
      ensures table in tables ==>
        var (t', res) := TableModel.Insert(old(Snapshot())[table], data);
        && r == res
        && Snapshot() == old(Snapshot())[table := t']
        && log == old(log) + (if r.Ok? then [SnapshotSaved(old(Snapshot())[table := t'])] else [])
    {
      if table !in tables {
        return TableModel.Err(TableModel.TableMissing(table));
      }
      assert WellFormedTable(table, Snapshot()[table]);
      r := InsertInto(tables[table], table, data, Snapshot());
      Replaced(table);
    }

    /** The table part of `insert`: `t`, held under `table` in the tables
        `before`, inserts `data`; a successful insert saves the tables with
        the new state of `t`. */
    method InsertInto(t: Tbl, table: string, data: Row, ghost before: map<string, TableModel.TableState>)
        returns (r: TableModel.Result<int>)
      requires TableModel.Valid(t.State()) && IdColumn !in t.columns
      modifies this`log, t
      ensures TableModel.Valid(t.State())
      ensures (t.State(), r) == TableModel.Insert(old(t.State()), data)
      ensures log == old(log) + if r.Ok? then [SnapshotSaved(before[table := t.State()])] else []
    {
      TableModel.InsertKeepsValid(t.State(), data);
      r := t.Insert(data);
      log := log + if r.Ok? then [SnapshotSaved(before[table := t.State()])] else [];
    }

    /** `select` (pydbms.py:88-94). */
    function Select(table: string, where: Where, limit: Option<int>): (r: TableModel.Result<seq<Row>>)
      reads this`tables, tables.Values
      ensures r.Ok? <==> table in Snapshot()
      ensures r.Err? ==> r.error == TableModel.TableMissing(table)
      ensures r.Ok? ==> r.value == TableModel.Select(Snapshot()[table], where, limit)
    {
      if table !in tables then TableModel.Err(TableModel.TableMissing(table))
      else TableModel.Ok(tables[table].Select(where, limit))
    }

    /** `update` (pydbms.py:96-104): the table's `update` decides; the
        snapshot is saved even when no row matched. */
    method Update(table: string, data: Row, where: Where) returns (r: TableModel.Result<nat>)
      requires Valid()
      requires IdColumn !in data
      modifies this, if table in tables then {tables[table]} else {}
      ensures Valid()
      ensures tables == old(tables) && names == old(names)
      ensures table !in tables ==>
        r == TableModel.Err(TableModel.TableMissing(table)) && log == old(log)
      ensures table in tables ==>
        var (t', n) := TableModel.Update(old(Snapshot())[table], data, where);
        && r == TableModel.Ok(n)
        && Snapshot() == old(Snapshot())[table := t']
        && log == old(log) + [SnapshotSaved(old(Snapshot())[table := t'])]
    {
      if table !in tables {
        return TableModel.Err(TableModel.TableMissing(table));
      }
      ghost var before := Snapshot();
      assert WellFormedTable(table, before[table]);
      var t := tables[table];
      TableModel.UpdateKeepsValid(t.State(), data, where);
      var n := t.Update(data, where);
      log := log + [SnapshotSaved(before[table := t.State()])];
      Replaced(table);
      return TableModel.Ok(n);
    }

    /** `delete` (pydbms.py:106-113): the table's `delete` decides; the
        snapshot is saved even when no row matched. */
    method Delete(table: string, where: Where) returns (r: TableModel.Result<nat>)
      requires Valid()
      modifies this, if table in tables then {tables[table]} else {}
      ensures Valid()
      ensures tables == old(tables) && names == old(names)
      ensures table !in tables ==>
        r == TableModel.Err(TableModel.TableMissing(table)) && log == old(log)
      ensures table in tables ==>
        var (t', n) := TableModel.Delete(old(Snapshot())[table], where);
        && r == TableModel.Ok(n)
        && Snapshot() == old(Snapshot())[table := t']
        && log == old(log) + [SnapshotSaved(old(Snapshot())[table := t'])]
    {
      if table !in tables {
        return TableModel.Err(TableModel.TableMissing(table));
      }
      ghost var before := Snapshot();
      assert WellFormedTable(table, before[table]);
      var t := tables[table];
      TableModel.DeleteRows(t.State(), where);
      var n := t.Delete(where);
      log := log + [SnapshotSaved(before[table := t.State()])];
      Replaced(table);
      return TableModel.Ok(n);
    }

    /** The row loop of `import_table` (pydbms.py:167-182) over rows already
        read from the file: each row loses its `_id` and goes through
        `insert`, so each successful row is saved on its own and a failing
        row stops the loop with the earlier rows kept. The count the source
        prints is returned. */
    method ImportRows(table: string, rows: seq<Row>) returns (r: TableModel.Result<nat>)
      requires Valid()
      modifies this, if table in tables then {tables[table]} else {}
      ensures Valid()
      ensures tables == old(tables) && names == old(names)
      ensures table !in tables ==>
        r == TableModel.Err(TableModel.TableMissing(table)) && log == old(log)
      ensures table in tables ==>
        var (t', res) := TableModel.ImportAll(old(Snapshot())[table], rows);
        && r == res
        && Snapshot() == old(Snapshot())[table := t']
        && t'.nextId >= old(Snapshot())[table].nextId
        && SavedSnapshots(old(log), log, t'.nextId - old(Snapshot())[table].nextId)
    {
      if table !in tables {
        return TableModel.Err(TableModel.TableMissing(table));
      }
      var t := tables[table];
      assert WellFormedTable(table, Snapshot()[table]);
      r := ImportInto(t, table, rows, Snapshot());
      Replaced(table);
    }

    /** The loop of ImportRows on the table object `t` held under `table`:
        each row, without its `_id`, goes through the table part of `insert`,
        so each successful insert saves the tables. */
    method ImportInto(t: Tbl, table: string, rows: seq<Row>, ghost before: map<string, TableModel.TableState>)
        returns (r: TableModel.Result<nat>)
      requires TableModel.Valid(t.State()) && IdColumn !in t.columns
      modifies this`log, t
      ensures TableModel.Valid(t.State())
      ensures (t.State(), r) == TableModel.ImportAll(old(t.State()), rows)
      ensures t.nextId >= old(t.nextId) && SavedSnapshots(old(log), log, t.nextId - old(t.nextId))
    {
      ghost var t0 := t.State();
      ghost var log0 := log;
      var count: nat := 0;
      while count < |rows|
        invariant 0 <= count <= |rows|
        invariant TableModel.Valid(t.State())
        invariant TableModel.ImportAll(t0, rows[..count]) == (t.State(), TableModel.Ok(count))
        invariant t.nextId == t0.nextId + count
        invariant SavedSnapshots(log0, log, count)
      {
        TableModel.ImportOneMore(t0, rows, count, t.State());
        ghost var log1 := log;
        var res := InsertInto(t, table, rows[count] - {IdColumn}, before);
        if res.Err? {
          TableModel.ImportStops(t0, rows, count + 1);
          return TableModel.Err(res.error);
        }
        SavedSnapshotsStep(log0, log1, count, log, log[|log| - 1]);
        count := count + 1;
      }
      assert rows[..count] == rows;
      return TableModel.Ok(count);
    }

    /** The snapshot after a step that stored a table under `table` and
        left every other table alone. */
    twostate lemma SnapshotReplaced(table: string)
      requires table in tables && tables.Keys == old(tables).Keys + {table}
      requires forall n | n in tables && n != table :: tables[n] == old(tables[n]) && unchanged(tables[n])
      ensures Snapshot() == old(Snapshot())[table := tables[table].State()]
    {
      var now, before := Snapshot(), old(Snapshot());
      assert now.Keys == before.Keys + {table} by {
        assert now.Keys == tables.Keys;
        assert before.Keys == old(tables).Keys;
      }
      SnapshotKept(table);
      MapReplaced(now, before, table, tables[table].State());
    }

    /** The tables other than `table` have the same value as before. */
    twostate lemma SnapshotKept(table: string)
      requires tables.Keys == old(tables).Keys + {table}
      requires forall n | n in tables && n != table :: tables[n] == old(tables[n]) && unchanged(tables[n])
      ensures forall n | n in Snapshot() && n != table :: n in old(Snapshot()) && Snapshot()[n] == old(Snapshot())[n]
    {
      forall n | n in Snapshot() && n != table ensures n in old(Snapshot()) && Snapshot()[n] == old(Snapshot())[n] {
        var t := tables[n];
        assert t == old(tables[n]) && n in old(tables);
        assert Snapshot()[n] == t.State() && old(Snapshot())[n] == old(t.State());
      }
    }

    /** After a call that changed only the `Tbl` object of `table`, keeping
        its invariant, the snapshot differs only at `table` and the catalog
        invariant still holds. */
    twostate lemma Replaced(table: string)
      requires old(Valid()) && table in old(tables)
      requires tables == old(tables) && names == old(names)
      requires forall n | n in tables && n != table :: unchanged(tables[n])
      requires TableModel.Valid(tables[table].State())
      ensures Snapshot() == old(Snapshot())[table := tables[table].State()]
      ensures Valid()
    {
      SnapshotReplaced(table);
      CatalogReplace(names, old(Snapshot()), table, tables[table].State());
    }

    /** The snapshot after a step that removed the table `table` and left
        every other table alone. */
    twostate lemma SnapshotRemoved(table: string)
      requires tables.Keys == old(tables).Keys - {table}
      requires forall n | n in tables :: tables[n] == old(tables[n]) && unchanged(tables[n])
      ensures Snapshot() == old(Snapshot()) - {table}
    {
      var now, before := Snapshot(), old(Snapshot());
      assert now.Keys == tables.Keys;
      assert before.Keys == old(tables).Keys;
      forall n | n in now ensures now[n] == before[n] {
        assert tables[n] == old(tables[n]);
      }
    }

    /** `get_database_info` (pydbms.py:184-192). */
    function Info(): (r: DbInfo)
      requires Valid()
      reads this`tables, this`names, tables.Values
      ensures r.name == name && r.path == path
      ensures NoDup(r.tables) && forall n :: n in r.tables <==> n in tables
      ensures r.totalTables == |r.tables|
      ensures r.totalRows == SumRows(names, Snapshot())
    {
      TablesCounted(names, tables.Keys);
      DbInfo(name, path, names, |tables|, SumRows(names, Snapshot()))
    }
  }
}
