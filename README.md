# PyDBMS storage and query engine, in Dafny

PyDBMS is a small local database system in Python. This project models its
storage core, which has two parts.

- **`Tbl`** holds one table. It has a schema (`columns`), rows kept in
  insertion order and keyed by an `_id`, and a counter `next_id` that only
  goes up.
  - `insert` checks every column against the schema, then gives the row the
    next id.
  - `select` keeps the rows that satisfy an equality-conjunction filter,
    then applies an optional limit.
  - `update` merges new values into the matching rows.
  - `delete` removes the matching rows.
  - `count` returns the number of rows.
- **`PyDBMS`** is the catalog. It maps table names to tables and checks that
  a table exists, or does not exist yet, before delegating to it. It can
  also describe a table, report totals for the database, and import a
  sequence of rows one by one.

The model is split into these files:

- `seqs.dfy` holds generic facts about sequences and maps.
- `rows.dfy` holds cell values, rows, the filter and the limit.
- `table_model.dfy` describes a table as a value (`TableState`), gives each
  table operation as a function of that value, and proves what those
  operations promise.
- `table.dfy` is the class `Tbl`. Its fields change in place, and each
  method is proved to leave the state that the matching `TableModel`
  function describes.
- `catalog_model.dfy` holds the catalog invariant, the metadata summary and
  the save events.
- `pydbms.dfy` is the class `Database`, the model of `PyDBMS`. Each of its
  methods states its result and its new state in terms of `TableModel`.
- `example.dfy` replays the demo script: create the `products` table, insert
  three rows, update one, and select it.

Saving to disk is modelled as a ghost event log. Each `_save` appends
`SnapshotSaved` with the whole catalog as it is at that point. Each
`_save_metadata` appends `MetadataSaved` with the table names, their columns
and their row counts.

Where the code and the intended behaviour part, the model follows the code:

- A filter uses `row.get(column)`, so a missing column reads as `None`, and a
  filter on `None` matches rows that lack that column.
- Python equality counts `1`, `1.0` and `True` as equal, and the filter
  follows that (`Rows.PyEq`).
- The limit is applied under `if limit:`, so a limit of `0` returns every
  match, as `None` does.
- A negative limit slices the way Python does and drops the last `|limit|`
  matches.
- `update` does not check its columns against the schema.
- In `insert`, a caller's `_id` overrides the assigned one, but only when the
  schema itself declares `_id`.
- The empty-schema check lives in the catalog, not in the table.

## Model

| member | source | states |
|---|---|---|
| Table.Tbl.constructor | table.py:5-9 | The new table has the given name and schema, no rows and `next_id` 1. |
| TableModel.EmptyTable | table.py:5-9 | The empty table satisfies the table invariant, counts 0 rows, has `next_id` 1, and selects nothing for any filter and limit. |
| TableModel.FirstInsertIsOne | table.py:5-21 | The first insert into a fresh table that fits the schema returns id 1 and leaves one row. |
| Table.Tbl.Insert | table.py:11-21 | The loop over the keys of `data` rejects the insert if any key is outside the schema, before anything is stored; which key is met first is not modelled. The new state and the result are exactly those of `TableModel.Insert`. |
| TableModel.InsertSpec | table.py:11-21 | Insert succeeds if and only if every key of `data` is in the schema. On failure the table is unchanged and the error names the table. On success: the result is the old `next_id`; `next_id` goes up by one; exactly one key is added, at the end of the order; the new row holds `data`'s values plus `_id` equal to the key unless `data` supplies its own `_id`; schema and name are unchanged. |
| TableModel.InsertKeepsValid | table.py:11-21 | When the schema does not declare `_id`, insert keeps the invariant. The new id was not in use before, and the count goes up by one. |
| TableModel.IdsNeverReused | table.py:9-50 | Over any sequence of inserts, updates that do not write `_id`, and deletes: the invariant holds throughout, `next_id` never decreases, and the returned ids are strictly increasing, at least the starting `next_id`, below the final `next_id`, and never keys already present at the start. |
| TableModel.StepSpec | table.py:11-50 | One call keeps the invariant and the schema. An insert that succeeds returns the old `next_id` and raises it by one; update, delete and a failed insert leave `next_id` alone. |
| Rows.MatchesSingle | table.py:28-30 | A one-column filter matches exactly when `row.get(column)` equals the value under Python equality. |
| Rows.MatchesEmpty | table.py:28-30 | The empty filter matches every row. |
| Rows.PickMembers | table.py:28-30 | Filtering keeps exactly the stored keys whose row's match agrees with the requested side. |
| Rows.Limit | table.py:33-34 | The result is always a prefix of the input. No limit or a limit of 0 keeps everything. A positive limit keeps the first `min(limit, n)` items, and a negative one drops the last `min(-limit, n)`. |
| TableModel.SelectIdsSpec | table.py:23-36 | Selected ids are strictly increasing, a subsequence of insertion order, stored, and matching the filter. With no limit or limit 0 every matching key is selected. With a positive limit the result has `min(limit, number of matches)` ids. |
| TableModel.SelectSpec | table.py:23-36 | The selected rows are a subsequence of all rows in insertion order. Each is the stored row under its id, matches the filter, and carries that id as `_id`. |
| TableModel.SelectAll | table.py:25-28 | With no filter and no limit, select returns all rows in insertion order. |
| TableModel.MatchCount | table.py:23-36 | The number of matching ids in order equals the number of stored keys whose row matches. |
| Table.SelectedIds | table.py:40-42 | The rows `update` and `delete` select carry, in order, the increasing ids of the matches as their `_id`, and each of those ids is stored. |
| Table.Tbl.Update | table.py:38-43 | The loop looks up each selected row by its `_id` and merges `data` into it. The new state and the returned count are exactly those of `TableModel.Update`. |
| TableModel.UpdateRows | table.py:38-43 | Update keeps the keys, the order, `next_id`, the schema and the name. A matching row keeps its columns and gains those of `data`; every key of `data` reads as the new value and every other column is unchanged. Non-matching rows are unchanged. |
| TableModel.UpdateCount | table.py:38-43 | Update returns the number of matching rows. With zero matches the table is unchanged. |
| TableModel.UpdateKeepsValid | table.py:38-43 | An update that does not write `_id` keeps the table invariant. |
| Table.UpdatedMatching | table.py:40-42 | Merging `data` into the selected rows one by one gives the rows `TableModel.Update` describes. |
| Table.Tbl.Delete | table.py:45-50 | The loop deletes each selected row by its `_id`. The new state and the returned count are exactly those of `TableModel.Delete`. |
| TableModel.DeleteRows | table.py:45-50 | Delete keeps the invariant. The keys left are exactly the non-matching ones, their rows are unchanged, `next_id` and the schema are unchanged, and the order left is a subsequence of the old one. |
| TableModel.DeleteCount | table.py:45-54 | Delete returns the number of matching rows, and the count drops by exactly that number. |
| Table.DroppedMatching | table.py:47-49 | Deleting the selected ids one by one gives the rows and the order `TableModel.Delete` describes. |
| TableModel.CountIsOrderLength | table.py:52-54 | For a table whose order lists each stored key once, the count equals the length of the order. |
| TableModel.Empty | table.py:5-9 | Defines the state of a new table: the given name and schema, no rows, an empty order and `next_id` 1. `EmptyTable` states what follows from it. |
| TableModel.NewRow | table.py:19 | The stored row `{'_id': id, **data}` has the keys of `data` plus `_id`; every key of `data` keeps its value, so a caller's `_id` wins; without one, `_id` is the id. |
| TableModel.Insert | table.py:11-21 | Defines insert on a table value: with every key of `data` in the schema, the row is stored under `next_id`, appended to the order, and `next_id` goes up; otherwise nothing changes and the error names the table. Its promises are the contracts of `InsertSpec` and `InsertKeepsValid`. |
| TableModel.Matching | table.py:28-30 | Defines the keys of the matching rows, in insertion order. `SelectIdsSpec` and `MatchCount` state what they are. |
| TableModel.Select | table.py:23-36 | Defines select on a table value: the rows under the matching keys, cut by the limit. `SelectSpec`, `SelectAll` and `SelectedRowsMatch` state what it returns. |
| TableModel.SelectedRowsMatch | table.py:25-30 | For any table state, every row select returns is one of the stored rows and matches the filter. |
| TableModel.Update | table.py:38-43 | Defines update on a table value: `data` merged into every matching row, and the number of matches. `UpdateRows`, `UpdateCount` and `UpdateKeepsValid` state its promises. |
| TableModel.Delete | table.py:45-50 | Defines delete on a table value: the matching rows and their keys removed, and the number of matches. `DeleteRows` and `DeleteCount` state its promises. |
| TableModel.Count | table.py:52-54 | Defines the count as the number of stored rows. `CountIsOrderLength` relates it to the key order. |
| TableModel.ImportAll | pydbms.py:175-181 | Defines the import loop on a table value: each row, without its `_id`, goes through insert in order, and the first failure stops the loop with the earlier rows kept. `ImportSpec` and `ImportStops` state its promises. |
| Table.Tbl.Select | table.py:23-36 | Every row the table's select returns is one of its stored rows and matches the filter. |
| Table.Tbl.Count | table.py:52-54 | Under the table invariant, the count equals the number of keys in the insertion order. |
| Rows.Get | table.py:30 | Models `row.get(column)`: a missing column reads as None. |
| Rows.PyEq | table.py:30 | Models Python's `==` on cell values: bools, ints and floats compare as numbers, anything else structurally. |
| Rows.Matches | table.py:28-30 | Models the filter `all(row.get(k) == v for k, v in where.items())`. `MatchesSingle` and `MatchesEmpty` state its one-column and empty cases. |
| PyDbms.Database.constructor | pydbms.py:21-33 | A new database has the given name (`"default"` when none is given) and the path `databases/<name>`. It has no tables, satisfies the catalog invariant, and has logged one metadata save of an empty catalog. |
| PyDbms.Database.CreateTable | pydbms.py:37-49 | Create succeeds if and only if the name is new and the schema is not empty; otherwise the error is `TableExists` or `EmptySchema` and nothing changes, log included. On success: one new table object holds an empty table under that name; every other table is unchanged; the name is appended to the list; one snapshot save and one metadata save are logged, in that order. |
| PyDbms.Database.DropTable | pydbms.py:51-59 | Drop succeeds if and only if the table exists; otherwise the error is `TableMissing` and nothing changes. On success exactly that name is removed, the other tables are unchanged, and one snapshot save and one metadata save are logged. |
| PyDbms.DbPath | pydbms.py:23 | Models POSIX `os.path.join('databases', db_name)`: `databases/` joined to the name, and a name starting with `/` replaces the prefix. |
| PyDbms.Database.Snapshot | pydbms.py:117-124 | Defines the value `_save` pickles: every table name with the state of its table object. |
| PyDbms.Database.AddTable | pydbms.py:45-47 | Stores one new table object holding an empty table under the new name, keeps the table objects distinct, appends the name, and logs a snapshot save followed by a metadata save of the new catalog. |
| PyDbms.Database.ListTables | pydbms.py:61-63 | Lists every table name exactly once, in creation order. |
| PyDbms.Database.Describe | pydbms.py:65-75 | Succeeds if and only if the table exists, with `TableMissing` otherwise. It reports the table's name, its schema and its row count. |
| PyDbms.Database.Insert | pydbms.py:79-86 | A missing table gives `TableMissing` and changes nothing. Otherwise the table's insert decides the result and the new state of that table, every other table is unchanged, and exactly one snapshot save is logged if and only if the insert succeeded. |
| PyDbms.Database.InsertInto | pydbms.py:84-85 | The table's insert decides the result and the table's new state, which keeps its invariant; exactly one snapshot save of the catalog with that state is logged if and only if the insert succeeded. |
| PyDbms.Database.Select | pydbms.py:88-94 | Succeeds if and only if the table exists, with `TableMissing` otherwise. It returns that table's selection. |
| PyDbms.Database.Update | pydbms.py:96-104 | A missing table gives `TableMissing` and changes nothing. Otherwise the table's update decides the count and the new state of that table, every other table is unchanged, and exactly one snapshot save is logged, even with zero matches. |
| PyDbms.Database.Delete | pydbms.py:106-113 | The same as `Update`, for the table's delete. |
| PyDbms.Database.ImportRows | pydbms.py:167-182 | A missing table gives `TableMissing` and changes nothing. Otherwise the table ends as `TableModel.ImportAll` describes, every other table is unchanged, and exactly one snapshot save is logged per row inserted. |
| PyDbms.Database.ImportInto | pydbms.py:175-181 | The loop inserts each row without its `_id`, in order, and stops at the first failure. The final table and result are those of `TableModel.ImportAll`, and the log grows by one snapshot save per id handed out. |
| TableModel.ImportSpec | pydbms.py:175-182 | For n the number of ids handed out: the first n rows fit the schema and are stored under the consecutive ids from the old `next_id`, each without its `_id` and with `_id` equal to its key; the old rows are kept; the count grows by n. The result is `Ok(number of rows)` if and only if all rows are stored. Otherwise row n has a column outside the schema, the error is `UnknownColumn`, and the rows before it stay inserted, so the import is not atomic. |
| TableModel.ImportStops | pydbms.py:176-179 | Once a row has failed, the rows after it make no difference. |
| PyDbms.Database.Info | pydbms.py:184-192 | Reports the name and the path, every table name exactly once, `total_tables` equal to the number of tables, and `total_rows` equal to the sum of every table's count; `SumRowsReplace`, `InsertAddsOneRow` and `DeleteDropsRows` say how that total moves. |
| CatalogModel.SummaryOf | pydbms.py:145-149 | Defines the per-table part of the metadata: each table's schema and row count. |
| CatalogModel.SumRows | pydbms.py:191 | Defines `total_rows` as the row counts of the listed tables, added up. `SumRowsReplace`, `InsertAddsOneRow` and `DeleteDropsRows` state how it changes. |
| CatalogModel.SumRowsUnlisted | pydbms.py:191 | A table that is not listed does not enter the total. |
| CatalogModel.SumRowsReplace | pydbms.py:191 | Changing one listed table changes the total by the difference of its row counts. |
| CatalogModel.InsertAddsOneRow | pydbms.py:79-86 | A successful insert into one table of a catalog raises `total_rows` by exactly one. |
| CatalogModel.DeleteDropsRows | pydbms.py:106-113 | A delete on one table of a catalog lowers `total_rows` by the count it returns. |
| CatalogModel.TablesCounted | pydbms.py:189-190 | A name list without repeats that covers the table keys exactly is as long as the number of tables. |
| CatalogModel.CatalogAdd | pydbms.py:39-45 | Adding an empty table under a new name, with a schema that is not empty and does not declare `_id`, keeps the catalog invariant. |
| CatalogModel.CatalogRemove | pydbms.py:53-56 | Removing an existing table keeps the catalog invariant. |
| CatalogModel.CatalogReplace | pydbms.py:79-113 | Replacing one table's state by a valid state with the same name and schema keeps the catalog invariant. |
| PyDbms.Database.Replaced | pydbms.py:84-112 | When only the named table object changed, the catalog is the old one with that table's new state, and the invariant still holds. |
| Example.Scenario | example.py:14-56 | In the demo, the three inserts return ids 1, 2 and 3. Selecting everything gives the three products with their ids. The info reports 1 table and 3 rows. The update matches one row. Selecting `name == "Laptop"` then gives one row, with stock 45. |

## Left out

- Disk persistence (`_save`, `_load`, `_save_metadata`) is not modelled as files. Pickle and JSON are foreign libraries, and the timestamp comes from the clock. Saves are a ghost event log instead.
- The error handling around saving is left out: a failed save is printed and ignored, and a failed load falls back to an empty catalog.
- PyDbms.Database.constructor: loading an earlier `database.pkl` is not modelled; the model always starts empty.
- PyDbms.DbPath: models POSIX `os.path.join('databases', name)` by concatenation, with a name starting with `/` replacing the prefix; other path normalisation and Windows separators are not modelled.
- `export_table` and the JSON file reading in `import_table` are left out because they are file I/O. `ImportRows` takes the rows already parsed and returns the count the source prints.
- PyDbms.Database.ImportRows: the row loop calls the table's insert directly instead of going through the catalog's `insert`. The table-existence check that would repeat on each row is made once, since no row can remove the table.
- The command-line shell in interactive.py and the demo script's printing are left out because they are user interface.
- The source's `print` status messages are left out.
- Aliasing is not modelled. `select` returns the live row dicts, through which a caller could change the store, and a table keeps the caller's `columns` dict. The model works on values.
- Column type tags are uninterpreted strings.
- Floats are compared only for equality. They are modelled as real numbers, so NaN and rounding are not modelled.
- Table.Tbl.Insert: the error does not name the offending column, because the source reports the first one in dict iteration order, which is not modelled.
- The order of a table's columns is not modelled, since the schema is a map.
- PyDbms.Database.CreateTable: requires that the schema does not declare `_id`. This keeps the invariant that every row's `_id` is its key. The source accepts such a schema, and then a caller's `_id` replaces the assigned one.
- PyDbms.Database.Update: requires that `data` does not contain `_id`. The source would overwrite the stored `_id`, and later deletes would then look up the wrong key.
- Table.Tbl.Update: requires the table invariant, since it looks each selected row up by its `_id` as the source does.
- Table.Tbl.Delete: requires the table invariant, for the same reason.
