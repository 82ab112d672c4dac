/** The demonstration script example.py on the model: a `shop` database
    with a `products` table, three inserts, an update and two selects. */
module Example {
  import opened Rows
  import TableModel
  import opened CatalogModel
  import opened PyDbms

  const Products: string := "products"

  function Schema(): map<string, string> {
    map["name" := "str", "price" := "float", "stock" := "int"]
  }

  function Product(name: string, price: real, stock: int): Row {
    map["name" := VStr(name), "price" := VFloat(price), "stock" := VInt(stock)]
  }

  /** The table `table` after inserting `a`, `b` and `c` into it when empty. */
  function ThreeRows(table: string, columns: map<string, string>, a: Row, b: Row, c: Row): TableModel.TableState {
    TableModel.TableState(table, columns,
      map[1 := TableModel.NewRow(1, a), 2 := TableModel.NewRow(2, b), 3 := TableModel.NewRow(3, c)],
      [1, 2, 3], 4)
  }

  /** Three inserts into a fresh table store the rows under the ids 1, 2 and 3. */
  lemma Inserts(table: string, columns: map<string, string>, a: Row, b: Row, c: Row)
    requires a.Keys <= columns.Keys && b.Keys <= columns.Keys && c.Keys <= columns.Keys
    ensures
      var (t1, r1) := TableModel.Insert(TableModel.Empty(table, columns), a);
      var (t2, r2) := TableModel.Insert(t1, b);
      var (t3, r3) := TableModel.Insert(t2, c);
      r1 == TableModel.Ok(1) && r2 == TableModel.Ok(2) && r3 == TableModel.Ok(3) && t3 == ThreeRows(table, columns, a, b, c)
  {
  }

  /** Selecting with no filter returns the three rows in insertion order. */
  lemma SelectThree(table: string, columns: map<string, string>, a: Row, b: Row, c: Row)
    ensures TableModel.Select(ThreeRows(table, columns, a, b, c), map[], None) ==
      [TableModel.NewRow(1, a), TableModel.NewRow(2, b), TableModel.NewRow(3, c)]
  {
    var t := ThreeRows(table, columns, a, b, c);
    PickAll(t.order, t.rows);
    assert TableModel.SelectIds(t, map[], None) == [1, 2, 3];
    RowsAtIndex([1, 2, 3], t.rows);
  }

  /** A filter that only the first row matches picks the key 1. */
  lemma FirstOnly(table: string, columns: map<string, string>, a: Row, b: Row, c: Row, where: Where)
    requires Matches(TableModel.NewRow(1, a), where)
    requires !Matches(TableModel.NewRow(2, b), where) && !Matches(TableModel.NewRow(3, c), where)
    ensures TableModel.Matching(ThreeRows(table, columns, a, b, c), where) == [1]
  {
    var t := ThreeRows(table, columns, a, b, c);
    assert t.rows[1] == TableModel.NewRow(1, a) && t.rows[2] == TableModel.NewRow(2, b) && t.rows[3] == TableModel.NewRow(3, c);
    assert [1, 2, 3][1..] == [2, 3] && [2, 3][1..] == [3] && [3][1..] == [];
    assert Pick([3], t.rows, where, true) == [];
    assert Pick([2, 3], t.rows, where, true) == [];
    assert Pick([1, 2, 3], t.rows, where, true) == [1];
  }

  /** An update whose filter only the first row matches merges `data` into
      that row alone. */
  lemma UpdateFirst(table: string, columns: map<string, string>, a: Row, b: Row, c: Row, data: Row, where: Where)
    requires IdColumn !in data
    requires Matches(TableModel.NewRow(1, a), where)
    requires !Matches(TableModel.NewRow(2, b), where) && !Matches(TableModel.NewRow(3, c), where)
    ensures TableModel.Update(ThreeRows(table, columns, a, b, c), data, where) == (ThreeRows(table, columns, a + data, b, c), 1)
  {
    var t := ThreeRows(table, columns, a, b, c);
    FirstOnly(table, columns, a, b, c, where);
    UpdatedFirstRow(t.rows, data, where);
    NewRowMerge(1, a, data);
    ReplaceFirst(TableModel.NewRow(1, a), TableModel.NewRow(2, b), TableModel.NewRow(3, c), TableModel.NewRow(1, a + data));
  }

  lemma NewRowMerge(id: int, a: Row, data: Row)
    requires IdColumn !in data
    ensures TableModel.NewRow(id, a) + data == TableModel.NewRow(id, a + data)
  {
  }

  lemma ReplaceFirst(x: Row, y: Row, z: Row, w: Row)
    ensures map[1 := x, 2 := y, 3 := z][1 := w] == map[1 := w, 2 := y, 3 := z]
  {
  }

  lemma UpdatedFirstRow(rows: map<int, Row>, data: Row, where: Where)
    requires rows.Keys == {1, 2, 3}
    requires Matches(rows[1], where) && !Matches(rows[2], where) && !Matches(rows[3], where)
    ensures (map k | k in rows :: if Matches(rows[k], where) then rows[k] + data else rows[k]) == rows[1 := rows[1] + data]
  {
    var rows' := map k | k in rows :: if Matches(rows[k], where) then rows[k] + data else rows[k];
    assert rows'.Keys == rows.Keys;
    assert rows'[1] == rows[1] + data && rows'[2] == rows[2] && rows'[3] == rows[3];
  }

  /** A select whose filter only the first row matches returns that row. */
  lemma SelectFirst(table: string, columns: map<string, string>, a: Row, b: Row, c: Row, where: Where)
    requires Matches(TableModel.NewRow(1, a), where)
    requires !Matches(TableModel.NewRow(2, b), where) && !Matches(TableModel.NewRow(3, c), where)
    ensures TableModel.Select(ThreeRows(table, columns, a, b, c), where, None) == [TableModel.NewRow(1, a)]
  {
    var t := ThreeRows(table, columns, a, b, c);
    FirstOnly(table, columns, a, b, c, where);
    assert TableModel.SelectIds(t, where, None) == [1];
    assert RowsAt([1], t.rows) == [t.rows[1]] by {
      assert [1][1..] == [];
    }
  }

  /** Which products the filter `name == "Laptop"` matches. */
  lemma LaptopFilter(id: int, name: string, price: real, stock: int)
    ensures Matches(TableModel.NewRow(id, Product(name, price, stock)), map["name" := VStr("Laptop")]) <==> name == "Laptop"
  {
    MatchesSingle(TableModel.NewRow(id, Product(name, price, stock)), "name", VStr("Laptop"));
  }

  lemma Overwrite<K, V>(m: map<K, V>, k: K, x: V, y: V)
    ensures m[k := x][k := y] == m[k := y]
  {
  }

  lemma CountThree(table: string, columns: map<string, string>, a: Row, b: Row, c: Row)
    ensures TableModel.Count(ThreeRows(table, columns, a, b, c)) == 3
  {
    ThreeKeys(TableModel.NewRow(1, a), TableModel.NewRow(2, b), TableModel.NewRow(3, c));
  }

  lemma ThreeKeys(x: Row, y: Row, z: Row)
    ensures |map[1 := x, 2 := y, 3 := z]| == 3
  {
    var m1 := map[1 := x];
    var m2 := m1[2 := y];
    assert |m1| == 1 && 2 !in m1 && 3 !in m2;
    assert map[1 := x, 2 := y, 3 := z] == m2[3 := z];
  }

  lemma SumOne(table: string, t: TableModel.TableState)
    ensures SumRows([table], map[table := t]) == TableModel.Count(t)
  {
    assert [table][1..] == [];
  }

  lemma SetStock(name: string, price: real, stock: int, newStock: int)
    ensures Product(name, price, stock) + map["stock" := VInt(newStock)] == Product(name, price, newStock)
  {
  }

  /** example.py:14-21: open the database and create the table. */
  method Open() returns (db: Database)
    ensures fresh(db) && fresh(db.tables.Values) && db.Valid() && db.names == [Products]
    ensures db.Snapshot() == map[Products := TableModel.Empty(Products, Schema())]
  {
    db := new Database("shop");
    assert db.Snapshot() == map[];
    assert "name" in Schema();
    var created := db.CreateTable(Products, Schema());
  }

  /** One insert of example.py:24-26 into the only table. */
  method InsertOne(db: Database, ghost t: TableModel.TableState, row: Row) returns (id: int)
    requires db.Valid() && db.names == [Products] && db.Snapshot() == map[Products := t]
    requires row.Keys <= t.columns.Keys
    modifies db, db.tables.Values
    ensures db.Valid() && db.names == [Products] && db.tables == old(db.tables)
    ensures db.Snapshot() == map[Products := TableModel.Insert(t, row).0]
    ensures id == t.nextId
  {
    assert Products in db.Snapshot();
    var r := db.Insert(Products, row);
    Overwrite(map[], Products, t, TableModel.Insert(t, row).0);
    id := r.value;
  }

  /** example.py:14-26: open the database, create the table and insert `a`,
      `b` and `c`. */
  method Stock(a: Row, b: Row, c: Row) returns (db: Database, ids: seq<int>)
    requires a.Keys <= Schema().Keys && b.Keys <= Schema().Keys && c.Keys <= Schema().Keys
    ensures fresh(db) && fresh(db.tables.Values) && db.Valid() && db.names == [Products]
    ensures db.Snapshot() == map[Products := ThreeRows(Products, Schema(), a, b, c)]
    ensures ids == [1, 2, 3]
  {
    db := Open();
    Inserts(Products, Schema(), a, b, c);
    ghost var t0 := TableModel.Empty(Products, Schema());
    ghost var t1 := TableModel.Insert(t0, a).0;
    ghost var t2 := TableModel.Insert(t1, b).0;
    var id1 := InsertOne(db, t0, a);
    var id2 := InsertOne(db, t1, b);
    var id3 := InsertOne(db, t2, c);
    ids := [id1, id2, id3];
  }

  /** example.py:52: the update `data` where only the first row matches. */
  method Restock(db: Database, a: Row, b: Row, c: Row, data: Row, where: Where) returns (n: nat)
    requires db.Valid() && db.names == [Products]
    requires db.Snapshot() == map[Products := ThreeRows(Products, Schema(), a, b, c)]
    requires IdColumn !in data
    requires Matches(TableModel.NewRow(1, a), where)
    requires !Matches(TableModel.NewRow(2, b), where) && !Matches(TableModel.NewRow(3, c), where)
    modifies db, db.tables.Values
    ensures db.Valid() && db.names == [Products]
    ensures db.Snapshot() == map[Products := ThreeRows(Products, Schema(), a + data, b, c)]
    ensures n == 1
  {
    assert Products in db.Snapshot();
    UpdateFirst(Products, Schema(), a, b, c, data, where);
    var u := db.Update(Products, data, where);
    Overwrite(map[], Products, ThreeRows(Products, Schema(), a, b, c), ThreeRows(Products, Schema(), a + data, b, c));
    n := u.value;
  }

  /** example.py:14-56: the three products get the ids 1, 2 and 3 and are
      listed in that order, the catalog then counts one table and three
      rows, the update matches one row, and the Laptop row afterwards holds
      the new stock and nothing else changed in it. */
  method Scenario() returns (ids: seq<int>, all: seq<Row>, info: DbInfo, updated: nat, laptop: seq<Row>)
    ensures ids == [1, 2, 3]
    ensures all == [TableModel.NewRow(1, Product("Laptop", 999.99, 50)),
                    TableModel.NewRow(2, Product("Mouse", 29.99, 200)),
                    TableModel.NewRow(3, Product("Keyboard", 79.99, 150))]
    ensures info.totalTables == 1 && info.totalRows == 3
    ensures updated == 1
    ensures laptop == [TableModel.NewRow(1, Product("Laptop", 999.99, 45))]
  {
    var laptopRow, mouseRow, keyboardRow := Product("Laptop", 999.99, 50), Product("Mouse", 29.99, 200), Product("Keyboard", 79.99, 150);
    var restock, isLaptop := map["stock" := VInt(45)], map["name" := VStr("Laptop")];
    var db;
    db, ids := Stock(laptopRow, mouseRow, keyboardRow);
    SelectThree(Products, Schema(), laptopRow, mouseRow, keyboardRow);
    all := db.Select(Products, map[], None).value;
    info := db.Info();
    SumOne(Products, ThreeRows(Products, Schema(), laptopRow, mouseRow, keyboardRow));
    CountThree(Products, Schema(), laptopRow, mouseRow, keyboardRow);
    LaptopFilter(1, "Laptop", 999.99, 50);
    LaptopFilter(2, "Mouse", 29.99, 200);
    LaptopFilter(3, "Keyboard", 79.99, 150);
    updated := Restock(db, laptopRow, mouseRow, keyboardRow, restock, isLaptop);
    SetStock("Laptop", 999.99, 50, 45);
    LaptopFilter(1, "Laptop", 999.99, 45);
    SelectFirst(Products, Schema(), laptopRow + restock, mouseRow, keyboardRow, isLaptop);
    laptop := db.Select(Products, isLaptop, None).value;
  }
}
