/** What the emitted statements do to a database: recreating a table preserves it, and both dialects
    end with the same table. */
module SchemaTheorems {
  import opened Options
  import opened Schema
  import opened Database

  ghost predicate DistinctNames(columns: seq<Column>) {
    forall i, j :: 0 <= i < j < |columns| ==> columns[i].name != columns[j].name
  }

  // ----- rows -----

  /** The row cut to the columns of a table. */
  function Projected(row: Row, columns: seq<Column>): Row {
    map i: ColumnName | i in Names(columns) :: Get(row, i)
  }

  function ProjectedRows(rows: seq<Row>, columns: seq<Column>): seq<Row> {
    seq(|rows|, i requires 0 <= i < |rows| => Projected(rows[i], columns))
  }

  lemma {:induction false} CopyIsProjection(row: Row, columns: seq<Column>, names: seq<ColumnName>)
    requires forall c :: c in Names(columns) ==> c in names
    ensures CopiedRow(row, columns, names) == Projected(row, columns)
  {
    if columns != [] {
      var n := |columns| - 1;
      var rest := columns[..n];
      NamesExtend(columns);
      CopyIsProjection(row, rest, names);
      assert Names(columns)[n] == columns[n].name;
    }
  }

  lemma NamesExtend(columns: seq<Column>)
    requires columns != []
    ensures Names(columns) == Names(columns[..|columns| - 1]) + [columns[|columns| - 1].name]
  {
  }

  lemma CopiesAreProjections(rows: seq<Row>, columns: seq<Column>)
    ensures CopiedRows(rows, columns, Names(columns)) == ProjectedRows(rows, columns)
  {
    forall i | 0 <= i < |rows| ensures CopiedRow(rows[i], columns, Names(columns)) == Projected(rows[i], columns) {
      CopyIsProjection(rows[i], columns, Names(columns));
    }
  }

  /** A row that has exactly the table's columns is its own projection. */
  ghost predicate Exact(row: Row, columns: seq<Column>) {
    forall c :: c in row <==> c in Names(columns)
  }

  ghost predicate AllExact(rows: seq<Row>, columns: seq<Column>) {
    forall i :: 0 <= i < |rows| ==> Exact(rows[i], columns)
  }

  lemma ExactRowsStay(rows: seq<Row>, columns: seq<Column>)
    requires AllExact(rows, columns)
    ensures ProjectedRows(rows, columns) == rows
  {
    forall i | 0 <= i < |rows| ensures Projected(rows[i], columns) == rows[i] {
      assert Exact(rows[i], columns);
    }
  }

  lemma NameMember(columns: seq<Column>, i: nat)
    requires i < |columns|
    ensures columns[i].name in Names(columns)
  {
    assert Names(columns)[i] == columns[i].name;
  }

  // ----- recreating a table -----

  /** The table the recreate statements leave. */
  function Recreated(t: TableSpec, rows: seq<Row>): StoredTable {
    StoredTable(t.columns, NamedPk(t.pk, t.name), NamedFks(t.fks, t.name), ProjectedRows(rows, t.columns))
  }

  /** The database knows the table and has all its columns, the temporary name is free, and indexes
      belong to tables that exist. */
  ghost predicate Recreatable(db: Db, t: TableSpec) {
    t.name in db.tables
    && (forall c :: c in Names(t.columns) ==> HasColumn(db.tables[t.name].columns, c))
    && TempName(t.name) !in db.tables
    && forall i :: i in db.indexes ==> db.indexes[i].on in db.tables
  }

  lemma TempIsAnother(name: TableName)
    ensures TempName(name) != name
  {
    assert |TempName(name)| == |name| + 6;
  }

  /** Create, copy, drop and rename leave exactly the table as described, with the original's
      constraint names and its rows cut to the columns, and every other table and index as it was;
      the table's own indexes are gone. They fail exactly when the rows do not obey the description. */
  lemma CopyPreserves(db: Db, t: TableSpec)
    requires Recreatable(db, t)
    ensures Run(db, CopyStmts(t)) ==
            if TableOk(Recreated(t, db.tables[t.name].rows))
            then Some(Db(db.tables[t.name := Recreated(t, db.tables[t.name].rows)], WithoutIndexesOn(db.indexes, t.name)))
            else None
  {
    var temp := TempName(t.name);
    var rows := db.tables[t.name].rows;
    var copy := Recreated(t, rows);
    TempIsAnother(t.name);
    NamedTwice(t, temp);
    assert Recreated(t, []) == copy.(rows := []);
    var created := Db(db.tables[temp := Recreated(t, [])], db.indexes);
    var stmts := CopyStmts(t);
    assert Exec(db, stmts[0]) == Some(created);
    CopyFills(db, created, t);
    RunFour(db, stmts[0], stmts[1], stmts[2], stmts[3]);
    if TableOk(copy) {
      CopyTakesOver(db, t, copy);
    }
  }

  lemma CopyFills(db: Db, created: Db, t: TableSpec)
    requires Recreatable(db, t)
    requires created == db.(tables := db.tables[TempName(t.name) := Recreated(t, [])])
    ensures var copy := Recreated(t, db.tables[t.name].rows);
            Exec(created, InsertSelect(TempName(t.name), t.name, Names(t.columns)))
            == if TableOk(copy) then Some(db.(tables := db.tables[TempName(t.name) := copy])) else None
  {
    var temp := TempName(t.name);
    var copy := Recreated(t, db.tables[t.name].rows);
    TempIsAnother(t.name);
    CopiesAreProjections(db.tables[t.name].rows, t.columns);
    ColumnsAreThere(t.columns);
    assert Recreated(t, []).rows + copy.rows == copy.rows;
    assert IndexesHold(created.indexes, temp, copy.rows);
    assert Exec(created, InsertSelect(temp, t.name, Names(t.columns))) == Checked(created, temp, copy);
    assert created.tables[temp := copy] == db.tables[temp := copy];
  }

  lemma CopyTakesOver(db: Db, t: TableSpec, copy: StoredTable)
    requires Recreatable(db, t)
    ensures var filled := db.(tables := db.tables[TempName(t.name) := copy]);
            var dropped := Exec(filled, DropTable(t.name));
            dropped.Some? && Exec(dropped.value, RenameTable(TempName(t.name), t.name))
                             == Some(Db(db.tables[t.name := copy], WithoutIndexesOn(db.indexes, t.name)))
  {
    var temp := TempName(t.name);
    TempIsAnother(t.name);
    var dropped := Exec(db.(tables := db.tables[temp := copy]), DropTable(t.name)).value;
    assert (dropped.tables - {temp})[t.name := copy] == db.tables[t.name := copy];
    assert MovedIndexes(dropped.indexes, temp, t.name) == dropped.indexes;
  }

  lemma ColumnsAreThere(columns: seq<Column>)
    ensures forall c :: c in Names(columns) ==> HasColumn(columns, c)
  {
    forall c | c in Names(columns) ensures HasColumn(columns, c) {
      var i :| 0 <= i < |columns| && Names(columns)[i] == c;
      assert columns[i].name == c;
    }
  }

  lemma RunFour(db: Db, a: Stmt, b: Stmt, c: Stmt, d: Stmt)
    ensures var r1 := Exec(db, a);
            var r2 := if r1.None? then None else Exec(r1.value, b);
            var r3 := if r2.None? then None else Exec(r2.value, c);
            Run(db, [a, b, c, d]) == if r3.None? then None else Exec(r3.value, d)
  {
    assert [a, b, c, d] == [a] + ([b] + ([c] + ([d] + [])));
    RunOne(db, a, [b] + ([c] + ([d] + [])));
    if Exec(db, a).Some? {
      var db1 := Exec(db, a).value;
      RunOne(db1, b, [c] + ([d] + []));
      if Exec(db1, b).Some? {
        var db2 := Exec(db1, b).value;
        RunOne(db2, c, [d] + []);
        if Exec(db2, c).Some? {
          RunOne(Exec(db2, c).value, d, []);
        }
      }
    }
  }

  // ----- the unique indexes -----

  /** Each constraint's index in turn, unless its name is taken. */
  function WithIndexes(indexes: map<string, Index>, table: TableName, uniques: seq<UniqueConstraint>): map<string, Index>
    decreases |uniques|
  {
    if uniques == [] then indexes
    else
      var before := WithIndexes(indexes, table, uniques[..|uniques| - 1]);
      var columns := uniques[|uniques| - 1].columns;
      var name := IndexName(columns, table);
      if name in before then before else before[name := Index(table, columns)]
  }

  ghost predicate RowsUnique(rows: seq<Row>, uniques: seq<UniqueConstraint>) {
    forall i :: 0 <= i < |uniques| ==> UniqueOn(rows, uniques[i].columns)
  }

  /** The index statements succeed on rows that obey the constraints, and change nothing but indexes. */
  lemma {:induction false} IndexesAreCreated(db: Db, table: TableName, uniques: seq<UniqueConstraint>)
    requires table in db.tables && RowsUnique(db.tables[table].rows, uniques)
    ensures Run(db, IndexStmts(table, uniques)) == Some(db.(indexes := WithIndexes(db.indexes, table, uniques)))
    decreases |uniques|
  {
    if uniques == [] {
      assert IndexStmts(table, uniques) == [];
    } else {
      var n := |uniques| - 1;
      var rest := uniques[..n];
      var s := CreateUniqueIndex(IndexName(uniques[n].columns, table), table, uniques[n].columns);
      IndexesAreCreated(db, table, rest);
      assert IndexStmts(table, uniques) == IndexStmts(table, rest) + [s];
      RunConcat(db, IndexStmts(table, rest), [s]);
      var before := db.(indexes := WithIndexes(db.indexes, table, rest));
      RunOne(before, s, []);
      assert [s] + [] == [s];
      assert UniqueOn(db.tables[table].rows, uniques[n].columns);
    }
  }

  /** Recreating preserves the table: the rows, cut to the columns, sit under the described columns
      with the original constraint names; there is no temporary table; all other tables are the same;
      the table's indexes are those of the unique constraints, and all other indexes are the same. */
  lemma RecreatePreserves(db: Db, t: TableSpec, uniques: seq<UniqueConstraint>)
    requires Recreatable(db, t)
    requires TableOk(Recreated(t, db.tables[t.name].rows))
    requires RowsUnique(ProjectedRows(db.tables[t.name].rows, t.columns), uniques)
    ensures Run(db, RecreateStmts(t, uniques)) ==
            Some(Db(db.tables[t.name := Recreated(t, db.tables[t.name].rows)],
                    WithIndexes(WithoutIndexesOn(db.indexes, t.name), t.name, uniques)))
    ensures TempName(t.name) !in Run(db, RecreateStmts(t, uniques)).value.tables
  {
    CopyPreserves(db, t);
    TempIsAnother(t.name);
    RunConcat(db, CopyStmts(t), IndexStmts(t.name, uniques));
    IndexesAreCreated(Run(db, CopyStmts(t)).value, t.name, uniques);
  }

  /** The table has a unique index on these columns under the name generated for them. */
  predicate Enforced(indexes: map<string, Index>, table: TableName, columns: seq<ColumnName>) {
    IndexName(columns, table) in indexes && indexes[IndexName(columns, table)] == Index(table, columns)
  }

  /** The generated index names collide neither with an index of another table nor, for different
      columns, among themselves. */
  ghost predicate NoCollision(indexes: map<string, Index>, table: TableName, uniques: seq<UniqueConstraint>) {
    (forall i :: 0 <= i < |uniques| ==> IndexName(uniques[i].columns, table) !in indexes)
    && forall i, j :: 0 <= i < |uniques| && 0 <= j < |uniques|
                      && IndexName(uniques[i].columns, table) == IndexName(uniques[j].columns, table)
                      ==> uniques[i].columns == uniques[j].columns
  }

  /** An index that was there stays as it was. */
  lemma {:induction false} IndexStays(indexes: map<string, Index>, table: TableName, uniques: seq<UniqueConstraint>, name: string)
    requires name in indexes
    ensures name in WithIndexes(indexes, table, uniques) && WithIndexes(indexes, table, uniques)[name] == indexes[name]
    decreases |uniques|
  {
    if uniques != [] {
      IndexStays(indexes, table, uniques[..|uniques| - 1], name);
    }
  }

  /** A new one is that of the first constraint with its name. */
  lemma {:induction false} IndexIsOfFirst(indexes: map<string, Index>, table: TableName, uniques: seq<UniqueConstraint>, name: string)
    returns (i: nat)
    requires name !in indexes && name in WithIndexes(indexes, table, uniques)
    ensures FirstWithName(table, uniques, name, i)
    ensures WithIndexes(indexes, table, uniques)[name] == Index(table, uniques[i].columns)
    decreases |uniques|
  {
    var n := |uniques| - 1;
    var rest := uniques[..n];
    if name in WithIndexes(indexes, table, rest) {
      i := IndexIsOfFirst(indexes, table, rest, name);
    } else {
      i := n;
      forall k | 0 <= k < n ensures IndexName(uniques[k].columns, table) != name {
        if IndexName(rest[k].columns, table) == name {
          IndexIsMade(indexes, table, rest, k);
        }
      }
    }
  }

  /** Every constraint's name is that of some index afterwards. */
  lemma {:induction false} IndexIsMade(indexes: map<string, Index>, table: TableName, uniques: seq<UniqueConstraint>, i: nat)
    requires i < |uniques|
    ensures IndexName(uniques[i].columns, table) in WithIndexes(indexes, table, uniques)
    decreases |uniques|
  {
    var n := |uniques| - 1;
    if i < n {
      IndexIsMade(indexes, table, uniques[..n], i);
    }
  }

  /** What an index name stands for after the statements: what it stood for, or the first constraint
      with that name. */
  lemma IndexMeaning(indexes: map<string, Index>, table: TableName, uniques: seq<UniqueConstraint>, name: string)
    ensures name in indexes ==> name in WithIndexes(indexes, table, uniques) && WithIndexes(indexes, table, uniques)[name] == indexes[name]
    ensures name !in indexes && name in WithIndexes(indexes, table, uniques) ==>
              exists i :: FirstWithName(table, uniques, name, i)
                          && WithIndexes(indexes, table, uniques)[name] == Index(table, uniques[i].columns)
    ensures (exists i :: 0 <= i < |uniques| && IndexName(uniques[i].columns, table) == name) ==> name in WithIndexes(indexes, table, uniques)
  {
    if name in indexes {
      IndexStays(indexes, table, uniques, name);
    } else if name in WithIndexes(indexes, table, uniques) {
      var i := IndexIsOfFirst(indexes, table, uniques, name);
    } else {
      forall i | 0 <= i < |uniques| ensures IndexName(uniques[i].columns, table) != name {
        IndexIsMade(indexes, table, uniques, i);
      }
    }
  }

  predicate FirstWithName(table: TableName, uniques: seq<UniqueConstraint>, name: string, i: int) {
    0 <= i < |uniques| && IndexName(uniques[i].columns, table) == name
    && forall k :: 0 <= k < i ==> IndexName(uniques[k].columns, table) != name
  }

  /** Recreating re-establishes every unique constraint exactly when the generated names do not
      collide: CREATE UNIQUE INDEX IF NOT EXISTS skips a taken name without a word. */
  lemma UniquenessIsReestablished(db: Db, t: TableSpec, uniques: seq<UniqueConstraint>)
    ensures var others := WithoutIndexesOn(db.indexes, t.name);
            (forall i :: 0 <= i < |uniques| ==> Enforced(WithIndexes(others, t.name, uniques), t.name, uniques[i].columns))
            <==> NoCollision(others, t.name, uniques)
  {
    var others := WithoutIndexesOn(db.indexes, t.name);
    var after := WithIndexes(others, t.name, uniques);
    if NoCollision(others, t.name, uniques) {
      forall i | 0 <= i < |uniques| ensures Enforced(after, t.name, uniques[i].columns) {
        var name := IndexName(uniques[i].columns, t.name);
        IndexMeaning(others, t.name, uniques, name);
        var k :| FirstWithName(t.name, uniques, name, k) && after[name] == Index(t.name, uniques[k].columns);
      }
    }
    if forall i :: 0 <= i < |uniques| ==> Enforced(after, t.name, uniques[i].columns) {
      forall i | 0 <= i < |uniques| ensures IndexName(uniques[i].columns, t.name) !in others {
        IndexMeaning(others, t.name, uniques, IndexName(uniques[i].columns, t.name));
        assert Enforced(after, t.name, uniques[i].columns);
      }
      forall i, j | 0 <= i < |uniques| && 0 <= j < |uniques|
                    && IndexName(uniques[i].columns, t.name) == IndexName(uniques[j].columns, t.name)
        ensures uniques[i].columns == uniques[j].columns
      {
        assert Enforced(after, t.name, uniques[i].columns) && Enforced(after, t.name, uniques[j].columns);
      }
    }
  }

  /** Two different unique constraints of one table can share a generated name. */
  lemma NamesCanCollide()
    ensures IndexName(["a", "b"], "t") == IndexName(["a_b"], "t")
  {
    assert Joined(["a"]) == "a";
    assert ["a", "b"][..1] == ["a"];
    assert Joined(["a", "b"]) == "a" + "_" + "b";
  }
}
