/** Both dialects, altering in place and recreating, take a database to the same place, and the
    table object ends as a description of it. */
module SchemaDialects {
  import opened Options
  import opened Schema
  import opened Database
  import opened SchemaOperator
  import opened SchemaTheorems

  // ----- a database that follows a table object -----

  /** The stored table is the described one. */
  ghost predicate Described(table: StoredTable, t: TableSpec) {
    table.columns == t.columns && table.pk == NamedPk(t.pk, t.name) && table.fks == NamedFks(t.fks, t.name)
  }

  /** A description the database could have accepted: no column and no constraint name twice, and a
      primary key over columns of the table. */
  ghost predicate WellFormed(t: TableSpec) {
    DistinctNames(t.columns)
    && (forall i, j :: 0 <= i < j < |t.fks| ==> ForeignKeyName(t.fks[i], t.name) != ForeignKeyName(t.fks[j], t.name))
    && (t.pk.Some? ==>
          (forall c :: c in t.pk.value.columns ==> c in Names(t.columns))
          && forall i :: 0 <= i < |t.fks| ==> ForeignKeyName(t.fks[i], t.name) != PrimaryKeyName(t.pk.value, t.name))
  }

  /** The table's indexes are over its columns and hold on its rows. */
  ghost predicate IndexesFit(indexes: map<string, Index>, t: TableSpec, rows: seq<Row>) {
    IndexesHold(indexes, t.name, rows)
    && forall i :: i in indexes && indexes[i].on == t.name ==> forall c :: c in indexes[i].names ==> c in Names(t.columns)
  }

  /** The database is in the state the table object describes. */
  ghost predicate InSync(db: Db, t: TableSpec) {
    t.name in db.tables && Described(db.tables[t.name], t) && WellFormed(t)
    && TableOk(db.tables[t.name]) && AllExact(db.tables[t.name].rows, t.columns)
    && IndexesFit(db.indexes, t, db.tables[t.name].rows)
    && TempName(t.name) !in db.tables
    && forall i :: i in db.indexes ==> db.indexes[i].on in db.tables
  }

  /** The unique constraints are over known columns and hold on the rows. */
  ghost predicate UniquesFit(t: TableSpec, rows: seq<Row>, uniques: seq<UniqueConstraint>) {
    RowsUnique(rows, uniques)
    && forall i :: 0 <= i < |uniques| ==> forall c :: c in uniques[i].columns ==> c in Names(t.columns)
  }

  /** The table has, under the generated names, exactly the indexes of the unique constraints. */
  ghost predicate IndexesMatch(indexes: map<string, Index>, table: TableName, uniques: seq<UniqueConstraint>) {
    (forall name :: name in indexes && indexes[name].on == table ==>
                      exists i :: FirstWithName(table, uniques, name, i) && indexes[name] == Index(table, uniques[i].columns))
    && forall i :: 0 <= i < |uniques| ==> IndexName(uniques[i].columns, table) in indexes
  }

  /** Dropping the table and indexing its constraints again gives the indexes back exactly when the
      table had those indexes and no others. */
  lemma IndexesComeBack(indexes: map<string, Index>, table: TableName, uniques: seq<UniqueConstraint>)
    ensures WithIndexes(WithoutIndexesOn(indexes, table), table, uniques) == indexes <==> IndexesMatch(indexes, table, uniques)
  {
    var others := WithoutIndexesOn(indexes, table);
    var after := WithIndexes(others, table, uniques);
    forall name
      ensures name in others ==> name in after && after[name] == indexes[name]
      ensures name !in others && name in after ==>
                exists i :: FirstWithName(table, uniques, name, i) && after[name] == Index(table, uniques[i].columns)
    {
      IndexMeaning(others, table, uniques, name);
    }
    forall i | 0 <= i < |uniques| ensures IndexName(uniques[i].columns, table) in after {
      IndexMeaning(others, table, uniques, IndexName(uniques[i].columns, table));
    }
    if IndexesMatch(indexes, table, uniques) {
      forall name ensures name in after <==> name in indexes
        ensures name in after ==> after[name] == indexes[name]
      {
        SameIndex(indexes, table, uniques, name);
      }
      assert after == indexes;
    }
  }

  lemma SameIndex(indexes: map<string, Index>, table: TableName, uniques: seq<UniqueConstraint>, name: string)
    requires IndexesMatch(indexes, table, uniques)
    ensures var after := WithIndexes(WithoutIndexesOn(indexes, table), table, uniques);
            (name in after <==> name in indexes) && (name in after ==> after[name] == indexes[name])
  {
    var others := WithoutIndexesOn(indexes, table);
    var after := WithIndexes(others, table, uniques);
    IndexMeaning(others, table, uniques, name);
    if name !in others {
      if name in after {
        var i :| FirstWithName(table, uniques, name, i) && after[name] == Index(table, uniques[i].columns);
        assert name in indexes && indexes[name].on == table;
      }
      if name in indexes {
        var i :| FirstWithName(table, uniques, name, i) && indexes[name] == Index(table, uniques[i].columns);
      }
    }
  }

  // ----- recreating a table the database already has -----

  lemma SyncIsRecreatable(db: Db, t: TableSpec)
    requires InSync(db, t)
    ensures Recreatable(db, t) && Recreated(t, db.tables[t.name].rows) == db.tables[t.name]
  {
    ColumnsAreThere(t.columns);
    ExactRowsStay(db.tables[t.name].rows, t.columns);
  }

  /** Recreating an unchanged table gives back the very same database exactly when the table has the
      indexes of its unique constraints and no others; other indexes of the table are lost. */
  lemma RecreateIsIdentity(db: Db, t: TableSpec, uniques: seq<UniqueConstraint>)
    requires InSync(db, t) && UniquesFit(t, db.tables[t.name].rows, uniques)
    ensures Run(db, RecreateStmts(t, uniques)) == Some(db) <==> IndexesMatch(db.indexes, t.name, uniques)
  {
    SyncIsRecreatable(db, t);
    RecreatePreserves(db, t, uniques);
    IndexesComeBack(db.indexes, t.name, uniques);
    assert db.tables[t.name := db.tables[t.name]] == db.tables;
  }

  // ----- dropping a key constraint -----

  /** The stored table without the constraint of a name. */
  function WithoutConstraint(table: StoredTable, name: string): StoredTable {
    table.(pk := if table.pk.Some? && table.pk.value.name == Some(name) then None else table.pk,
           fks := DroppedFk(table.fks, name))
  }

  lemma {:induction false} NoFkOfName(fks: seq<ForeignKey>, name: string)
    requires forall i :: 0 <= i < |fks| ==> fks[i].name != Some(name)
    ensures DroppedFk(fks, name) == fks
  {
    if fks != [] {
      NoFkOfName(fks[..|fks| - 1], name);
    }
  }

  /** With distinct names, dropping by name removes the one foreign key of that name. */
  lemma {:induction false} OneFkOfName(fks: seq<ForeignKey>, name: string, i: nat)
    requires i < |fks| && fks[i].name == Some(name)
    requires forall k :: 0 <= k < |fks| && k != i ==> fks[k].name != Some(name)
    ensures DroppedFk(fks, name) == fks[..i] + fks[i + 1..]
  {
    var n := |fks| - 1;
    if i == n {
      NoFkOfName(fks[..n], name);
    } else {
      OneFkOfName(fks[..n], name, i);
      assert fks[..n][..i] + fks[..n][i + 1..] + [fks[n]] == fks[..i] + fks[i + 1..];
    }
  }

  lemma PkByName(t: TableSpec)
    requires WellFormed(t) && t.pk.Some?
    ensures DroppedFk(NamedFks(t.fks, t.name), PrimaryKeyName(t.pk.value, t.name)) == NamedFks(t.fks, t.name)
    ensures WellFormed(t.(pk := None))
  {
    var fks := NamedFks(t.fks, t.name);
    forall k | 0 <= k < |fks| ensures fks[k].name != Some(PrimaryKeyName(t.pk.value, t.name)) {
    }
    NoFkOfName(fks, PrimaryKeyName(t.pk.value, t.name));
  }

  lemma FkByName(t: TableSpec, i: nat)
    requires WellFormed(t) && i < |t.fks|
    ensures DroppedFk(NamedFks(t.fks, t.name), ForeignKeyName(t.fks[i], t.name)) == NamedFks(t.fks[..i] + t.fks[i + 1..], t.name)
    ensures WellFormed(t.(fks := t.fks[..i] + t.fks[i + 1..]))
  {
    var fks := NamedFks(t.fks, t.name);
    var left := t.fks[..i] + t.fks[i + 1..];
    forall k | 0 <= k < |fks| && k != i ensures fks[k].name != fks[i].name {
      assert ForeignKeyName(t.fks[k], t.name) != ForeignKeyName(t.fks[i], t.name);
    }
    OneFkOfName(fks, ForeignKeyName(t.fks[i], t.name), i);
    assert NamedFks(left, t.name) == fks[..i] + fks[i + 1..];
    LeftIsWellFormed(t, i);
  }

  lemma LeftIsWellFormed(t: TableSpec, i: nat)
    requires WellFormed(t) && i < |t.fks|
    ensures WellFormed(t.(fks := t.fks[..i] + t.fks[i + 1..]))
  {
    var left := t.fks[..i] + t.fks[i + 1..];
    forall k, m | 0 <= k < m < |left| ensures ForeignKeyName(left[k], t.name) != ForeignKeyName(left[m], t.name) {
      var k', m' := if k < i then k else k + 1, if m < i then m else m + 1;
      assert left[k] == t.fks[k'] && left[m] == t.fks[m'];
    }
  }

  /** Dropping the found constraint by its name leaves the table the object now describes. */
  lemma DropByName(table: StoredTable, t: TableSpec, wanted: AnyConstraint)
    requires Described(table, t) && WellFormed(t) && TableWithout(t, wanted).1.Some?
    ensures var (left, dropped) := TableWithout(t, wanted);
            WithoutConstraint(table, dropped.value) == StoredTable(left.columns, NamedPk(left.pk, left.name), NamedFks(left.fks, left.name), table.rows)
            && WellFormed(left) && left.name == t.name && left.columns == t.columns && (left.pk.Some? ==> left.pk == t.pk)
  {
    if t.pk.Some? && Equals(wanted, Primary(t.pk.value)) {
      PkByName(t);
    } else {
      FkByName(t, FindFk(t.fks, wanted));
    }
  }

  lemma RecreateWithout(db: Db, t: TableSpec, left: TableSpec, uniques: seq<UniqueConstraint>)
    requires InSync(db, t) && RowsUnique(db.tables[t.name].rows, uniques)
    requires left.name == t.name && left.columns == t.columns && (left.pk.Some? ==> left.pk == t.pk)
    ensures var after := StoredTable(left.columns, NamedPk(left.pk, left.name), NamedFks(left.fks, left.name), db.tables[t.name].rows);
            Run(db, RecreateStmts(left, uniques))
            == Some(Db(db.tables[t.name := after], WithIndexes(WithoutIndexesOn(db.indexes, t.name), t.name, uniques)))
  {
    SyncIsRecreatable(db, t);
    RecreatePreserves(db, left, uniques);
  }

  /** Dropping a constraint gives the table the object describes, whatever the dialect can do: same
      rows, columns and key constraints, all other tables the same. Only recreating can change the
      table's indexes. The object and the database are in step again. */
  lemma DropConstraintReaches(db: Db, t: TableSpec, uniques: seq<UniqueConstraint>, uniqueIndex: int, wanted: AnyConstraint, support: OperatorSupport)
    requires InSync(db, t) && UniquesFit(t, db.tables[t.name].rows, uniques)
    requires IsUniqueIndex(uniques, wanted, uniqueIndex) && TableWithout(t, wanted).1.Some?
    ensures var left := TableWithout(t, wanted).0;
            var after := StoredTable(left.columns, NamedPk(left.pk, left.name), NamedFks(left.fks, left.name), db.tables[t.name].rows);
            Run(db, DropConstraintStmts(t, uniques, uniqueIndex, wanted, support))
            == Some(Db(db.tables[t.name := after],
                       if support.dropConstraint then db.indexes
                       else WithIndexes(WithoutIndexesOn(db.indexes, t.name), t.name, uniques)))
            && WellFormed(left)
  {
    var (left, dropped) := TableWithout(t, wanted);
    DropByName(db.tables[t.name], t, wanted);
    if support.dropConstraint {
      var s := Stmt.DropConstraint(t.name, dropped.value);
      RunOne(db, s, []);
      assert [s] + [] == [s];
    } else {
      RecreateWithout(db, t, left, uniques);
    }
  }

  /** Any two dialects reach the same database, as long as the table has no indexes besides those of
      its unique constraints. */
  lemma DropConstraintIsDialectIndependent(db: Db, t: TableSpec, uniques: seq<UniqueConstraint>, uniqueIndex: int, wanted: AnyConstraint,
                                           one: OperatorSupport, other: OperatorSupport)
    requires InSync(db, t) && UniquesFit(t, db.tables[t.name].rows, uniques)
    requires IsUniqueIndex(uniques, wanted, uniqueIndex) && TableWithout(t, wanted).1.Some?
    requires one.dropConstraint != other.dropConstraint
    ensures Run(db, DropConstraintStmts(t, uniques, uniqueIndex, wanted, one))
            == Run(db, DropConstraintStmts(t, uniques, uniqueIndex, wanted, other))
            <==> IndexesMatch(db.indexes, t.name, uniques)
  {
    DropConstraintReaches(db, t, uniques, uniqueIndex, wanted, one);
    DropConstraintReaches(db, t, uniques, uniqueIndex, wanted, other);
    IndexesComeBack(db.indexes, t.name, uniques);
  }

  /** The indexes that recreating leaves fit the rows, and belong to tables that exist. */
  lemma NewIndexesFit(indexes: map<string, Index>, tables: set<TableName>, t: TableSpec, rows: seq<Row>, uniques: seq<UniqueConstraint>)
    requires UniquesFit(t, rows, uniques)
    requires t.name in tables && forall i :: i in indexes ==> indexes[i].on in tables
    ensures var after := WithIndexes(WithoutIndexesOn(indexes, t.name), t.name, uniques);
            IndexesFit(after, t, rows) && forall i :: i in after ==> after[i].on in tables
  {
    var others := WithoutIndexesOn(indexes, t.name);
    var after := WithIndexes(others, t.name, uniques);
    forall name | name in after
      ensures after[name].on in tables
      ensures after[name].on == t.name ==> UniqueOn(rows, after[name].names) && forall c :: c in after[name].names ==> c in Names(t.columns)
    {
      IndexMeaning(others, t.name, uniques, name);
      if name !in others {
        var i :| FirstWithName(t.name, uniques, name, i) && after[name] == Index(t.name, uniques[i].columns);
      }
    }
  }

  /** Whichever way a constraint is dropped, the object describes the database again. */
  lemma DropConstraintStaysInSync(db: Db, t: TableSpec, uniques: seq<UniqueConstraint>, uniqueIndex: int, wanted: AnyConstraint, support: OperatorSupport)
    requires InSync(db, t) && UniquesFit(t, db.tables[t.name].rows, uniques)
    requires IsUniqueIndex(uniques, wanted, uniqueIndex) && TableWithout(t, wanted).1.Some?
    ensures var after := Run(db, DropConstraintStmts(t, uniques, uniqueIndex, wanted, support));
            after.Some? && InSync(after.value, TableWithout(t, wanted).0)
  {
    DropConstraintReaches(db, t, uniques, uniqueIndex, wanted, support);
    DropByName(db.tables[t.name], t, wanted);
    NewIndexesFit(db.indexes, db.tables.Keys, t, db.tables[t.name].rows, uniques);
    var after := Run(db, DropConstraintStmts(t, uniques, uniqueIndex, wanted, support)).value;
    assert after.tables.Keys == db.tables.Keys;
  }

  // ----- adding a column -----

  /** What the new column is in an old row: its default if it may be null; else the zero value of its
      type if no value is given, the given constant, or what the row has in the given column. */
  function NewValue(row: Row, column: Column, val: Option<Source>): Value {
    if column.nullable then DefaultOf(column)
    else
      match val
      case None => column.dataType.zero
      case Some(Literal(v)) => v
      case Some(FromColumn(c)) => if c == column.name then DefaultOf(column) else Get(row, c)
  }

  function FilledRows(rows: seq<Row>, column: Column, val: Option<Source>): seq<Row> {
    seq(|rows|, i requires 0 <= i < |rows| => rows[i][column.name := NewValue(rows[i], column, val)])
  }

  /** The column is added with its default and then, unless it may be null, updated. */
  lemma FilledInTwo(rows: seq<Row>, column: Column, val: Option<Source>)
    ensures var added := WithColumn(rows, column.name, DefaultOf(column));
            FilledRows(rows, column, val)
            == if column.nullable then added else UpdatedRows(added, column.name, FillValue(column, val))
  {
    var added := WithColumn(rows, column.name, DefaultOf(column));
    forall i | 0 <= i < |rows|
      ensures !column.nullable ==> FilledRows(rows, column, val)[i] == UpdatedRows(added, column.name, FillValue(column, val))[i]
    {
      SetTwice(rows[i], column.name, DefaultOf(column), NewValue(rows[i], column, val));
    }
  }

  /** What adding a column gives: the column at the end; in every row its default if it may be null,
      else the given value or the zero value of its type, whatever its default. */
  function WithAdded(table: StoredTable, column: Column, val: Option<Source>): StoredTable {
    table.(columns := table.columns + [column], rows := FilledRows(table.rows, column, val))
  }

  ghost predicate NoNulls(rows: seq<Row>, name: ColumnName) {
    forall i :: 0 <= i < |rows| ==> Get(rows[i], name) != Null
  }

  /** When it can be added: a column that must not be null is filled from an existing column or with
      a value, without nulls, and has no null as its default. */
  ghost predicate Addable(table: StoredTable, column: Column, val: Option<Source>) {
    column.nullable
    || ((column.default == Some(Null) ==> table.rows == [])
        && (val.Some? && val.value.FromColumn? ==> HasColumn(table.columns + [column], val.value.column))
        && NoNulls(FilledRows(table.rows, column, val), column.name))
  }

  /** The rows differ in one column only. */
  ghost predicate SetIn(rows: seq<Row>, after: seq<Row>, name: ColumnName) {
    |after| == |rows| && forall i :: 0 <= i < |rows| ==> after[i] == rows[i][name := Get(after[i], name)]
  }

  lemma UniqueAside(rows: seq<Row>, after: seq<Row>, name: ColumnName, columns: seq<ColumnName>)
    requires SetIn(rows, after, name) && name !in columns && UniqueOn(rows, columns)
    ensures UniqueOn(after, columns)
  {
    forall i, j | 0 <= i < j < |after| ensures !Clash(after[i], after[j], columns) {
      var c :| c in columns && !(Get(rows[i], c) == Get(rows[j], c) && Get(rows[i], c) != Null);
      assert after[i] == rows[i][name := Get(after[i], name)] && after[j] == rows[j][name := Get(after[j], name)];
      assert Get(after[i], c) == Get(rows[i], c) && Get(after[j], c) == Get(rows[j], c);
    }
  }

  /** A new column at the end leaves a table in order exactly when it may be null or has no nulls. */
  lemma NewColumnFits(db: Db, t: TableSpec, column: Column, after: seq<Row>)
    requires InSync(db, t) && column.name !in Names(t.columns)
    requires SetIn(db.tables[t.name].rows, after, column.name)
    ensures TableOk(db.tables[t.name].(columns := t.columns + [column], rows := after)) <==> column.nullable || NoNulls(after, column.name)
    ensures IndexesHold(db.indexes, t.name, after)
    ensures AllExact(after, t.columns + [column])
  {
    var rows := db.tables[t.name].rows;
    var columns := t.columns + [column];
    if t.pk.Some? {
      UniqueAside(rows, after, column.name, t.pk.value.columns);
    }
    forall i | i in db.indexes && db.indexes[i].on == t.name ensures UniqueOn(after, db.indexes[i].names) {
      UniqueAside(rows, after, column.name, db.indexes[i].names);
    }
    forall i | 0 <= i < |rows|
      ensures RowFits(after[i], columns) <==> column.nullable || Get(after[i], column.name) != Null
      ensures Exact(after[i], columns)
    {
      NewColumnInRow(rows[i], after[i], t.columns, column);
    }
    if TableOk(db.tables[t.name].(columns := columns, rows := after)) && !column.nullable {
      forall i | 0 <= i < |after| ensures Get(after[i], column.name) != Null {
        assert RowFits(after[i], columns);
      }
    }
  }

  lemma NewColumnInRow(row: Row, after: Row, columns: seq<Column>, column: Column)
    requires RowFits(row, columns) && Exact(row, columns) && column.name !in Names(columns)
    requires after == row[column.name := Get(after, column.name)]
    ensures RowFits(after, columns + [column]) <==> column.nullable || Get(after, column.name) != Null
    ensures Exact(after, columns + [column])
  {
    NamesExtend(columns + [column]);
    assert (columns + [column])[..|columns|] == columns;
    forall i | 0 <= i < |columns| ensures columns[i].name != column.name {
      NameMember(columns, i);
    }
    assert (columns + [column])[|columns|] == column;
  }

  lemma UnknownIsUnnamed(columns: seq<Column>, name: ColumnName)
    requires !HasColumn(columns, name)
    ensures name !in Names(columns)
  {
    if name in Names(columns) {
      ColumnsAreThere(columns);
    }
  }

  // ----- the three statements -----

  lemma ColumnIsAdded(db: Db, t: TableSpec, column: Column, ifNotExists: bool)
    requires InSync(db, t) && !KnowsColumn(t, column.name)
    ensures var table := db.tables[t.name];
            var rows := WithColumn(table.rows, column.name, DefaultOf(column));
            Exec(db, AddStmt(t.name, column, ifNotExists))
            == if !column.nullable && column.default == Some(Null) && table.rows != [] then None
               else Some(db.(tables := db.tables[t.name := table.(columns := t.columns + [AddedAs(column)], rows := rows)]))
  {
    var table := db.tables[t.name];
    var rows := WithColumn(table.rows, column.name, DefaultOf(column));
    UnknownIsUnnamed(t.columns, column.name);
    assert SetIn(table.rows, rows, column.name);
    NewColumnFits(db, t, AddedAs(column), rows);
    if rows != [] {
      assert Get(rows[0], column.name) == DefaultOf(column);
    }
  }

  lemma ColumnIsFilled(db: Db, t: TableSpec, column: Column, val: Option<Source>)
    requires InSync(db, t) && !KnowsColumn(t, column.name) && !column.nullable
    ensures var table := db.tables[t.name];
            var rows := WithColumn(table.rows, column.name, DefaultOf(column));
            var added := db.(tables := db.tables[t.name := table.(columns := t.columns + [AddedAs(column)], rows := rows)]);
            var fill := FillValue(column, val);
            var filled := FilledRows(table.rows, column, val);
            Exec(added, Stmt.Update(t.name, column.name, fill))
            == if (fill.FromColumn? && !HasColumn(t.columns + [column], fill.column))
                  || (column.default.Some? && !NoNulls(filled, column.name)) then None
               else Some(db.(tables := db.tables[t.name := table.(columns := t.columns + [AddedAs(column)], rows := filled)]))
  {
    var table := db.tables[t.name];
    var rows := WithColumn(table.rows, column.name, DefaultOf(column));
    var columns := t.columns + [AddedAs(column)];
    var added := db.(tables := db.tables[t.name := table.(columns := columns, rows := rows)]);
    var fill := FillValue(column, val);
    var filled := FilledRows(table.rows, column, val);
    FilledInTwo(table.rows, column, val);
    UnknownIsUnnamed(t.columns, column.name);
    assert SetIn(table.rows, filled, column.name);
    NewColumnFits(db, t, AddedAs(column), filled);
    assert HasColumn(columns, column.name) by {
      assert columns[|t.columns|].name == column.name;
    }
    SameNames(t.columns, column);
    SetTwice(db.tables, t.name, added.tables[t.name], table.(columns := columns, rows := filled));
  }

  lemma SetTwice<K, V>(m: map<K, V>, k: K, first: V, second: V)
    ensures m[k := first][k := second] == m[k := second]
  {
  }

  lemma SameNames(columns: seq<Column>, column: Column)
    ensures forall name :: HasColumn(columns + [AddedAs(column)], name) <==> HasColumn(columns + [column], name)
  {
    forall name ensures HasColumn(columns + [AddedAs(column)], name) <==> HasColumn(columns + [column], name) {
      var a, b := columns + [AddedAs(column)], columns + [column];
      assert |a| == |b| && forall i :: 0 <= i < |a| ==> a[i].name == b[i].name;
      if i :| 0 <= i < |a| && a[i].name == name {
        assert b[i].name == name;
      }
      if i :| 0 <= i < |b| && b[i].name == name {
        assert a[i].name == name;
      }
    }
  }

  lemma OnlyTheNewColumn(columns: seq<Column>, column: Column)
    requires column.name !in Names(columns) && !column.nullable
    ensures WithoutNull(columns + [AddedAs(column)], column.name) == columns + [column]
    ensures HasColumn(columns + [AddedAs(column)], column.name)
  {
    var all := columns + [AddedAs(column)];
    assert all[|columns|].name == column.name;
    forall i | 0 <= i < |all| ensures WithoutNull(all, column.name)[i] == (columns + [column])[i] {
      if i < |columns| {
        NameMember(columns, i);
      }
    }
  }

  /** The column is made NOT NULL in place, exactly when it has no nulls. */
  lemma NotNullIsSet(db: Db, t: TableSpec, column: Column, filled: seq<Row>)
    requires InSync(db, t) && !KnowsColumn(t, column.name) && !column.nullable
    requires SetIn(db.tables[t.name].rows, filled, column.name)
    ensures var table := db.tables[t.name];
            var before := db.(tables := db.tables[t.name := table.(columns := t.columns + [AddedAs(column)], rows := filled)]);
            Exec(before, Stmt.SetNotNull(t.name, column.name))
            == if NoNulls(filled, column.name)
               then Some(db.(tables := db.tables[t.name := table.(columns := t.columns + [column], rows := filled)])) else None
  {
    var table := db.tables[t.name];
    var columns := t.columns + [AddedAs(column)];
    var before := db.(tables := db.tables[t.name := table.(columns := columns, rows := filled)]);
    UnknownIsUnnamed(t.columns, column.name);
    NewColumnFits(db, t, column, filled);
    OnlyTheNewColumn(t.columns, column);
    var after := table.(columns := t.columns + [column], rows := filled);
    assert before.tables[t.name].(columns := WithoutNull(columns, column.name)) == after;
    assert Exec(before, Stmt.SetNotNull(t.name, column.name)) == Checked(before, t.name, after);
    SetTwice(db.tables, t.name, before.tables[t.name], after);
  }

  // ----- adding a column, whatever the dialect -----

  lemma WiderIsRecreatable(db: Db, t: TableSpec, column: Column, filled: seq<Row>)
    requires InSync(db, t) && !KnowsColumn(t, column.name)
    requires SetIn(db.tables[t.name].rows, filled, column.name)
    ensures var table := db.tables[t.name];
            var before := db.(tables := db.tables[t.name := table.(columns := t.columns + [AddedAs(column)], rows := filled)]);
            Recreatable(before, TableWithColumn(t, column))
            && Recreated(TableWithColumn(t, column), filled) == table.(columns := t.columns + [column], rows := filled)
  {
    var columns := t.columns + [column];
    UnknownIsUnnamed(t.columns, column.name);
    NewColumnFits(db, t, column, filled);
    ColumnsAreThere(columns);
    SameNames(t.columns, column);
    ExactRowsStay(filled, columns);
  }

  /** The recreated table has the column as NOT NULL, exactly when it has no nulls. */
  lemma RecreateWith(db: Db, t: TableSpec, uniques: seq<UniqueConstraint>, column: Column, filled: seq<Row>)
    requires InSync(db, t) && UniquesFit(t, db.tables[t.name].rows, uniques)
    requires !KnowsColumn(t, column.name) && !column.nullable
    requires SetIn(db.tables[t.name].rows, filled, column.name)
    ensures var table := db.tables[t.name];
            var before := db.(tables := db.tables[t.name := table.(columns := t.columns + [AddedAs(column)], rows := filled)]);
            Run(before, RecreateStmts(TableWithColumn(t, column), uniques))
            == if NoNulls(filled, column.name)
               then Some(Db(db.tables[t.name := table.(columns := t.columns + [column], rows := filled)],
                            WithIndexes(WithoutIndexesOn(db.indexes, t.name), t.name, uniques)))
               else None
  {
    var table := db.tables[t.name];
    var wider := TableWithColumn(t, column);
    var before := db.(tables := db.tables[t.name := table.(columns := t.columns + [AddedAs(column)], rows := filled)]);
    var after := table.(columns := t.columns + [column], rows := filled);
    UnknownIsUnnamed(t.columns, column.name);
    NewColumnFits(db, t, column, filled);
    WiderIsRecreatable(db, t, column, filled);
    if NoNulls(filled, column.name) {
      UniquesStay(t, db.tables[t.name].rows, filled, column.name, uniques);
      RecreatePreserves(before, wider, uniques);
    } else {
      CopyPreserves(before, wider);
      RunConcat(before, CopyStmts(wider), IndexStmts(t.name, uniques));
    }
    SetTwice(db.tables, t.name, before.tables[t.name], after);
  }

  lemma UniquesStay(t: TableSpec, rows: seq<Row>, after: seq<Row>, name: ColumnName, uniques: seq<UniqueConstraint>)
    requires UniquesFit(t, rows, uniques) && SetIn(rows, after, name) && name !in Names(t.columns)
    ensures RowsUnique(after, uniques)
  {
    forall i | 0 <= i < |uniques| ensures UniqueOn(after, uniques[i].columns) {
      UniqueAside(rows, after, name, uniques[i].columns);
    }
  }

  lemma FilledIn(rows: seq<Row>, column: Column, val: Option<Source>)
    ensures SetIn(rows, FilledRows(rows, column, val), column.name)
  {
  }

  lemma RunThen(db: Db, s: Stmt, t: Stmt, rest: seq<Stmt>)
    ensures Run(db, [s] + ([t] + rest))
            == if Exec(db, s).None? then None
               else if Exec(Exec(db, s).value, t).None? then None
               else Run(Exec(Exec(db, s).value, t).value, rest)
  {
    RunOne(db, s, [t] + rest);
    if Exec(db, s).Some? {
      RunOne(Exec(db, s).value, t, rest);
    }
  }

  /** Adding an unknown column gives the same table whatever the dialect can do: it fails exactly
      when the column cannot be added, and else the table has the column and the filled rows, with
      the same key constraints, and all other tables are the same. Only recreating can change the
      table's indexes. */
  lemma AddColumnReaches(db: Db, t: TableSpec, uniques: seq<UniqueConstraint>, column: Column, val: Option<Source>, support: OperatorSupport)
    requires InSync(db, t) && UniquesFit(t, db.tables[t.name].rows, uniques) && !KnowsColumn(t, column.name)
    ensures Run(db, AddColumnStmts(t, uniques, column, val, support))
            == if Addable(db.tables[t.name], column, val)
               then Some(Db(db.tables[t.name := WithAdded(db.tables[t.name], column, val)],
                            if column.nullable || support.alterColumnSetNotNull then db.indexes
                            else WithIndexes(WithoutIndexesOn(db.indexes, t.name), t.name, uniques)))
               else None
  {
    var add := AddStmt(t.name, column, support.columnIfNotExistsExists);
    ColumnIsAdded(db, t, column, support.columnIfNotExistsExists);
    if column.nullable {
      FilledInTwo(db.tables[t.name].rows, column, val);
      assert AddColumnStmts(t, uniques, column, val, support) == [add] + [];
      RunOne(db, add, []);
    } else {
      var fill := Stmt.Update(t.name, column.name, FillValue(column, val));
      var filled := FilledRows(db.tables[t.name].rows, column, val);
      FilledInTwo(db.tables[t.name].rows, column, val);
      var rest := if support.alterColumnSetNotNull then [Stmt.SetNotNull(t.name, column.name)] + []
                  else RecreateStmts(TableWithColumn(t, column), uniques);
      assert AddColumnStmts(t, uniques, column, val, support) == [add] + ([fill] + rest);
      RunThen(db, add, fill, rest);
      ColumnIsFilled(db, t, column, val);
      FilledIn(db.tables[t.name].rows, column, val);
      if support.alterColumnSetNotNull {
        NotNullIsSet(db, t, column, filled);
        var before := db.(tables := db.tables[t.name := db.tables[t.name].(columns := t.columns + [AddedAs(column)], rows := filled)]);
        RunOne(before, Stmt.SetNotNull(t.name, column.name), []);
      } else {
        RecreateWith(db, t, uniques, column, filled);
      }
    }
  }

  /** Whichever way the column is added, the object describes the database again. */
  lemma AddColumnStaysInSync(db: Db, t: TableSpec, uniques: seq<UniqueConstraint>, column: Column, val: Option<Source>, support: OperatorSupport)
    requires InSync(db, t) && UniquesFit(t, db.tables[t.name].rows, uniques)
    ensures var after := Run(db, AddColumnStmts(t, uniques, column, val, support));
            after.Some? ==> InSync(after.value, TableWithColumn(t, column))
  {
    var after := Run(db, AddColumnStmts(t, uniques, column, val, support));
    if !KnowsColumn(t, column.name) && after.Some? {
      var wider := TableWithColumn(t, column);
      var rows := db.tables[t.name].rows;
      var filled := FilledRows(rows, column, val);
      AddColumnReaches(db, t, uniques, column, val, support);
      UnknownIsUnnamed(t.columns, column.name);
      FilledIn(rows, column, val);
      NewColumnFits(db, t, column, filled);
      WiderIsWellFormed(t, column);
      UniquesStay(t, rows, filled, column.name, uniques);
      NewIndexesFit(db.indexes, db.tables.Keys, wider, filled, uniques);
      assert after.value.tables.Keys == db.tables.Keys;
    }
  }

  lemma WiderIsWellFormed(t: TableSpec, column: Column)
    requires WellFormed(t) && column.name !in Names(t.columns)
    ensures WellFormed(t.(columns := t.columns + [column]))
    ensures forall c :: c in Names(t.columns) ==> c in Names(t.columns + [column])
  {
    NamesExtend(t.columns + [column]);
    assert (t.columns + [column])[..|t.columns|] == t.columns;
    forall i | 0 <= i < |t.columns| ensures t.columns[i].name != column.name {
      NameMember(t.columns, i);
    }
  }

  /** Two dialects, one of which alters in place, reach the same database unless the table is
      recreated and had indexes other than those of its unique constraints. */
  lemma AddColumnIsDialectIndependent(db: Db, t: TableSpec, uniques: seq<UniqueConstraint>, column: Column, val: Option<Source>,
                                      one: OperatorSupport, other: OperatorSupport)
    requires InSync(db, t) && UniquesFit(t, db.tables[t.name].rows, uniques) && !KnowsColumn(t, column.name)
    requires one.alterColumnSetNotNull != other.alterColumnSetNotNull
    ensures Run(db, AddColumnStmts(t, uniques, column, val, one)) == Run(db, AddColumnStmts(t, uniques, column, val, other))
            <==> column.nullable || !Addable(db.tables[t.name], column, val) || IndexesMatch(db.indexes, t.name, uniques)
  {
    AddColumnReaches(db, t, uniques, column, val, one);
    AddColumnReaches(db, t, uniques, column, val, other);
    IndexesComeBack(db.indexes, t.name, uniques);
  }

  /** A database that has the column although the table object does not know it: adding it changes
      nothing where the dialect knows IF NOT EXISTS, and fails elsewhere. */
  lemma AddingAgainIsHarmlessExactly(db: Db, t: TableSpec, uniques: seq<UniqueConstraint>, column: Column, val: Option<Source>,
                                     support: OperatorSupport)
    requires !KnowsColumn(t, column.name) && t.name in db.tables && HasColumn(db.tables[t.name].columns, column.name)
    ensures var after := Run(db, AddColumnStmts(t, uniques, column, val, support));
            if !support.columnIfNotExistsExists then after == None
            else column.nullable ==> after == Some(db)
  {
    var stmts := AddColumnStmts(t, uniques, column, val, support);
    var add := AddStmt(t.name, column, support.columnIfNotExistsExists);
    assert stmts == [add] + stmts[1..];
    RunOne(db, add, stmts[1..]);
  }

  // ----- a database in which this shows -----

  /** Table t with the key a and one row. */
  function KeyedTable(): TableSpec {
    TableSpec("t", [Column("a", DataType("text", Datum("")), false, None)], Some(PrimaryKey(["a"], Some("pk_t"))), [])
  }

  function OneRowDb(indexes: map<string, Index>): Db {
    var t := KeyedTable();
    Db(map["t" := StoredTable(t.columns, t.pk, [], [map["a" := Datum("1")]])], indexes)
  }

  lemma OneRowIsInSync(indexes: map<string, Index>)
    requires forall i :: i in indexes ==> indexes[i] == Index("t", ["a"])
    ensures InSync(OneRowDb(indexes), KeyedTable())
  {
    var t, db := KeyedTable(), OneRowDb(indexes);
    assert Names(t.columns) == ["a"];
    assert NamedFks(t.fks, t.name) == [];
    assert TempName("t") == "t__temp" && |TempName("t")| != |"t"|;
    assert Described(db.tables["t"], t);
  }

  /** An index of the table that comes from no unique constraint is gone after recreating it. */
  lemma ExtraIndexIsLost()
    ensures var t, db := KeyedTable(), OneRowDb(map["extra" := Index("t", ["a"])]);
            InSync(db, t) && UniquesFit(t, db.tables["t"].rows, [])
            && Run(db, RecreateStmts(t, [])) == Some(OneRowDb(map[]))
  {
    var t, db := KeyedTable(), OneRowDb(map["extra" := Index("t", ["a"])]);
    OneRowIsInSync(db.indexes);
    SyncIsRecreatable(db, t);
    RecreatePreserves(db, t, []);
    assert WithoutIndexesOn(db.indexes, "t") == map[];
    assert db.tables["t" := db.tables["t"]] == db.tables;
  }

  /** A NOT NULL column whose default is 7: the old row gets its type's zero, in every dialect. */
  lemma DefaultIsNotUsed(support: OperatorSupport)
    ensures var t, db := KeyedTable(), OneRowDb(map[]);
            var column := Column("b", DataType("int", Datum("0")), false, Some(Datum("7")));
            InSync(db, t) && !KnowsColumn(t, "b")
            && var after := Run(db, AddColumnStmts(t, [], column, None, support));
               after.Some? && "t" in after.value.tables
               && after.value.tables["t"].rows == [map["a" := Datum("1"), "b" := Datum("0")]]
  {
    var t, db := KeyedTable(), OneRowDb(map[]);
    var column := Column("b", DataType("int", Datum("0")), false, Some(Datum("7")));
    OneRowIsInSync(map[]);
    AddColumnReaches(db, t, [], column, None, support);
    var row := db.tables["t"].rows[0];
    assert FilledRows([row], column, None) == [row["b" := Datum("0")]];
  }

  /** Without a value given, old rows get the default of a new column exactly when it may be null, its
      type's zero is the default, or there are no old rows. */
  lemma OldRowsGetDefaultExactly(rows: seq<Row>, column: Column)
    requires column.default.Some?
    ensures FilledRows(rows, column, None) == WithColumn(rows, column.name, DefaultOf(column))
            <==> column.nullable || rows == [] || column.dataType.zero == DefaultOf(column)
  {
    var added, filled := WithColumn(rows, column.name, DefaultOf(column)), FilledRows(rows, column, None);
    if !column.nullable {
      if rows != [] && filled == added {
        assert filled[0][column.name] == added[0][column.name];
      }
    }
  }
}
