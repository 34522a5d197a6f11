/** A small interpreter for the emitted statements: tables with rows, and unique indexes. A failing
    statement gives no database. Foreign keys are carried along but not enforced. */
module Database {
  import opened Options
  import opened Schema

  type Row = map<ColumnName, Value>

  /** Constraints of a stored table always have their names. */
  datatype StoredTable = StoredTable(columns: seq<Column>, pk: Option<PrimaryKey>, fks: seq<ForeignKey>, rows: seq<Row>)

  datatype Index = Index(on: TableName, names: seq<ColumnName>)

  datatype Db = Db(tables: map<TableName, StoredTable>, indexes: map<string, Index>)

  function Get(row: Row, column: ColumnName): Value {
    if column in row then row[column] else Null
  }

  /** Two rows agree on columns none of which is null. */
  predicate Clash(a: Row, b: Row, columns: seq<ColumnName>) {
    forall c :: c in columns ==> Get(a, c) == Get(b, c) && Get(a, c) != Null
  }

  predicate UniqueOn(rows: seq<Row>, columns: seq<ColumnName>) {
    forall i, j :: 0 <= i < j < |rows| ==> !Clash(rows[i], rows[j], columns)
  }

  /** Every column has a value, and no column declared NOT NULL is null. */
  predicate RowFits(row: Row, columns: seq<Column>) {
    forall i :: 0 <= i < |columns| ==> columns[i].name in row && (!columns[i].nullable ==> row[columns[i].name] != Null)
  }

  predicate RowsFit(rows: seq<Row>, columns: seq<Column>) {
    forall i :: 0 <= i < |rows| ==> RowFits(rows[i], columns)
  }

  /** The rows obey the table's definition. */
  predicate TableOk(t: StoredTable) {
    RowsFit(t.rows, t.columns) && (t.pk.Some? ==> UniqueOn(t.rows, t.pk.value.columns))
  }

  predicate HasColumn(columns: seq<Column>, name: ColumnName) {
    exists i :: 0 <= i < |columns| && columns[i].name == name
  }

  function DefaultOf(c: Column): Value {
    if c.default.Some? then c.default.value else Null
  }

  /** The copied row: the listed columns from the old row, defaults for the others. */
  function CopiedRow(row: Row, columns: seq<Column>, names: seq<ColumnName>): Row {
    if columns == [] then map[]
    else
      var c := columns[|columns| - 1];
      CopiedRow(row, columns[..|columns| - 1], names)[c.name := if c.name in names then Get(row, c.name) else DefaultOf(c)]
  }

  function CopiedRows(rows: seq<Row>, columns: seq<Column>, names: seq<ColumnName>): seq<Row> {
    seq(|rows|, i requires 0 <= i < |rows| => CopiedRow(rows[i], columns, names))
  }

  function WithColumn(rows: seq<Row>, name: ColumnName, v: Value): seq<Row> {
    seq(|rows|, i requires 0 <= i < |rows| => rows[i][name := v])
  }

  function SourceValue(row: Row, source: Source): Value {
    match source
    case Literal(v) => v
    case FromColumn(c) => Get(row, c)
  }

  function UpdatedRows(rows: seq<Row>, name: ColumnName, source: Source): seq<Row> {
    seq(|rows|, i requires 0 <= i < |rows| => rows[i][name := SourceValue(rows[i], source)])
  }

  function WithoutNull(columns: seq<Column>, name: ColumnName): seq<Column> {
    seq(|columns|, i requires 0 <= i < |columns| => if columns[i].name == name then columns[i].(nullable := false) else columns[i])
  }

  function DroppedColumn(columns: seq<Column>, name: ColumnName): seq<Column> {
    if columns == [] then []
    else
      var rest := DroppedColumn(columns[..|columns| - 1], name);
      if columns[|columns| - 1].name == name then rest else rest + [columns[|columns| - 1]]
  }

  function RowsWithout(rows: seq<Row>, name: ColumnName): seq<Row> {
    seq(|rows|, i requires 0 <= i < |rows| => rows[i] - {name})
  }

  function DroppedFk(fks: seq<ForeignKey>, name: string): seq<ForeignKey> {
    if fks == [] then []
    else
      var rest := DroppedFk(fks[..|fks| - 1], name);
      if fks[|fks| - 1].name == Some(name) then rest else rest + [fks[|fks| - 1]]
  }

  predicate IndexesHold(indexes: map<string, Index>, table: TableName, rows: seq<Row>) {
    forall i :: i in indexes && indexes[i].on == table ==> UniqueOn(rows, indexes[i].names)
  }

  /** Puts a table back if its rows obey its definition and its unique indexes. */
  function Checked(db: Db, name: TableName, t: StoredTable): Option<Db> {
    if TableOk(t) && IndexesHold(db.indexes, name, t.rows) then Some(db.(tables := db.tables[name := t])) else None
  }

  function WithoutIndexesOn(indexes: map<string, Index>, table: TableName): map<string, Index> {
    map i | i in indexes && indexes[i].on != table :: indexes[i]
  }

  function MovedIndexes(indexes: map<string, Index>, from: TableName, to: TableName): map<string, Index> {
    map i | i in indexes :: if indexes[i].on == from then indexes[i].(on := to) else indexes[i]
  }

  function Exec(db: Db, s: Stmt): Option<Db> {
    match s
    case CreateTable(name, columns, pk, fks) =>
      if name in db.tables then Some(db)
      else Some(db.(tables := db.tables[name := StoredTable(columns, pk, fks, [])]))
    case InsertSelect(into, from, names) =>
      if into !in db.tables || from !in db.tables then None
      else if exists c :: c in names && (!HasColumn(db.tables[into].columns, c) || !HasColumn(db.tables[from].columns, c)) then None
      else
        var t := db.tables[into];
        Checked(db, into, t.(rows := t.rows + CopiedRows(db.tables[from].rows, t.columns, names)))
    case DropTable(name) =>
      if name !in db.tables then Some(db)
      else Some(Db(db.tables - {name}, WithoutIndexesOn(db.indexes, name)))
    case RenameTable(from, to) =>
      if from !in db.tables || to in db.tables then None
      else Some(Db((db.tables - {from})[to := db.tables[from]], MovedIndexes(db.indexes, from, to)))
    case CreateUniqueIndex(index, on, names) =>
      if index in db.indexes then Some(db)
      else if on !in db.tables || !UniqueOn(db.tables[on].rows, names) then None
      else Some(db.(indexes := db.indexes[index := Index(on, names)]))
    case AddColumn(table, column, ifNotExists) =>
      if table !in db.tables then None
      else
        var t := db.tables[table];
        if HasColumn(t.columns, column.name) then (if ifNotExists then Some(db) else None)
        else Checked(db, table, t.(columns := t.columns + [column], rows := WithColumn(t.rows, column.name, DefaultOf(column))))
    case DropColumn(table, column, ifExists) =>
      if table !in db.tables then None
      else
        var t := db.tables[table];
        if !HasColumn(t.columns, column) then (if ifExists then Some(db) else None)
        else Some(db.(tables := db.tables[table := t.(columns := DroppedColumn(t.columns, column), rows := RowsWithout(t.rows, column))]))
    case Update(table, column, source) =>
      if table !in db.tables || !HasColumn(db.tables[table].columns, column) then None
      else if source.FromColumn? && !HasColumn(db.tables[table].columns, source.column) then None
      else
        var t := db.tables[table];
        Checked(db, table, t.(rows := UpdatedRows(t.rows, column, source)))
    case SetNotNull(table, column) =>
      if table !in db.tables || !HasColumn(db.tables[table].columns, column) then None
      else
        var t := db.tables[table];
        Checked(db, table, t.(columns := WithoutNull(t.columns, column)))
    case DropConstraint(table, constraint) =>
      if table !in db.tables then None
      else
        var t := db.tables[table];
        Some(db.(tables := db.tables[table := t.(
          pk := if t.pk.Some? && t.pk.value.name == Some(constraint) then None else t.pk,
          fks := DroppedFk(t.fks, constraint))]))
  }

  /** Runs statements one after the other; the first failure ends the run. */
  function Run(db: Db, stmts: seq<Stmt>): Option<Db>
    decreases |stmts|
  {
    if stmts == [] then Some(db)
    else
      var next := Exec(db, stmts[0]);
      if next.None? then None else Run(next.value, stmts[1..])
  }

  lemma {:induction false} RunConcat(db: Db, a: seq<Stmt>, b: seq<Stmt>)
    ensures Run(db, a + b) == if Run(db, a).None? then None else Run(Run(db, a).value, b)
    decreases |a|
  {
    if a == [] {
      assert a + b == b;
    } else {
      assert (a + b)[0] == a[0] && (a + b)[1..] == a[1..] + b;
      if Exec(db, a[0]).Some? {
        RunConcat(Exec(db, a[0]).value, a[1..], b);
      }
    }
  }

  lemma RunOne(db: Db, s: Stmt, rest: seq<Stmt>)
    ensures Run(db, [s] + rest) == if Exec(db, s).None? then None else Run(Exec(db, s).value, rest)
  {
    assert ([s] + rest)[0] == s && ([s] + rest)[1..] == rest;
  }
}
