/** Table schemas, constraint names and the statements the schema operator emits. */
module Schema {
  import opened Options

  type TableName = string

  type ColumnName = string

  datatype Value = Null | Datum(text: string)

  /** zero is the value a new NOT NULL column gets when none is given. */
  datatype DataType = DataType(sql: string, zero: Value)

  /** default is the constant of a DEFAULT clause, if there is one. */
  datatype Column = Column(name: ColumnName, dataType: DataType, nullable: bool, default: Option<Value>)

  /** A name of None is generated from the table's name. */
  datatype PrimaryKey = PrimaryKey(columns: seq<ColumnName>, name: Option<string>)

  datatype ForeignKey = ForeignKey(column: ColumnName, refTable: TableName, refColumn: ColumnName, name: Option<string>)

  datatype UniqueConstraint = UniqueConstraint(columns: seq<ColumnName>, name: Option<string>)

  /** The constraint a caller wants dropped. */
  datatype AnyConstraint = Primary(pk: PrimaryKey) | Foreign(fk: ForeignKey) | Unique(uq: UniqueConstraint)

  /** The in-memory description of a table. */
  datatype TableSpec = TableSpec(name: TableName, columns: seq<Column>, pk: Option<PrimaryKey>, fks: seq<ForeignKey>)

  function PrimaryKeyName(pk: PrimaryKey, table: TableName): string {
    if pk.name.Some? then pk.name.value else "pk_" + table
  }

  function ForeignKeyName(fk: ForeignKey, table: TableName): string {
    if fk.name.Some? then fk.name.value else "fk_" + table + "_" + fk.column
  }

  function Joined(columns: seq<ColumnName>): string {
    if columns == [] then ""
    else if |columns| == 1 then columns[0]
    else Joined(columns[..|columns| - 1]) + "_" + columns[|columns| - 1]
  }

  function UniqueName(uq: UniqueConstraint, table: TableName): string {
    if uq.name.Some? then uq.name.value else "uq_" + table + "_" + Joined(uq.columns)
  }

  /** The unique index a constraint is turned into never keeps the constraint's own name. */
  function IndexName(columns: seq<ColumnName>, table: TableName): string {
    "uq_" + table + "_" + Joined(columns)
  }

  function TempName(table: TableName): TableName {
    table + "__temp"
  }

  /** Constraints with their names fixed, as a table definition writes them. */
  function NamedPk(pk: Option<PrimaryKey>, table: TableName): Option<PrimaryKey> {
    if pk.Some? then Some(pk.value.(name := Some(PrimaryKeyName(pk.value, table)))) else None
  }

  function NamedFks(fks: seq<ForeignKey>, table: TableName): seq<ForeignKey> {
    seq(|fks|, i requires 0 <= i < |fks| => fks[i].(name := Some(ForeignKeyName(fks[i], table))))
  }

  function Names(columns: seq<Column>): seq<ColumnName> {
    seq(|columns|, i requires 0 <= i < |columns| => columns[i].name)
  }

  // ----- equality of constraints, as dropping looks for it -----

  /** Whether the wanted constraint equals the other one: same kind, and same columns whatever their
      order; for a unique constraint it is enough to name all columns of the other. */
  predicate Equals(wanted: AnyConstraint, other: AnyConstraint) {
    match wanted
    case Primary(pk) => other.Primary? && |pk.columns| == |other.pk.columns| && forall c :: c in other.pk.columns ==> c in pk.columns
    case Foreign(fk) => other.Foreign? && fk.column == other.fk.column && fk.refTable == other.fk.refTable && fk.refColumn == other.fk.refColumn
    case Unique(uq) => other.Unique? && forall c :: c in other.uq.columns ==> c in uq.columns
  }

  // ----- statements -----

  datatype Source = Literal(value: Value) | FromColumn(column: ColumnName)

  datatype Stmt =
    | CreateTable(name: TableName, columns: seq<Column>, pk: Option<PrimaryKey>, fks: seq<ForeignKey>)
    | InsertSelect(into: TableName, from: TableName, names: seq<ColumnName>)
    | DropTable(name: TableName)
    | RenameTable(from: TableName, to: TableName)
    | CreateUniqueIndex(index: string, on: TableName, names: seq<ColumnName>)
    | AddColumn(table: TableName, added: Column, ifNotExists: bool)
    | DropColumn(table: TableName, column: ColumnName, ifExists: bool)
    | Update(table: TableName, column: ColumnName, source: Source)
    | SetNotNull(table: TableName, column: ColumnName)
    | DropConstraint(table: TableName, constraint: string)

  /** Create a table: constraints without a name get one generated from the name in the statement. */
  function CreateStmt(t: TableSpec): Stmt {
    CreateTable(t.name, t.columns, NamedPk(t.pk, t.name), NamedFks(t.fks, t.name))
  }

  /** The temporary copy carries the names the original's constraints have. */
  function TempSpec(t: TableSpec): TableSpec {
    TableSpec(TempName(t.name), t.columns, NamedPk(t.pk, t.name), NamedFks(t.fks, t.name))
  }

  function CopyStmts(t: TableSpec): seq<Stmt> {
    [CreateStmt(TempSpec(t)), InsertSelect(TempName(t.name), t.name, Names(t.columns)), DropTable(t.name),
     RenameTable(TempName(t.name), t.name)]
  }

  function IndexStmts(table: TableName, uniques: seq<UniqueConstraint>): seq<Stmt> {
    seq(|uniques|, i requires 0 <= i < |uniques| =>
      CreateUniqueIndex(IndexName(uniques[i].columns, table), table, uniques[i].columns))
  }

  /** Recreate a table: copy it through a temporary table, then index its unique constraints. */
  function RecreateStmts(t: TableSpec, uniques: seq<UniqueConstraint>): seq<Stmt> {
    CopyStmts(t) + IndexStmts(t.name, uniques)
  }

  /** Naming a named constraint again changes nothing. */
  lemma NamedTwice(t: TableSpec, table: TableName)
    ensures NamedPk(NamedPk(t.pk, t.name), table) == NamedPk(t.pk, t.name)
    ensures NamedFks(NamedFks(t.fks, t.name), table) == NamedFks(t.fks, t.name)
  {
  }
}
