/** The table object and the operator: every edit changes the table in place and lists the
    statements that make the database follow, in one of two ways depending on the dialect. */
module SchemaOperator {
  import opened Options
  import opened Schema

  datatype OperatorSupport = OperatorSupport(dropConstraint: bool, columnIfNotExistsExists: bool, alterColumnSetNotNull: bool)

  // ----- what the edits are, as functions -----

  predicate KnowsColumn(t: TableSpec, name: ColumnName) {
    exists i :: 0 <= i < |t.columns| && t.columns[i].name == name
  }

  /** A NOT NULL column without a default is added as nullable first. */
  function AddedAs(column: Column): Column {
    if column.default.None? && !column.nullable then column.(nullable := true) else column
  }

  function AddStmt(table: TableName, column: Column, ifNotExists: bool): Stmt {
    Stmt.AddColumn(table, AddedAs(column), ifNotExists)
  }

  function FillValue(column: Column, val: Option<Source>): Source {
    if val.Some? then val.value else Literal(column.dataType.zero)
  }

  function TableWithColumn(t: TableSpec, column: Column): TableSpec {
    if KnowsColumn(t, column.name) then t else t.(columns := t.columns + [column])
  }

  function AddColumnStmts(t: TableSpec, uniques: seq<UniqueConstraint>, column: Column, val: Option<Source>, support: OperatorSupport): seq<Stmt> {
    if KnowsColumn(t, column.name) then []
    else
      [AddStmt(t.name, column, support.columnIfNotExistsExists)]
      + (if column.nullable then []
         else [Stmt.Update(t.name, column.name, FillValue(column, val))]
              + (if support.alterColumnSetNotNull then [Stmt.SetNotNull(t.name, column.name)]
                 else RecreateStmts(TableWithColumn(t, column), uniques)))
  }

  /** The first foreign key equal to the wanted one. */
  function FindFk(fks: seq<ForeignKey>, wanted: AnyConstraint): (i: nat)
    ensures i <= |fks|
    ensures i < |fks| ==> Equals(wanted, Foreign(fks[i]))
    ensures forall j :: 0 <= j < i ==> !Equals(wanted, Foreign(fks[j]))
  {
    if fks == [] then 0
    else
      var i := FindFk(fks[..|fks| - 1], wanted);
      if i < |fks| - 1 then i
      else if Equals(wanted, Foreign(fks[|fks| - 1])) then |fks| - 1 else |fks|
  }

  /** The table without the wanted constraint, and the name of what was dropped. */
  function TableWithout(t: TableSpec, wanted: AnyConstraint): (TableSpec, Option<string>) {
    if t.pk.Some? && Equals(wanted, Primary(t.pk.value)) then (t.(pk := None), Some(PrimaryKeyName(t.pk.value, t.name)))
    else
      var i := FindFk(t.fks, wanted);
      if wanted.Foreign? && i < |t.fks|
      then (t.(fks := t.fks[..i] + t.fks[i + 1..]), Some(ForeignKeyName(t.fks[i], t.name)))
      else (t, None)
  }

  /** The first unique constraint that the wanted one matches. */
  predicate IsUniqueIndex(uniques: seq<UniqueConstraint>, wanted: AnyConstraint, i: int) {
    if wanted.Unique? && exists k :: 0 <= k < |uniques| && Equals(Unique(uniques[k]), wanted)
    then 0 <= i < |uniques| && Equals(Unique(uniques[i]), wanted) && forall k :: 0 <= k < i ==> !Equals(Unique(uniques[k]), wanted)
    else i == -1
  }

  function DropConstraintStmts(t: TableSpec, uniques: seq<UniqueConstraint>, uniqueIndex: int, wanted: AnyConstraint, support: OperatorSupport): seq<Stmt>
    requires IsUniqueIndex(uniques, wanted, uniqueIndex)
  {
    var (left, dropped) := TableWithout(t, wanted);
    if dropped.None? then
      if uniqueIndex == -1 then []
      else if support.dropConstraint then [Stmt.DropConstraint(t.name, UniqueName(uniques[uniqueIndex], t.name))]
      else RecreateStmts(t, uniques[..uniqueIndex] + uniques[uniqueIndex + 1..])
    else if support.dropConstraint then [Stmt.DropConstraint(t.name, dropped.value)]
    else RecreateStmts(left, uniques)
  }

  /** The first column of the name is gone, and nothing else. */
  ghost predicate ColumnRemoved(before: seq<Column>, after: seq<Column>, name: ColumnName) {
    exists i :: FirstOfName(before, name, i) && after == before[..i] + before[i + 1..]
  }

  predicate FirstOfName(columns: seq<Column>, name: ColumnName, i: int) {
    0 <= i < |columns| && columns[i].name == name && forall k :: 0 <= k < i ==> columns[k].name != name
  }

  // ----- the table object -----

  class Table {
    var name: TableName
    var columns: seq<Column>
    var primaryKeyConstraint: Option<PrimaryKey>
    var foreignKeyConstraints: seq<ForeignKey>

    constructor (t: TableSpec)
      ensures View() == t
    {
      name, columns, primaryKeyConstraint, foreignKeyConstraints := t.name, t.columns, t.pk, t.fks;
    }

    function View(): TableSpec
      reads this
    {
      TableSpec(name, columns, primaryKeyConstraint, foreignKeyConstraints)
    }

    method Clone() returns (copy: Table)
      ensures fresh(copy) && copy.View() == View()
    {
      copy := new Table(View());
    }

    /** Removes the primary key or the first foreign key that equals the wanted constraint, and gives
        the name the database knows it by. */
    method DropConstraint(wanted: AnyConstraint) returns (dropped: Option<string>)
      modifies this
      ensures (View(), dropped) == TableWithout(old(View()), wanted)
    {
      dropped := None;
      if primaryKeyConstraint.Some? && Equals(wanted, Primary(primaryKeyConstraint.value)) {
        dropped := Some(PrimaryKeyName(primaryKeyConstraint.value, name));
        primaryKeyConstraint := None;
      }
      if wanted.Foreign? {
        var i := 0;
        while i < |foreignKeyConstraints|
          invariant 0 <= i <= |foreignKeyConstraints|
          invariant forall k :: 0 <= k < i ==> !Equals(wanted, Foreign(foreignKeyConstraints[k]))
        {
          if Equals(wanted, Foreign(foreignKeyConstraints[i])) {
            FirstFkIs(foreignKeyConstraints, wanted, i);
            dropped := Some(ForeignKeyName(foreignKeyConstraints[i], name));
            foreignKeyConstraints := foreignKeyConstraints[..i] + foreignKeyConstraints[i + 1..];
            return;
          }
          i := i + 1;
        }
      }
    }

    /** Create a temporary copy with the original's constraint names, fill it, drop the original, and
        take over its name. */
    method ToCreateTempInsertDropAlter() returns (stmts: seq<Stmt>)
      ensures stmts == CopyStmts(View())
    {
      var temp := Clone();
      temp.name := TempName(name);
      if temp.primaryKeyConstraint.Some? {
        temp.primaryKeyConstraint := Some(temp.primaryKeyConstraint.value.(name := Some(PrimaryKeyName(primaryKeyConstraint.value, name))));
      }
      for i := 0 to |temp.foreignKeyConstraints|
        invariant fresh(temp) && temp.name == TempName(name) && temp.columns == columns
        invariant temp.primaryKeyConstraint == NamedPk(primaryKeyConstraint, name)
        invariant |temp.foreignKeyConstraints| == |foreignKeyConstraints|
        invariant forall k :: 0 <= k < |foreignKeyConstraints| ==>
          temp.foreignKeyConstraints[k] == if k < i then NamedFks(foreignKeyConstraints, name)[k] else foreignKeyConstraints[k]
      {
        var constraint := temp.foreignKeyConstraints[i];
        temp.foreignKeyConstraints := temp.foreignKeyConstraints[i := constraint.(name := Some(ForeignKeyName(constraint, name)))];
      }
      assert temp.foreignKeyConstraints == NamedFks(foreignKeyConstraints, name);
      stmts := [CreateStmt(temp.View())];
      var names: seq<ColumnName> := [];
      for i := 0 to |columns|
        invariant names == Names(columns)[..i]
      {
        names := names + [columns[i].name];
      }
      assert Names(columns)[..|columns|] == Names(columns);
      stmts := stmts + [InsertSelect(temp.name, name, names)];
      stmts := stmts + [DropTable(name)];
      stmts := stmts + [RenameTable(temp.name, name)];
    }
  }

  lemma {:induction false} FirstFkIs(fks: seq<ForeignKey>, wanted: AnyConstraint, i: nat)
    requires i < |fks| && Equals(wanted, Foreign(fks[i]))
    requires forall k :: 0 <= k < i ==> !Equals(wanted, Foreign(fks[k]))
    ensures FindFk(fks, wanted) == i
  {
  }

  // ----- the operator -----

  class Operator {
    const support: OperatorSupport

    constructor (support: OperatorSupport)
      ensures this.support == support
    {
      this.support := support;
    }

    method FindColumnByName(table: Table, name: ColumnName) returns (index: int)
      ensures index != -1 <==> KnowsColumn(table.View(), name)
      ensures index != -1 ==> 0 <= index < |table.columns| && table.columns[index].name == name
                              && forall k :: 0 <= k < index ==> table.columns[k].name != name
    {
      for i := 0 to |table.columns|
        invariant forall k :: 0 <= k < i ==> table.columns[k].name != name
      {
        if table.columns[i].name == name {
          return i;
        }
      }
      return -1;
    }

    method FindUniqueConstraint(uniques: seq<UniqueConstraint>, wanted: AnyConstraint) returns (index: int)
      ensures IsUniqueIndex(uniques, wanted, index)
    {
      if !wanted.Unique? {
        return -1;
      }
      for i := 0 to |uniques|
        invariant forall k :: 0 <= k < i ==> !Equals(Unique(uniques[k]), wanted)
      {
        if Equals(Unique(uniques[i]), wanted) {
          return i;
        }
      }
      return -1;
    }

    method RecreateTable(table: Table, uniques: seq<UniqueConstraint>) returns (stmts: seq<Stmt>)
      ensures stmts == RecreateStmts(table.View(), uniques)
    {
      stmts := table.ToCreateTempInsertDropAlter();
      ghost var copies := stmts;
      for i := 0 to |uniques|
        invariant stmts == copies + IndexStmts(table.name, uniques)[..i]
      {
        stmts := stmts + [CreateUniqueIndex(IndexName(uniques[i].columns, table.name), table.name, uniques[i].columns)];
      }
      assert IndexStmts(table.name, uniques)[..|uniques|] == IndexStmts(table.name, uniques);
    }

    /** Adds a column to the table, and lists how the database gets it. val of None means the zero
        value of the column's type. */
    method AddColumn(table: Table, uniques: seq<UniqueConstraint>, column: Column, val: Option<Source>) returns (stmts: seq<Stmt>)
      modifies table
      ensures table.View() == TableWithColumn(old(table.View()), column)
      ensures stmts == AddColumnStmts(old(table.View()), uniques, column, val, support)
    {
      var index := FindColumnByName(table, column.name);
      if index != -1 {
        return [];
      }
      table.columns := table.columns + [column];
      stmts := [AddStmt(table.name, column, support.columnIfNotExistsExists)];
      if !column.nullable {
        stmts := stmts + [Stmt.Update(table.name, column.name, FillValue(column, val))];
        if support.alterColumnSetNotNull {
          stmts := stmts + [Stmt.SetNotNull(table.name, column.name)];
        } else {
          var recreate := RecreateTable(table, uniques);
          stmts := stmts + recreate;
        }
      }
    }

    /** Drops a column that the table knows. */
    method DropColumn(table: Table, column: Column) returns (stmts: seq<Stmt>)
      modifies table
      ensures stmts == if KnowsColumn(old(table.View()), column.name)
                       then [Stmt.DropColumn(table.name, column.name, support.columnIfNotExistsExists)] else []
      ensures if stmts == [] then table.View() == old(table.View())
              else ColumnRemoved(old(table.columns), table.columns, column.name)
                   && table.View() == old(table.View()).(columns := table.columns)
    {
      var index := FindColumnByName(table, column.name);
      if index == -1 {
        return [];
      }
      assert FirstOfName(table.columns, column.name, index);
      table.columns := table.columns[..index] + table.columns[index + 1..];
      return [Stmt.DropColumn(table.name, column.name, support.columnIfNotExistsExists)];
    }

    /** Drops a constraint from the table, and lists how the database loses it. */
    method DropConstraint(table: Table, uniques: seq<UniqueConstraint>, wanted: AnyConstraint)
      returns (stmts: seq<Stmt>, ghost uniqueIndex: int)
      modifies table
      ensures table.View() == TableWithout(old(table.View()), wanted).0
      ensures IsUniqueIndex(uniques, wanted, uniqueIndex)
      ensures stmts == DropConstraintStmts(old(table.View()), uniques, uniqueIndex, wanted, support)
    {
      ghost var before := table.View();
      var dropped := table.DropConstraint(wanted);
      var index := FindUniqueConstraint(uniques, wanted);
      uniqueIndex := index;
      if dropped.None? {
        assert table.View() == before;
        if index == -1 {
          stmts := [];
          return;
        }
        if support.dropConstraint {
          stmts := [Stmt.DropConstraint(table.name, UniqueName(uniques[index], table.name))];
          return;
        }
        stmts := RecreateTable(table, uniques[..index] + uniques[index + 1..]);
        return;
      }
      if support.dropConstraint {
        stmts := [Stmt.DropConstraint(table.name, dropped.value)];
        return;
      }
      stmts := RecreateTable(table, uniques);
    }
  }
}
