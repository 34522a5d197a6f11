/** Dropping constraints, said without the edit's own functions: which constraint goes, and what the
    database keeps when it is a unique one. */
module UniqueDrops {
  import opened Options
  import opened Schema
  import opened Database
  import opened SchemaOperator
  import opened SchemaTheorems
  import opened SchemaDialects

  // ----- keys -----

  /** As many columns, and every column of the key among the wanted ones. */
  predicate SameKey(wanted: PrimaryKey, pk: PrimaryKey) {
    |wanted.columns| == |pk.columns| && forall c :: c in pk.columns ==> c in wanted.columns
  }

  predicate SameReference(wanted: ForeignKey, fk: ForeignKey) {
    (wanted.column, wanted.refTable, wanted.refColumn) == (fk.column, fk.refTable, fk.refColumn)
  }

  predicate FirstReference(fks: seq<ForeignKey>, wanted: ForeignKey, i: nat) {
    i < |fks| && SameReference(wanted, fks[i]) && forall k :: 0 <= k < i ==> !SameReference(wanted, fks[k])
  }

  /** The table as it is left: the wanted primary key is gone; or the first foreign key that refers as
      the wanted one does is, and the others stay in order; or there is none and nothing changes. */
  ghost predicate KeyDropped(t: TableSpec, wanted: AnyConstraint, left: TableSpec, dropped: Option<string>) {
    match wanted
    case Primary(pk) =>
      if t.pk.Some? && SameKey(pk, t.pk.value)
      then left == TableSpec(t.name, t.columns, None, t.fks) && dropped == Some(PrimaryKeyName(t.pk.value, t.name))
      else left == t && dropped == None
    case Foreign(fk) =>
      if exists k :: 0 <= k < |t.fks| && SameReference(fk, t.fks[k])
      then exists i: nat, fks :: FirstReference(t.fks, fk, i) && OneTaken(t.fks, i, fks)
                                 && left == TableSpec(t.name, t.columns, t.pk, fks) && dropped == Some(ForeignKeyName(t.fks[i], t.name))
      else left == t && dropped == None
    case Unique(_) => left == t && dropped == None
  }

  /** All but the one at i, in order. */
  ghost predicate OneTaken<T(!new)>(all: seq<T>, i: nat, rest: seq<T>) {
    i < |all| && |rest| == |all| - 1 && forall k :: 0 <= k < |rest| ==> rest[k] == if k < i then all[k] else all[k + 1]
  }

  lemma KeyIsDropped(t: TableSpec, wanted: AnyConstraint)
    ensures KeyDropped(t, wanted, TableWithout(t, wanted).0, TableWithout(t, wanted).1)
  {
    if wanted.Foreign? {
      var i := FindFk(t.fks, wanted);
      forall k | 0 <= k < |t.fks| ensures Equals(wanted, Foreign(t.fks[k])) <==> SameReference(wanted.fk, t.fks[k]) {
      }
      if i < |t.fks| {
        var rest := t.fks[..i] + t.fks[i + 1..];
        assert FirstReference(t.fks, wanted.fk, i) && OneTaken(t.fks, i, rest);
      }
    }
  }

  // ----- unique constraints -----

  /** The constraint names all the wanted columns, and perhaps more. */
  predicate Covers(uq: UniqueConstraint, wanted: UniqueConstraint) {
    forall c :: c in wanted.columns ==> c in uq.columns
  }

  predicate FirstCovering(uniques: seq<UniqueConstraint>, wanted: UniqueConstraint, d: nat) {
    d < |uniques| && Covers(uniques[d], wanted) && forall k :: 0 <= k < d ==> !Covers(uniques[k], wanted)
  }

  lemma IndexFound(uniques: seq<UniqueConstraint>, wanted: UniqueConstraint, uniqueIndex: int)
    requires IsUniqueIndex(uniques, Unique(wanted), uniqueIndex)
    ensures if exists k :: 0 <= k < |uniques| && Covers(uniques[k], wanted)
            then uniqueIndex >= 0 && FirstCovering(uniques, wanted, uniqueIndex) else uniqueIndex == -1
  {
    forall k | 0 <= k < |uniques| ensures Equals(Unique(uniques[k]), Unique(wanted)) <==> Covers(uniques[k], wanted) {
    }
  }

  /** The first constraint but the dropped one with a generated name. */
  predicate FirstOther(table: TableName, uniques: seq<UniqueConstraint>, d: nat, name: string, i: nat) {
    i < |uniques| && i != d && IndexName(uniques[i].columns, table) == name
    && forall k :: 0 <= k < i && k != d ==> IndexName(uniques[k].columns, table) != name
  }

  /** Indexes of other tables are as before; under any other name the table has the index of the first
      of the other constraints with that generated name, or none. */
  ghost predicate OtherUniquesIndexed(before: map<string, Index>, after: map<string, Index>, table: TableName,
                                      uniques: seq<UniqueConstraint>, d: nat) {
    forall name ::
      if name in before && before[name].on != table then name in after && after[name] == before[name]
      else if name in after then exists i: nat :: FirstOther(table, uniques, d, name, i) && after[name] == Index(table, uniques[i].columns)
      else forall i :: 0 <= i < |uniques| && i != d ==> IndexName(uniques[i].columns, table) != name
  }

  lemma FirstOfRest(table: TableName, uniques: seq<UniqueConstraint>, d: nat, name: string, k: nat) returns (i: nat)
    requires d < |uniques| && FirstWithName(table, uniques[..d] + uniques[d + 1..], name, k)
    ensures FirstOther(table, uniques, d, name, i) && uniques[i] == (uniques[..d] + uniques[d + 1..])[k]
  {
    var rest := uniques[..d] + uniques[d + 1..];
    i := if k < d then k else k + 1;
    forall j | 0 <= j < i && j != d ensures IndexName(uniques[j].columns, table) != name {
      var j' := if j < d then j else j - 1;
      assert rest[j'] == uniques[j];
    }
  }

  lemma OthersAreIndexed(before: map<string, Index>, table: TableName, uniques: seq<UniqueConstraint>, d: nat)
    requires d < |uniques|
    ensures OtherUniquesIndexed(before, WithIndexes(WithoutIndexesOn(before, table), table, uniques[..d] + uniques[d + 1..]), table, uniques, d)
  {
    var rest := uniques[..d] + uniques[d + 1..];
    var others := WithoutIndexesOn(before, table);
    var after := WithIndexes(others, table, rest);
    forall name
      ensures if name in before && before[name].on != table then name in after && after[name] == before[name]
              else if name in after then exists i: nat :: FirstOther(table, uniques, d, name, i) && after[name] == Index(table, uniques[i].columns)
              else forall i :: 0 <= i < |uniques| && i != d ==> IndexName(uniques[i].columns, table) != name
    {
      IndexMeaning(others, table, rest, name);
      if name !in others && name in after {
        var k :| FirstWithName(table, rest, name, k) && after[name] == Index(table, rest[k].columns);
        var i := FirstOfRest(table, uniques, d, name, k);
      } else if name !in after {
        forall i | 0 <= i < |uniques| && i != d ensures IndexName(uniques[i].columns, table) != name {
          assert rest[if i < d then i else i - 1] == uniques[i];
        }
      }
    }
  }

  lemma OthersFit(t: TableSpec, rows: seq<Row>, uniques: seq<UniqueConstraint>, d: nat)
    requires UniquesFit(t, rows, uniques) && d < |uniques|
    ensures UniquesFit(t, rows, uniques[..d] + uniques[d + 1..])
  {
    var rest := uniques[..d] + uniques[d + 1..];
    forall k | 0 <= k < |rest| ensures UniqueOn(rows, rest[k].columns) && forall c :: c in rest[k].columns ==> c in Names(t.columns) {
      assert rest[k] == uniques[if k < d then k else k + 1];
    }
  }

  /** Dropping a unique constraint. One is dropped exactly when some constraint of the table names all
      the wanted columns, and it is the first of these. Where constraints can be dropped, one statement
      drops it by the name the database knows it by. Elsewhere the table is recreated: every table
      keeps its rows, columns and keys, and the table's indexes are those of the other constraints. */
  lemma UniqueIsDropped(db: Db, t: TableSpec, uniques: seq<UniqueConstraint>, uniqueIndex: int, wanted: UniqueConstraint, support: OperatorSupport)
    requires InSync(db, t) && UniquesFit(t, db.tables[t.name].rows, uniques)
    requires IsUniqueIndex(uniques, Unique(wanted), uniqueIndex)
    ensures var stmts := DropConstraintStmts(t, uniques, uniqueIndex, Unique(wanted), support);
            if exists k :: 0 <= k < |uniques| && Covers(uniques[k], wanted)
            then exists d: nat :: FirstCovering(uniques, wanted, d)
                      && if support.dropConstraint
                         then stmts == [Stmt.DropConstraint(t.name, UniqueName(uniques[d], t.name))]
                         else Run(db, stmts).Some? && Run(db, stmts).value.tables == db.tables
                              && OtherUniquesIndexed(db.indexes, Run(db, stmts).value.indexes, t.name, uniques, d)
            else stmts == []
  {
    IndexFound(uniques, wanted, uniqueIndex);
    KeyIsDropped(t, Unique(wanted));
    if uniqueIndex != -1 && !support.dropConstraint {
      var d: nat := uniqueIndex;
      var rest := uniques[..d] + uniques[d + 1..];
      OthersFit(t, db.tables[t.name].rows, uniques, d);
      SyncIsRecreatable(db, t);
      RecreatePreserves(db, t, rest);
      OthersAreIndexed(db.indexes, t.name, uniques, d);
      assert db.tables[t.name := db.tables[t.name]] == db.tables;
      assert FirstCovering(uniques, wanted, d);
    }
  }

  /** After recreating without it, the table object, which lists no unique constraints, still describes
      the database. */
  lemma RecreatedStaysInSync(db: Db, t: TableSpec, uniques: seq<UniqueConstraint>)
    requires InSync(db, t) && UniquesFit(t, db.tables[t.name].rows, uniques)
    ensures Run(db, RecreateStmts(t, uniques)).Some? && InSync(Run(db, RecreateStmts(t, uniques)).value, t)
  {
    SyncIsRecreatable(db, t);
    RecreatePreserves(db, t, uniques);
    NewIndexesFit(db.indexes, db.tables.Keys, t, db.tables[t.name].rows, uniques);
    assert db.tables[t.name := db.tables[t.name]] == db.tables;
  }

  lemma UniqueDropStaysInSync(db: Db, t: TableSpec, uniques: seq<UniqueConstraint>, uniqueIndex: int, wanted: UniqueConstraint,
                              support: OperatorSupport)
    requires InSync(db, t) && UniquesFit(t, db.tables[t.name].rows, uniques)
    requires IsUniqueIndex(uniques, Unique(wanted), uniqueIndex) && !support.dropConstraint
    ensures var after := Run(db, DropConstraintStmts(t, uniques, uniqueIndex, Unique(wanted), support));
            after.Some? && InSync(after.value, t)
  {
    KeyIsDropped(t, Unique(wanted));
    if uniqueIndex != -1 {
      OthersFit(t, db.tables[t.name].rows, uniques, uniqueIndex);
      RecreatedStaysInSync(db, t, uniques[..uniqueIndex] + uniques[uniqueIndex + 1..]);
    }
  }

  /** Under the dropped constraint's generated name the table has no index left, unless another of its
      constraints shares that name. */
  lemma NoIndexIsLeft(before: map<string, Index>, after: map<string, Index>, table: TableName, uniques: seq<UniqueConstraint>, d: nat)
    requires d < |uniques| && OtherUniquesIndexed(before, after, table, uniques, d)
    ensures var name := IndexName(uniques[d].columns, table);
            name in after && after[name].on == table
            <==> !(name in before && before[name].on != table)
                 && exists i: nat :: i < |uniques| && i != d && IndexName(uniques[i].columns, table) == name
  {
    var name := IndexName(uniques[d].columns, table);
    if !(name in before && before[name].on != table) && name in after {
      var i: nat :| FirstOther(table, uniques, d, name, i) && after[name] == Index(table, uniques[i].columns);
    }
  }

  /** A key that is not there: nothing is emitted. */
  lemma UnknownKeyIsLeft(t: TableSpec, uniques: seq<UniqueConstraint>, uniqueIndex: int, wanted: AnyConstraint, support: OperatorSupport)
    requires IsUniqueIndex(uniques, wanted, uniqueIndex) && !wanted.Unique?
    requires wanted.Primary? && t.pk.Some? ==> !SameKey(wanted.pk, t.pk.value)
    requires wanted.Foreign? ==> forall k :: 0 <= k < |t.fks| ==> !SameReference(wanted.fk, t.fks[k])
    ensures DropConstraintStmts(t, uniques, uniqueIndex, wanted, support) == [] && TableWithout(t, wanted).0 == t
  {
    KeyIsDropped(t, wanted);
  }

  /** The dropped constraint has just the wanted columns exactly when every constraint that has more
      comes behind one that has just these. */
  lemma WantedIsDroppedExactly(uniques: seq<UniqueConstraint>, wanted: UniqueConstraint, d: nat)
    requires FirstCovering(uniques, wanted, d)
    ensures SameColumns(uniques[d], wanted)
            <==> forall k :: 0 <= k < |uniques| && Covers(uniques[k], wanted) && !SameColumns(uniques[k], wanted)
                   ==> exists j :: 0 <= j < k && SameColumns(uniques[j], wanted)
  {
    if !SameColumns(uniques[d], wanted) {
      assert Covers(uniques[d], wanted);
      forall j | 0 <= j < d ensures !SameColumns(uniques[j], wanted) {
      }
    }
  }

  predicate SameColumns(uq: UniqueConstraint, wanted: UniqueConstraint) {
    Covers(uq, wanted) && Covers(wanted, uq)
  }

  // ----- databases in which this shows -----

  /** Table t with the columns a and b and no rows. */
  function TwoColumns(): TableSpec {
    TableSpec("t", [Column("a", DataType("text", Datum("")), true, None), Column("b", DataType("text", Datum("")), true, None)], None, [])
  }

  function EmptyDb(indexes: map<string, Index>): Db {
    Db(map["t" := StoredTable(TwoColumns().columns, None, [], [])], indexes)
  }

  lemma EmptyIsInSync(indexes: map<string, Index>)
    requires forall i :: i in indexes ==> indexes[i] == Index("t", ["a"]) || indexes[i] == Index("t", ["a", "b"])
    ensures InSync(EmptyDb(indexes), TwoColumns())
  {
    var t, db := TwoColumns(), EmptyDb(indexes);
    assert Names(t.columns) == ["a", "b"];
    assert NamedFks(t.fks, t.name) == [];
    assert TempName("t") == "t__temp" && |TempName("t")| != |"t"|;
    assert Described(db.tables["t"], t);
  }

  /** Recreating a table without unique constraints takes its indexes and nothing else. */
  lemma NoUniquesLeft(db: Db, t: TableSpec)
    requires InSync(db, t)
    ensures Run(db, RecreateStmts(t, [])) == Some(db.(indexes := WithoutIndexesOn(db.indexes, t.name)))
  {
    SyncIsRecreatable(db, t);
    RecreatePreserves(db, t, []);
    assert db.tables[t.name := db.tables[t.name]] == db.tables;
  }

  /** Where tables are recreated, dropping the one unique constraint leaves no index. */
  lemma OnlyUniqueGoes(support: OperatorSupport)
    requires !support.dropConstraint
    ensures var t, db, a := TwoColumns(), EmptyDb(map["uq_t_a" := Index("t", ["a"])]), UniqueConstraint(["a"], None);
            IsUniqueIndex([a], Unique(a), 0)
            && Run(db, DropConstraintStmts(t, [a], 0, Unique(a), support)) == Some(EmptyDb(map[]))
  {
    var t, db, a := TwoColumns(), EmptyDb(map["uq_t_a" := Index("t", ["a"])]), UniqueConstraint(["a"], None);
    EmptyIsInSync(db.indexes);
    NoUniquesLeft(db, t);
    assert [a][..0] + [a][0 + 1..] == [];
    assert WithoutIndexesOn(db.indexes, "t") == map[];
  }

  /** With constraints over a, b and over a, dropping the one over a drops that over a, b. */
  lemma WiderUniqueGoes(support: OperatorSupport)
    requires support.dropConstraint
    ensures var ab, a := UniqueConstraint(["a", "b"], None), UniqueConstraint(["a"], None);
            IsUniqueIndex([ab, a], Unique(a), 0)
            && DropConstraintStmts(TwoColumns(), [ab, a], 0, Unique(a), support) == [Stmt.DropConstraint("t", "uq_t_a_b")]
  {
    var ab, a := UniqueConstraint(["a", "b"], None), UniqueConstraint(["a"], None);
    assert ["a", "b"][0] == "a";
    assert Covers(ab, a);
    assert Equals(Unique([ab, a][0]), Unique(a));
    NamesCanCollide();
    assert IndexName(["a_b"], "t") == "uq_t_a_b";
  }
}
