/** Merging the scalar results of several queries into one table: one row per group, one column per
    aggregation. Map iteration orders are nondeterministic. */
module ScalarMerge {
  import opened Options

  /** A cell is known by its printed form. */
  type Cell = string

  const NA: Cell := "n/a"

  type Row = seq<Cell>

  datatype Kind = Group | Aggregation

  datatype Column = Column(name: string, kind: Kind, query: string, index: int)

  datatype ScalarData = ScalarData(columns: seq<Column>, data: seq<Row>)

  type Results = map<string, ScalarData>

  /** The columns of the merged table. */
  datatype Shape = Shape(groups: seq<string>, aggs: seq<Column>)

  // ----- reading a row -----

  /** Where a group column is; of two with one name, the later. */
  function GroupAt(columns: seq<Column>, name: string): Option<nat> {
    if columns == [] then None
    else
      var n := |columns| - 1;
      if columns[n].kind == Group && columns[n].name == name then Some(n) else GroupAt(columns[..n], name)
  }

  /** Where the aggregation of an index is; of two with one index, the earlier. */
  function ValueAt(columns: seq<Column>, index: int): (r: Option<nat>)
    ensures r.Some? ==> IsValueAt(columns, index, r.value)
    ensures r.None? ==> forall i :: 0 <= i < |columns| && columns[i].kind == Aggregation ==> columns[i].index != index
  {
    if columns == [] then None
    else
      var n := |columns| - 1;
      var before := ValueAt(columns[..n], index);
      if before.Some? then before
      else if columns[n].kind == Aggregation && columns[n].index == index then Some(n) else None
  }

  predicate IsValueAt(columns: seq<Column>, index: int, i: int) {
    0 <= i < |columns| && columns[i].kind == Aggregation && columns[i].index == index
    && forall k :: 0 <= k < i && columns[k].kind == Aggregation ==> columns[k].index != index
  }

  function CellAt(row: Row, at: Option<nat>): Cell {
    if at.Some? && at.value < |row| then row[at.value] else NA
  }

  /** The row's value of an aggregation; rows may be shorter than their columns. */
  function ValueOf(sd: ScalarData, row: Row, index: int): Option<Cell> {
    var at := ValueAt(sd.columns, index);
    if at.Some? && at.value < |row| then Some(row[at.value]) else None
  }

  /** The row's cells in the group columns of the table. */
  function GroupCells(sd: ScalarData, row: Row, groups: seq<string>): seq<Cell> {
    seq(|groups|, i requires 0 <= i < |groups| => CellAt(row, GroupAt(sd.columns, groups[i])))
  }

  function Spaced(parts: seq<string>): string {
    if parts == [] then ""
    else if |parts| == 1 then parts[0]
    else Spaced(parts[..|parts| - 1]) + " " + parts[|parts| - 1]
  }

  function Key(parts: seq<Cell>): string {
    "[" + Spaced(parts) + "]"
  }

  // ----- merging, as a function of the rows met so far -----

  datatype Entry = Entry(query: string, row: Row)

  predicate Known(entries: seq<Entry>, results: Results) {
    forall i :: 0 <= i < |entries| ==> entries[i].query in results
  }

  function EntryCells(e: Entry, results: Results, shape: Shape): seq<Cell>
    requires e.query in results
  {
    GroupCells(results[e.query], e.row, shape.groups)
  }

  function EntryKey(e: Entry, results: Results, shape: Shape): string
    requires e.query in results
  {
    Key(EntryCells(e, results, shape))
  }

  function NewRow(cells: seq<Cell>, shape: Shape): Row {
    cells + seq(|shape.aggs|, i requires 0 <= i < |shape.aggs| => NA)
  }

  /** A cell of an aggregation column: the query's own are set where the row has a value. */
  function SetCell(cell: Cell, sd: ScalarData, query: string, row: Row, agg: Column): Cell {
    var v := ValueOf(sd, row, agg.index);
    if agg.query == query && v.Some? then v.value else cell
  }

  /** The row with the query's own aggregation cells set. */
  function Filled(base: Row, sd: ScalarData, query: string, row: Row, shape: Shape): (r: Row)
    requires |base| == |shape.groups| + |shape.aggs|
    ensures |r| == |base|
  {
    var g := |shape.groups|;
    seq(|base|, i requires 0 <= i < |base| =>
      if i < g then base[i] else SetCell(base[i], sd, query, row, shape.aggs[i - g]))
  }

  predicate Wide(m: map<string, Row>, shape: Shape) {
    forall k :: k in m ==> |m[k]| == |shape.groups| + |shape.aggs|
  }

  function MergeOne(m: map<string, Row>, e: Entry, results: Results, shape: Shape): (r: map<string, Row>)
    requires e.query in results && Wide(m, shape)
    ensures Wide(r, shape)
  {
    var key := EntryKey(e, results, shape);
    var base := if key in m then m[key] else NewRow(EntryCells(e, results, shape), shape);
    m[key := Filled(base, results[e.query], e.query, e.row, shape)]
  }

  function Merged(entries: seq<Entry>, results: Results, shape: Shape): (r: map<string, Row>)
    requires Known(entries, results)
    ensures Wide(r, shape)
    decreases |entries|
  {
    if entries == [] then map[]
    else MergeOne(Merged(entries[..|entries| - 1], results, shape), entries[|entries| - 1], results, shape)
  }

  function Rows(query: string, data: seq<Row>): seq<Entry> {
    seq(|data|, i requires 0 <= i < |data| => Entry(query, data[i]))
  }

  /** The rows of the queries, one query after the other. */
  function AllEntries(order: seq<string>, results: Results): (r: seq<Entry>)
    requires forall q :: q in order ==> q in results
    ensures Known(r, results)
  {
    if order == [] then []
    else
      var q := order[|order| - 1];
      AllEntries(order[..|order| - 1], results) + Rows(q, results[q].data)
  }

  lemma EntriesExtend(order: seq<string>, q: string, results: Results)
    requires q in results && forall n :: n in order ==> n in results
    ensures AllEntries(order + [q], results) == AllEntries(order, results) + Rows(q, results[q].data)
  {
    assert (order + [q])[..|order|] == order;
  }

  ghost predicate Enumerates(order: seq<string>, names: set<string>) {
    (forall q :: q in order <==> q in names) && forall i, j :: 0 <= i < j < |order| ==> order[i] != order[j]
  }

  // ----- the shape -----

  predicate IsGroup(columns: seq<Column>, name: string, i: int) {
    0 <= i < |columns| && columns[i].kind == Group && columns[i].name == name
  }

  ghost predicate HasGroup(columns: seq<Column>, name: string) {
    exists i :: IsGroup(columns, name, i)
  }

  /** Every group column of any query, once each. */
  ghost predicate AllGroups(groups: seq<string>, results: Results) {
    (forall i, j :: 0 <= i < j < |groups| ==> groups[i] != groups[j])
    && forall name :: name in groups <==> exists q :: q in results && HasGroup(results[q].columns, name)
  }

  function AggColumns(columns: seq<Column>): seq<Column> {
    if columns == [] then []
    else
      var n := |columns| - 1;
      if columns[n].kind == Aggregation then AggColumns(columns[..n]) + [columns[n]] else AggColumns(columns[..n])
  }

  function AllAggs(names: seq<string>, results: Results): seq<Column>
    requires forall q :: q in names ==> q in results
  {
    if names == [] then []
    else AllAggs(names[..|names| - 1], results) + AggColumns(results[names[|names| - 1]].columns)
  }

  // ----- the loops -----

  method CollectGroups(results: Results) returns (groups: seq<string>)
    ensures AllGroups(groups, results)
  {
    groups := [];
    var todo := results.Keys;
    while todo != {}
      invariant todo <= results.Keys
      invariant forall i, j :: 0 <= i < j < |groups| ==> groups[i] != groups[j]
      invariant forall name :: name in groups <==> exists q :: q in results && q !in todo && HasGroup(results[q].columns, name)
      decreases todo
    {
      var q :| q in todo;
      ghost var before := groups;
      var columns := results[q].columns;
      for i := 0 to |columns|
        invariant forall i, j :: 0 <= i < j < |groups| ==> groups[i] != groups[j]
        invariant forall name :: name in groups <==> name in before || HasGroup(columns[..i], name)
      {
        assert columns[..i + 1] == columns[..i] + [columns[i]];
        OneMoreGroup(columns, i);
        if columns[i].kind == Group && columns[i].name !in groups {
          groups := groups + [columns[i].name];
        }
      }
      assert columns[..|columns|] == columns;
      todo := todo - {q};
    }
  }

  lemma OneMoreGroup(columns: seq<Column>, i: nat)
    requires i < |columns|
    ensures forall name :: HasGroup(columns[..i + 1], name) <==> HasGroup(columns[..i], name) || (columns[i].kind == Group && columns[i].name == name)
  {
    var longer := columns[..i + 1];
    forall name ensures HasGroup(longer, name) <==> HasGroup(columns[..i], name) || (columns[i].kind == Group && columns[i].name == name) {
      if k :| IsGroup(columns[..i], name, k) {
        assert IsGroup(longer, name, k);
      }
      if columns[i].kind == Group && columns[i].name == name {
        assert IsGroup(longer, name, i);
      }
      if k :| IsGroup(longer, name, k) && k < i {
        assert IsGroup(columns[..i], name, k);
      }
    }
  }

  method CollectAggs(queryNames: seq<string>, results: Results) returns (aggs: seq<Column>)
    requires Enumerates(queryNames, results.Keys)
    ensures aggs == AllAggs(queryNames, results)
  {
    aggs := [];
    for n := 0 to |queryNames|
      invariant aggs == AllAggs(queryNames[..n], results)
    {
      assert queryNames[..n + 1][..n] == queryNames[..n];
      var columns := results[queryNames[n]].columns;
      ghost var before := aggs;
      for i := 0 to |columns|
        invariant aggs == before + AggColumns(columns[..i])
      {
        assert columns[..i + 1][..i] == columns[..i];
        if columns[i].kind == Aggregation {
          aggs := aggs + [columns[i]];
        }
      }
      assert columns[..|columns|] == columns;
    }
    assert queryNames[..|queryNames|] == queryNames;
  }

  method MapGroups(columns: seq<Column>) returns (groupMap: map<string, nat>)
    ensures forall name :: GroupAt(columns, name) == if name in groupMap then Some(groupMap[name]) else None
  {
    groupMap := map[];
    for i := 0 to |columns|
      invariant forall name :: GroupAt(columns[..i], name) == if name in groupMap then Some(groupMap[name]) else None
    {
      assert columns[..i + 1][..i] == columns[..i];
      if columns[i].kind == Group {
        groupMap := groupMap[columns[i].name := i];
      }
    }
    assert columns[..|columns|] == columns;
  }

  /** The key of a row, from its cells in the group columns. */
  method BuildKeyFromGroupCols(sd: ScalarData, row: Row, groupMap: map<string, nat>, groups: seq<string>) returns (key: string, parts: seq<Cell>)
    requires forall name :: GroupAt(sd.columns, name) == if name in groupMap then Some(groupMap[name]) else None
    ensures parts == GroupCells(sd, row, groups) && key == Key(parts)
  {
    parts := [];
    for i := 0 to |groups|
      invariant parts == GroupCells(sd, row, groups)[..i]
    {
      var cell := if groups[i] in groupMap && groupMap[groups[i]] < |row| then row[groupMap[groups[i]]] else NA;
      parts := parts + [cell];
    }
    assert GroupCells(sd, row, groups)[..|groups|] == GroupCells(sd, row, groups);
    key := Key(parts);
  }

  method SetAggregations(base: Row, sd: ScalarData, query: string, row: Row, shape: Shape) returns (r: Row)
    requires |base| == |shape.groups| + |shape.aggs|
    ensures r == Filled(base, sd, query, row, shape)
  {
    r := base;
    var g := |shape.groups|;
    for j := 0 to |shape.aggs|
      invariant |r| == |base|
      invariant forall i :: 0 <= i < |base| ==> r[i] == if i < g + j then Filled(base, sd, query, row, shape)[i] else base[i]
    {
      var col := shape.aggs[j];
      if col.query == query {
        var i := 0;
        while i < |sd.columns| && !(sd.columns[i].kind == Aggregation && sd.columns[i].index == col.index)
          invariant 0 <= i <= |sd.columns|
          invariant forall k :: 0 <= k < i && sd.columns[k].kind == Aggregation ==> sd.columns[k].index != col.index
        {
          i := i + 1;
        }
        assert i < |sd.columns| ==> IsValueAt(sd.columns, col.index, i) && ValueAt(sd.columns, col.index) == Some(i);
        assert ValueAt(sd.columns, col.index).Some? <==> i < |sd.columns|;
        if i < |sd.columns| && i < |row| {
          r := r[g + j := row[i]];
        }
      }
      assert r[g + j] == SetCell(base[g + j], sd, query, row, col);
    }
  }

  lemma MergedExtends(entries: seq<Entry>, e: Entry, results: Results, shape: Shape)
    requires Known(entries, results) && e.query in results
    ensures Known(entries + [e], results)
    ensures Merged(entries + [e], results, shape) == MergeOne(Merged(entries, results, shape), e, results, shape)
  {
    assert (entries + [e])[..|entries|] == entries;
  }

  lemma OneMoreRow(walked: seq<Entry>, rows: seq<Entry>, i: nat, results: Results, shape: Shape)
    requires Known(walked, results) && Known(rows, results) && i < |rows|
    ensures Known(walked + rows[..i], results) && Known(walked + rows[..i + 1], results)
    ensures Merged(walked + rows[..i + 1], results, shape) == MergeOne(Merged(walked + rows[..i], results, shape), rows[i], results, shape)
  {
    assert walked + rows[..i] + [rows[i]] == walked + rows[..i + 1];
    MergedExtends(walked + rows[..i], rows[i], results, shape);
  }

  method MergeRow(m: map<string, Row>, results: Results, query: string, groupMap: map<string, nat>, row: Row, shape: Shape)
    returns (r: map<string, Row>)
    requires query in results && Wide(m, shape)
    requires forall name :: GroupAt(results[query].columns, name) == if name in groupMap then Some(groupMap[name]) else None
    ensures r == MergeOne(m, Entry(query, row), results, shape)
  {
    var sd := results[query];
    var key, cells := BuildKeyFromGroupCols(sd, row, groupMap, shape.groups);
    r := m;
    if key !in r {
      r := r[key := NewRow(cells, shape)];
    }
    var filled := SetAggregations(r[key], sd, query, row, shape);
    r := r[key := filled];
  }

  method MergeQuery(m: map<string, Row>, ghost walked: seq<Entry>, results: Results, query: string, shape: Shape) returns (r: map<string, Row>)
    requires query in results && Known(walked, results) && m == Merged(walked, results, shape)
    ensures Known(walked + Rows(query, results[query].data), results)
    ensures r == Merged(walked + Rows(query, results[query].data), results, shape)
  {
    var sd := results[query];
    var groupMap := MapGroups(sd.columns);
    r := m;
    ghost var rows := Rows(query, sd.data);
    assert walked + rows[..0] == walked;
    for i := 0 to |sd.data|
      invariant Known(walked + rows[..i], results)
      invariant r == Merged(walked + rows[..i], results, shape)
    {
      OneMoreRow(walked, rows, i, results, shape);
      r := MergeRow(r, results, query, groupMap, sd.data[i], shape);
    }
    assert rows[..|sd.data|] == rows;
  }

  /** The merged table. The sorted query names are a parameter; the order in which the rows were met
      is given back as order. */
  method MergeScalarData(results: Results, queryNames: seq<string>) returns (shape: Shape, table: map<string, Row>, ghost order: seq<string>)
    requires Enumerates(queryNames, results.Keys)
    ensures AllGroups(shape.groups, results) && shape.aggs == AllAggs(queryNames, results)
    ensures Enumerates(order, results.Keys) && table == Merged(AllEntries(order, results), results, shape)
  {
    var groups := CollectGroups(results);
    var aggs := CollectAggs(queryNames, results);
    shape := Shape(groups, aggs);
    table := map[];
    order := [];
    var todo := results.Keys;
    while todo != {}
      invariant todo <= results.Keys && Enumerates(order, results.Keys - todo)
      invariant table == Merged(AllEntries(order, results), results, shape)
      decreases todo
    {
      var q :| q in todo;
      table := MergeQuery(table, AllEntries(order, results), results, q, shape);
      EntriesExtend(order, q, results);
      order := order + [q];
      todo := todo - {q};
    }
  }

  // ----- what a cell of the table holds -----

  /** The value the aggregation was last given under the key. */
  function LastValue(entries: seq<Entry>, results: Results, shape: Shape, key: string, j: nat): Cell
    requires Known(entries, results) && j < |shape.aggs|
    decreases |entries|
  {
    if entries == [] then NA
    else
      var e := entries[|entries| - 1];
      var before := LastValue(entries[..|entries| - 1], results, shape, key, j);
      if EntryKey(e, results, shape) == key then SetCell(before, results[e.query], e.query, e.row, shape.aggs[j]) else before
  }

  predicate KeyAt(entries: seq<Entry>, results: Results, shape: Shape, key: string, p: int)
    requires Known(entries, results)
  {
    0 <= p < |entries| && EntryKey(entries[p], results, shape) == key
  }

  /** What one row of the table means after the rows met so far: there is one exactly for the keys
      met; its group cells are those of a row with the key; each other cell is the last value given. */
  ghost predicate Meaning(entries: seq<Entry>, results: Results, shape: Shape, key: string, m: map<string, Row>)
    requires Known(entries, results)
  {
    (key in m <==> exists p :: KeyAt(entries, results, shape, key, p))
    && (key in m ==> |m[key]| == |shape.groups| + |shape.aggs|
                     && (forall i :: |shape.groups| <= i < |m[key]| ==> m[key][i] == LastValue(entries, results, shape, key, i - |shape.groups|))
                     && exists p :: CellsAt(entries, results, shape, key, p, m[key][..|shape.groups|]))
  }

  predicate CellsAt(entries: seq<Entry>, results: Results, shape: Shape, key: string, p: int, cells: seq<Cell>)
    requires Known(entries, results)
  {
    KeyAt(entries, results, shape, key, p) && EntryCells(entries[p], results, shape) == cells
  }

  lemma {:induction false} MergedMeaning(entries: seq<Entry>, results: Results, shape: Shape, key: string)
    requires Known(entries, results)
    ensures Meaning(entries, results, shape, key, Merged(entries, results, shape))
    decreases |entries|
  {
    if entries == [] {
      NothingMet(results, shape, key);
    } else {
      var n := |entries| - 1;
      var rest, e := entries[..n], entries[n];
      assert entries == rest + [e];
      MergedMeaning(rest, results, shape, key);
      MergedExtends(rest, e, results, shape);
      if EntryKey(e, results, shape) == key {
        SameKeyMeaning(rest, e, results, shape, Merged(rest, results, shape));
      } else {
        OtherKeyMeaning(rest, e, results, shape, key, Merged(rest, results, shape));
      }
    }
  }

  lemma NothingMet(results: Results, shape: Shape, key: string)
    ensures Meaning([], results, shape, key, map[])
  {
    forall p ensures !KeyAt([], results, shape, key, p) {
    }
  }

  lemma SameKeyMeaning(rest: seq<Entry>, e: Entry, results: Results, shape: Shape, m: map<string, Row>)
    requires Known(rest, results) && e.query in results && Wide(m, shape)
    requires Meaning(rest, results, shape, EntryKey(e, results, shape), m)
    ensures Known(rest + [e], results)
    ensures Meaning(rest + [e], results, shape, EntryKey(e, results, shape), MergeOne(m, e, results, shape))
  {
    var key := EntryKey(e, results, shape);
    var all := rest + [e];
    var row := MergeOne(m, e, results, shape)[key];
    MergeOneMeaning(m, e, results, shape);
    assert all[..|rest|] == rest;
    assert KeyAt(all, results, shape, key, |rest|);
    if key in m {
      var p :| CellsAt(rest, results, shape, key, p, m[key][..|shape.groups|]);
      assert CellsAt(all, results, shape, key, p, row[..|shape.groups|]);
    } else {
      forall p ensures !KeyAt(rest, results, shape, key, p) {
      }
      NoKeyNoValue(rest, results, shape, key);
      assert CellsAt(all, results, shape, key, |rest|, row[..|shape.groups|]);
    }
    forall i | |shape.groups| <= i < |row|
      ensures row[i] == LastValue(all, results, shape, key, i - |shape.groups|)
    {
      assert LastValue(rest, results, shape, key, i - |shape.groups|) == if key in m then m[key][i] else NA;
    }
  }

  lemma {:induction false} NoKeyNoValue(entries: seq<Entry>, results: Results, shape: Shape, key: string)
    requires Known(entries, results)
    requires forall p :: !KeyAt(entries, results, shape, key, p)
    ensures forall j :: 0 <= j < |shape.aggs| ==> LastValue(entries, results, shape, key, j) == NA
    decreases |entries|
  {
    if entries != [] {
      var n := |entries| - 1;
      assert !KeyAt(entries, results, shape, key, n);
      forall p ensures !KeyAt(entries[..n], results, shape, key, p) {
        assert !KeyAt(entries, results, shape, key, p);
      }
      NoKeyNoValue(entries[..n], results, shape, key);
    }
  }

  lemma OtherKeyStays(m: map<string, Row>, e: Entry, results: Results, shape: Shape, key: string)
    requires e.query in results && Wide(m, shape) && EntryKey(e, results, shape) != key
    ensures key in MergeOne(m, e, results, shape) <==> key in m
    ensures key in m ==> MergeOne(m, e, results, shape)[key] == m[key]
  {
  }

  lemma OtherKeyMeaning(rest: seq<Entry>, e: Entry, results: Results, shape: Shape, key: string, m: map<string, Row>)
    requires Known(rest, results) && e.query in results && Wide(m, shape)
    requires Meaning(rest, results, shape, key, m) && EntryKey(e, results, shape) != key
    ensures Known(rest + [e], results)
    ensures Meaning(rest + [e], results, shape, key, MergeOne(m, e, results, shape))
  {
    var all := rest + [e];
    OtherKeyStays(m, e, results, shape, key);
    assert all[..|rest|] == rest;
    if p :| KeyAt(all, results, shape, key, p) {
      assert KeyAt(rest, results, shape, key, p);
    }
    if key in m {
      var p :| CellsAt(rest, results, shape, key, p, m[key][..|shape.groups|]);
      assert CellsAt(all, results, shape, key, p, m[key][..|shape.groups|]);
      forall i | |shape.groups| <= i < |m[key]|
        ensures m[key][i] == LastValue(all, results, shape, key, i - |shape.groups|)
      {
        assert LastValue(all, results, shape, key, i - |shape.groups|) == LastValue(rest, results, shape, key, i - |shape.groups|);
      }
    }
  }

  lemma NewRowIs(cells: seq<Cell>, shape: Shape)
    requires |cells| == |shape.groups|
    ensures NewRow(cells, shape)[..|shape.groups|] == cells
    ensures forall i :: |shape.groups| <= i < |NewRow(cells, shape)| ==> NewRow(cells, shape)[i] == NA
  {
  }

  lemma FilledIs(base: Row, sd: ScalarData, query: string, row: Row, shape: Shape)
    requires |base| == |shape.groups| + |shape.aggs|
    ensures Filled(base, sd, query, row, shape)[..|shape.groups|] == base[..|shape.groups|]
    ensures forall i :: |shape.groups| <= i < |base| ==>
      Filled(base, sd, query, row, shape)[i] == SetCell(base[i], sd, query, row, shape.aggs[i - |shape.groups|])
  {
  }

  /** What merging one row does to the table's row of its key. */
  lemma MergeOneMeaning(m: map<string, Row>, e: Entry, results: Results, shape: Shape)
    requires e.query in results && Wide(m, shape)
    ensures var key := EntryKey(e, results, shape);
            var after := MergeOne(m, e, results, shape);
            var cells := EntryCells(e, results, shape);
            key in after
            && after[key][..|shape.groups|] == (if key in m then m[key][..|shape.groups|] else cells)
            && forall i :: |shape.groups| <= i < |after[key]| ==>
              after[key][i] == SetCell(if key in m then m[key][i] else NA, results[e.query], e.query, e.row, shape.aggs[i - |shape.groups|])
  {
    var key := EntryKey(e, results, shape);
    var cells := EntryCells(e, results, shape);
    NewRowIs(cells, shape);
    FilledIs(if key in m then m[key] else NewRow(cells, shape), results[e.query], e.query, e.row, shape);
  }
}
