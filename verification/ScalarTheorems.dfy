/** Merging scalar results loses nothing and makes nothing up, in whatever order maps are walked. */
module ScalarTheorems {
  import opened Options
  import opened ScalarMerge

  function RowKey(results: Results, shape: Shape, q: string, i: nat): string
    requires q in results && i < |results[q].data|
  {
    EntryKey(Entry(q, results[q].data[i]), results, shape)
  }

  /** Row i of the query has the key. */
  predicate RowAt(results: Results, shape: Shape, q: string, i: int, key: string) {
    q in results && 0 <= i < |results[q].data| && RowKey(results, shape, q, i) == key
  }

  /** No query has two rows of one key. */
  ghost predicate UniqueKeys(results: Results, shape: Shape) {
    forall q, i, k, key :: RowAt(results, shape, q, i, key) && RowAt(results, shape, q, k, key) ==> i == k
  }

  /** Rows with the same key have the same group cells. */
  ghost predicate NoCollision(results: Results, shape: Shape) {
    forall q, i, q', i', key :: RowAt(results, shape, q, i, key) && RowAt(results, shape, q', i', key) ==>
      GroupCells(results[q], results[q].data[i], shape.groups) == GroupCells(results[q'], results[q'].data[i'], shape.groups)
  }

  function Table(results: Results, shape: Shape, order: seq<string>): (r: map<string, Row>)
    requires forall q :: q in order ==> q in results
    ensures Wide(r, shape)
  {
    Merged(AllEntries(order, results), results, shape)
  }

  // ----- rows and the entries walked -----

  /** Entry p is row i of its query. */
  predicate IsRow(entries: seq<Entry>, results: Results, p: int, i: int) {
    0 <= p < |entries| && entries[p].query in results && 0 <= i < |results[entries[p].query].data|
    && entries[p].row == results[entries[p].query].data[i]
  }

  lemma {:induction false} EntriesAreRows(order: seq<string>, results: Results, p: nat)
    requires forall q :: q in order ==> q in results
    requires p < |AllEntries(order, results)|
    ensures AllEntries(order, results)[p].query in order && exists i :: IsRow(AllEntries(order, results), results, p, i)
    decreases |order|
  {
    var n := |order| - 1;
    var rest := AllEntries(order[..n], results);
    if p < |rest| {
      EntriesAreRows(order[..n], results, p);
      var i :| IsRow(rest, results, p, i);
      assert IsRow(AllEntries(order, results), results, p, i);
    } else {
      assert IsRow(AllEntries(order, results), results, p, p - |rest|);
    }
  }

  lemma {:induction false} RowsAreEntries(order: seq<string>, results: Results, q: string, i: nat)
    requires forall n :: n in order ==> n in results
    requires q in order && i < |results[q].data|
    ensures exists p :: 0 <= p < |AllEntries(order, results)| && AllEntries(order, results)[p] == Entry(q, results[q].data[i])
    decreases |order|
  {
    var n := |order| - 1;
    var rest := AllEntries(order[..n], results);
    if q == order[n] {
      assert AllEntries(order, results)[|rest| + i] == Entry(q, results[q].data[i]);
    } else {
      RowsAreEntries(order[..n], results, q, i);
      var p :| 0 <= p < |rest| && rest[p] == Entry(q, results[q].data[i]);
      assert AllEntries(order, results)[p] == rest[p];
    }
  }

  /** Two entries of one query have different keys, as its rows do. */
  lemma {:induction false} EntriesDiffer(order: seq<string>, results: Results, shape: Shape, p: nat, p': nat)
    requires forall q :: q in order ==> q in results
    requires forall i, j :: 0 <= i < j < |order| ==> order[i] != order[j]
    requires UniqueKeys(results, shape)
    requires p < p' < |AllEntries(order, results)|
    requires AllEntries(order, results)[p].query == AllEntries(order, results)[p'].query
    ensures EntryKey(AllEntries(order, results)[p], results, shape) != EntryKey(AllEntries(order, results)[p'], results, shape)
    decreases |order|
  {
    var n := |order| - 1;
    var rest := AllEntries(order[..n], results);
    if p' < |rest| {
      EntriesDiffer(order[..n], results, shape, p, p');
    } else if p < |rest| {
      EntriesAreRows(order[..n], results, p);
      assert false;
    } else {
      var key := RowKey(results, shape, order[n], p - |rest|);
      assert RowAt(results, shape, order[n], p - |rest|, key);
      assert !RowAt(results, shape, order[n], p' - |rest|, key);
    }
  }

  // ----- the last value -----

  lemma {:induction false} NoEntryNoValue(entries: seq<Entry>, results: Results, shape: Shape, key: string, j: nat)
    requires Known(entries, results) && j < |shape.aggs|
    requires forall p :: 0 <= p < |entries| && entries[p].query == shape.aggs[j].query ==> EntryKey(entries[p], results, shape) != key
    ensures LastValue(entries, results, shape, key, j) == NA
    decreases |entries|
  {
    if entries != [] {
      NoEntryNoValue(entries[..|entries| - 1], results, shape, key, j);
    }
  }

  lemma {:induction false} OneEntryItsValue(entries: seq<Entry>, results: Results, shape: Shape, key: string, j: nat, p: nat)
    requires Known(entries, results) && j < |shape.aggs|
    requires KeyAt(entries, results, shape, key, p) && entries[p].query == shape.aggs[j].query
    requires forall k :: 0 <= k < |entries| && k != p && entries[k].query == shape.aggs[j].query ==>
                           EntryKey(entries[k], results, shape) != key
    ensures LastValue(entries, results, shape, key, j)
            == SetCell(NA, results[entries[p].query], entries[p].query, entries[p].row, shape.aggs[j])
    decreases |entries|
  {
    var n := |entries| - 1;
    if p == n {
      NoEntryNoValue(entries[..n], results, shape, key, j);
    } else {
      OneEntryItsValue(entries[..n], results, shape, key, j, p);
    }
  }

  // ----- conservation -----

  /** The cell of a key is the value of the query's row with that key, or "n/a" if there is none. */
  ghost predicate CellConserved(results: Results, shape: Shape, key: string, j: nat, cell: Cell)
    requires j < |shape.aggs|
  {
    var q := shape.aggs[j].query;
    (forall i :: RowAt(results, shape, q, i, key) ==> IsCellOf(results[q], results[q].data[i], shape.aggs[j].index, cell))
    && ((forall i :: !RowAt(results, shape, q, i, key)) ==> cell == NA)
  }

  /** What the row has in its first aggregation column of the index; "n/a" if there is none, or the row
      is too short. */
  ghost predicate IsCellOf(sd: ScalarData, row: Row, index: int, cell: Cell) {
    (forall c :: IsValueAt(sd.columns, index, c) ==> cell == if c < |row| then row[c] else "n/a")
    && ((forall c :: !IsValueAt(sd.columns, index, c)) ==> cell == "n/a")
  }

  lemma ValueIsCell(sd: ScalarData, row: Row, index: int)
    ensures IsCellOf(sd, row, index, match ValueOf(sd, row, index) case Some(v) => v case None => NA)
  {
  }

  /** The cell in the column of aggregation j. */
  function AggCell(row: Row, shape: Shape, j: nat): Cell
    requires |row| == |shape.groups| + |shape.aggs| && j < |shape.aggs|
  {
    row[|shape.groups| + j]
  }

  lemma CellIsConserved(results: Results, shape: Shape, order: seq<string>, key: string, j: nat)
    requires Enumerates(order, results.Keys) && UniqueKeys(results, shape) && j < |shape.aggs|
    ensures CellConserved(results, shape, key, j, LastValue(AllEntries(order, results), results, shape, key, j))
  {
    var q := shape.aggs[j].query;
    var entries := AllEntries(order, results);
    if i :| RowAt(results, shape, q, i, key) {
      RowsAreEntries(order, results, q, i);
      var p :| 0 <= p < |entries| && entries[p] == Entry(q, results[q].data[i]);
      forall k | 0 <= k < |entries| && k != p && entries[k].query == q ensures EntryKey(entries[k], results, shape) != key {
        if k < p {
          EntriesDiffer(order, results, shape, k, p);
        } else {
          EntriesDiffer(order, results, shape, p, k);
        }
      }
      assert KeyAt(entries, results, shape, key, p);
      OneEntryItsValue(entries, results, shape, key, j, p);
      ValueIsCell(results[q], results[q].data[i], shape.aggs[j].index);
      assert forall k :: RowAt(results, shape, q, k, key) ==> k == i;
    } else {
      forall p | 0 <= p < |entries| && entries[p].query == q ensures EntryKey(entries[p], results, shape) != key {
        EntriesAreRows(order, results, p);
        var i :| IsRow(entries, results, p, i);
        assert !RowAt(results, shape, q, i, key);
      }
      NoEntryNoValue(entries, results, shape, key, j);
    }
  }

  ghost predicate SomeRowAt(results: Results, shape: Shape, key: string) {
    exists q, i :: RowAt(results, shape, q, i, key)
  }

  lemma KeysMet(results: Results, shape: Shape, order: seq<string>, key: string)
    requires Enumerates(order, results.Keys)
    ensures key in Table(results, shape, order) <==> SomeRowAt(results, shape, key)
  {
    var entries := AllEntries(order, results);
    MergedMeaning(entries, results, shape, key);
    if p :| KeyAt(entries, results, shape, key, p) {
      EntriesAreRows(order, results, p);
      var i :| IsRow(entries, results, p, i);
      assert RowAt(results, shape, entries[p].query, i, key);
    }
    if q, i :| RowAt(results, shape, q, i, key) {
      RowsAreEntries(order, results, q, i);
      var p :| 0 <= p < |entries| && entries[p] == Entry(q, results[q].data[i]);
      assert KeyAt(entries, results, shape, key, p);
    }
  }

  lemma LastCell(entries: seq<Entry>, results: Results, shape: Shape, key: string, table: map<string, Row>, j: nat)
    requires Known(entries, results) && Meaning(entries, results, shape, key, table) && key in table && j < |shape.aggs|
    ensures AggCell(table[key], shape, j) == LastValue(entries, results, shape, key, j)
  {
    var i := |shape.groups| + j;
    assert table[key][i] == LastValue(entries, results, shape, key, i - |shape.groups|);
  }

  /** The table has one row for each key of any row, and in it every query's cells hold that query's
      values for the key, or "n/a". */
  lemma TableConserves(results: Results, shape: Shape, order: seq<string>, key: string)
    requires Enumerates(order, results.Keys) && UniqueKeys(results, shape)
    ensures var table := Table(results, shape, order);
            (key in table <==> SomeRowAt(results, shape, key))
            && (key in table ==> forall j :: 0 <= j < |shape.aggs| ==> CellConserved(results, shape, key, j, AggCell(table[key], shape, j)))
  {
    var entries := AllEntries(order, results);
    var table := Table(results, shape, order);
    MergedMeaning(entries, results, shape, key);
    KeysMet(results, shape, order, key);
    if key in table {
      forall j | 0 <= j < |shape.aggs| ensures CellConserved(results, shape, key, j, AggCell(table[key], shape, j)) {
        CellIsConserved(results, shape, order, key, j);
        LastCell(entries, results, shape, key, table, j);
      }
    }
  }

  // ----- every value has its place -----

  /** A query's aggregations carry its name and different indexes. */
  ghost predicate Tagged(q: string, columns: seq<Column>) {
    (forall c :: 0 <= c < |columns| && columns[c].kind == Aggregation ==> columns[c].query == q)
    && forall c, d :: 0 <= c < d < |columns| && columns[c].kind == Aggregation && columns[d].kind == Aggregation ==>
                        columns[c].index != columns[d].index
  }

  lemma {:induction false} OwnColumns(columns: seq<Column>, c: nat)
    requires c < |columns| && columns[c].kind == Aggregation
    ensures columns[c] in AggColumns(columns)
  {
    var n := |columns| - 1;
    if c < n {
      OwnColumns(columns[..n], c);
    }
  }

  lemma {:induction false} AllColumns(names: seq<string>, results: Results, q: string, col: Column)
    requires forall n :: n in names ==> n in results
    requires q in names && col in AggColumns(results[q].columns)
    ensures col in AllAggs(names, results)
  {
    var n := |names| - 1;
    if q != names[n] {
      AllColumns(names[..n], results, q, col);
    }
  }

  /** Column c of the query at place n in the list of names. */
  datatype Place = Place(n: nat, c: nat)

  predicate IsAggregation(names: seq<string>, results: Results, at: Place) {
    at.n < |names| && names[at.n] in results && at.c < |results[names[at.n]].columns|
    && results[names[at.n]].columns[at.c].kind == Aggregation
  }

  predicate Before(a: Place, b: Place) {
    a.n < b.n || (a.n == b.n && a.c < b.c)
  }

  /** The columns are the aggregation columns of the results: each once, query by query in the order of
      the names, and within a query in its own order. */
  ghost predicate InOrderOfQueries(names: seq<string>, results: Results, aggs: seq<Column>, places: seq<Place>) {
    |places| == |aggs|
    && (forall j :: 0 <= j < |aggs| ==>
          IsAggregation(names, results, places[j]) && aggs[j] == results[names[places[j].n]].columns[places[j].c])
    && (forall j, k :: 0 <= j < k < |aggs| ==> Before(places[j], places[k]))
    && forall at :: IsAggregation(names, results, at) ==> at in places
  }

  /** The same of the first m columns of the query at place n. */
  ghost predicate InOwnOrder(names: seq<string>, results: Results, n: nat, m: nat, aggs: seq<Column>, places: seq<Place>)
    requires n < |names| && names[n] in results && m <= |results[names[n]].columns|
  {
    |places| == |aggs|
    && (forall j :: 0 <= j < |aggs| ==> IsOwn(names, results, n, m, places[j]) && aggs[j] == results[names[n]].columns[places[j].c])
    && (forall j, k :: 0 <= j < k < |aggs| ==> Before(places[j], places[k]))
    && forall at :: IsOwn(names, results, n, m, at) ==> at in places
  }

  predicate IsOwn(names: seq<string>, results: Results, n: nat, m: nat, at: Place) {
    IsAggregation(names, results, at) && at.n == n && at.c < m
  }

  lemma {:induction false} PlacesInQuery(names: seq<string>, results: Results, n: nat, m: nat) returns (places: seq<Place>)
    requires n < |names| && names[n] in results && m <= |results[names[n]].columns|
    ensures InOwnOrder(names, results, n, m, AggColumns(results[names[n]].columns[..m]), places)
  {
    var columns := results[names[n]].columns;
    places := [];
    if m > 0 {
      var before := PlacesInQuery(names, results, n, m - 1);
      assert columns[..m][..m - 1] == columns[..m - 1];
      assert forall at :: IsOwn(names, results, n, m, at) <==> IsOwn(names, results, n, m - 1, at) || (at == Place(n, m - 1) && columns[m - 1].kind == Aggregation);
      places := if columns[m - 1].kind == Aggregation then before + [Place(n, m - 1)] else before;
    }
  }

  /** The columns after the group columns. */
  lemma {:induction false} AggregationsInOrder(names: seq<string>, results: Results) returns (places: seq<Place>)
    requires forall q :: q in names ==> q in results
    ensures InOrderOfQueries(names, results, AllAggs(names, results), places)
  {
    if names == [] {
      places := [];
    } else {
      var n := |names| - 1;
      var columns := results[names[n]].columns;
      var before := AggregationsInOrder(names[..n], results);
      var last := PlacesInQuery(names, results, n, |columns|);
      assert columns[..|columns|] == columns;
      places := before + last;
      PlacesJoin(names, results, before, last);
    }
  }

  lemma PlacesJoin(names: seq<string>, results: Results, before: seq<Place>, last: seq<Place>)
    requires names != [] && forall q :: q in names ==> q in results
    requires InOrderOfQueries(names[..|names| - 1], results, AllAggs(names[..|names| - 1], results), before)
    requires var columns := results[names[|names| - 1]].columns;
             InOwnOrder(names, results, |names| - 1, |columns|, AggColumns(columns), last)
    ensures InOrderOfQueries(names, results, AllAggs(names, results), before + last)
  {
    var n := |names| - 1;
    var first, aggs, places := AllAggs(names[..n], results), AllAggs(names, results), before + last;
    forall j | 0 <= j < |aggs|
      ensures IsAggregation(names, results, places[j]) && aggs[j] == results[names[places[j].n]].columns[places[j].c]
    {
      if j < |first| {
        assert places[j] == before[j] && aggs[j] == first[j];
        assert IsAggregation(names[..n], results, before[j]);
      } else {
        assert places[j] == last[j - |first|];
        assert IsOwn(names, results, n, |results[names[n]].columns|, last[j - |first|]);
      }
    }
    PlacesComeInOrder(names, results, before, last);
    forall at | IsAggregation(names, results, at) ensures at in places {
      if at.n == n {
        assert IsOwn(names, results, n, |results[names[n]].columns|, at);
      } else {
        assert IsAggregation(names[..n], results, at);
      }
    }
  }

  lemma PlacesComeInOrder(names: seq<string>, results: Results, before: seq<Place>, last: seq<Place>)
    requires names != [] && forall q :: q in names ==> q in results
    requires InOrderOfQueries(names[..|names| - 1], results, AllAggs(names[..|names| - 1], results), before)
    requires var columns := results[names[|names| - 1]].columns;
             InOwnOrder(names, results, |names| - 1, |columns|, AggColumns(columns), last)
    ensures forall j, k :: 0 <= j < k < |before + last| ==> Before((before + last)[j], (before + last)[k])
  {
    var n := |names| - 1;
    forall j | 0 <= j < |before| ensures before[j].n < n {
      assert IsAggregation(names[..n], results, before[j]);
    }
    forall k | 0 <= k < |last| ensures last[k].n == n {
      assert IsOwn(names, results, n, |results[names[n]].columns|, last[k]);
    }
  }

  /** Every aggregation cell of every row of every query stands in the table, in the row of its key
      and under its own column. */
  lemma EveryValueIsKept(results: Results, shape: Shape, names: seq<string>, order: seq<string>, q: string, i: nat, c: nat)
    requires Enumerates(order, results.Keys) && Enumerates(names, results.Keys) && shape.aggs == AllAggs(names, results)
    requires UniqueKeys(results, shape)
    requires q in results && i < |results[q].data| && Tagged(q, results[q].columns)
    requires c < |results[q].columns| && results[q].columns[c].kind == Aggregation && c < |results[q].data[i]|
    ensures var table := Table(results, shape, order);
            var key := RowKey(results, shape, q, i);
            key in table && exists j :: 0 <= j < |shape.aggs| && shape.aggs[j] == results[q].columns[c]
                                        && AggCell(table[key], shape, j) == results[q].data[i][c]
  {
    var sd := results[q];
    var key := RowKey(results, shape, q, i);
    OwnColumns(sd.columns, c);
    AllColumns(names, results, q, sd.columns[c]);
    var j :| 0 <= j < |shape.aggs| && shape.aggs[j] == sd.columns[c];
    assert RowAt(results, shape, q, i, key);
    TableConserves(results, shape, order, key);
    assert CellConserved(results, shape, key, j, AggCell(Table(results, shape, order)[key], shape, j));
    assert ValueAt(sd.columns, sd.columns[c].index) == Some(c);
    assert IsValueAt(sd.columns, sd.columns[c].index, c);
  }

  // ----- the group cells -----

  /** A row's group cells: for each group column of the table, what the row has in the last of its own
      group columns of that name; "n/a" if there is none, or the row is too short. */
  lemma GroupCellsMeaning(sd: ScalarData, row: Row, groups: seq<string>, x: nat)
    requires x < |groups|
    ensures |GroupCells(sd, row, groups)| == |groups|
    ensures forall c :: LastGroup(sd.columns, groups[x], c) ==> GroupCells(sd, row, groups)[x] == if c < |row| then row[c] else "n/a"
    ensures !HasGroup(sd.columns, groups[x]) ==> GroupCells(sd, row, groups)[x] == "n/a"
  {
    GroupIsLast(sd.columns, groups[x]);
  }

  predicate LastGroup(columns: seq<Column>, name: string, c: int) {
    IsGroup(columns, name, c) && forall d :: c < d < |columns| ==> !IsGroup(columns, name, d)
  }

  lemma {:induction false} GroupIsLast(columns: seq<Column>, name: string)
    ensures match GroupAt(columns, name)
            case Some(c) => LastGroup(columns, name, c)
            case None => !HasGroup(columns, name)
  {
    if columns != [] {
      var n := |columns| - 1;
      GroupIsLast(columns[..n], name);
      forall d | 0 <= d < n ensures IsGroup(columns, name, d) <==> IsGroup(columns[..n], name, d) {
      }
    }
  }

  ghost predicate HasCells(table: map<string, Row>, shape: Shape, cells: seq<Cell>)
    requires Wide(table, shape)
  {
    exists key :: key in table && table[key][..|shape.groups|] == cells
  }

  /** The row of a key shows the group cells of some row with the key. */
  lemma ShownCells(results: Results, shape: Shape, order: seq<string>, key: string)
    requires Enumerates(order, results.Keys) && key in Table(results, shape, order)
    ensures exists q, i :: RowAt(results, shape, q, i, key)
                           && Table(results, shape, order)[key][..|shape.groups|] == GroupCells(results[q], results[q].data[i], shape.groups)
  {
    var entries := AllEntries(order, results);
    var table := Table(results, shape, order);
    MergedMeaning(entries, results, shape, key);
    var p :| CellsAt(entries, results, shape, key, p, table[key][..|shape.groups|]);
    EntriesAreRows(order, results, p);
    var i :| IsRow(entries, results, p, i);
    assert RowAt(results, shape, entries[p].query, i, key);
  }

  predicate Spaceless(cells: seq<Cell>) {
    forall i :: 0 <= i < |cells| ==> ' ' !in cells[i]
  }

  lemma NoSpaceBehind(x: string, p: string, k: int)
    requires ' ' !in p && |x| < k < |x + " " + p|
    ensures (x + " " + p)[k] != ' '
  {
    assert (x + " " + p)[k] == p[k - |x| - 1];
  }

  /** What comes behind the last space, and what comes before it. */
  lemma SplitAtLastSpace(x: string, p: string, y: string, q: string)
    requires ' ' !in p && ' ' !in q && x + " " + p == y + " " + q
    ensures x == y && p == q
  {
    var s := x + " " + p;
    assert s[|x|] == ' ' && s[|y|] == ' ';
    if |x| < |y| {
      NoSpaceBehind(x, p, |y|);
    } else if |y| < |x| {
      NoSpaceBehind(y, q, |x|);
    }
    assert s[..|x|] == x && s[|x| + 1..] == p;
    assert s[..|y|] == y && s[|y| + 1..] == q;
  }

  lemma {:induction false} SpacelessCellsDiffer(a: seq<Cell>, b: seq<Cell>)
    requires |a| == |b| && Spaceless(a) && Spaceless(b) && Spaced(a) == Spaced(b)
    ensures a == b
  {
    var n := |a| - 1;
    if n > 0 {
      SplitAtLastSpace(Spaced(a[..n]), a[n], Spaced(b[..n]), b[n]);
      SpacelessCellsDiffer(a[..n], b[..n]);
      assert a == a[..n] + [a[n]] && b == b[..n] + [b[n]];
    }
  }

  /** Groups without spaces in their cells never share a key. */
  lemma SpacelessKeysDiffer(a: seq<Cell>, b: seq<Cell>)
    requires |a| == |b| && Spaceless(a) && Spaceless(b)
    ensures Key(a) == Key(b) <==> a == b
  {
    if Key(a) == Key(b) {
      assert Spaced(a) == Key(a)[1..|Key(a)| - 1] && Spaced(b) == Key(b)[1..|Key(b)| - 1];
      SpacelessCellsDiffer(a, b);
    }
  }

  /** Every group has its row exactly when no two groups share a key. The key joins the cells with
      spaces, so cells with spaces in them can make two groups one. */
  lemma GroupsAreConserved(results: Results, shape: Shape, order: seq<string>)
    requires Enumerates(order, results.Keys)
    ensures (forall q, i :: q in results && 0 <= i < |results[q].data| ==>
                              HasCells(Table(results, shape, order), shape, GroupCells(results[q], results[q].data[i], shape.groups)))
            <==> NoCollision(results, shape)
  {
    var table := Table(results, shape, order);
    if NoCollision(results, shape) {
      forall q, i | q in results && 0 <= i < |results[q].data|
        ensures HasCells(table, shape, GroupCells(results[q], results[q].data[i], shape.groups))
      {
        var key := RowKey(results, shape, q, i);
        assert RowAt(results, shape, q, i, key);
        KeysMet(results, shape, order, key);
        ShownCells(results, shape, order, key);
        assert table[key][..|shape.groups|] == GroupCells(results[q], results[q].data[i], shape.groups);
      }
    }
    if forall q, i :: q in results && 0 <= i < |results[q].data| ==>
                        HasCells(table, shape, GroupCells(results[q], results[q].data[i], shape.groups)) {
      forall q, i, q', i', key | RowAt(results, shape, q, i, key) && RowAt(results, shape, q', i', key)
        ensures GroupCells(results[q], results[q].data[i], shape.groups) == GroupCells(results[q'], results[q'].data[i'], shape.groups)
      {
        CellsAreShown(results, shape, order, q, i, key);
        CellsAreShown(results, shape, order, q', i', key);
      }
    }
  }

  lemma CellsAreShown(results: Results, shape: Shape, order: seq<string>, q: string, i: nat, key: string)
    requires Enumerates(order, results.Keys) && RowAt(results, shape, q, i, key)
    requires HasCells(Table(results, shape, order), shape, GroupCells(results[q], results[q].data[i], shape.groups))
    ensures key in Table(results, shape, order)
    ensures Table(results, shape, order)[key][..|shape.groups|] == GroupCells(results[q], results[q].data[i], shape.groups)
  {
    var table := Table(results, shape, order);
    var shown :| shown in table && table[shown][..|shape.groups|] == GroupCells(results[q], results[q].data[i], shape.groups);
    ShownCells(results, shape, order, shown);
    assert shown == key;
  }

  lemma SpacesCollide()
    ensures Key(["a b", "c"]) == Key(["a", "b c"])
  {
    assert ["a b", "c"][..1] == ["a b"] && ["a", "b c"][..1] == ["a"];
    assert Spaced(["a b"]) == "a b" && Spaced(["a"]) == "a";
    assert Spaced(["a b", "c"]) == "a b" + " " + "c";
    assert Spaced(["a", "b c"]) == "a" + " " + "b c";
  }

  /** A result of two groups, of which one has no row in the table. */
  lemma SpacesLoseAGroup()
    ensures var columns := [Column("x", Group, "", 0), Column("y", Group, "", 0)];
            var results := map["A" := ScalarData(columns, [["a b", "c"], ["a", "b c"]])];
            var shape := Shape(["x", "y"], []);
            Enumerates(["A"], results.Keys)
            && !(HasCells(Table(results, shape, ["A"]), shape, ["a b", "c"]) && HasCells(Table(results, shape, ["A"]), shape, ["a", "b c"]))
  {
    var columns := [Column("x", Group, "", 0), Column("y", Group, "", 0)];
    var results := map["A" := ScalarData(columns, [["a b", "c"], ["a", "b c"]])];
    var shape := Shape(["x", "y"], []);
    OwnCells(results["A"], ["a b", "c"]);
    OwnCells(results["A"], ["a", "b c"]);
    SpacesCollide();
    assert ["a b", "c"][0] != ["a", "b c"][0];
    OneRowForTwo(results, shape, ["a b", "c"], ["a", "b c"]);
  }

  lemma OwnCells(sd: ScalarData, row: Row)
    requires sd.columns == [Column("x", Group, "", 0), Column("y", Group, "", 0)] && |row| == 2
    ensures GroupCells(sd, row, ["x", "y"]) == row
  {
    assert sd.columns[..1] == [Column("x", Group, "", 0)];
    assert GroupAt(sd.columns, "x") == Some(0) && GroupAt(sd.columns, "y") == Some(1);
  }

  /** Two groups with one key: one of them has no row. */
  lemma OneRowForTwo(results: Results, shape: Shape, one: seq<Cell>, other: seq<Cell>)
    requires results.Keys == {"A"} && |results["A"].data| == 2
    requires var sd := results["A"];
             GroupCells(sd, sd.data[0], shape.groups) == one && GroupCells(sd, sd.data[1], shape.groups) == other
    requires one != other && Key(one) == Key(other)
    ensures Enumerates(["A"], results.Keys)
    ensures !(HasCells(Table(results, shape, ["A"]), shape, one) && HasCells(Table(results, shape, ["A"]), shape, other))
  {
    assert RowAt(results, shape, "A", 0, Key(one)) && RowAt(results, shape, "A", 1, Key(one));
    if HasCells(Table(results, shape, ["A"]), shape, one) && HasCells(Table(results, shape, ["A"]), shape, other) {
      BothShown(results, shape, one, other);
    }
  }

  lemma BothShown(results: Results, shape: Shape, one: seq<Cell>, other: seq<Cell>)
    requires results.Keys == {"A"} && |results["A"].data| == 2
    requires var sd := results["A"];
             GroupCells(sd, sd.data[0], shape.groups) == one && GroupCells(sd, sd.data[1], shape.groups) == other
    requires HasCells(Table(results, shape, ["A"]), shape, one) && HasCells(Table(results, shape, ["A"]), shape, other)
    ensures NoCollision(results, shape)
  {
    GroupsAreConserved(results, shape, ["A"]);
  }

  // ----- the order of maps -----

  /** In whatever orders the results are walked, the table is the same. */
  lemma OrderIsIrrelevant(results: Results, shape: Shape, one: seq<string>, other: seq<string>)
    requires Enumerates(one, results.Keys) && Enumerates(other, results.Keys)
    requires UniqueKeys(results, shape) && NoCollision(results, shape)
    ensures Table(results, shape, one) == Table(results, shape, other)
  {
    var a, b := Table(results, shape, one), Table(results, shape, other);
    forall key ensures key in a <==> key in b
      ensures key in a ==> a[key] == b[key]
    {
      TableConserves(results, shape, one, key);
      TableConserves(results, shape, other, key);
      if key in a {
        SameRow(results, shape, one, other, key);
      }
    }
  }

  lemma SameCell(results: Results, shape: Shape, key: string, j: nat, a: Cell, b: Cell)
    requires j < |shape.aggs| && CellConserved(results, shape, key, j, a) && CellConserved(results, shape, key, j, b)
    ensures a == b
  {
    if i :| RowAt(results, shape, shape.aggs[j].query, i, key) {
    }
  }

  lemma SameCells(results: Results, shape: Shape, one: seq<string>, other: seq<string>, key: string)
    requires Enumerates(one, results.Keys) && Enumerates(other, results.Keys) && NoCollision(results, shape)
    requires key in Table(results, shape, one) && key in Table(results, shape, other)
    ensures Table(results, shape, one)[key][..|shape.groups|] == Table(results, shape, other)[key][..|shape.groups|]
  {
    ShownCells(results, shape, one, key);
    ShownCells(results, shape, other, key);
  }

  lemma SameRow(results: Results, shape: Shape, one: seq<string>, other: seq<string>, key: string)
    requires Enumerates(one, results.Keys) && Enumerates(other, results.Keys)
    requires UniqueKeys(results, shape) && NoCollision(results, shape)
    requires key in Table(results, shape, one) && key in Table(results, shape, other)
    ensures Table(results, shape, one)[key] == Table(results, shape, other)[key]
  {
    var g := |shape.groups|;
    var a, b := Table(results, shape, one)[key], Table(results, shape, other)[key];
    SameCells(results, shape, one, other, key);
    TableConserves(results, shape, one, key);
    TableConserves(results, shape, other, key);
    forall j | 0 <= j < |shape.aggs| ensures AggCell(a, shape, j) == AggCell(b, shape, j) {
      SameCell(results, shape, key, j, AggCell(a, shape, j), AggCell(b, shape, j));
    }
    RowIsItsCells(a, b, shape);
  }

  lemma RowIsItsCells(a: Row, b: Row, shape: Shape)
    requires |a| == |b| == |shape.groups| + |shape.aggs|
    requires a[..|shape.groups|] == b[..|shape.groups|]
    requires forall j :: 0 <= j < |shape.aggs| ==> AggCell(a, shape, j) == AggCell(b, shape, j)
    ensures a == b
  {
    forall i | 0 <= i < |a| ensures a[i] == b[i] {
      if i < |shape.groups| {
        assert a[..|shape.groups|][i] == b[..|shape.groups|][i];
      } else {
        assert AggCell(a, shape, i - |shape.groups|) == AggCell(b, shape, i - |shape.groups|);
      }
    }
  }

  // ----- the order of the group columns -----

  /** The same group columns, each once, in whatever order the map yields them; and the same aggregations. */
  ghost predicate Reordered(a: Shape, b: Shape) {
    a.aggs == b.aggs && (forall name :: name in a.groups <==> name in b.groups)
  }

  /** Rows with the same cells in one order have the same cells in the other. */
  lemma SameCellsReordered(results: Results, a: Shape, b: Shape, q: string, i: nat, q': string, i': nat)
    requires Reordered(a, b) && q in results && i < |results[q].data| && q' in results && i' < |results[q'].data|
    requires GroupCells(results[q], results[q].data[i], a.groups) == GroupCells(results[q'], results[q'].data[i'], a.groups)
    ensures GroupCells(results[q], results[q].data[i], b.groups) == GroupCells(results[q'], results[q'].data[i'], b.groups)
  {
    var one, other := results[q], results[q'];
    var mine, theirs := GroupCells(one, one.data[i], a.groups), GroupCells(other, other.data[i'], a.groups);
    forall y | 0 <= y < |b.groups|
      ensures GroupCells(one, one.data[i], b.groups)[y] == GroupCells(other, other.data[i'], b.groups)[y]
    {
      assert b.groups[y] in a.groups;
      var x :| 0 <= x < |a.groups| && a.groups[x] == b.groups[y];
      assert mine[x] == theirs[x];
    }
  }

  /** Two rows share a key in one order exactly when they do in the other, if cells do not collide. */
  lemma KeysCorrespond(results: Results, a: Shape, b: Shape, q: string, i: nat, q': string, i': nat)
    requires Reordered(a, b) && NoCollision(results, a) && NoCollision(results, b)
    requires q in results && i < |results[q].data| && q' in results && i' < |results[q'].data|
    ensures RowKey(results, a, q, i) == RowKey(results, a, q', i') <==> RowKey(results, b, q, i) == RowKey(results, b, q', i')
  {
    assert RowAt(results, a, q, i, RowKey(results, a, q, i)) && RowAt(results, b, q, i, RowKey(results, b, q, i));
    if RowKey(results, a, q, i) == RowKey(results, a, q', i') {
      assert RowAt(results, a, q', i', RowKey(results, a, q, i));
      SameCellsReordered(results, a, b, q, i, q', i');
    }
    if RowKey(results, b, q, i) == RowKey(results, b, q', i') {
      assert RowAt(results, b, q', i', RowKey(results, b, q, i));
      SameCellsReordered(results, b, a, q, i, q', i');
    }
  }

  lemma UniqueKeysReordered(results: Results, a: Shape, b: Shape)
    requires Reordered(a, b) && UniqueKeys(results, a) && NoCollision(results, a) && NoCollision(results, b)
    ensures UniqueKeys(results, b)
  {
    forall q, i, k, key | RowAt(results, b, q, i, key) && RowAt(results, b, q, k, key) ensures i == k {
      KeysCorrespond(results, a, b, q, i, q, k);
      assert RowAt(results, a, q, i, RowKey(results, a, q, i)) && RowAt(results, a, q, k, RowKey(results, a, q, i));
    }
  }

  lemma SameCellReordered(results: Results, a: Shape, b: Shape, q: string, i: nat, j: nat, cellA: Cell, cellB: Cell)
    requires Reordered(a, b) && NoCollision(results, a) && NoCollision(results, b)
    requires q in results && i < |results[q].data| && j < |a.aggs|
    requires CellConserved(results, a, RowKey(results, a, q, i), j, cellA)
    requires CellConserved(results, b, RowKey(results, b, q, i), j, cellB)
    ensures cellA == cellB
  {
    var ka, kb, from := RowKey(results, a, q, i), RowKey(results, b, q, i), a.aggs[j].query;
    forall k ensures RowAt(results, a, from, k, ka) <==> RowAt(results, b, from, k, kb) {
      if from in results && 0 <= k < |results[from].data| {
        KeysCorrespond(results, a, b, from, k, q, i);
      }
    }
    if k :| RowAt(results, a, from, k, ka) {
      assert RowAt(results, b, from, k, kb);
    }
  }

  /** In whatever order the group columns are collected and the results are walked, the table is the
      same up to that order of its columns: the row of any row's key has the same cell in every group
      column and in every aggregation. */
  lemma ColumnOrderIsIrrelevant(results: Results, a: Shape, b: Shape, one: seq<string>, other: seq<string>, q: string, i: nat)
    requires Enumerates(one, results.Keys) && Enumerates(other, results.Keys) && Reordered(a, b)
    requires UniqueKeys(results, a) && NoCollision(results, a) && NoCollision(results, b)
    requires q in results && i < |results[q].data|
    ensures var ka, kb := RowKey(results, a, q, i), RowKey(results, b, q, i);
            var inA, inB := Table(results, a, one), Table(results, b, other);
            ka in inA && kb in inB
            && (forall x, y :: 0 <= x < |a.groups| && 0 <= y < |b.groups| && a.groups[x] == b.groups[y] ==> inA[ka][x] == inB[kb][y])
            && forall j :: 0 <= j < |a.aggs| ==> AggCell(inA[ka], a, j) == AggCell(inB[kb], b, j)
  {
    var ka, kb := RowKey(results, a, q, i), RowKey(results, b, q, i);
    var inA, inB := Table(results, a, one), Table(results, b, other);
    UniqueKeysReordered(results, a, b);
    OwnRow(results, a, one, q, i);
    OwnRow(results, b, other, q, i);
    forall x, y | 0 <= x < |a.groups| && 0 <= y < |b.groups| && a.groups[x] == b.groups[y] ensures inA[ka][x] == inB[kb][y] {
      assert inA[ka][..|a.groups|][x] == inB[kb][..|b.groups|][y];
    }
    TableConserves(results, a, one, ka);
    TableConserves(results, b, other, kb);
    forall j | 0 <= j < |a.aggs| ensures AggCell(inA[ka], a, j) == AggCell(inB[kb], b, j) {
      SameCellReordered(results, a, b, q, i, j, AggCell(inA[ka], a, j), AggCell(inB[kb], b, j));
    }
  }

  /** The row of a row's key shows that row's own group cells. */
  lemma OwnRow(results: Results, shape: Shape, order: seq<string>, q: string, i: nat)
    requires Enumerates(order, results.Keys) && NoCollision(results, shape) && q in results && i < |results[q].data|
    ensures var key := RowKey(results, shape, q, i);
            key in Table(results, shape, order)
            && Table(results, shape, order)[key][..|shape.groups|] == GroupCells(results[q], results[q].data[i], shape.groups)
  {
    var key := RowKey(results, shape, q, i);
    assert RowAt(results, shape, q, i, key);
    KeysMet(results, shape, order, key);
    ShownCells(results, shape, order, key);
  }

  /** Which groups collide does depend on the order of the group columns. */
  lemma CollisionsDependOnColumnOrder()
    ensures Key(["a b", "c"]) == Key(["a", "b c"]) && Key(["c", "a b"]) != Key(["b c", "a"])
  {
    SpacesCollide();
    assert ["c", "a b"][..1] == ["c"] && ["b c", "a"][..1] == ["b c"];
    assert Spaced(["c", "a b"]) == "c" + " " + "a b";
    assert Spaced(["b c", "a"]) == "b c" + " " + "a";
    assert Key(["c", "a b"])[1] == 'c' && Key(["b c", "a"])[1] == 'b';
  }
}
