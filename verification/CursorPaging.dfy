/** Paging on with the cursor of a full page: which rows the next page can still show. */
module CursorPaging {
  import opened Options
  import opened Epoch
  import opened Listing
  import opened WindowList
  import opened Pagination
  import opened Words

  /** Cursors are milliseconds with exactly thirteen digits, from late 2001 on. */
  const MIN_MILLIS: nat := 1_000_000_000_000

  /** The millisecond a bound stands for, in whatever precision it is given. */
  function Ms(bound: nat): nat {
    Nanos(bound) / NANOS_PER_MILLI
  }

  function RowMs(r: Row): nat {
    r.ts / NANOS_PER_MILLI
  }

  /** The rows that a page over these bounds is taken from. */
  function RangeRows(table: set<Row>, a: nat, b: nat): set<Row> {
    InWindow(table, WholeMillis(Nanos(a)), WholeMillis(Nanos(b)))
  }

  /** Bounds of up to nineteen digits, and a start behind the first millisecond of thirteen digits. */
  predicate InEpoch(fromMs: nat, toMs: nat) {
    0 < fromMs < MAX_NANOS && toMs < MAX_NANOS && MIN_MILLIS < Ms(fromMs)
  }

  /** The comparison of the cursor with the bound it is to replace lets it through. */
  predicate CursorUsed(fromMs: nat, toMs: nat, asc: bool) {
    if asc then fromMs < MAX_MILLIS else MIN_MILLIS <= toMs
  }

  /** A query, one of its listings, and a full page of it. */
  ghost predicate FullPage(table: set<Row>, fromMs: nat, toMs: nat, asc: bool, full: seq<Row>, offset: nat, limit: nat) {
    InEpoch(fromMs, toMs)
    && IsListing(full, RangeRows(table, fromMs, toMs), asc)
    && limit > 0 && offset + limit <= |full|
  }

  /** The cursor the code returns with the page: the last row's millisecond. */
  function CursorOf(full: seq<Row>, offset: nat, limit: nat): nat
    requires limit > 0 && offset + limit <= |full|
  {
    RowMs(full[offset + limit - 1])
  }

  function RowsOf(s: seq<Row>): set<Row> {
    set r | r in s
  }

  /** The rows the next page's window holds. */
  function NextWindow(table: set<Row>, fromMs: nat, toMs: nat, asc: bool, cursor: nat): set<Row> {
    var (a, b) := AfterCursor(fromMs, toMs, asc, Some(cursor));
    RangeRows(table, a, b)
  }

  lemma ThirteenDigits(ms: nat)
    requires MIN_MILLIS <= ms < MAX_MILLIS
    ensures Nanos(ms) == ms * NANOS_PER_MILLI && Ms(ms) == ms
  {
    MillisRoundTrip(ms * NANOS_PER_MILLI);
  }

  /** Every bound stands for a millisecond of thirteen digits. */
  lemma BoundIsMillis(bound: nat)
    requires 0 < bound < MAX_NANOS
    ensures MIN_MILLIS <= Ms(bound) < MAX_MILLIS
  {
    Pow10Values();
    NanosHasNineteenDigits(bound);
  }

  lemma BoundIsBelow(bound: nat)
    requires bound < MAX_NANOS
    ensures Ms(bound) < MAX_MILLIS
  {
    if bound > 0 {
      BoundIsMillis(bound);
    }
  }

  lemma RowsInRange(table: set<Row>, a: nat, b: nat, r: Row)
    ensures r in RangeRows(table, a, b) <==> r in table && Ms(a) <= RowMs(r) < Ms(b)
  {
    MillisOrder(r.ts, Ms(a));
    MillisOrder(r.ts, Ms(b));
  }

  /** Rows fall into whole milliseconds. */
  lemma MillisOrder(ts: nat, ms: nat)
    ensures ts < ms * NANOS_PER_MILLI <==> ts / NANOS_PER_MILLI < ms
  {
  }

  lemma FitsInU64(ms: int)
    requires 0 <= ms <= MAX_MILLIS
    ensures U64(ms) == ms
  {
  }

  /** The bounds of the next page's window. A cursor that is not let through changes nothing. */
  lemma NextBounds(fromMs: nat, toMs: nat, asc: bool, cursor: nat)
    requires InEpoch(fromMs, toMs) && Ms(fromMs) <= cursor < Ms(toMs)
    ensures var next := AfterCursor(fromMs, toMs, asc, Some(cursor));
            if !CursorUsed(fromMs, toMs, asc) then next == (fromMs, toMs)
            else if asc then next == (cursor + 1, toMs) && Ms(cursor + 1) == cursor + 1
            else next == (fromMs, cursor - 1) && Ms(cursor - 1) == cursor - 1
  {
    CursorIsMillis(fromMs, toMs, cursor);
    FitsInU64(cursor);
    if asc {
      FitsInU64(cursor + 1);
      ThirteenDigits(cursor + 1);
      if MIN_MILLIS <= fromMs < MAX_MILLIS {
        ThirteenDigits(fromMs);
      }
    } else {
      FitsInU64(cursor - 1);
      ThirteenDigits(cursor - 1);
      if MIN_MILLIS <= toMs < MAX_MILLIS {
        ThirteenDigits(toMs);
      }
    }
  }

  lemma CursorIsMillis(fromMs: nat, toMs: nat, cursor: nat)
    requires InEpoch(fromMs, toMs) && Ms(fromMs) <= cursor < Ms(toMs)
    ensures MIN_MILLIS < cursor < MAX_MILLIS - 1
  {
    BoundIsBelow(toMs);
  }

  lemma NextRange(table: set<Row>, fromMs: nat, toMs: nat, asc: bool, cursor: nat)
    requires InEpoch(fromMs, toMs) && Ms(fromMs) <= cursor < Ms(toMs)
    ensures cursor > 0
    ensures NextWindow(table, fromMs, toMs, asc, cursor)
            == if !CursorUsed(fromMs, toMs, asc) then RangeRows(table, fromMs, toMs)
               else if asc then RangeRows(table, cursor + 1, toMs) else RangeRows(table, fromMs, cursor - 1)
  {
    CursorIsMillis(fromMs, toMs, cursor);
    NextBounds(fromMs, toMs, asc, cursor);
    var next := AfterCursor(fromMs, toMs, asc, Some(cursor));
    assert NextWindow(table, fromMs, toMs, asc, cursor) == RangeRows(table, next.0, next.1);
  }

  /** What the next page's window holds, row by row. */
  lemma NextRows(table: set<Row>, fromMs: nat, toMs: nat, asc: bool, cursor: nat, r: Row)
    requires InEpoch(fromMs, toMs) && Ms(fromMs) <= cursor < Ms(toMs)
    ensures r in NextWindow(table, fromMs, toMs, asc, cursor) <==>
            r in RangeRows(table, fromMs, toMs)
            && (CursorUsed(fromMs, toMs, asc) ==> if asc then RowMs(r) > cursor else RowMs(r) < cursor - 1)
  {
    NextRange(table, fromMs, toMs, asc, cursor);
    NextBounds(fromMs, toMs, asc, cursor);
    RowsInRange(table, fromMs, toMs, r);
    if CursorUsed(fromMs, toMs, asc) {
      if asc {
        RowsInRange(table, cursor + 1, toMs, r);
      } else {
        RowsInRange(table, fromMs, cursor - 1, r);
      }
    }
  }

  lemma CursorInRange(table: set<Row>, fromMs: nat, toMs: nat, asc: bool, full: seq<Row>, offset: nat, limit: nat)
    requires FullPage(table, fromMs, toMs, asc, full, offset, limit)
    ensures Ms(fromMs) <= CursorOf(full, offset, limit) < Ms(toMs)
  {
    var last := full[offset + limit - 1];
    assert last in full;
    RowsInRange(table, fromMs, toMs, last);
  }

  /** The rows of a listing behind a full page come in order, and none is on a page before. */
  lemma RowsBehind(full: seq<Row>, rows: set<Row>, asc: bool, k: nat, r: Row)
    requires IsListing(full, rows, asc) && 0 < k <= |full|
    ensures r in full[k..] ==> r in rows && InOrder(full[k - 1], r, asc) && k < |full|
    ensures r in full[k..] ==> r == full[k] || InOrder(full[k], r, asc)
    ensures r in rows && r !in full[k..] ==> r == full[k - 1] || InOrder(r, full[k - 1], asc)
  {
    assert forall j {:trigger full[j]} :: k <= j < |full| ==> full[k..][j - k] == full[j];
    if r in full[k..] {
      var j :| 0 <= j < |full[k..]| && full[k..][j] == r;
      assert full[k + j] == r && full[k + j] in full;
    } else if r in full {
      var j :| 0 <= j < |full| && full[j] == r;
    }
  }

  /** Ascending: the next page shows nothing twice, and its window holds every row not shown yet
      exactly when no such row lies in the millisecond of the last row shown. A cursor that is not let
      through gives the same window again. */
  lemma NextPageAscending(table: set<Row>, fromMs: nat, toMs: nat, full: seq<Row>, offset: nat, limit: nat)
    requires FullPage(table, fromMs, toMs, true, full, offset, limit)
    ensures var k := offset + limit;
            var c := CursorOf(full, offset, limit);
            var next := NextWindow(table, fromMs, toMs, true, c);
            if CursorUsed(fromMs, toMs, true)
            then next <= RowsOf(full[k..])
                 && (next == RowsOf(full[k..]) <==> k == |full| || RowMs(full[k]) > c)
            else next == RangeRows(table, fromMs, toMs)
  {
    NextPageTurns(table, fromMs, toMs, true, full, offset, limit);
  }

  /** Descending: the next page's window holds every row not shown yet exactly when no such row lies
      in the millisecond of the last row shown or in the one before it. */
  lemma NextPageDescending(table: set<Row>, fromMs: nat, toMs: nat, full: seq<Row>, offset: nat, limit: nat)
    requires FullPage(table, fromMs, toMs, false, full, offset, limit)
    ensures var k := offset + limit;
            var c := CursorOf(full, offset, limit);
            var next := NextWindow(table, fromMs, toMs, false, c);
            if CursorUsed(fromMs, toMs, false)
            then next <= RowsOf(full[k..])
                 && (next == RowsOf(full[k..]) <==> k == |full| || RowMs(full[k]) < c - 1)
            else next == RangeRows(table, fromMs, toMs)
  {
    NextPageTurns(table, fromMs, toMs, false, full, offset, limit);
  }

  /** Row b is in a later millisecond than row a or, newest first, at least two milliseconds below. */
  predicate Apart(a: Row, b: Row, asc: bool) {
    if asc then RowMs(b) > RowMs(a) else RowMs(b) < RowMs(a) - 1
  }

  lemma NextPageTurns(table: set<Row>, fromMs: nat, toMs: nat, asc: bool, full: seq<Row>, offset: nat, limit: nat)
    requires FullPage(table, fromMs, toMs, asc, full, offset, limit)
    ensures var k := offset + limit;
            var next := NextWindow(table, fromMs, toMs, asc, CursorOf(full, offset, limit));
            if CursorUsed(fromMs, toMs, asc)
            then next <= RowsOf(full[k..]) && (next == RowsOf(full[k..]) <==> k == |full| || Apart(full[k - 1], full[k], asc))
            else next == RangeRows(table, fromMs, toMs)
  {
    var k := offset + limit;
    var next := NextWindow(table, fromMs, toMs, asc, CursorOf(full, offset, limit));
    CursorInRange(table, fromMs, toMs, asc, full, offset, limit);
    forall r: Row
      ensures r in next ==> CursorUsed(fromMs, toMs, asc) ==> r in full[k..]
      ensures r in full[k..] && Apart(full[k - 1], full[k], asc) ==> r in next
      ensures !CursorUsed(fromMs, toMs, asc) ==> (r in next <==> r in RangeRows(table, fromMs, toMs))
    {
      NextRows(table, fromMs, toMs, asc, CursorOf(full, offset, limit), r);
      RowsBehind(full, RangeRows(table, fromMs, toMs), asc, k, r);
    }
    if k < |full| {
      assert full[k] == full[k..][0];
      NextRows(table, fromMs, toMs, asc, CursorOf(full, offset, limit), full[k]);
      RowsBehind(full, RangeRows(table, fromMs, toMs), asc, k, full[k]);
      assert full[k] in RowsOf(full[k..]);
    }
  }

  /** Two logs one millisecond apart, newest first, one row a page: the second one is never shown. */
  lemma DescendingCursorLosesARow()
    ensures var older, newer := Row(1, 1_700_000_000_004_000_000, 1), Row(2, 1_700_000_000_005_000_000, 2);
            var fromMs, toMs := 1_700_000_000_000, 1_700_000_000_010;
            FullPage({older, newer}, fromMs, toMs, false, [newer, older], 0, 1)
            && NextWindow({older, newer}, fromMs, toMs, false, CursorOf([newer, older], 0, 1)) == {}
  {
    var older, newer := Row(1, 1_700_000_000_004_000_000, 1), Row(2, 1_700_000_000_005_000_000, 2);
    var table := {older, newer};
    var full := [newer, older];
    var fromMs, toMs := 1_700_000_000_000, 1_700_000_000_010;
    ThirteenDigits(fromMs);
    ThirteenDigits(toMs);
    RowsInRange(table, fromMs, toMs, older);
    RowsInRange(table, fromMs, toMs, newer);
    assert RangeRows(table, fromMs, toMs) == table;
    NextPageDescending(table, fromMs, toMs, full, 0, 1);
    assert full[1..] == [older];
    assert NextWindow(table, fromMs, toMs, false, CursorOf(full, 0, 1)) <= {older};
  }

  /** Newest first, bounds given in seconds, one row a page: the cursor is larger than the end and not
      let through, so the next page is the same again. */
  lemma SecondsRepeatThePage()
    ensures var row := Row(1, 1_700_000_005_000_000_000, 1);
            var from, to := 1_700_000_000, 1_700_000_010;
            FullPage({row}, from, to, false, [row], 0, 1)
            && NextWindow({row}, from, to, false, CursorOf([row], 0, 1)) == {row}
  {
    var row := Row(1, 1_700_000_005_000_000_000, 1);
    var from, to := 1_700_000_000, 1_700_000_010;
    SecondsAreMillis(from);
    SecondsAreMillis(to);
    RowsInRange({row}, from, to, row);
    assert RangeRows({row}, from, to) == {row};
    NextPageDescending({row}, from, to, [row], 0, 1);
  }

  lemma SecondsAreMillis(seconds: nat)
    requires 1_000_000_000 <= seconds < 10_000_000_000
    ensures Ms(seconds) == seconds * 1000
  {
    Pow10Values();
    assert Pow10(3) == 1000;
    NanosIgnoresPrecision(seconds, 3);
    ThirteenDigits(seconds * 1000);
  }
}
