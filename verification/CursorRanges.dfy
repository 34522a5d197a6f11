/** Which rows a page may show for any cursor, in or out of the range that is asked for. */
module CursorRanges {
  import opened Options
  import opened Epoch
  import opened Listing
  import opened WindowList
  import opened Pagination
  import opened CursorPaging
  import opened Words

  /** The last millisecond of a range that is always tiled, in the middle of 2033. */
  const LAST_MILLI: nat := 1_999_996_400_000

  /** Milliseconds of thirteen digits with neighbours of thirteen digits. */
  predicate IsMilli(ms: int) {
    MIN_MILLIS < ms <= LAST_MILLI
  }

  /** The rows of the range behind the cursor. A cursor in front of the range, in the order of the
      list, leaves all of it; newest first, the millisecond before the cursor's is left out too. */
  function BehindCursor(table: set<Row>, fromMs: nat, toMs: nat, asc: bool, cursor: Option<int>): set<Row> {
    set r | r in table && fromMs <= RowMs(r) < toMs && PastCursor(r, fromMs, toMs, asc, cursor)
  }

  predicate PastCursor(r: Row, fromMs: nat, toMs: nat, asc: bool, cursor: Option<int>) {
    match cursor
    case None => true
    case Some(c) => if asc then c < fromMs || RowMs(r) > c else c > toMs || RowMs(r) < c - 1
  }

  lemma InU64(x: int)
    requires 0 <= x < TWO_TO_THE_64
    ensures U64(x) == x
  {
  }

  /** The bounds the windows are cut from. */
  lemma BoundsBehind(fromMs: nat, toMs: nat, asc: bool, c: int)
    requires IsMilli(fromMs) && IsMilli(toMs) && IsMilli(c)
    ensures AfterCursor(fromMs, toMs, asc, Some(c))
            == if asc then (if c < fromMs then fromMs else c + 1, toMs) else (fromMs, if c > toMs then toMs else c - 1)
  {
    InU64(c);
    InU64(c + 1);
    InU64(c - 1);
  }

  lemma BehindCursorIsRange(table: set<Row>, fromMs: nat, toMs: nat, asc: bool, cursor: Option<int>)
    requires IsMilli(fromMs) && IsMilli(toMs) && (cursor.Some? ==> IsMilli(cursor.value))
    ensures var (a, b) := AfterCursor(fromMs, toMs, asc, cursor);
            RangeRows(table, a, b) == BehindCursor(table, fromMs, toMs, asc, cursor) && Pageable(a, b)
  {
    var (a, b) := AfterCursor(fromMs, toMs, asc, cursor);
    if cursor.Some? {
      BoundsBehind(fromMs, toMs, asc, cursor.value);
    }
    ThirteenDigits(a);
    ThirteenDigits(b);
    ThirteenDigits(fromMs);
    ThirteenDigits(toMs);
    forall r: Row ensures r in RangeRows(table, a, b) <==> r in BehindCursor(table, fromMs, toMs, asc, cursor) {
      RowsInRange(table, a, b, r);
    }
    MillisArePageable(a, b);
  }

  lemma MillisArePageable(a: nat, b: nat)
    requires MIN_MILLIS <= a <= LAST_MILLI + 1 && MIN_MILLIS <= b <= LAST_MILLI
    ensures Pageable(a, b)
  {
    ThirteenDigits(a);
    ThirteenDigits(b);
    if a <= b {
      WrapFreeWithinTwice(Nanos(a), Nanos(b));
    }
  }

  /** What a list query answers for any cursor: rows offset to offset + limit of a listing of the rows
      in the range behind the cursor. */
  lemma AnswerIsBehindCursor(table: set<Row>, fromMs: nat, toMs: nat, asc: bool, cursor: Option<int>, offset: nat, limit: nat,
                             rows: Option<seq<Row>>)
    requires IsMilli(fromMs) && IsMilli(toMs) && (cursor.Some? ==> IsMilli(cursor.value))
    requires var (a, b) := AfterCursor(fromMs, toMs, asc, cursor); IsListed(table, a, b, asc, offset, limit, rows)
    ensures rows.Some?
    ensures exists full :: IsListing(full, BehindCursor(table, fromMs, toMs, asc, cursor), asc) && rows.value == Page(full, offset, limit)
  {
    BehindCursorIsRange(table, fromMs, toMs, asc, cursor);
  }

  // ----- bounds and cursors of any kind -----

  /** The start or end that takes the place of the bound, if the cursor is let through. */
  predicate LetThrough(fromMs: nat, toMs: nat, asc: bool, c: int) {
    if asc then fromMs <= U64(c) else U64(c) <= toMs
  }

  /** The rows in the window are in the range, whatever rows there are. */
  ghost predicate StaysInRange(fromMs: nat, toMs: nat, asc: bool, c: int) {
    forall table, r: Row :: r in RowsAfter(table, fromMs, toMs, asc, c) ==> r in RangeRows(table, fromMs, toMs)
  }

  function RowsAfter(table: set<Row>, fromMs: nat, toMs: nat, asc: bool, c: int): set<Row> {
    var (a, b) := AfterCursor(fromMs, toMs, asc, Some(c));
    RangeRows(table, a, b)
  }

  /** A cursor that is let through must not stand for a millisecond outside the range, or else it has to
      leave nothing. */
  predicate KeepsRange(fromMs: nat, toMs: nat, asc: bool, c: int) {
    !LetThrough(fromMs, toMs, asc, c)
    || if asc then Ms(U64(c + 1)) >= Ms(fromMs) || Ms(U64(c + 1)) >= Ms(toMs)
       else Ms(U64(c - 1)) <= Ms(toMs) || Ms(U64(c - 1)) <= Ms(fromMs)
  }

  /** Whatever the cursor and the bounds, all rows shown are from the range exactly then. */
  lemma StaysInRangeExactly(fromMs: nat, toMs: nat, asc: bool, c: int)
    ensures StaysInRange(fromMs, toMs, asc, c) <==> KeepsRange(fromMs, toMs, asc, c)
  {
    var (a, b) := AfterCursor(fromMs, toMs, asc, Some(c));
    if KeepsRange(fromMs, toMs, asc, c) {
      forall table, r: Row | r in RowsAfter(table, fromMs, toMs, asc, c) ensures r in RangeRows(table, fromMs, toMs) {
        RowsInRange(table, a, b, r);
        RowsInRange(table, fromMs, toMs, r);
      }
    } else {
      var ms := if asc then Ms(a) else Ms(b) - 1;
      var r := Row(0, ms * NANOS_PER_MILLI, 0);
      assert RowMs(r) == ms;
      RowsInRange({r}, a, b, r);
      RowsInRange({r}, fromMs, toMs, r);
      assert r in RowsAfter({r}, fromMs, toMs, asc, c);
    }
  }

  /** Between bounds in milliseconds every cursor in milliseconds keeps to the range. */
  lemma MillisKeepRange(fromMs: nat, toMs: nat, asc: bool, c: int)
    requires IsMilli(fromMs) && IsMilli(toMs) && IsMilli(c)
    ensures StaysInRange(fromMs, toMs, asc, c)
  {
    forall table, r: Row | r in RowsAfter(table, fromMs, toMs, asc, c) ensures r in RangeRows(table, fromMs, toMs) {
      BehindCursorIsRange(table, fromMs, toMs, asc, Some(c));
      BehindCursorIsRange(table, fromMs, toMs, asc, None);
    }
  }

  /** With bounds in seconds a cursor from before the range moves the start back: the row of that time
      is shown although it is not in the range. */
  lemma SecondsLeaveTheRange()
    ensures var older := Row(1, 1_699_999_995_000_000_000, 1);
            var from, to, cursor := 1_700_000_000, 1_700_000_010, 1_699_999_990_000;
            RangeRows({older}, from, to) == {} && RowsAfter({older}, from, to, true, cursor) == {older}
  {
    var older := Row(1, 1_699_999_995_000_000_000, 1);
    var from, to, cursor := 1_700_000_000, 1_700_000_010, 1_699_999_990_000;
    SecondsAreMillis(from);
    SecondsAreMillis(to);
    InU64(cursor);
    InU64(cursor + 1);
    ThirteenDigits(cursor + 1);
    RowsInRange({older}, from, to, older);
    RowsInRange({older}, cursor + 1, to, older);
    forall r: Row | r in RangeRows({older}, from, to) ensures false {
    }
  }
}
