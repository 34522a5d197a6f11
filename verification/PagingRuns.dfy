/** Whole paging runs: a client follows the cursors until a page comes without one. */
module PagingRuns {
  import opened Options
  import opened TimeSteps
  import opened Listing
  import opened Pagination
  import opened CursorPaging

  predicate Queried(fromMs: nat, toMs: nat, limit: nat) {
    InEpoch(fromMs, toMs) && limit > 0
  }

  /** Cursors come from rows of the range. */
  predicate CursorIn(fromMs: nat, toMs: nat, cursor: Option<int>) {
    cursor.Some? ==> Ms(fromMs) <= cursor.value < Ms(toMs)
  }

  /** The rows in the range of the page asked for with the cursor. */
  function WindowAfter(table: set<Row>, fromMs: nat, toMs: nat, asc: bool, cursor: Option<int>): set<Row> {
    var (a, b) := AfterCursor(fromMs, toMs, asc, cursor);
    RangeRows(table, a, b)
  }

  lemma FromTheStart(table: set<Row>, fromMs: nat, toMs: nat, asc: bool)
    ensures WindowAfter(table, fromMs, toMs, asc, None) == RangeRows(table, fromMs, toMs)
  {
  }

  /** A page of what is asked for with the cursor. */
  ghost predicate PageAfter(table: set<Row>, fromMs: nat, toMs: nat, asc: bool, limit: nat, cursor: Option<int>, page: seq<Row>) {
    exists full :: IsListing(full, WindowAfter(table, fromMs, toMs, asc, cursor), asc) && page == Take(full, limit)
  }

  /** The cursor behind a page: there is one exactly when the page is full. */
  function CursorBehind(page: seq<Row>, limit: nat): Option<int> {
    if |page| == limit && limit > 0 then Some(RowMs(page[limit - 1])) else None
  }

  /** The pages from a cursor on; the last one is the first without a cursor behind it. */
  ghost predicate IsRun(table: set<Row>, fromMs: nat, toMs: nat, asc: bool, limit: nat, cursor: Option<int>, pages: seq<seq<Row>>)
    decreases |pages|
  {
    pages != []
    && PageAfter(table, fromMs, toMs, asc, limit, cursor, pages[0])
    && match CursorBehind(pages[0], limit)
       case None => |pages| == 1
       case next => IsRun(table, fromMs, toMs, asc, limit, next, pages[1..])
  }

  predicate OnPages(pages: seq<seq<Row>>, r: Row) {
    exists i :: 0 <= i < |pages| && r in pages[i]
  }

  /** The milliseconds that turning a page leaves out: that of the last row shown and, newest first,
      also the one before. */
  predicate LeftOut(page: seq<Row>, asc: bool, r: Row)
    requires page != []
  {
    var c := RowMs(page[|page| - 1]);
    RowMs(r) == c || (!asc && RowMs(r) == c - 1)
  }

  /** Turning page i loses the row: it is on no page so far, and its millisecond is left out. */
  predicate LostAt(pages: seq<seq<Row>>, asc: bool, i: int, r: Row) {
    0 <= i < |pages| - 1 && pages[i] != [] && !OnPages(pages[..i + 1], r) && LeftOut(pages[i], asc, r)
  }

  /** A page of a list query with this cursor is such a page, where the windows tile the range. */
  lemma QueryGivesPage(table: set<Row>, fromMs: nat, toMs: nat, asc: bool, limit: nat, cursor: Option<int>, rows: Option<seq<Row>>)
    requires limit > 0
    requires var (a, b) := AfterCursor(fromMs, toMs, asc, cursor); Pageable(a, b) && IsListed(table, a, b, asc, 0, limit, rows)
    ensures rows.Some? && PageAfter(table, fromMs, toMs, asc, limit, cursor, rows.value)
  {
    var (a, b) := AfterCursor(fromMs, toMs, asc, cursor);
    var full :| IsListing(full, RangeRows(table, a, b), asc) && rows.value == Page(full, 0, limit);
    assert full[0..] == full;
  }

  /** Which rows these are. */
  lemma WindowBounds(table: set<Row>, fromMs: nat, toMs: nat, asc: bool, limit: nat, cursor: Option<int>, r: Row)
    requires Queried(fromMs, toMs, limit) && CursorIn(fromMs, toMs, cursor)
    ensures r in WindowAfter(table, fromMs, toMs, asc, cursor) <==>
              r in RangeRows(table, fromMs, toMs)
              && (cursor.Some? && CursorUsed(fromMs, toMs, asc) ==>
                    if asc then RowMs(r) > cursor.value else RowMs(r) < cursor.value - 1)
  {
    if cursor.Some? {
      NextRows(table, fromMs, toMs, asc, cursor.value, r);
    }
  }

  /** The rows of a page belong to its range, and the others come behind the last of a full page. */
  lemma PageRows(table: set<Row>, fromMs: nat, toMs: nat, asc: bool, limit: nat, cursor: Option<int>, page: seq<Row>, r: Row)
    requires PageAfter(table, fromMs, toMs, asc, limit, cursor, page) && limit > 0
    ensures NoRepeats(page) && |page| <= limit
    ensures r in page ==> r in WindowAfter(table, fromMs, toMs, asc, cursor)
    ensures r in WindowAfter(table, fromMs, toMs, asc, cursor) && r !in page ==> |page| == limit && InOrder(page[limit - 1], r, asc)
    ensures r in page && |page| == limit ==> r == page[limit - 1] || InOrder(r, page[limit - 1], asc)
  {
    var full :| IsListing(full, WindowAfter(table, fromMs, toMs, asc, cursor), asc) && page == Take(full, limit);
    assert full[..|full|] == full;
    ListingIsCut(full, |page|, asc, r);
  }

  lemma ListingIsCut(full: seq<Row>, n: nat, asc: bool, r: Row)
    requires n <= |full| && NoRepeats(full) && forall i, j :: 0 <= i < j < |full| ==> InOrder(full[i], full[j], asc)
    ensures NoRepeats(full[..n])
    ensures r in full[..n] ==> r in full && (r == full[n - 1] || InOrder(r, full[n - 1], asc))
    ensures r in full && r !in full[..n] ==> n < |full| && (n > 0 ==> InOrder(full[n - 1], r, asc))
  {
    var page := full[..n];
    assert forall k {:trigger full[k]} :: 0 <= k < n ==> full[k] in page;
    if r in page {
      var j :| 0 <= j < n && page[j] == r;
      assert full[j] == r;
    } else if r in full {
      var j :| 0 <= j < |full| && full[j] == r;
    }
  }

  /** After a full page the next one asks for the rows not shown, without the milliseconds left out. */
  lemma Turn(table: set<Row>, fromMs: nat, toMs: nat, asc: bool, limit: nat, cursor: Option<int>, page: seq<Row>, r: Row)
    requires Queried(fromMs, toMs, limit) && CursorIn(fromMs, toMs, cursor)
    requires PageAfter(table, fromMs, toMs, asc, limit, cursor, page) && |page| == limit
    ensures var next := CursorBehind(page, limit);
            CursorIn(fromMs, toMs, next)
            && (CursorUsed(fromMs, toMs, asc) ==>
                  (r in WindowAfter(table, fromMs, toMs, asc, next)
                   <==> r in WindowAfter(table, fromMs, toMs, asc, cursor) && r !in page && !LeftOut(page, asc, r)))
            && (!CursorUsed(fromMs, toMs, asc) ==>
                  (r in WindowAfter(table, fromMs, toMs, asc, next) <==> r in WindowAfter(table, fromMs, toMs, asc, cursor)))
  {
    var last := page[limit - 1];
    assert last in page;
    PageRows(table, fromMs, toMs, asc, limit, cursor, page, last);
    WindowBounds(table, fromMs, toMs, asc, limit, cursor, last);
    RowsInRange(table, fromMs, toMs, last);
    WindowBounds(table, fromMs, toMs, asc, limit, cursor, r);
    WindowBounds(table, fromMs, toMs, asc, limit, CursorBehind(page, limit), r);
    PageRows(table, fromMs, toMs, asc, limit, cursor, page, r);
  }

  /** A run goes beyond a full page only if its cursors are let through: else the page comes again. */
  lemma {:induction false} RunUsesCursor(table: set<Row>, fromMs: nat, toMs: nat, asc: bool, limit: nat, cursor: Option<int>,
                                         pages: seq<seq<Row>>)
    requires Queried(fromMs, toMs, limit) && CursorIn(fromMs, toMs, cursor)
    requires IsRun(table, fromMs, toMs, asc, limit, cursor, pages) && |pages[0]| == limit
    ensures CursorUsed(fromMs, toMs, asc)
    decreases |pages|
  {
    if !CursorUsed(fromMs, toMs, asc) {
      var next, rest := CursorBehind(pages[0], limit), pages[1..];
      Turn(table, fromMs, toMs, asc, limit, cursor, pages[0], pages[0][0]);
      SameWindow(table, fromMs, toMs, asc, limit, cursor, pages[0]);
      AsFull(table, fromMs, toMs, asc, limit, cursor, next, pages[0], rest[0]);
      RunUsesCursor(table, fromMs, toMs, asc, limit, next, rest);
    }
  }

  lemma SameWindow(table: set<Row>, fromMs: nat, toMs: nat, asc: bool, limit: nat, cursor: Option<int>, page: seq<Row>)
    requires Queried(fromMs, toMs, limit) && CursorIn(fromMs, toMs, cursor) && !CursorUsed(fromMs, toMs, asc)
    requires PageAfter(table, fromMs, toMs, asc, limit, cursor, page) && |page| == limit
    ensures WindowAfter(table, fromMs, toMs, asc, CursorBehind(page, limit)) == WindowAfter(table, fromMs, toMs, asc, cursor)
  {
    var next := CursorBehind(page, limit);
    forall r ensures r in WindowAfter(table, fromMs, toMs, asc, next) <==> r in WindowAfter(table, fromMs, toMs, asc, cursor) {
      Turn(table, fromMs, toMs, asc, limit, cursor, page, r);
    }
  }

  /** Pages of one window are equally long. */
  lemma AsFull(table: set<Row>, fromMs: nat, toMs: nat, asc: bool, limit: nat, cursor: Option<int>, other: Option<int>,
               page: seq<Row>, again: seq<Row>)
    requires PageAfter(table, fromMs, toMs, asc, limit, cursor, page) && PageAfter(table, fromMs, toMs, asc, limit, other, again)
    requires WindowAfter(table, fromMs, toMs, asc, cursor) == WindowAfter(table, fromMs, toMs, asc, other)
    ensures |page| == |again|
  {
    var rows := WindowAfter(table, fromMs, toMs, asc, cursor);
    var full :| IsListing(full, rows, asc) && page == Take(full, limit);
    var full' :| IsListing(full', WindowAfter(table, fromMs, toMs, asc, other), asc) && again == Take(full', limit);
    ListingSize(full, rows, asc);
    ListingSize(full', rows, asc);
  }

  lemma ListingSize(full: seq<Row>, rows: set<Row>, asc: bool)
    requires IsListing(full, rows, asc)
    ensures |full| == |rows|
  {
    NoRepeatsSize(full);
    assert RowsOf(full) == rows;
  }

  lemma {:induction false} NoRepeatsSize(s: seq<Row>)
    requires NoRepeats(s)
    ensures |RowsOf(s)| == |s|
  {
    if s != [] {
      var n := |s| - 1;
      NoRepeatsSize(s[..n]);
      assert s == s[..n] + [s[n]];
      assert RowsOf(s) == RowsOf(s[..n]) + {s[n]};
      assert s[n] !in s[..n];
    }
  }

  /** Only rows of the range are shown. */
  lemma {:induction false} ShownAreQueried(table: set<Row>, fromMs: nat, toMs: nat, asc: bool, limit: nat, cursor: Option<int>,
                                           pages: seq<seq<Row>>, r: Row)
    requires Queried(fromMs, toMs, limit) && CursorIn(fromMs, toMs, cursor)
    requires IsRun(table, fromMs, toMs, asc, limit, cursor, pages)
    requires OnPages(pages, r)
    ensures r in WindowAfter(table, fromMs, toMs, asc, cursor)
    decreases |pages|
  {
    PageRows(table, fromMs, toMs, asc, limit, cursor, pages[0], r);
    if r !in pages[0] {
      LaterPages(pages, r);
      RunUsesCursor(table, fromMs, toMs, asc, limit, cursor, pages);
      Turn(table, fromMs, toMs, asc, limit, cursor, pages[0], r);
      ShownAreQueried(table, fromMs, toMs, asc, limit, CursorBehind(pages[0], limit), pages[1..], r);
    }
  }

  lemma LaterPages(pages: seq<seq<Row>>, r: Row)
    requires pages != []
    ensures OnPages(pages, r) <==> r in pages[0] || OnPages(pages[1..], r)
  {
    if i :| 0 <= i < |pages| && r in pages[i] {
      assert i > 0 ==> pages[1..][i - 1] == pages[i];
    }
    if i :| 0 <= i < |pages[1..]| && r in pages[1..][i] {
      assert pages[i + 1] == pages[1..][i];
    }
  }

  /** No row is shown twice, on one page or on two. */
  lemma {:induction false} ShownOnce(table: set<Row>, fromMs: nat, toMs: nat, asc: bool, limit: nat, cursor: Option<int>,
                                     pages: seq<seq<Row>>, i: nat, j: nat, r: Row)
    requires Queried(fromMs, toMs, limit) && CursorIn(fromMs, toMs, cursor)
    requires IsRun(table, fromMs, toMs, asc, limit, cursor, pages)
    requires i <= j < |pages| && r in pages[i] && r in pages[j]
    ensures i == j && NoRepeats(pages[i])
    decreases |pages|
  {
    PageRows(table, fromMs, toMs, asc, limit, cursor, pages[0], r);
    if j > 0 {
      RunUsesCursor(table, fromMs, toMs, asc, limit, cursor, pages);
      Turn(table, fromMs, toMs, asc, limit, cursor, pages[0], r);
      var next, rest := CursorBehind(pages[0], limit), pages[1..];
      assert rest[j - 1] == pages[j];
      assert OnPages(rest, r);
      ShownAreQueried(table, fromMs, toMs, asc, limit, next, rest, r);
      ShownOnce(table, fromMs, toMs, asc, limit, next, rest, i - 1, j - 1, r);
    }
  }

  lemma LostLater(pages: seq<seq<Row>>, asc: bool, i: nat, r: Row)
    requires |pages| > 1 && r !in pages[0]
    ensures LostAt(pages, asc, i + 1, r) <==> LostAt(pages[1..], asc, i, r)
  {
    if i + 1 < |pages| {
      assert pages[..i + 2][1..] == pages[1..][..i + 1];
      LaterPages(pages[..i + 2], r);
    }
  }

  /** Every row of the range is shown or lost at one of the page boundaries, and not both. */
  lemma {:induction false} ShownOrLost(table: set<Row>, fromMs: nat, toMs: nat, asc: bool, limit: nat, cursor: Option<int>,
                                       pages: seq<seq<Row>>, r: Row)
    requires Queried(fromMs, toMs, limit) && CursorIn(fromMs, toMs, cursor)
    requires IsRun(table, fromMs, toMs, asc, limit, cursor, pages)
    requires r in WindowAfter(table, fromMs, toMs, asc, cursor)
    ensures OnPages(pages, r) <==> !exists i :: LostAt(pages, asc, i, r)
    decreases |pages|
  {
    PageRows(table, fromMs, toMs, asc, limit, cursor, pages[0], r);
    if r in pages[0] {
      forall i ensures !LostAt(pages, asc, i, r) {
        if 0 <= i < |pages| {
          LaterPages(pages[..i + 1], r);
        }
      }
    } else {
      RunUsesCursor(table, fromMs, toMs, asc, limit, cursor, pages);
      Turn(table, fromMs, toMs, asc, limit, cursor, pages[0], r);
      var next, rest := CursorBehind(pages[0], limit), pages[1..];
      LaterPages(pages, r);
      FirstBoundary(pages, asc, r);
      if r in WindowAfter(table, fromMs, toMs, asc, next) {
        ShownOrLost(table, fromMs, toMs, asc, limit, next, rest, r);
        LostSomewhere(pages, asc, r);
      } else if OnPages(rest, r) {
        ShownAreQueried(table, fromMs, toMs, asc, limit, next, rest, r);
      }
    }
  }

  lemma FirstBoundary(pages: seq<seq<Row>>, asc: bool, r: Row)
    requires |pages| > 1 && pages[0] != [] && r !in pages[0]
    ensures LostAt(pages, asc, 0, r) <==> LeftOut(pages[0], asc, r)
  {
    assert pages[..1] == [pages[0]];
  }

  lemma LostSomewhere(pages: seq<seq<Row>>, asc: bool, r: Row)
    requires |pages| > 1 && r !in pages[0] && !LostAt(pages, asc, 0, r)
    ensures (exists i :: LostAt(pages, asc, i, r)) <==> exists i :: LostAt(pages[1..], asc, i, r)
  {
    if i :| LostAt(pages, asc, i, r) {
      LostLater(pages, asc, i - 1, r);
    }
    if i :| LostAt(pages[1..], asc, i, r) {
      LostLater(pages, asc, i, r);
    }
  }

  // ----- which rows of the range can be lost, seen from its listing -----

  /** Wherever a page ends in the listing, the next row is apart from the last. */
  ghost predicate CutsApart(full: seq<Row>, limit: nat, asc: bool)
    requires limit > 0
  {
    forall i :: 0 < i < |full| && i % limit == 0 ==> Apart(full[i - 1], full[i], asc)
  }

  lemma ShiftedModulo(i: nat, limit: nat)
    requires limit > 0
    ensures (i + limit) % limit == i % limit
  {
    var k, m := i / limit, i % limit;
    assert i + limit == (k + 1) * limit + m;
    ModuloOf(i + limit, k + 1, limit, m);
  }

  lemma ModuloOf(x: nat, k: nat, limit: nat, m: nat)
    requires limit > 0 && x == k * limit + m && m < limit
    ensures x % limit == m
  {
    var q := x / limit;
    Distribute(k, q, limit);
    Distribute(q, k, limit);
    if k > q {
      AtLeastOneStep(k - q, limit);
    } else if k < q {
      AtLeastOneStep(q - k, limit);
    }
  }

  /** The first page's end, and the others'. */
  lemma CutsBehindPage(full: seq<Row>, limit: nat, asc: bool)
    requires 0 < limit < |full|
    ensures CutsApart(full, limit, asc) <==> Apart(full[limit - 1], full[limit], asc) && CutsApart(full[limit..], limit, asc)
  {
    var rest := full[limit..];
    if CutsApart(rest, limit, asc) && Apart(full[limit - 1], full[limit], asc) {
      forall i | 0 < i < |full| && i % limit == 0 ensures Apart(full[i - 1], full[i], asc) {
        if i > limit {
          ShiftedModulo(i - limit, limit);
          assert Apart(rest[i - limit - 1], rest[i - limit], asc);
        } else if i < limit {
          ModuloOf(i, 0, limit, i);
        }
      }
    }
    if CutsApart(full, limit, asc) {
      ModuloOf(limit, 1, limit, 0);
      forall i | 0 < i < |rest| && i % limit == 0 ensures Apart(rest[i - 1], rest[i], asc) {
        ShiftedModulo(i, limit);
        assert Apart(full[i + limit - 1], full[i + limit], asc);
      }
    }
  }

  /** Two listings of the same rows have the same timestamps, place by place. */
  lemma SameTimes(a: seq<Row>, b: seq<Row>, rows: set<Row>, asc: bool, i: nat)
    requires IsListing(a, rows, asc) && IsListing(b, rows, asc) && i < |a|
    ensures |a| == |b| && a[i].ts == b[i].ts
  {
    ListingSize(a, rows, asc);
    ListingSize(b, rows, asc);
    NotBefore(a, b, rows, asc, i);
    NotBefore(b, a, rows, asc, i);
  }

  predicate Earlier(a: Row, b: Row, asc: bool) {
    if asc then a.ts < b.ts else a.ts > b.ts
  }

  lemma ComesBefore(a: seq<Row>, b: seq<Row>, rows: set<Row>, asc: bool, i: nat, r: Row)
    requires IsListing(a, rows, asc) && IsListing(b, rows, asc) && i < |a| == |b|
    requires r in a[..i + 1] && Earlier(a[i], b[i], asc)
    ensures r in b[..i]
  {
    var j :| 0 <= j <= i && a[j] == r;
    assert a[j] in a;
    assert j < i ==> InOrder(a[j], a[i], asc);
    var k :| 0 <= k < |b| && b[k] == r;
    assert k < i;
    assert b[..i][k] == r;
  }

  lemma NotBefore(a: seq<Row>, b: seq<Row>, rows: set<Row>, asc: bool, i: nat)
    requires IsListing(a, rows, asc) && IsListing(b, rows, asc) && i < |a| == |b|
    ensures !Earlier(a[i], b[i], asc)
  {
    if Earlier(a[i], b[i], asc) {
      forall r | r in RowsOf(a[..i + 1]) ensures r in RowsOf(b[..i]) {
        ComesBefore(a, b, rows, asc, i, r);
      }
      NoRepeatsSize(a[..i + 1]);
      NoRepeatsSize(b[..i]);
      SmallerSet(RowsOf(a[..i + 1]), RowsOf(b[..i]));
    }
  }

  lemma SameCuts(a: seq<Row>, b: seq<Row>, rows: set<Row>, asc: bool, limit: nat)
    requires IsListing(a, rows, asc) && IsListing(b, rows, asc) && limit > 0
    ensures |a| == |b| && (CutsApart(a, limit, asc) <==> CutsApart(b, limit, asc))
  {
    ListingSize(a, rows, asc);
    ListingSize(b, rows, asc);
    forall i | 0 <= i < |a| ensures a[i].ts == b[i].ts {
      SameTimes(a, b, rows, asc, i);
    }
  }

  ghost predicate AllShown(pages: seq<seq<Row>>, rows: set<Row>) {
    forall r :: r in rows ==> OnPages(pages, r)
  }

  /** A run from any cursor shows all rows of its range exactly when, wherever a page ends in a listing
      of the range, the next row is in a later millisecond or, newest first, two milliseconds below.
      Any listing of the range tells. It shows no other rows. */
  lemma {:induction false} RunShowsAllExactly(table: set<Row>, fromMs: nat, toMs: nat, asc: bool, limit: nat, cursor: Option<int>,
                                              pages: seq<seq<Row>>, full: seq<Row>)
    requires Queried(fromMs, toMs, limit) && CursorIn(fromMs, toMs, cursor)
    requires IsRun(table, fromMs, toMs, asc, limit, cursor, pages)
    requires IsListing(full, WindowAfter(table, fromMs, toMs, asc, cursor), asc)
    ensures AllShown(pages, WindowAfter(table, fromMs, toMs, asc, cursor)) <==> CutsApart(full, limit, asc)
    ensures forall r :: OnPages(pages, r) ==> r in WindowAfter(table, fromMs, toMs, asc, cursor)
    decreases |pages|
  {
    var rows := WindowAfter(table, fromMs, toMs, asc, cursor);
    forall r | OnPages(pages, r) ensures r in rows {
      ShownAreQueried(table, fromMs, toMs, asc, limit, cursor, pages, r);
    }
    var own :| IsListing(own, rows, asc) && pages[0] == Take(own, limit);
    SameCuts(own, full, rows, asc, limit);
    if |own| <= limit {
      ShortIsShown(pages, own, rows, asc, limit);
    } else {
      RunUsesCursor(table, fromMs, toMs, asc, limit, cursor, pages);
      CutsBehindPage(own, limit, asc);
      if Apart(own[limit - 1], own[limit], asc) {
        RestIsListed(table, fromMs, toMs, asc, limit, cursor, own);
        Turn(table, fromMs, toMs, asc, limit, cursor, pages[0], own[0]);
        RunShowsAllExactly(table, fromMs, toMs, asc, limit, CursorBehind(pages[0], limit), pages[1..], own[limit..]);
        ShownLater(pages, own, rows, asc, limit);
      } else {
        FirstBehindIsLost(table, fromMs, toMs, asc, limit, cursor, pages, own);
      }
    }
  }

  lemma ShortIsShown(pages: seq<seq<Row>>, own: seq<Row>, rows: set<Row>, asc: bool, limit: nat)
    requires IsListing(own, rows, asc) && |own| <= limit && limit > 0
    requires pages != [] && pages[0] == Take(own, limit)
    ensures AllShown(pages, rows) && CutsApart(own, limit, asc)
  {
    assert own[..|own|] == own;
    forall i | 0 < i < |own| ensures i % limit != 0 {
      ModuloOf(i, 0, limit, i);
    }
  }

  /** When the page's end is apart, the next window is listed by the rest of the listing. */
  lemma RestIsListed(table: set<Row>, fromMs: nat, toMs: nat, asc: bool, limit: nat, cursor: Option<int>, own: seq<Row>)
    requires Queried(fromMs, toMs, limit) && CursorIn(fromMs, toMs, cursor) && CursorUsed(fromMs, toMs, asc)
    requires IsListing(own, WindowAfter(table, fromMs, toMs, asc, cursor), asc) && limit < |own|
    requires Apart(own[limit - 1], own[limit], asc)
    ensures IsListing(own[limit..], WindowAfter(table, fromMs, toMs, asc, CursorBehind(own[..limit], limit)), asc)
  {
    var rest, page, next := own[limit..], own[..limit], CursorBehind(own[..limit], limit);
    assert PageAfter(table, fromMs, toMs, asc, limit, cursor, page);
    forall r ensures r in rest <==> r in WindowAfter(table, fromMs, toMs, asc, next) {
      Turn(table, fromMs, toMs, asc, limit, cursor, page, r);
      RowsBehind(own, WindowAfter(table, fromMs, toMs, asc, cursor), asc, limit, r);
      OnOneSide(own, limit, r);
    }
    forall i, j | 0 <= i < j < |rest| ensures InOrder(rest[i], rest[j], asc) && rest[i] != rest[j] {
      assert rest[i] == own[limit + i] && rest[j] == own[limit + j];
    }
  }

  lemma OnOneSide(own: seq<Row>, limit: nat, r: Row)
    requires NoRepeats(own) && limit <= |own|
    ensures r in own <==> r in own[..limit] || r in own[limit..]
    ensures !(r in own[..limit] && r in own[limit..])
  {
    assert own == own[..limit] + own[limit..];
    if r in own[..limit] {
      var i :| 0 <= i < limit && own[..limit][i] == r;
      forall j | 0 <= j < |own[limit..]| ensures own[limit..][j] != r {
        assert own[limit + j] != own[i];
      }
    }
  }

  lemma ShownLater(pages: seq<seq<Row>>, own: seq<Row>, rows: set<Row>, asc: bool, limit: nat)
    requires IsListing(own, rows, asc) && 0 < limit < |own| && pages != [] && pages[0] == own[..limit]
    requires forall r :: OnPages(pages[1..], r) ==> r in own[limit..]
    ensures AllShown(pages, rows) <==> AllShown(pages[1..], RowsOf(own[limit..]))
  {
    forall r ensures OnPages(pages, r) <==> r in pages[0] || OnPages(pages[1..], r) {
      LaterPages(pages, r);
    }
    forall r ensures r in rows <==> r in own[..limit] || r in own[limit..] {
      OnOneSide(own, limit, r);
    }
    forall r | r in own[limit..] ensures r !in own[..limit] {
      OnOneSide(own, limit, r);
    }
  }

  /** When it is not, the row behind it is never shown. */
  lemma FirstBehindIsLost(table: set<Row>, fromMs: nat, toMs: nat, asc: bool, limit: nat, cursor: Option<int>,
                          pages: seq<seq<Row>>, own: seq<Row>)
    requires Queried(fromMs, toMs, limit) && CursorIn(fromMs, toMs, cursor) && CursorUsed(fromMs, toMs, asc)
    requires IsRun(table, fromMs, toMs, asc, limit, cursor, pages)
    requires IsListing(own, WindowAfter(table, fromMs, toMs, asc, cursor), asc) && limit < |own| && pages[0] == own[..limit]
    requires !Apart(own[limit - 1], own[limit], asc)
    ensures !AllShown(pages, WindowAfter(table, fromMs, toMs, asc, cursor))
  {
    var lost := own[limit];
    assert lost in own && own[limit..][0] == lost;
    OnOneSide(own, limit, lost);
    assert InOrder(own[limit - 1], lost, asc);
    Turn(table, fromMs, toMs, asc, limit, cursor, pages[0], lost);
    LaterPages(pages, lost);
    if OnPages(pages[1..], lost) {
      ShownAreQueried(table, fromMs, toMs, asc, limit, CursorBehind(pages[0], limit), pages[1..], lost);
    }
  }

  // ----- runs exist -----

  /** From any cursor that is let through there is a run, and it ends: all its pages but the last are
      full of different rows. */
  lemma RunExists(table: set<Row>, fromMs: nat, toMs: nat, asc: bool, limit: nat, cursor: Option<int>) returns (pages: seq<seq<Row>>)
    requires Queried(fromMs, toMs, limit) && CursorIn(fromMs, toMs, cursor)
    requires CursorUsed(fromMs, toMs, asc) || |WindowAfter(table, fromMs, toMs, asc, cursor)| < limit
    ensures IsRun(table, fromMs, toMs, asc, limit, cursor, pages)
    ensures |pages| - 1 <= |WindowAfter(table, fromMs, toMs, asc, cursor)|
    decreases WindowAfter(table, fromMs, toMs, asc, cursor)
  {
    var full := ListingExists(WindowAfter(table, fromMs, toMs, asc, cursor), asc);
    var page := Take(full, limit);
    assert PageAfter(table, fromMs, toMs, asc, limit, cursor, page);
    ListingSize(full, WindowAfter(table, fromMs, toMs, asc, cursor), asc);
    if |page| < limit {
      pages := [page];
    } else {
      var next := CursorBehind(page, limit);
      FewerRows(table, fromMs, toMs, asc, limit, cursor, page);
      var rest := RunExists(table, fromMs, toMs, asc, limit, next);
      pages := [page] + rest;
      assert pages[1..] == rest;
    }
  }

  lemma FewerRows(table: set<Row>, fromMs: nat, toMs: nat, asc: bool, limit: nat, cursor: Option<int>, page: seq<Row>)
    requires Queried(fromMs, toMs, limit) && CursorIn(fromMs, toMs, cursor) && CursorUsed(fromMs, toMs, asc)
    requires PageAfter(table, fromMs, toMs, asc, limit, cursor, page) && |page| == limit
    ensures var next := CursorBehind(page, limit);
            CursorIn(fromMs, toMs, next)
            && WindowAfter(table, fromMs, toMs, asc, next) < WindowAfter(table, fromMs, toMs, asc, cursor)
            && |WindowAfter(table, fromMs, toMs, asc, next)| < |WindowAfter(table, fromMs, toMs, asc, cursor)|
  {
    var next := CursorBehind(page, limit);
    var now, then_ := WindowAfter(table, fromMs, toMs, asc, cursor), WindowAfter(table, fromMs, toMs, asc, next);
    forall r: Row
      ensures r in then_ ==> r in now && r !in page
      ensures CursorIn(fromMs, toMs, next)
    {
      Turn(table, fromMs, toMs, asc, limit, cursor, page, r);
    }
    assert page[0] in page;
    PageRows(table, fromMs, toMs, asc, limit, cursor, page, page[0]);
    assert then_ <= now - {page[0]};
    SmallerSet(then_, now - {page[0]});
  }

  /** There is a run exactly when the cursors are let through or the first page is not full. */
  lemma RunsExistExactly(table: set<Row>, fromMs: nat, toMs: nat, asc: bool, limit: nat)
    requires Queried(fromMs, toMs, limit)
    ensures (exists pages :: IsRun(table, fromMs, toMs, asc, limit, None, pages))
            <==> CursorUsed(fromMs, toMs, asc) || |RangeRows(table, fromMs, toMs)| < limit
  {
    if CursorUsed(fromMs, toMs, asc) || |RangeRows(table, fromMs, toMs)| < limit {
      SomeRun(table, fromMs, toMs, asc, limit);
    }
    if pages :| IsRun(table, fromMs, toMs, asc, limit, None, pages) {
      RunsOnlyThen(table, fromMs, toMs, asc, limit, pages);
    }
  }

  lemma SomeRun(table: set<Row>, fromMs: nat, toMs: nat, asc: bool, limit: nat)
    requires Queried(fromMs, toMs, limit)
    requires CursorUsed(fromMs, toMs, asc) || |RangeRows(table, fromMs, toMs)| < limit
    ensures exists pages :: IsRun(table, fromMs, toMs, asc, limit, None, pages)
  {
    FromTheStart(table, fromMs, toMs, asc);
    var pages := RunExists(table, fromMs, toMs, asc, limit, None);
  }

  lemma RunsOnlyThen(table: set<Row>, fromMs: nat, toMs: nat, asc: bool, limit: nat, pages: seq<seq<Row>>)
    requires Queried(fromMs, toMs, limit) && IsRun(table, fromMs, toMs, asc, limit, None, pages)
    ensures CursorUsed(fromMs, toMs, asc) || |RangeRows(table, fromMs, toMs)| < limit
  {
    FromTheStart(table, fromMs, toMs, asc);
    var own :| IsListing(own, WindowAfter(table, fromMs, toMs, asc, None), asc) && pages[0] == Take(own, limit);
    ListingSize(own, RangeRows(table, fromMs, toMs), asc);
    if |pages[0]| == limit {
      RunUsesCursor(table, fromMs, toMs, asc, limit, None, pages);
    }
  }

  lemma SmallerSet(a: set<Row>, b: set<Row>)
    requires a <= b
    ensures |a| <= |b|
  {
    assert b == a + (b - a);
  }

  /** Two logs in one millisecond, oldest first, one row a page: no run shows the second one. */
  lemma AscendingRunLosesARow(pages: seq<seq<Row>>)
    requires var older, newer := Row(1, 1_700_000_000_005_000_000, 1), Row(2, 1_700_000_000_005_000_007, 2);
             IsRun({older, newer}, 1_700_000_000_000, 1_700_000_000_010, true, 1, None, pages)
    ensures var older, newer := Row(1, 1_700_000_000_005_000_000, 1), Row(2, 1_700_000_000_005_000_007, 2);
            newer in RangeRows({older, newer}, 1_700_000_000_000, 1_700_000_000_010)
            && OnPages(pages, older) && !OnPages(pages, newer)
  {
    var older, newer := Row(1, 1_700_000_000_005_000_000, 1), Row(2, 1_700_000_000_005_000_007, 2);
    var table := {older, newer};
    var fromMs, toMs := 1_700_000_000_000, 1_700_000_000_010;
    TwoRows(table, older, newer);
    FirstPageIsOlder(table, fromMs, toMs, pages[0], older, newer);
    FirstRowShown(pages, older, newer);
    ShownOrLost(table, fromMs, toMs, true, 1, None, pages, newer);
  }

  lemma TwoRows(table: set<Row>, older: Row, newer: Row)
    requires table == {older, newer} && RowMs(older) == RowMs(newer) == 1_700_000_000_005
    ensures Queried(1_700_000_000_000, 1_700_000_000_010, 1)
    ensures RangeRows(table, 1_700_000_000_000, 1_700_000_000_010) == table
  {
    ThirteenDigits(1_700_000_000_000);
    ThirteenDigits(1_700_000_000_010);
    RowsInRange(table, 1_700_000_000_000, 1_700_000_000_010, older);
    RowsInRange(table, 1_700_000_000_000, 1_700_000_000_010, newer);
  }

  lemma FirstPageIsOlder(table: set<Row>, fromMs: nat, toMs: nat, page: seq<Row>, older: Row, newer: Row)
    requires RangeRows(table, fromMs, toMs) == {older, newer} && older.ts < newer.ts
    requires PageAfter(table, fromMs, toMs, true, 1, None, page)
    ensures page == [older]
  {
    FromTheStart(table, fromMs, toMs, true);
    var full :| IsListing(full, {older, newer}, true) && page == Take(full, 1);
    ListingSize(full, {older, newer}, true);
    assert full[0] in full && full[1] in full;
  }

  lemma FirstRowShown(pages: seq<seq<Row>>, older: Row, newer: Row)
    requires |pages| > 1 && pages[0] == [older]
    requires newer != older && RowMs(newer) == RowMs(older)
    ensures OnPages(pages, older) && LostAt(pages, true, 0, newer)
  {
    FirstBoundary(pages, true, newer);
    LaterPages(pages, older);
  }
}
