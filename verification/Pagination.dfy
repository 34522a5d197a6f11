/** Walking the windows of a list query with a running budget, and paging on with a cursor. */
module Pagination {
  import opened Options
  import opened Epoch
  import opened Listing
  import opened WindowList
  import opened Words

  const DEFAULT_LIMIT: nat := 10_000

  /** Milliseconds up to the year 2286 have at most thirteen digits. */
  const MAX_MILLIS: nat := 10_000_000_000_000

  /** The queried milliseconds after a cursor: what lies behind the cursor's millisecond. */
  function AfterCursor(fromMs: nat, toMs: nat, asc: bool, cursor: Option<int>): (nat, nat) {
    match cursor
    case None => (fromMs, toMs)
    case Some(ts) =>
      if asc then (if U64(ts) >= fromMs then U64(ts + 1) else fromMs, toMs)
      else (fromMs, if U64(ts) <= toMs then U64(ts - 1) else toMs)
  }

  // ----- windows in the order they are visited -----

  /** The windows in the order they are visited: from the end the listing starts at. */
  function Visited(out: seq<NsRange>, asc: bool): seq<NsRange> {
    if asc then seq(|out|, k requires 0 <= k < |out| => out[|out| - 1 - k]) else out
  }

  method Reversed(buckets: seq<NsRange>) returns (r: seq<NsRange>)
    ensures r == Visited(buckets, true)
  {
    r := buckets;
    var i, j := 0, |buckets| - 1;
    while i < j
      invariant 0 <= i <= |buckets| && j == |buckets| - 1 - i && |r| == |buckets|
      invariant i <= j + 1
      invariant forall k :: 0 <= k < i || j < k < |r| ==> r[k] == buckets[|buckets| - 1 - k]
      invariant forall k :: i <= k <= j ==> r[k] == buckets[k]
    {
      var first, last := r[i], r[j];
      r := r[i := last];
      r := r[j := first];
      i, j := i + 1, j - 1;
    }
  }

  /** How far the walk has come after i windows. */
  function Edge(windows: seq<NsRange>, i: nat, startNs: nat, endNs: nat, asc: bool): nat
    requires i <= |windows|
  {
    if asc then (if i == 0 then startNs else windows[i - 1].to)
    else (if i == 0 then endNs else windows[i - 1].from)
  }

  /** The windows continue one another from one end of the range to the other. */
  ghost predicate Consecutive(windows: seq<NsRange>, startNs: nat, endNs: nat, asc: bool) {
    windows != []
    && Edge(windows, |windows|, startNs, endNs, asc) == (if asc then endNs else startNs)
    && forall i :: 0 <= i < |windows| ==>
         (if asc then windows[i].from else windows[i].to) == Edge(windows, i, startNs, endNs, asc)
  }

  lemma TilesAreConsecutive(out: seq<NsRange>, startNs: nat, endNs: nat, visited: seq<NsRange>, asc: bool)
    requires TilesNewestFirst(out, startNs, endNs)
    requires if asc then |visited| == |out| && forall k :: 0 <= k < |out| ==> visited[k] == out[|out| - 1 - k]
             else visited == out
    ensures Consecutive(visited, startNs, endNs, asc)
  {
  }

  /** All window bounds lie between the bounds of the range. */
  lemma {:induction false} BoundsInside(out: seq<NsRange>, startNs: nat, endNs: nat, i: nat)
    requires startNs <= endNs && TilesNewestFirst(out, startNs, endNs) && i < |out|
    ensures startNs <= out[i].from <= out[i].to <= endNs
    decreases i
  {
    StartIsBelow(out, startNs, endNs, i);
    if i > 0 {
      BoundsInside(out, startNs, endNs, i - 1);
      assert out[i - 1].from == out[i - 1 + 1].to;
    }
  }

  /** Between whole milliseconds all window bounds are whole milliseconds. */
  lemma {:induction false} BoundsAreMillis(out: seq<NsRange>, startNs: nat, endNs: nat, i: nat)
    requires startNs <= endNs && TilesNewestFirst(out, startNs, endNs) && i < |out|
    requires startNs % NANOS_PER_MILLI == 0 && endNs % NANOS_PER_MILLI == 0
    ensures out[i].from % NANOS_PER_MILLI == 0 && out[i].to % NANOS_PER_MILLI == 0
    decreases i
  {
    if i > 0 {
      BoundsAreMillis(out, startNs, endNs, i - 1);
      assert out[i - 1].from == out[i - 1 + 1].to;
    }
    if i < |out| - 1 {
      assert out[i].to - out[i].from == Pow2(i) * HOUR_NANOS;
      HoursAreMillis(out[i].to, Pow2(i));
    }
  }

  lemma HoursAreMillis(t: int, hours: nat)
    requires t % NANOS_PER_MILLI == 0
    ensures (t - hours * HOUR_NANOS) % NANOS_PER_MILLI == 0
  {
  }

  lemma {:induction false} StartIsBelow(out: seq<NsRange>, startNs: nat, endNs: nat, i: nat)
    requires startNs <= endNs && TilesNewestFirst(out, startNs, endNs) && i < |out|
    ensures startNs <= out[i].from
    decreases |out| - i
  {
    if i < |out| - 1 {
      StartIsBelow(out, startNs, endNs, i + 1);
      assert out[i].from == out[i + 1].to;
      if startNs < endNs {
        assert out[i + 1].from < out[i + 1].to;
      }
    }
  }

  /** The whole milliseconds of a time: each window is queried between those of its bounds. */
  function WholeMillis(ns: nat): nat {
    ns / NANOS_PER_MILLI * NANOS_PER_MILLI
  }

  /** Nineteen-digit nanoseconds on a whole millisecond survive the division to milliseconds and the
      scaling back that the statement does. */
  lemma MillisRoundTrip(x: nat)
    requires MIN_NANOS <= x < MAX_NANOS && x % NANOS_PER_MILLI == 0
    ensures Nanos(x / NANOS_PER_MILLI) == x
  {
    Pow10Values();
    var y := x / NANOS_PER_MILLI;
    assert y * NANOS_PER_MILLI == x;
    DigitsBetween(y, 12);
    NanosHasNineteenDigits(y);
  }

  /** Of other nanoseconds the whole milliseconds survive. */
  lemma MillisSurvive(x: nat)
    requires MIN_NANOS <= x < MAX_NANOS
    ensures Nanos(x / NANOS_PER_MILLI) == WholeMillis(x)
    ensures MIN_NANOS <= WholeMillis(x) <= x && WholeMillis(x) % NANOS_PER_MILLI == 0
  {
    MultipleOfMillis(x / NANOS_PER_MILLI);
    assert WholeMillis(x) / NANOS_PER_MILLI == x / NANOS_PER_MILLI;
    MillisRoundTrip(WholeMillis(x));
  }

  /** Epochs of up to thirteen digits become whole milliseconds. */
  lemma MillisAreExact(ms: nat)
    requires 0 < ms < MAX_MILLIS
    ensures MIN_NANOS <= Nanos(ms) < MAX_NANOS && Nanos(ms) % NANOS_PER_MILLI == 0
    ensures WholeMillis(Nanos(ms)) == Nanos(ms)
  {
    Pow10Values();
    NanosHasNineteenDigits(ms);
    DigitsBelow(ms, 13);
    var d := Digits(ms);
    Pow10Adds(13 - d, 6);
    MulAssoc(ms, Pow10(13 - d), 1_000_000);
    MultipleOfMillis(ms * Pow10(13 - d));
  }

  lemma MultipleOfMillis(k: nat)
    ensures k * NANOS_PER_MILLI % NANOS_PER_MILLI == 0
  {
  }

  // ----- the walk -----

  /** The part of the range the walk has passed. */
  function Passed(table: set<Row>, startNs: nat, endNs: nat, edge: nat, asc: bool): set<Row> {
    if asc then InWindow(table, startNs, edge) else InWindow(table, edge, endNs)
  }

  function Drop(s: seq<Row>, n: nat): seq<Row> {
    if n <= |s| then s[n..] else []
  }

  /** Rows still to be skipped are skipped, the others are taken until the page is full. */
  method TakeRows(answer: seq<Row>, rows: seq<Row>, offsetLeft: nat, limit: nat) returns (taken: seq<Row>, left: nat)
    requires |rows| < limit && |answer| <= limit - |rows| + offsetLeft
    requires offsetLeft > 0 ==> rows == []
    ensures taken == rows + Drop(answer, offsetLeft)
    ensures left == if offsetLeft >= |answer| then offsetLeft - |answer| else 0
  {
    taken, left := rows, offsetLeft;
    for k := 0 to |answer|
      invariant taken == rows + Drop(answer[..k], offsetLeft)
      invariant left == if offsetLeft >= k then offsetLeft - k else 0
      invariant |taken| < limit
    {
      assert answer[..k + 1] == answer[..k] + [answer[k]];
      if left > 0 {
        left := left - 1;
        continue;
      }
      taken := taken + [answer[k]];
      if |taken| >= limit {
        assert k + 1 == |answer|;
        assert answer[..k + 1] == answer;
        return;
      }
    }
    assert answer[..|answer|] == answer;
  }

  /** What the walk has gathered from a listing of the part it has passed. */
  ghost predicate Gathered(full: seq<Row>, rows: seq<Row>, need: nat, offsetLeft: nat, offset: nat, limit: nat) {
    |full| < offset + limit
    && rows == Page(full, offset, limit)
    && need == offset + limit - |full|
    && need == limit - |rows| + offsetLeft
    && offsetLeft == if |full| <= offset then offset - |full| else 0
  }

  /** One window's answer moves the page on; a full page is the page of any longer listing. */
  lemma GatherWindow(full: seq<Row>, rows: seq<Row>, need: nat, offsetLeft: nat, offset: nat, limit: nat, window: seq<Row>)
    requires limit > 0 && Gathered(full, rows, need, offsetLeft, offset, limit)
    ensures var answer := Take(window, need);
            var taken := rows + Drop(answer, offsetLeft);
            var left := if offsetLeft >= |answer| then offsetLeft - |answer| else 0;
            taken == Page(full + window, offset, limit)
            && (|taken| < limit ==> Gathered(full + window, taken, need - |answer|, left, offset, limit))
            && (|taken| >= limit ==> |full + window| >= offset + limit)
  {
    var all := full + window;
    var answer := Take(window, need);
    if |full| <= offset {
      assert need == offsetLeft + limit && rows == [];
      DropOfTake(window, offsetLeft, limit);
      DropOfConcat(full, window, offset);
      assert Page(all, offset, limit) == Take(Drop(window, offsetLeft), limit);
    } else {
      assert all[offset..] == full[offset..] + window;
    }
    if |window| < need {
      assert answer == window;
    }
  }

  lemma DropOfConcat(a: seq<Row>, b: seq<Row>, n: nat)
    requires |a| <= n
    ensures Drop(a + b, n) == Drop(b, n - |a|)
    ensures forall limit: nat :: Page(a + b, n, limit) == Take(Drop(b, n - |a|), limit)
  {
  }

  lemma DropOfTake(s: seq<Row>, skip: nat, n: nat)
    ensures Drop(Take(s, skip + n), skip) == Take(Drop(s, skip), n)
  {
  }

  lemma PageOfLonger(full: seq<Row>, rest: seq<Row>, offset: nat, limit: nat)
    requires |full| >= offset + limit
    ensures Page(full + rest, offset, limit) == Page(full, offset, limit)
  {
    assert (full + rest)[offset..][..limit] == full[offset..][..limit];
  }

  lemma {:induction false} ListingExists(rows: set<Row>, asc: bool) returns (full: seq<Row>)
    ensures IsListing(full, rows, asc)
    decreases rows
  {
    if rows == {} {
      full := [];
    } else {
      var r := FirstExists(rows, asc);
      var rest := ListingExists(rows - {r}, asc);
      full := [r] + rest;
      PrependFirst(r, rest, rows, asc);
    }
  }

  lemma PrependFirst(r: Row, rest: seq<Row>, rows: set<Row>, asc: bool)
    requires r in rows && (forall x :: x in rows ==> InOrder(r, x, asc))
    requires IsListing(rest, rows - {r}, asc)
    ensures IsListing([r] + rest, rows, asc)
  {
    forall i | 0 <= i < |rest| ensures InOrder(r, rest[i], asc) && rest[i] != r {
      assert rest[i] in rest;
    }
  }

  /** A page and the cursor behind it: rows offset to offset + limit of a listing of the range. */
  ghost predicate IsPage(table: set<Row>, startNs: nat, endNs: nat, asc: bool, offset: nat, limit: nat, rows: seq<Row>) {
    exists full :: IsListing(full, InWindow(table, startNs, endNs), asc) && rows == Page(full, offset, limit)
  }

  lemma FullPageIsPage(table: set<Row>, startNs: nat, endNs: nat, edge: nat, full: seq<Row>, asc: bool, offset: nat, limit: nat)
    requires startNs <= edge <= endNs
    requires IsListing(full, Passed(table, startNs, endNs, edge, asc), asc)
    requires |full| >= offset + limit
    ensures IsPage(table, startNs, endNs, asc, offset, limit, Page(full, offset, limit))
  {
    var others := if asc then InWindow(table, edge, endNs) else InWindow(table, startNs, edge);
    var rest := ListingExists(others, asc);
    ConcatListings(full, Passed(table, startNs, endNs, edge, asc), rest, others, edge, asc);
    assert Passed(table, startNs, endNs, edge, asc) + others == InWindow(table, startNs, endNs);
    PageOfLonger(full, rest, offset, limit);
  }

  lemma PassWindow(table: set<Row>, windows: seq<NsRange>, i: nat, startNs: nat, endNs: nat, full: seq<Row>, window: seq<Row>, asc: bool)
    requires Consecutive(windows, startNs, endNs, asc) && i < |windows|
    requires startNs <= windows[i].from <= windows[i].to <= endNs
    requires IsListing(full, Passed(table, startNs, endNs, Edge(windows, i, startNs, endNs, asc), asc), asc)
    requires IsListing(window, InWindow(table, windows[i].from, windows[i].to), asc)
    ensures IsListing(full + window, Passed(table, startNs, endNs, Edge(windows, i + 1, startNs, endNs, asc), asc), asc)
  {
    var edge := Edge(windows, i, startNs, endNs, asc);
    var w := windows[i];
    var inWindow := InWindow(table, w.from, w.to);
    ConcatListings(full, Passed(table, startNs, endNs, edge, asc), window, inWindow, edge, asc);
    assert Passed(table, startNs, endNs, edge, asc) + inWindow
           == Passed(table, startNs, endNs, Edge(windows, i + 1, startNs, endNs, asc), asc);
  }

  /** The result of a list query; a query whose windows never come to an end has none. */
  datatype Answer = Listed(rows: seq<Row>, nextCursor: Option<int>) | Forever

  /** The ranges whose windows tile them: both bounds have nineteen-digit nanoseconds, and the range
      is at most an hour long, or free of wrapping, or ends before it starts. */
  ghost predicate Pageable(a: nat, b: nat) {
    0 < a < MAX_NANOS && 0 < b < MAX_NANOS
    && (Nanos(a) <= Nanos(b) ==> Nanos(b) - Nanos(a) <= HOUR_NANOS || WrapFree(Nanos(a), Nanos(b)))
  }

  /** rows is the page of the windows' listings one after the other, as far as they were needed. */
  ghost predicate WalkOf(table: set<Row>, windows: seq<NsRange>, asc: bool, offset: nat, limit: nat, rows: seq<Row>, parts: seq<seq<Row>>) {
    ListsWindows(table, windows, asc, parts) && rows == Page(Flat(parts), offset, limit)
    && (|parts| == |windows| || |rows| == limit)
  }

  /** The answer of any range that is cut at all, tiled or not. */
  ghost predicate IsWalk(table: set<Row>, startNs: nat, endNs: nat, asc: bool, offset: nat, limit: nat, rows: seq<Row>) {
    exists out, parts :: IsCut(startNs, endNs, out) && WalkOf(table, Visited(out, asc), asc, offset, limit, rows, parts)
  }

  /** What a list query answers over these bounds. */
  ghost predicate IsListed(table: set<Row>, a: nat, b: nat, asc: bool, offset: nat, limit: nat, rows: Option<seq<Row>>) {
    (rows.None? <==> NeverEnds(Nanos(a), Nanos(b)))
    && (rows.Some? ==> IsWalk(table, Nanos(a), Nanos(b), asc, offset, limit, rows.value))
    && (Pageable(a, b) ==>
          rows.Some? && IsPage(table, WholeMillis(Nanos(a)), WholeMillis(Nanos(b)), asc, offset, limit, rows.value))
  }

  /** Moves one bound of the range behind the cursor. */
  method CursorBounds(fromMs: nat, toMs: nat, asc: bool, cursor: Option<int>) returns (a: nat, b: nat)
    ensures (a, b) == AfterCursor(fromMs, toMs, asc, cursor)
  {
    a, b := fromMs, toMs;
    if cursor.Some? {
      var ts := cursor.value;
      if asc {
        if U64(ts) >= a {
          a := U64(ts + 1);
        }
      } else {
        if U64(ts) <= b {
          b := U64(ts - 1);
        }
      }
    }
  }

  /** The whole of a windowed list query. */
  method ExecuteWindowList(table: set<Row>, fromMs: nat, toMs: nat, asc: bool, cursor: Option<int>, limit: nat, offset: nat)
    returns (answer: Answer)
    ensures var (a, b) := AfterCursor(fromMs, toMs, asc, cursor);
            var n := if limit == 0 then 10_000 else limit;
            IsListed(table, a, b, asc, offset, n, if answer.Listed? then Some(answer.rows) else None)
            && (answer.Listed? ==>
                  answer.nextCursor == if |answer.rows| == n then Some(answer.rows[n - 1].ts / NANOS_PER_MILLI) else None)
  {
    var a, b := CursorBounds(fromMs, toMs, asc, cursor);
    var reqLimit := if limit == 0 then DEFAULT_LIMIT else limit;
    var rows := ListRange(table, a, b, asc, reqLimit, offset);
    if rows.None? {
      return Forever;
    }
    var nextCursor: Option<int> := None;
    if |rows.value| == reqLimit {
      nextCursor := Some(rows.value[|rows.value| - 1].ts / NANOS_PER_MILLI);
    }
    answer := Listed(rows.value, nextCursor);
  }

  /** The windows of a range, visited from the end the order starts at. */
  method ListRange(table: set<Row>, a: nat, b: nat, asc: bool, limit: nat, offset: nat) returns (rows: Option<seq<Row>>)
    requires limit > 0
    ensures IsListed(table, a, b, asc, offset, limit, rows)
  {
    var buckets := MakeBuckets(a, b);
    PageableIsVisitable(a, b, buckets, asc);
    if buckets.None? {
      return None;
    }
    var windows := buckets.value;
    if asc {
      windows := Reversed(windows);
    }
    var walked, budgets, parts := WalkWindows(table, windows, WholeMillis(Nanos(a)), WholeMillis(Nanos(b)), asc, limit, offset);
    WalkFound(table, Nanos(a), Nanos(b), asc, offset, limit, walked, buckets.value, parts);
    rows := Some(walked);
  }

  lemma WalkFound(table: set<Row>, startNs: nat, endNs: nat, asc: bool, offset: nat, limit: nat, rows: seq<Row>,
                  out: seq<NsRange>, parts: seq<seq<Row>>)
    requires IsCut(startNs, endNs, out) && WalkOf(table, Visited(out, asc), asc, offset, limit, rows, parts)
    ensures IsWalk(table, startNs, endNs, asc, offset, limit, rows)
  {
  }

  lemma PageableIsVisitable(a: nat, b: nat, out: Option<seq<NsRange>>, asc: bool)
    requires out.Some? ==> IsCut(Nanos(a), Nanos(b), out.value)
    requires out.None? <==> NeverEnds(Nanos(a), Nanos(b))
    ensures Pageable(a, b) ==>
              out.Some? && Visitable(InMillis(Visited(out.value, asc)), WholeMillis(Nanos(a)), WholeMillis(Nanos(b)), asc)
  {
    if Pageable(a, b) {
      PageableWindows(a, b, out);
      VisitOrder(out.value, Visited(out.value, asc), Nanos(a), Nanos(b), asc);
    }
  }

  lemma PageableWindows(a: nat, b: nat, out: Option<seq<NsRange>>)
    requires Pageable(a, b)
    requires out.Some? ==> IsCut(Nanos(a), Nanos(b), out.value)
    requires out.None? <==> NeverEnds(Nanos(a), Nanos(b))
    ensures MIN_NANOS <= Nanos(a) < MAX_NANOS && MIN_NANOS <= Nanos(b) < MAX_NANOS && out.Some?
    ensures Nanos(a) <= Nanos(b) ==> TilesNewestFirst(out.value, Nanos(a), Nanos(b))
    ensures Nanos(a) > Nanos(b) ==> out.value == [NsRange(Nanos(a), Nanos(b))]
  {
    Pow10Values();
    NanosHasNineteenDigits(a);
    NanosHasNineteenDigits(b);
    if Nanos(a) <= Nanos(b) {
      CutTiles(Nanos(a), Nanos(b), out);
    } else {
      var one := [NsRange(Nanos(a), Nanos(b))];
      ReversedIsOneWindow(Nanos(a), Nanos(b));
      CutIsUnique(Nanos(a), Nanos(b), one, one);
      CutIsUnique(Nanos(a), Nanos(b), one, out.value);
    }
  }

  /** The windows as they are queried. */
  function InMillis(windows: seq<NsRange>): seq<NsRange> {
    seq(|windows|, i requires 0 <= i < |windows| => NsRange(WholeMillis(windows[i].from), WholeMillis(windows[i].to)))
  }

  /** What the walk relies on: windows that follow one another between the bounds, on whole
      milliseconds; or one window that ends before it starts. */
  ghost predicate Visitable(windows: seq<NsRange>, startNs: nat, endNs: nat, asc: bool) {
    (forall i :: 0 <= i < |windows| ==>
       MIN_NANOS <= windows[i].from < MAX_NANOS && windows[i].from % NANOS_PER_MILLI == 0
       && MIN_NANOS <= windows[i].to < MAX_NANOS && windows[i].to % NANOS_PER_MILLI == 0)
    && (startNs <= endNs ==>
          Consecutive(windows, startNs, endNs, asc)
          && forall i :: 0 <= i < |windows| ==> startNs <= windows[i].from <= windows[i].to <= endNs)
    && (startNs > endNs ==> windows == [NsRange(startNs, endNs)])
  }

  lemma VisitOrder(out: seq<NsRange>, visited: seq<NsRange>, startNs: nat, endNs: nat, asc: bool)
    requires startNs <= endNs ==> TilesNewestFirst(out, startNs, endNs)
    requires startNs > endNs ==> out == [NsRange(startNs, endNs)]
    requires if asc then |visited| == |out| && forall k :: 0 <= k < |out| ==> visited[k] == out[|out| - 1 - k]
             else visited == out
    requires MIN_NANOS <= startNs < MAX_NANOS && MIN_NANOS <= endNs < MAX_NANOS
    ensures Visitable(InMillis(visited), WholeMillis(startNs), WholeMillis(endNs), asc)
  {
    MillisSurvive(startNs);
    MillisSurvive(endNs);
    var windows := InMillis(visited);
    if startNs <= endNs {
      TilesAreConsecutive(out, startNs, endNs, visited, asc);
      forall i | 0 <= i < |visited|
        ensures WholeMillis(startNs) <= windows[i].from <= windows[i].to <= WholeMillis(endNs)
        ensures windows[i].from % NANOS_PER_MILLI == 0 && windows[i].to % NANOS_PER_MILLI == 0
      {
        BoundsInside(out, startNs, endNs, if asc then |out| - 1 - i else i);
        BoundsInMillis(startNs, visited[i], endNs);
      }
      MillisAreConsecutive(visited, startNs, endNs, asc);
    } else {
      assert windows == [NsRange(WholeMillis(startNs), WholeMillis(endNs))];
    }
  }

  lemma BoundsInMillis(startNs: nat, w: NsRange, endNs: nat)
    requires MIN_NANOS <= startNs <= w.from <= w.to <= endNs < MAX_NANOS
    ensures WholeMillis(startNs) <= WholeMillis(w.from) <= WholeMillis(w.to) <= WholeMillis(endNs)
    ensures WholeMillis(w.from) % NANOS_PER_MILLI == 0 && WholeMillis(w.to) % NANOS_PER_MILLI == 0
  {
    MillisInOrder(startNs, w.from);
    MillisInOrder(w.from, w.to);
    MillisInOrder(w.to, endNs);
    MultipleOfMillis(w.from / NANOS_PER_MILLI);
    MultipleOfMillis(w.to / NANOS_PER_MILLI);
  }

  lemma MillisInOrder(a: nat, b: nat)
    requires a <= b
    ensures WholeMillis(a) <= WholeMillis(b)
  {
    assert a / NANOS_PER_MILLI <= b / NANOS_PER_MILLI;
  }

  /** Times whose whole milliseconds have nineteen digits have nineteen digits themselves. */
  lemma NineteenDigits(x: nat)
    requires MIN_NANOS <= WholeMillis(x) < MAX_NANOS
    ensures MIN_NANOS <= x < MAX_NANOS
  {
    if x >= MAX_NANOS {
      MillisInOrder(MAX_NANOS, x);
    }
  }

  /** The statement of a window is given the window's own bounds. */
  lemma QueriedBounds(windows: seq<NsRange>, startNs: nat, endNs: nat, asc: bool, i: nat)
    requires Visitable(InMillis(windows), startNs, endNs, asc) && i < |windows|
    ensures Nanos(windows[i].from / NANOS_PER_MILLI) == InMillis(windows)[i].from
    ensures Nanos(windows[i].to / NANOS_PER_MILLI) == InMillis(windows)[i].to
  {
    var w := InMillis(windows)[i];
    assert MIN_NANOS <= w.from < MAX_NANOS && MIN_NANOS <= w.to < MAX_NANOS;
    NineteenDigits(windows[i].from);
    NineteenDigits(windows[i].to);
    MillisSurvive(windows[i].from);
    MillisSurvive(windows[i].to);
  }

  lemma MillisAreConsecutive(windows: seq<NsRange>, startNs: nat, endNs: nat, asc: bool)
    requires Consecutive(windows, startNs, endNs, asc)
    ensures Consecutive(InMillis(windows), WholeMillis(startNs), WholeMillis(endNs), asc)
  {
    forall i | 0 <= i <= |windows|
      ensures Edge(InMillis(windows), i, WholeMillis(startNs), WholeMillis(endNs), asc) == WholeMillis(Edge(windows, i, startNs, endNs, asc))
    {
    }
  }

  /** What the walk has gathered after i windows: the listing of the part passed. */
  ghost predicate WalkedTo(table: set<Row>, windows: seq<NsRange>, i: nat, startNs: nat, endNs: nat, asc: bool, full: seq<Row>)
    requires i <= |windows|
  {
    if startNs <= endNs then IsListing(full, Passed(table, startNs, endNs, Edge(windows, i, startNs, endNs, asc), asc), asc)
    else full == []
  }

  lemma WalkStarts(table: set<Row>, windows: seq<NsRange>, startNs: nat, endNs: nat, asc: bool)
    ensures WalkedTo(table, windows, 0, startNs, endNs, asc, [])
  {
  }

  lemma WalkOn(table: set<Row>, windows: seq<NsRange>, i: nat, startNs: nat, endNs: nat, asc: bool, full: seq<Row>, window: seq<Row>)
    requires Visitable(windows, startNs, endNs, asc) && i < |windows|
    requires WalkedTo(table, windows, i, startNs, endNs, asc, full)
    requires IsListing(window, InWindow(table, windows[i].from, windows[i].to), asc)
    ensures WalkedTo(table, windows, i + 1, startNs, endNs, asc, full + window)
  {
    if startNs <= endNs {
      PassWindow(table, windows, i, startNs, endNs, full, window, asc);
    } else {
      NothingInReverse(table, startNs, endNs, window, asc);
    }
  }

  lemma WalkEnds(table: set<Row>, windows: seq<NsRange>, startNs: nat, endNs: nat, asc: bool, full: seq<Row>)
    requires Visitable(windows, startNs, endNs, asc) && WalkedTo(table, windows, |windows|, startNs, endNs, asc, full)
    ensures IsListing(full, InWindow(table, startNs, endNs), asc)
  {
    if startNs > endNs {
      NothingInReverse(table, startNs, endNs, [], asc);
    }
  }

  lemma WalkStops(table: set<Row>, windows: seq<NsRange>, i: nat, startNs: nat, endNs: nat, asc: bool, full: seq<Row>, offset: nat, limit: nat)
    requires Visitable(windows, startNs, endNs, asc) && i < |windows| && limit > 0 && |full| >= offset + limit
    requires WalkedTo(table, windows, i + 1, startNs, endNs, asc, full)
    ensures IsPage(table, startNs, endNs, asc, offset, limit, Page(full, offset, limit))
  {
    if startNs <= endNs {
      FullPageIsPage(table, startNs, endNs, Edge(windows, i + 1, startNs, endNs, asc), full, asc, offset, limit);
    }
  }

  /** The same of the windows as they are cut, if they are visitable at all. */
  ghost predicate Walking(table: set<Row>, windows: seq<NsRange>, i: nat, startNs: nat, endNs: nat, asc: bool, full: seq<Row>)
    requires i <= |windows|
  {
    Visitable(InMillis(windows), startNs, endNs, asc) ==> WalkedTo(table, InMillis(windows), i, startNs, endNs, asc, full)
  }

  lemma WalkingOn(table: set<Row>, windows: seq<NsRange>, i: nat, startNs: nat, endNs: nat, asc: bool, full: seq<Row>, window: seq<Row>)
    requires i < |windows| && Walking(table, windows, i, startNs, endNs, asc, full)
    requires IsListing(window, QueriedRows(table, windows[i]), asc)
    ensures Walking(table, windows, i + 1, startNs, endNs, asc, full + window)
  {
    if Visitable(InMillis(windows), startNs, endNs, asc) {
      QueriedBounds(windows, startNs, endNs, asc, i);
      WalkOn(table, InMillis(windows), i, startNs, endNs, asc, full, window);
    }
  }

  /** A walk that has come to the last window, or has a page full, has the page of the range. */
  lemma WalkingDone(table: set<Row>, windows: seq<NsRange>, i: nat, startNs: nat, endNs: nat, asc: bool, full: seq<Row>, offset: nat, limit: nat)
    requires i <= |windows| && limit > 0 && Walking(table, windows, i, startNs, endNs, asc, full)
    requires i == |windows| || (i > 0 && |full| >= offset + limit)
    ensures Visitable(InMillis(windows), startNs, endNs, asc) ==> IsPage(table, startNs, endNs, asc, offset, limit, Page(full, offset, limit))
  {
    if Visitable(InMillis(windows), startNs, endNs, asc) {
      if i == |windows| {
        WalkEnds(table, InMillis(windows), startNs, endNs, asc, full);
      } else {
        WalkStops(table, InMillis(windows), i - 1, startNs, endNs, asc, full, offset, limit);
      }
    }
  }

  /** The rows a window's statement sees. */
  function QueriedRows(table: set<Row>, w: NsRange): set<Row> {
    InWindow(table, Nanos(w.from / NANOS_PER_MILLI), Nanos(w.to / NANOS_PER_MILLI))
  }

  function Flat(parts: seq<seq<Row>>): seq<Row> {
    if parts == [] then [] else Flat(parts[..|parts| - 1]) + parts[|parts| - 1]
  }

  /** parts lists the rows of the first windows, one after the other. */
  ghost predicate ListsWindows(table: set<Row>, windows: seq<NsRange>, asc: bool, parts: seq<seq<Row>>) {
    |parts| <= |windows|
    && forall i :: 0 <= i < |parts| ==> IsListing(parts[i], QueriedRows(table, windows[i]), asc)
  }

  /** What window i is asked for: the rows still missing on the page, and those still to be skipped. */
  function Budget(parts: seq<seq<Row>>, i: nat, offset: nat, limit: nat): int
    requires i <= |parts|
  {
    var before := Flat(parts[..i]);
    limit - |Page(before, offset, limit)| + if |before| <= offset then offset - |before| else 0
  }

  /** The loop over the windows. budgets are the limits it asks for: what is still needed for the page,
      and never zero, for which the statement would put in its own default. Whatever the windows are, the
      rows are the page of their listings one after the other. */
  method WalkWindows(table: set<Row>, windows: seq<NsRange>, ghost startNs: nat, ghost endNs: nat, asc: bool, limit: nat, offset: nat)
    returns (rows: seq<Row>, ghost budgets: seq<nat>, ghost parts: seq<seq<Row>>)
    requires limit > 0
    ensures ListsWindows(table, windows, asc, parts) && rows == Page(Flat(parts), offset, limit)
    ensures |parts| == |windows| || |rows| == limit
    ensures |budgets| == |parts| && forall i :: 0 <= i < |parts| ==> 0 < budgets[i] == Budget(parts, i, offset, limit)
    ensures Visitable(InMillis(windows), startNs, endNs, asc) ==> IsPage(table, startNs, endNs, asc, offset, limit, rows)
  {
    var offsetLeft: nat := offset;
    var need: nat := limit + offsetLeft;
    rows := [];
    budgets := [];
    parts := [];
    WalkStarts(table, InMillis(windows), startNs, endNs, asc);
    var i := 0;
    while i < |windows| && |rows| < limit
      invariant 0 <= i == |parts| <= |windows|
      invariant ListsWindows(table, windows, asc, parts)
      invariant PageSoFar(Flat(parts), rows, need, offsetLeft, offset, limit)
      invariant |rows| >= limit ==> i > 0
      invariant Walking(table, windows, i, startNs, endNs, asc, Flat(parts))
      invariant BudgetsMet(budgets, parts, offset, limit)
    {
      ghost var window;
      ghost var budget, before := need, parts;
      NeedIsBudget(parts, rows, need, offsetLeft, offset, limit);
      rows, need, offsetLeft, window := QueryWindow(table, windows[i], asc, Flat(parts), rows, need, offsetLeft, offset, limit);
      WalkingOn(table, windows, i, startNs, endNs, asc, Flat(before), window);
      parts := before + [window];
      OneMorePart(table, windows, asc, before, window);
      BudgetsGrow(budgets, before, window, budget, offset, limit);
      budgets := budgets + [budget];
      i := i + 1;
    }
    WalkingDone(table, windows, i, startNs, endNs, asc, Flat(parts), offset, limit);
  }

  ghost predicate PageSoFar(full: seq<Row>, rows: seq<Row>, need: nat, offsetLeft: nat, offset: nat, limit: nat) {
    rows == Page(full, offset, limit)
    && (|rows| < limit ==> Gathered(full, rows, need, offsetLeft, offset, limit))
    && (|rows| >= limit ==> |full| >= offset + limit)
  }

  lemma NeedIsBudget(parts: seq<seq<Row>>, rows: seq<Row>, need: nat, offsetLeft: nat, offset: nat, limit: nat)
    requires Gathered(Flat(parts), rows, need, offsetLeft, offset, limit)
    ensures 0 < need == Budget(parts, |parts|, offset, limit)
  {
    assert parts[..|parts|] == parts;
  }

  lemma OneMorePart(table: set<Row>, windows: seq<NsRange>, asc: bool, parts: seq<seq<Row>>, window: seq<Row>)
    requires ListsWindows(table, windows, asc, parts) && |parts| < |windows|
    requires IsListing(window, QueriedRows(table, windows[|parts|]), asc)
    ensures ListsWindows(table, windows, asc, parts + [window]) && Flat(parts + [window]) == Flat(parts) + window
  {
    var grown := parts + [window];
    assert grown[..|parts|] == parts;
    forall i | 0 <= i < |grown| ensures IsListing(grown[i], QueriedRows(table, windows[i]), asc) {
      if i < |parts| {
        assert grown[i] == parts[i];
      } else {
        assert grown[i] == window;
      }
    }
  }

  ghost predicate BudgetsMet(budgets: seq<nat>, parts: seq<seq<Row>>, offset: nat, limit: nat) {
    |budgets| == |parts| && forall i :: 0 <= i < |parts| ==> 0 < budgets[i] == Budget(parts, i, offset, limit)
  }

  lemma BudgetsGrow(budgets: seq<nat>, parts: seq<seq<Row>>, window: seq<Row>, budget: nat, offset: nat, limit: nat)
    requires BudgetsMet(budgets, parts, offset, limit)
    requires 0 < budget == Budget(parts, |parts|, offset, limit)
    ensures BudgetsMet(budgets + [budget], parts + [window], offset, limit)
  {
    var grown := parts + [window];
    forall i | 0 <= i <= |parts| ensures Budget(grown, i, offset, limit) == Budget(parts, i, offset, limit) {
      assert grown[..i] == parts[..i];
    }
  }

  /** One window: its statement is run with what is still needed, and its rows are taken. */
  method QueryWindow(table: set<Row>, r: NsRange, asc: bool, ghost full: seq<Row>, rows: seq<Row>, need: nat, offsetLeft: nat,
                     ghost offset: nat, limit: nat)
    returns (taken: seq<Row>, needed: nat, left: nat, ghost window: seq<Row>)
    requires limit > 0 && Gathered(full, rows, need, offsetLeft, offset, limit)
    ensures IsListing(window, QueriedRows(table, r), asc)
    ensures PageSoFar(full + window, taken, needed, left, offset, limit)
  {
    var answer := RunListStatement(table, r.from / NANOS_PER_MILLI, r.to / NANOS_PER_MILLI, asc, need);
    window :| IsListing(window, QueriedRows(table, r), asc)
              && answer == Take(window, need);
    GatherWindow(full, rows, need, offsetLeft, offset, limit, window);
    needed := need - |answer|;
    taken, left := TakeRows(answer, rows, offsetLeft, limit);
  }

  /** A window that ends before it starts holds nothing. */
  lemma NothingInReverse(table: set<Row>, startNs: nat, endNs: nat, window: seq<Row>, asc: bool)
    requires startNs > endNs
    ensures InWindow(table, startNs, endNs) == {}
    ensures IsListing(window, InWindow(table, startNs, endNs), asc) ==> window == []
    ensures IsListing([], InWindow(table, startNs, endNs), asc)
  {
    if window != [] {
      assert window[0] in window;
    }
  }
}
