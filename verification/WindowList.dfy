/** Windowed list pagination: a range is cut into doubling windows, newest first, and a page is
    gathered window by window. */
module WindowList {
  import opened Options
  import opened Epoch
  import opened Words

  const HOUR_NANOS: nat := 3_600_000_000_000

  const NANOS_PER_MILLI: nat := 1_000_000

  /** Epochs in nanoseconds have nineteen digits. */
  const MIN_NANOS: nat := 1_000_000_000_000_000_000

  const MAX_NANOS: nat := 10_000_000_000_000_000_000

  datatype NsRange = NsRange(from: nat, to: nat)

  function Pow2(k: nat): (p: nat)
    ensures p >= 1
  {
    if k == 0 then 1 else 2 * Pow2(k - 1)
  }

  /** The windows that cover the k newest ones' part of a range: hours, twice as many each time. */
  function Hours(k: nat): nat {
    (Pow2(k) - 1) * HOUR_NANOS
  }

  // ----- the loop as a function, on unsigned 64-bit numbers -----

  /** The width the loop tries for window k. */
  function Width(k: nat): nat {
    if k == 0 then HOUR_NANOS else Twice64(Width(k - 1))
  }

  /** Where a window that ends at curEnd starts. */
  function CurStart(startNs: nat, curEnd: nat, width: nat): nat {
    var s := Sub64(curEnd, width);
    if s < startNs then startNs else s
  }

  /** Where window k ends, if the loop comes that far. */
  function CurEnd(startNs: nat, endNs: nat, k: nat): nat {
    if k == 0 then endNs else CurStart(startNs, CurEnd(startNs, endNs, k - 1), Width(k - 1))
  }

  function Window(startNs: nat, endNs: nat, k: nat): NsRange {
    NsRange(CurEnd(startNs, endNs, k + 1), CurEnd(startNs, endNs, k))
  }

  function Windows(startNs: nat, endNs: nat, n: nat): seq<NsRange> {
    seq(n, k requires 0 <= k < n => Window(startNs, endNs, k))
  }

  /** The loop appends window k. */
  ghost predicate Reaches(startNs: nat, endNs: nat, k: nat) {
    forall j :: 0 <= j < k ==> Window(startNs, endNs, j).from != startNs
  }

  /** The loop ends with window k. */
  ghost predicate EndsWith(startNs: nat, endNs: nat, k: nat) {
    Reaches(startNs, endNs, k) && Window(startNs, endNs, k).from == startNs
  }

  predicate IsShort(startNs: nat, endNs: nat) {
    Sub64(endNs, startNs) <= HOUR_NANOS
  }

  /** What the cutting returns. */
  ghost predicate IsCut(startNs: nat, endNs: nat, out: seq<NsRange>) {
    if IsShort(startNs, endNs) then out == [NsRange(startNs, endNs)]
    else exists k: nat :: EndsWith(startNs, endNs, k) && out == Windows(startNs, endNs, k + 1)
  }

  ghost predicate NeverEnds(startNs: nat, endNs: nat) {
    !IsShort(startNs, endNs) && forall k: nat :: !EndsWith(startNs, endNs, k)
  }

  // ----- the loop -----

  /** After that many doublings the width is zero. */
  const ZERO_WIDTH: nat := 51

  /** Cuts a range into windows. The loop has no bound of its own; None is the case in which it
      appends windows forever, which is settled once the width has become zero. */
  method SplitRange(startNs: nat, endNs: nat) returns (out: Option<seq<NsRange>>)
    requires startNs < TWO_TO_THE_64 && endNs < TWO_TO_THE_64
    ensures out.Some? ==> IsCut(startNs, endNs, out.value)
    ensures out.None? <==> NeverEnds(startNs, endNs)
  {
    if Sub64(endNs, startNs) <= HOUR_NANOS {
      return Some([NsRange(startNs, endNs)]);
    }
    var windows: seq<NsRange> := [];
    var bucket: nat := HOUR_NANOS;
    var curEnd: nat := endNs;
    while |windows| <= ZERO_WIDTH
      invariant |windows| <= ZERO_WIDTH + 1 && windows == Windows(startNs, endNs, |windows|)
      invariant curEnd == CurEnd(startNs, endNs, |windows|) && bucket == Width(|windows|)
      invariant Reaches(startNs, endNs, |windows|)
    {
      ghost var k := |windows|;
      var curStart := Sub64(curEnd, bucket);
      if curStart < startNs {
        curStart := startNs;
      }
      windows := windows + [NsRange(curStart, curEnd)];
      assert windows == Windows(startNs, endNs, k + 1);
      if curStart == startNs {
        assert EndsWith(startNs, endNs, k);
        return Some(windows);
      }
      curEnd := curStart;
      bucket := Twice64(bucket);
    }
    ZeroWidthNeverEnds(startNs, endNs);
    return None;
  }

  /** Cuts a range given by epochs of any precision. */
  method MakeBuckets(start: nat, end: nat) returns (out: Option<seq<NsRange>>)
    ensures out.Some? ==> IsCut(Nanos(start), Nanos(end), out.value)
    ensures out.None? <==> NeverEnds(Nanos(start), Nanos(end))
  {
    var startNs := ToNanoSecs(start);
    var endNs := ToNanoSecs(end);
    out := SplitRange(startNs, endNs);
  }

  /** The loop returns one result. */
  lemma CutIsUnique(startNs: nat, endNs: nat, a: seq<NsRange>, b: seq<NsRange>)
    requires IsCut(startNs, endNs, a) && IsCut(startNs, endNs, b)
    ensures a == b && !NeverEnds(startNs, endNs)
  {
    if !IsShort(startNs, endNs) {
      var j: nat :| EndsWith(startNs, endNs, j) && a == Windows(startNs, endNs, j + 1);
      var k: nat :| EndsWith(startNs, endNs, k) && b == Windows(startNs, endNs, k + 1);
      EndsAtMost(startNs, endNs, j, k);
      EndsAtMost(startNs, endNs, k, j);
    }
  }

  // ----- without wrapping around -----

  lemma OneMoreDoubling(k: nat)
    ensures Hours(k + 1) == Hours(k) + Pow2(k) * HOUR_NANOS == 2 * Hours(k) + HOUR_NANOS
    ensures Hours(0) == 0
  {
  }

  lemma {:induction false} HoursGrow(j: nat, k: nat)
    requires j <= k
    ensures Hours(j) <= Hours(k)
  {
    if j < k {
      OneMoreDoubling(k - 1);
      HoursGrow(j, k - 1);
    }
  }

  lemma SubExact(a: nat, b: nat)
    requires b <= a < TWO_TO_THE_64
    ensures Sub64(a, b) == a - b
  {
  }

  lemma SubWraps(a: nat, b: nat)
    requires a < b < TWO_TO_THE_64
    ensures Sub64(a, b) == TWO_TO_THE_64 + a - b > a
  {
  }

  lemma DoubleExact(a: nat)
    requires 2 * a < TWO_TO_THE_64
    ensures Twice64(a) == 2 * a
  {
  }

  /** As long as the doubled hours stay in the range and above zero, the loop is exact arithmetic. */
  lemma {:induction false} ExactSoFar(startNs: nat, endNs: nat, k: nat)
    requires endNs < MAX_NANOS && Hours(k) < endNs - startNs
    requires k > 0 ==> Hours(k) <= endNs
    ensures CurEnd(startNs, endNs, k) == endNs - Hours(k) && Width(k) == Pow2(k) * HOUR_NANOS
    ensures Reaches(startNs, endNs, k)
  {
    if k > 0 {
      OneMoreDoubling(k - 1);
      ExactSoFar(startNs, endNs, k - 1);
      ExactStep(startNs, endNs, k - 1);
      OneFurther(startNs, endNs, k - 1);
    }
  }

  lemma ExactStep(startNs: nat, endNs: nat, k: nat)
    requires endNs < MAX_NANOS && Hours(k + 1) < endNs - startNs && Hours(k + 1) <= endNs
    requires CurEnd(startNs, endNs, k) == endNs - Hours(k) && Width(k) == Pow2(k) * HOUR_NANOS
    ensures CurEnd(startNs, endNs, k + 1) == endNs - Hours(k + 1) && Width(k + 1) == Pow2(k + 1) * HOUR_NANOS
  {
    var width := Pow2(k) * HOUR_NANOS;
    OneMoreDoubling(k);
    SubExact(endNs - Hours(k), width);
    DoubleExact(width);
    assert Pow2(k + 1) * HOUR_NANOS == 2 * width;
  }

  lemma OneFurther(startNs: nat, endNs: nat, k: nat)
    requires Reaches(startNs, endNs, k) && CurEnd(startNs, endNs, k + 1) != startNs
    ensures Reaches(startNs, endNs, k + 1)
  {
  }

  /** The doubling windows never reach below zero: whenever k windows leave part of the range, the
      next one still fits between zero and the end. */
  ghost predicate WrapFree(startNs: nat, endNs: nat) {
    forall k: nat :: Hours(k) < endNs - startNs ==> Hours(k + 1) <= endNs
  }

  /** The windows cover [startNs, endNs) without gap or overlap, newest first; each is twice as wide
      as the one before it, starting with an hour, except the oldest, which takes what is left. */
  ghost predicate TilesNewestFirst(out: seq<NsRange>, startNs: nat, endNs: nat) {
    out != []
    && out[0].to == endNs && out[|out| - 1].from == startNs
    && (forall i :: 0 <= i < |out| - 1 ==> out[i].from == out[i + 1].to)
    && (forall i :: 0 <= i < |out| - 1 ==> out[i].to - out[i].from == Pow2(i) * HOUR_NANOS)
    && out[|out| - 1].to - out[|out| - 1].from <= Pow2(|out| - 1) * HOUR_NANOS
    && (startNs < endNs ==> forall i :: 0 <= i < |out| ==> out[i].from < out[i].to)
    && (|out| > 1 ==> Hours(|out| - 1) < endNs - startNs)
  }

  /** The first number of doublings that covers the range. */
  lemma LastDoubling(range: nat) returns (k: nat)
    requires range > 0
    ensures Hours(k) < range <= Hours(k + 1)
  {
    k := 0;
    OneMoreDoubling(0);
    while Hours(k + 1) < range
      invariant Hours(k) < range
      decreases range - Hours(k)
    {
      OneMoreDoubling(k);
      k := k + 1;
    }
  }

  /** A range that does not wrap around is tiled. */
  lemma WrapFreeTiles(startNs: nat, endNs: nat) returns (k: nat)
    requires startNs < endNs < MAX_NANOS && WrapFree(startNs, endNs)
    ensures EndsWith(startNs, endNs, k) && TilesNewestFirst(Windows(startNs, endNs, k + 1), startNs, endNs)
  {
    k := LastDoubling(endNs - startNs);
    ExactUpTo(startNs, endNs, k);
    assert Hours(k + 1) <= endNs;
    LastWindow(startNs, endNs, k);
    ExactWindowsTile(startNs, endNs, k);
  }

  lemma ExactUpTo(startNs: nat, endNs: nat, k: nat)
    requires endNs < MAX_NANOS && WrapFree(startNs, endNs) && Hours(k) < endNs - startNs
    ensures forall j: nat | j <= k :: CurEnd(startNs, endNs, j) == endNs - Hours(j) > startNs
    ensures Width(k) == Pow2(k) * HOUR_NANOS && Reaches(startNs, endNs, k)
  {
    forall j: nat | j <= k ensures CurEnd(startNs, endNs, j) == endNs - Hours(j) > startNs {
      FitsBelow(startNs, endNs, j, k);
      ExactSoFar(startNs, endNs, j);
    }
    FitsBelow(startNs, endNs, k, k);
    ExactSoFar(startNs, endNs, k);
  }

  lemma LastWindow(startNs: nat, endNs: nat, k: nat)
    requires Hours(k) < endNs - startNs <= Hours(k + 1) <= endNs < MAX_NANOS
    requires CurEnd(startNs, endNs, k) == endNs - Hours(k) && Width(k) == Pow2(k) * HOUR_NANOS
    ensures CurEnd(startNs, endNs, k + 1) == startNs
  {
    OneMoreDoubling(k);
    SubExact(endNs - Hours(k), Pow2(k) * HOUR_NANOS);
  }

  lemma ExactWindowsTile(startNs: nat, endNs: nat, k: nat)
    requires forall j: nat | j <= k :: CurEnd(startNs, endNs, j) == endNs - Hours(j) > startNs
    requires CurEnd(startNs, endNs, k + 1) == startNs && Hours(k + 1) >= endNs - startNs
    ensures TilesNewestFirst(Windows(startNs, endNs, k + 1), startNs, endNs)
  {
    OneMoreDoubling(k);
    forall j: nat | j < k
      ensures CurEnd(startNs, endNs, j) - CurEnd(startNs, endNs, j + 1) == Pow2(j) * HOUR_NANOS
    {
      OneMoreDoubling(j);
    }
    assert CurEnd(startNs, endNs, 0) == endNs;
  }

  lemma FitsBelow(startNs: nat, endNs: nat, j: nat, k: nat)
    requires WrapFree(startNs, endNs) && Hours(k) < endNs - startNs && j <= k
    ensures Hours(j) < endNs - startNs && (j > 0 ==> Hours(j) <= endNs)
  {
    HoursGrow(j, k);
    if j > 0 {
      HoursGrow(j - 1, k);
      assert Hours(j - 1 + 1) <= endNs;
    }
  }

  /** A range of more than an hour that is not free of wrapping has a window that ends before it
      starts: the subtraction wraps around at the first width that does not fit above zero. */
  lemma WrappingWindow(startNs: nat, endNs: nat) returns (k: nat)
    requires startNs + HOUR_NANOS < endNs < MAX_NANOS && !WrapFree(startNs, endNs)
    ensures Reaches(startNs, endNs, k) && Window(startNs, endNs, k).from > Window(startNs, endNs, k).to
  {
    var last: nat :| Hours(last) < endNs - startNs && Hours(last + 1) > endNs;
    k := FirstTooWide(endNs, last);
    HoursGrow(k, last);
    OneMoreDoubling(0);
    ExactSoFar(startNs, endNs, k);
    OneMoreDoubling(k);
    SubWraps(endNs - Hours(k), Pow2(k) * HOUR_NANOS);
  }

  lemma {:induction false} FirstTooWide(endNs: nat, last: nat) returns (k: nat)
    requires Hours(last + 1) > endNs
    ensures k <= last && Hours(k + 1) > endNs && (k > 0 ==> Hours(k) <= endNs)
  {
    if last == 0 || Hours(last) <= endNs {
      k := last;
    } else {
      k := FirstTooWide(endNs, last - 1);
    }
  }

  /** Every window the loop reaches is in what it returns. */
  lemma HasTheWindow(startNs: nat, endNs: nat, out: seq<NsRange>, k: nat)
    requires !IsShort(startNs, endNs) && IsCut(startNs, endNs, out) && Reaches(startNs, endNs, k)
    ensures k < |out| && out[k] == Window(startNs, endNs, k)
  {
    var n: nat :| EndsWith(startNs, endNs, n) && out == Windows(startNs, endNs, n + 1);
    EndsAtMost(startNs, endNs, n, k);
  }

  lemma EndsAtMost(startNs: nat, endNs: nat, n: nat, k: nat)
    requires EndsWith(startNs, endNs, n) && Reaches(startNs, endNs, k)
    ensures k <= n
  {
    assert n < k ==> Window(startNs, endNs, n).from != startNs;
  }

  /** The windows tile the range exactly when it is at most an hour long or free of wrapping; any
      other range has a window that ends before it starts. */
  lemma TilesExactly(startNs: nat, endNs: nat)
    requires startNs <= endNs < MAX_NANOS
    ensures (exists out :: IsCut(startNs, endNs, out) && TilesNewestFirst(out, startNs, endNs))
            <==> endNs - startNs <= HOUR_NANOS || WrapFree(startNs, endNs)
    ensures !(endNs - startNs <= HOUR_NANOS || WrapFree(startNs, endNs)) ==>
              exists k: nat :: Reaches(startNs, endNs, k) && Window(startNs, endNs, k).from > Window(startNs, endNs, k).to
  {
    if endNs - startNs <= HOUR_NANOS {
      assert TilesNewestFirst([NsRange(startNs, endNs)], startNs, endNs);
    } else if WrapFree(startNs, endNs) {
      var k := WrapFreeTiles(startNs, endNs);
    } else {
      var k := WrappingWindow(startNs, endNs);
      forall out | IsCut(startNs, endNs, out) ensures !TilesNewestFirst(out, startNs, endNs) {
        HasTheWindow(startNs, endNs, out, k);
      }
    }
  }

  /** What the cutting of such a range returns. */
  lemma CutTiles(startNs: nat, endNs: nat, out: Option<seq<NsRange>>)
    requires startNs <= endNs < MAX_NANOS && (endNs - startNs <= HOUR_NANOS || WrapFree(startNs, endNs))
    requires out.Some? ==> IsCut(startNs, endNs, out.value)
    requires out.None? <==> NeverEnds(startNs, endNs)
    ensures out.Some? && TilesNewestFirst(out.value, startNs, endNs)
  {
    TilesExactly(startNs, endNs);
    var tiles :| IsCut(startNs, endNs, tiles) && TilesNewestFirst(tiles, startNs, endNs);
    CutIsUnique(startNs, endNs, tiles, tiles);
    CutIsUnique(startNs, endNs, tiles, out.value);
  }

  /** A simple sufficient condition: the end is at most an hour short of twice the start. */
  lemma WrapFreeWithinTwice(startNs: nat, endNs: nat)
    requires startNs <= endNs && endNs + HOUR_NANOS <= 2 * startNs
    ensures WrapFree(startNs, endNs)
  {
    forall k: nat | Hours(k) < endNs - startNs ensures Hours(k + 1) <= endNs {
      OneMoreDoubling(k);
    }
  }

  /** Every range that starts after zero and ends by the middle of 2033 is tiled. */
  lemma TodayTiles(start: nat, end: nat)
    requires 0 < start < MAX_NANOS && Nanos(start) <= Nanos(end) <= 1_999_996_400_000_000_000
    ensures exists out :: IsCut(Nanos(start), Nanos(end), out) && TilesNewestFirst(out, Nanos(start), Nanos(end))
  {
    Pow10Values();
    NanosHasNineteenDigits(start);
    WrapFreeWithinTwice(Nanos(start), Nanos(end));
    TilesExactly(Nanos(start), Nanos(end));
  }

  // ----- the end before the start, as a cursor can make it -----

  /** A range that ends an hour or more above zero, but before it starts, is passed on as it is. */
  lemma ReversedIsOneWindow(startNs: nat, endNs: nat)
    requires HOUR_NANOS <= endNs < startNs < MAX_NANOS
    ensures IsCut(startNs, endNs, [NsRange(startNs, endNs)])
  {
    assert !IsShort(startNs, endNs);
    assert CurEnd(startNs, endNs, 1) == startNs;
    assert EndsWith(startNs, endNs, 0);
    assert Windows(startNs, endNs, 1) == [NsRange(startNs, endNs)];
  }

  // ----- ranges that never end -----

  lemma {:induction false} WidthIsPower(k: nat)
    ensures Width(k) == U64(Pow2(k) * HOUR_NANOS)
  {
    if k > 0 {
      WidthIsPower(k - 1);
      DoubledModulo(Pow2(k - 1) * HOUR_NANOS);
    }
  }

  lemma DoubledModulo(x: nat)
    ensures U64(U64(x) * 2) == U64(x * 2)
  {
    var q, r := x / TWO_TO_THE_64, U64(x);
    assert x * 2 == r * 2 + TWO_TO_THE_64 * (2 * q);
    PlusMultiple(r * 2, 2 * q);
  }

  lemma PlusMultiple(x: int, k: int)
    ensures U64(x + TWO_TO_THE_64 * k) == U64(x)
  {
  }

  /** An hour has thirteen factors of two, so 51 doublings make it a multiple of 2^64. */
  lemma {:induction false} WidthIsZero(k: nat)
    requires k >= ZERO_WIDTH
    ensures Width(k) == 0
  {
    if k == ZERO_WIDTH {
      WidthIsPower(k);
      Pow2Values();
      assert Pow2(51) * HOUR_NANOS == TWO_TO_THE_64 * 439453125;
      TimesModulo(439453125);
    } else {
      WidthIsZero(k - 1);
    }
  }

  lemma TimesModulo(k: nat)
    ensures U64(TWO_TO_THE_64 * k) == 0
  {
  }

  lemma Pow2Values()
    ensures Pow2(51) == 2_251_799_813_685_248
  {
    assert Pow2(6) == 64;
    assert Pow2(12) == 4096;
    assert Pow2(18) == 262_144;
    assert Pow2(24) == 16_777_216;
    assert Pow2(30) == 1_073_741_824;
    assert Pow2(36) == 68_719_476_736;
    assert Pow2(42) == 4_398_046_511_104;
    assert Pow2(48) == 281_474_976_710_656;
  }

  lemma {:induction false} StaysInWords(startNs: nat, endNs: nat, k: nat)
    requires startNs < TWO_TO_THE_64 && endNs < TWO_TO_THE_64
    ensures CurEnd(startNs, endNs, k) < TWO_TO_THE_64
    ensures k > 0 ==> CurEnd(startNs, endNs, k) >= startNs
  {
    if k > 0 {
      StaysInWords(startNs, endNs, k - 1);
    }
  }

  /** Once the width is zero the loop stands still: it ends with one of its first windows or never. */
  lemma ZeroWidthNeverEnds(startNs: nat, endNs: nat)
    requires startNs < TWO_TO_THE_64 && endNs < TWO_TO_THE_64
    requires !IsShort(startNs, endNs) && Reaches(startNs, endNs, ZERO_WIDTH + 1)
    ensures NeverEnds(startNs, endNs)
  {
    assert Window(startNs, endNs, ZERO_WIDTH).from != startNs;
    forall k: nat ensures !EndsWith(startNs, endNs, k) {
      if k > ZERO_WIDTH {
        StandsStill(startNs, endNs, k + 1);
      } else {
        assert Window(startNs, endNs, k).from != startNs;
      }
    }
  }

  lemma {:induction false} StandsStill(startNs: nat, endNs: nat, k: nat)
    requires startNs < TWO_TO_THE_64 && endNs < TWO_TO_THE_64 && k > ZERO_WIDTH
    ensures CurEnd(startNs, endNs, k) == CurEnd(startNs, endNs, ZERO_WIDTH + 1)
  {
    if k > ZERO_WIDTH + 1 {
      StandsStill(startNs, endNs, k - 1);
      StaysInWords(startNs, endNs, k - 1);
      WidthIsZero(k - 1);
      SubExact(CurEnd(startNs, endNs, k - 1), 0);
    }
  }

  // ----- when the loop ends -----

  /** As long as the loop goes on it never stops at the start, so it only subtracts. */
  lemma {:induction false} OnlySubtracts(startNs: nat, endNs: nat, k: nat)
    requires startNs < TWO_TO_THE_64 && endNs < TWO_TO_THE_64 && Reaches(startNs, endNs, k)
    ensures CurEnd(startNs, endNs, k) == U64(endNs - Hours(k))
  {
    OneMoreDoubling(0);
    if k > 0 {
      assert Window(startNs, endNs, k - 1).from != startNs;
      OnlySubtracts(startNs, endNs, k - 1);
      OneSubtraction(endNs, k - 1);
    }
  }

  lemma OneSubtraction(endNs: nat, k: nat)
    ensures Sub64(U64(endNs - Hours(k)), Width(k)) == U64(endNs - Hours(k + 1))
  {
    WidthIsPower(k);
    OneMoreDoubling(k);
    DifferenceModulo(endNs - Hours(k), Pow2(k) * HOUR_NANOS);
  }

  lemma DifferenceModulo(a: int, b: int)
    ensures U64(U64(a) - U64(b)) == U64(a - b)
  {
    var p, q := a / TWO_TO_THE_64, b / TWO_TO_THE_64;
    assert a - b == U64(a) - U64(b) + TWO_TO_THE_64 * (p - q);
    PlusMultiple(U64(a) - U64(b), p - q);
  }

  /** On 64-bit numbers, an hour and two and four and so on k times more lead from the end to a time
      after the start. */
  predicate StaysAbove(startNs: nat, endNs: nat, k: nat) {
    U64(endNs - Hours(k + 1)) > startNs
  }

  /** Whether the loop ends can be told from the bounds: it runs forever exactly when the range is more
      than an hour and none of the first 52 sums of doubled hours leads from the end to the start or
      before it. */
  lemma NeverEndsExactly(startNs: nat, endNs: nat)
    requires startNs < TWO_TO_THE_64 && endNs < TWO_TO_THE_64
    ensures NeverEnds(startNs, endNs) <==>
            !IsShort(startNs, endNs) && forall k: nat :: k <= ZERO_WIDTH ==> StaysAbove(startNs, endNs, k)
  {
    if NeverEnds(startNs, endNs) {
      forall k: nat ensures StaysAbove(startNs, endNs, k) {
        ReachesOn(startNs, endNs, k + 1);
        OnlySubtracts(startNs, endNs, k + 1);
        StaysInWords(startNs, endNs, k + 1);
        assert Window(startNs, endNs, k).from != startNs;
      }
    }
    if !IsShort(startNs, endNs) && forall k: nat :: k <= ZERO_WIDTH ==> StaysAbove(startNs, endNs, k) {
      AboveReaches(startNs, endNs, ZERO_WIDTH + 1);
      ZeroWidthNeverEnds(startNs, endNs);
    }
  }

  lemma {:induction false} ReachesOn(startNs: nat, endNs: nat, k: nat)
    requires NeverEnds(startNs, endNs)
    ensures Reaches(startNs, endNs, k)
  {
    if k > 0 {
      ReachesOn(startNs, endNs, k - 1);
      assert !EndsWith(startNs, endNs, k - 1);
    }
  }

  lemma {:induction false} AboveReaches(startNs: nat, endNs: nat, n: nat)
    requires startNs < TWO_TO_THE_64 && endNs < TWO_TO_THE_64
    requires forall k: nat :: k < n ==> StaysAbove(startNs, endNs, k)
    ensures Reaches(startNs, endNs, n)
  {
    if n > 0 {
      AboveReaches(startNs, endNs, n - 1);
      OnlySubtracts(startNs, endNs, n - 1);
      OneSubtraction(endNs, n - 1);
      assert StaysAbove(startNs, endNs, n - 1);
      OneFurther(startNs, endNs, n - 1);
    }
  }

  /** A range of more than an hour that starts at zero ends exactly when its end is, on 64-bit
      numbers, a sum of the doubled hours. */
  lemma FromZeroEnds(endNs: nat)
    requires HOUR_NANOS < endNs < TWO_TO_THE_64
    ensures NeverEnds(0, endNs) <==> forall k: nat :: k <= ZERO_WIDTH ==> !IsSumOfHours(endNs, k)
  {
    NeverEndsExactly(0, endNs);
    assert forall k: nat :: StaysAbove(0, endNs, k) <==> !IsSumOfHours(endNs, k);
  }

  /** endNs is an hour, and two, and four, and so on k times more. */
  predicate IsSumOfHours(endNs: nat, k: nat) {
    U64(endNs - Hours(k + 1)) == 0
  }

  /** All sums of doubled hours leave 8192 modulo 16384, so any other end makes the loop run forever. */
  lemma FromZeroNeverEnds(endNs: nat)
    requires HOUR_NANOS < endNs < TWO_TO_THE_64 && endNs % 16384 != 8192
    ensures NeverEnds(0, endNs)
  {
    FromZeroEnds(endNs);
    forall k: nat ensures !IsSumOfHours(endNs, k) {
      OddHours(k + 1);
      DifferentModulo(endNs, Hours(k + 1));
      MultipleOf16384(endNs - Hours(k + 1));
    }
  }

  lemma OddHours(k: nat)
    requires k > 0
    ensures Hours(k) % 16384 == 8192
  {
    var p := Pow2(k - 1);
    assert Hours(k) == (2 * p - 1) * HOUR_NANOS;
    assert Hours(k) == 8192 + 16384 * (439453125 * p - 219726563);
    RemainderIs(439453125 * p - 219726563);
  }

  lemma RemainderIs(m: int)
    ensures (8192 + 16384 * m) % 16384 == 8192
  {
  }

  lemma DifferentModulo(a: nat, b: nat)
    requires a % 16384 != b % 16384
    ensures (a - b) % 16384 != 0
  {
  }

  lemma MultipleOf16384(x: int)
    ensures U64(x) == 0 ==> x % 16384 == 0
  {
  }

  /** A query from zero to some day of 2023: the windows neither tile it nor ever come to an end. */
  lemma WrapsFromZero()
    ensures NeverEnds(Nanos(0), Nanos(1_700_000_000_000))
    ensures !WrapFree(Nanos(0), Nanos(1_700_000_000_000))
  {
    Pow10Values();
    assert Nanos(0) == 0;
    DigitsBetween(1_700_000_000_000, 12);
    assert Nanos(1_700_000_000_000) == 1_700_000_000_000_000_000;
    FromZeroNeverEnds(1_700_000_000_000_000_000);
    NeverEndsIsNotFree(0, 1_700_000_000_000_000_000);
  }

  /** Subtraction and doubling on 64-bit numbers without division. */
  function Less(a: nat, b: nat): int {
    if b <= a then a - b else 0x1_0000_0000_0000_0000 + a - b
  }

  function Double(b: nat): int {
    if b < 0x8000_0000_0000_0000 then b + b else b + b - 0x1_0000_0000_0000_0000
  }

  /** The first n sums stay above, computed step by step. */
  predicate AllAbove(startNs: int, curEnd: int, width: int, n: nat)
    decreases n
  {
    n == 0
    || (startNs >= 0 && curEnd >= 0 && width >= 0 && Less(curEnd, width) > startNs
        && AllAbove(startNs, Less(curEnd, width), Double(width), n - 1))
  }

  lemma {:induction false} AllAboveMeans(startNs: nat, endNs: nat, j: nat, n: nat)
    requires AllAbove(startNs, U64(endNs - Hours(j)), Width(j), n)
    ensures forall k: nat :: j <= k < j + n ==> StaysAbove(startNs, endNs, k)
    decreases n
  {
    if n > 0 {
      OneSubtraction(endNs, j);
      WidthIsPower(j);
      WithoutDivision(U64(endNs - Hours(j)), Width(j));
      AllAboveMeans(startNs, endNs, j + 1, n - 1);
    }
  }

  lemma WithoutDivision(a: nat, b: nat)
    requires a < TWO_TO_THE_64 && b < TWO_TO_THE_64
    ensures Sub64(a, b) == Less(a, b) && Twice64(b) == Double(b)
  {
  }

  /** Nor is zero the only such start: from a day of 2001 to one of 2260 the loop runs forever. */
  lemma NeverEndsFrom2001()
    ensures NeverEnds(Nanos(1_000_000_000_000), Nanos(9_161_000_000_000))
  {
    var startNs: nat, endNs: nat := 1_000_000_000_000_000_000, 9_161_000_000_000_000_000;
    Pow10Values();
    DigitsBetween(1_000_000_000_000, 12);
    DigitsBetween(9_161_000_000_000, 12);
    assert Nanos(1_000_000_000_000) == startNs && Nanos(9_161_000_000_000) == endNs;
    OneMoreDoubling(0);
    AboveFrom2001();
    AllAboveMeans(startNs, endNs, 0, ZERO_WIDTH + 1);
    NeverEndsExactly(startNs, endNs);
  }

  lemma AboveFrom2001()
    ensures AllAbove(1_000_000_000_000_000_000, 9_161_000_000_000_000_000, 3_600_000_000_000, 52)
  {
    assert AllAbove(1_000_000_000_000_000_000, 2_509_186_950_373_777_408, 6_651_816_649_626_222_592, 13);
    assert AllAbove(1_000_000_000_000_000_000, 7_376_766_158_224_171_008, 1_784_237_441_775_828_992, 26);
    assert AllAbove(1_000_000_000_000_000_000, 9_131_512_400_000_000_000, 29_491_200_000_000_000, 39);
  }

  lemma NeverEndsIsNotFree(startNs: nat, endNs: nat)
    requires startNs < endNs < MAX_NANOS && NeverEnds(startNs, endNs)
    ensures !WrapFree(startNs, endNs)
  {
    TilesExactly(startNs, endNs);
    forall out ensures !IsCut(startNs, endNs, out) {
    }
  }
}
