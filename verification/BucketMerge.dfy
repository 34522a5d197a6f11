/** The parts of the bucket cache that work on values: merging the series of several buckets,
    cutting results to a time range, and merging bucket lists. */
module BucketMerge {
  import opened TimeSeries
  import opened SeriesMerge
  import opened Sorting
  import opened MissingRanges

  // ----- merging the series of cached buckets -----

  /** The series of all buckets, in the order the merge walks them. */
  function BucketEntries(buckets: seq<Bucket>): seq<Entry> {
    if buckets == [] then []
    else BucketEntries(buckets[..|buckets| - 1]) + Entries(buckets[|buckets| - 1].value.aggregations)
  }

  ghost function AggIndexes(m: map<Id, seq<Point>>): set<nat> {
    set id | id in m :: id.agg
  }

  method MergeTimeSeriesValues(buckets: seq<Bucket>) returns (d: Data)
    ensures var m := Absorbed(BucketEntries(buckets)); Renders(d, AggIndexes(m), m)
  {
    var seriesMap: map<Id, seq<Point>> := map[];
    for i := 0 to |buckets|
      invariant seriesMap == Absorbed(BucketEntries(buckets[..i]))
    {
      assert buckets[..i + 1][..i] == buckets[..i];
      seriesMap := AbsorbBucket(seriesMap, BucketEntries(buckets[..i]), buckets[i].value.aggregations);
    }
    assert buckets[..|buckets|] == buckets;
    var groups := GroupByAggregation(seriesMap);
    d := RenderGroups(groups, seriesMap);
    assert OfIndexes(seriesMap, AggIndexes(seriesMap)) == seriesMap;
  }

  method AbsorbBucket(m: map<Id, seq<Point>>, ghost before: seq<Entry>, aggs: seq<Aggregation>)
    returns (seriesMap: map<Id, seq<Point>>)
    requires m == Absorbed(before)
    ensures seriesMap == Absorbed(before + Entries(aggs))
  {
    seriesMap := m;
    assert before + [] == before;
    for i := 0 to |aggs|
      invariant seriesMap == Absorbed(before + Entries(aggs[..i]))
    {
      ghost var walked := before + Entries(aggs[..i]);
      seriesMap := AbsorbSeries(seriesMap, walked, aggs[i].index, aggs[i].series);
      WalkOneAggregation(before, aggs, i);
    }
    assert aggs[..|aggs|] == aggs;
  }

  lemma WalkOneAggregation(before: seq<Entry>, aggs: seq<Aggregation>, i: nat)
    requires i < |aggs|
    ensures before + Entries(aggs[..i + 1])
            == (before + Entries(aggs[..i])) + SeriesEntries(aggs[i].index, aggs[i].series)
  {
    EntriesExtend(aggs, i);
  }

  method AbsorbSeries(m: map<Id, seq<Point>>, ghost walked: seq<Entry>, index: nat, series: seq<Series>)
    returns (seriesMap: map<Id, seq<Point>>)
    requires m == Absorbed(walked)
    ensures seriesMap == Absorbed(walked + SeriesEntries(index, series))
  {
    seriesMap := m;
    ghost var es := SeriesEntries(index, series);
    assert walked + es[..0] == walked;
    for j := 0 to |series|
      invariant seriesMap == Absorbed(walked + es[..j])
    {
      WalkOneMore(walked, es, j);
      var key := Id(index, series[j].key);
      if key in seriesMap {
        var merged := AddNewPoints(seriesMap[key], series[j].values);
        seriesMap := seriesMap[key := merged];
      } else {
        seriesMap := seriesMap[key := series[j].values];
      }
    }
    assert es[..|series|] == es;
  }

  lemma WalkOneMore(walked: seq<Entry>, es: seq<Entry>, j: nat)
    requires j < |es|
    ensures Absorbed(walked + es[..j + 1]) == AbsorbOne(Absorbed(walked + es[..j]), es[j])
  {
    assert walked + es[..j + 1] == (walked + es[..j]) + [es[j]];
    AbsorbedExtend(walked + es[..j], es[j]);
  }

  /** list holds, unsorted, the series of one aggregation of m whose ids are in done. */
  ghost predicate GroupOf(list: seq<Series>, index: nat, m: map<Id, seq<Point>>, done: set<Id>) {
    (forall i, j :: 0 <= i < j < |list| ==> list[i].key != list[j].key)
    && (forall i :: 0 <= i < |list| ==>
          Id(index, list[i].key) in done && Id(index, list[i].key) in m && list[i].values == m[Id(index, list[i].key)])
    && forall key :: Id(index, key) in done ==> exists i :: 0 <= i < |list| && list[i].key == key
  }

  ghost predicate GroupsOf(groups: map<nat, seq<Series>>, m: map<Id, seq<Point>>, done: set<Id>) {
    groups.Keys == (set id | id in done :: id.agg)
    && forall index :: index in groups ==> GroupOf(groups[index], index, m, done)
  }

  /** The series map is regrouped in whatever order the map yields its keys. */
  method GroupByAggregation(m: map<Id, seq<Point>>) returns (groups: map<nat, seq<Series>>)
    ensures GroupsOf(groups, m, m.Keys)
  {
    groups := map[];
    var todo := m.Keys;
    ghost var done: set<Id> := {};
    while todo != {}
      invariant todo + done == m.Keys && todo !! done
      invariant GroupsOf(groups, m, done)
      decreases todo
    {
      var id :| id in todo;
      MoveOne(todo, done, m.Keys, id);
      AddToGroup(groups, m, done, id);
      var list := if id.agg in groups then groups[id.agg] else [];
      groups := groups[id.agg := list + [Series(id.key, m[id])]];
      todo := todo - {id};
      done := done + {id};
    }
    assert done == m.Keys;
  }

  lemma AddToGroup(groups: map<nat, seq<Series>>, m: map<Id, seq<Point>>, done: set<Id>, id: Id)
    requires GroupsOf(groups, m, done) && id in m && id !in done
    ensures GroupsOf(groups[id.agg := (if id.agg in groups then groups[id.agg] else []) + [Series(id.key, m[id])]], m, done + {id})
  {
    var list := if id.agg in groups then groups[id.agg] else [];
    if id.agg !in groups {
      NoGroupYet(groups, m, done, id.agg);
    }
    GroupGrows(list, m, done, id);
    forall index | index in groups && index != id.agg ensures GroupOf(groups[index], index, m, done + {id}) {
      OtherGroupStays(groups[index], index, m, done, id);
    }
    AggsGrow(done, id);
  }

  lemma NoGroupYet(groups: map<nat, seq<Series>>, m: map<Id, seq<Point>>, done: set<Id>, index: nat)
    requires GroupsOf(groups, m, done) && index !in groups
    ensures GroupOf([], index, m, done)
  {
    assert forall x :: x in done ==> x.agg in groups.Keys;
  }

  lemma OtherGroupStays(list: seq<Series>, index: nat, m: map<Id, seq<Point>>, done: set<Id>, id: Id)
    requires GroupOf(list, index, m, done) && index != id.agg
    ensures GroupOf(list, index, m, done + {id})
  {
  }

  lemma AggsGrow(done: set<Id>, id: Id)
    ensures (set x | x in done + {id} :: x.agg) == (set x | x in done :: x.agg) + {id.agg}
  {
  }

  lemma GroupGrows(list: seq<Series>, m: map<Id, seq<Point>>, done: set<Id>, id: Id)
    requires GroupOf(list, id.agg, m, done) && id in m && id !in done
    ensures GroupOf(list + [Series(id.key, m[id])], id.agg, m, done + {id})
  {
    var grown := list + [Series(id.key, m[id])];
    assert grown[|list|].key == id.key;
    forall key | Id(id.agg, key) in done + {id} ensures exists i :: 0 <= i < |grown| && grown[i].key == key {
      if key != id.key {
        var i :| 0 <= i < |list| && list[i].key == key;
        assert grown[i].key == key;
      }
    }
  }

  method RenderGroups(groups: map<nat, seq<Series>>, ghost m: map<Id, seq<Point>>) returns (d: Data)
    requires GroupsOf(groups, m, m.Keys)
    ensures Renders(d, AggIndexes(m), OfIndexes(m, AggIndexes(m)))
  {
    var out: seq<Aggregation> := [];
    var todo := groups.Keys;
    ghost var done: set<nat> := {};
    NothingRendered(m);
    while todo != {}
      invariant todo + done == groups.Keys && todo !! done
      invariant Renders(Data(out), done, OfIndexes(m, done))
      decreases todo
    {
      var index :| index in todo;
      MoveOne(todo, done, groups.Keys, index);
      var list := SortEach(groups[index]);
      GroupIsSeriesList(groups[index], m, index, list);
      AppendAggregation(out, done, index, list, m);
      out := out + [Aggregation(index, list)];
      todo := todo - {index};
      done := done + {index};
    }
    AllDone(done, groups.Keys, m);
    d := Data(out);
  }

  lemma NothingRendered(m: map<Id, seq<Point>>)
    ensures Renders(Data([]), {}, OfIndexes(m, {}))
  {
  }

  lemma AllDone(done: set<nat>, keys: set<nat>, m: map<Id, seq<Point>>)
    requires {} + done == keys == (set id | id in m.Keys :: id.agg)
    ensures done == AggIndexes(m)
  {
  }

  lemma GroupIsSeriesList(group: seq<Series>, m: map<Id, seq<Point>>, index: nat, list: seq<Series>)
    requires GroupOf(group, index, m, m.Keys)
    requires SortedSeries(list, group)
    ensures SeriesListOf(list, index, m)
  {
    forall key | Id(index, key) in m ensures exists i :: 0 <= i < |list| && list[i].key == key {
      assert Id(index, key) in m.Keys;
      var i :| 0 <= i < |group| && group[i].key == key;
      assert list[i].key == key;
    }
  }

  ghost predicate SortedSeries(sorted: seq<Series>, series: seq<Series>) {
    |sorted| == |series|
    && forall i :: 0 <= i < |series| ==> sorted[i].key == series[i].key && SortOf(sorted[i].values, series[i].values)
  }

  method SortEach(series: seq<Series>) returns (sorted: seq<Series>)
    ensures SortedSeries(sorted, series)
  {
    sorted := [];
    for i := 0 to |series|
      invariant |sorted| == i
      invariant forall k :: 0 <= k < i ==> sorted[k].key == series[k].key && SortOf(sorted[k].values, series[k].values)
    {
      var values := SortPointsIfNeeded(series[i].values);
      sorted := sorted + [Series(series[i].key, values)];
    }
  }

  // ----- cutting a result down -----

  /** The points that may be cached: whole values no later than the limit. */
  function Trimmed(values: seq<Point>, limit: nat): (r: seq<Point>)
    ensures forall p :: p in r <==> p in values && !p.partial && p.ts <= limit
    ensures DistinctTs(values) ==> DistinctTs(r)
  {
    if values == [] then []
    else
      var n := |values| - 1;
      var rest := Trimmed(values[..n], limit);
      assert values == values[..n] + [values[n]];
      assert forall i :: 0 <= i < |rest| ==> rest[i] in rest;
      if values[n].partial || values[n].ts > limit then rest else rest + [values[n]]
  }

  /** The points inside [start, end). */
  function Clipped(values: seq<Point>, start: nat, end: nat): (r: seq<Point>)
    ensures forall p :: p in r <==> p in values && start <= p.ts < end
    ensures DistinctTs(values) ==> DistinctTs(r)
  {
    if values == [] then []
    else
      var n := |values| - 1;
      var rest := Clipped(values[..n], start, end);
      assert values == values[..n] + [values[n]];
      assert forall i :: 0 <= i < |rest| ==> rest[i] in rest;
      if start <= values[n].ts < end then rest + [values[n]] else rest
  }

  function TrimmedSeries(series: seq<Series>, limit: nat): seq<Series> {
    seq(|series|, i requires 0 <= i < |series| => Series(series[i].key, Trimmed(series[i].values, limit)))
  }

  function TrimmedData(d: Data, limit: nat): Data {
    Data(seq(|d.aggregations|, i requires 0 <= i < |d.aggregations| =>
      Aggregation(d.aggregations[i].index, TrimmedSeries(d.aggregations[i].series, limit))))
  }

  function ClippedSeries(series: seq<Series>, start: nat, end: nat): seq<Series> {
    seq(|series|, i requires 0 <= i < |series| => Series(series[i].key, Clipped(series[i].values, start, end)))
  }

  /** Clipped series under their aggregations; an aggregation without series disappears. */
  function ClippedAggregations(aggs: seq<Aggregation>, start: nat, end: nat): seq<Aggregation> {
    if aggs == [] then []
    else
      var n := |aggs| - 1;
      var rest := ClippedAggregations(aggs[..n], start, end);
      if aggs[n].series == [] then rest
      else rest + [Aggregation(aggs[n].index, ClippedSeries(aggs[n].series, start, end))]
  }

  method TrimResultToFluxBoundary(d: Data, limit: nat) returns (trimmed: Data)
    ensures trimmed == TrimmedData(d, limit)
  {
    var out: seq<Aggregation> := [];
    for i := 0 to |d.aggregations|
      invariant out == TrimmedData(d, limit).aggregations[..i]
    {
      var series := d.aggregations[i].series;
      var kept: seq<Series> := [];
      for j := 0 to |series|
        invariant kept == TrimmedSeries(series, limit)[..j]
      {
        var values := TrimValues(series[j].values, limit);
        kept := kept + [Series(series[j].key, values)];
      }
      assert TrimmedSeries(series, limit)[..|series|] == TrimmedSeries(series, limit);
      out := out + [Aggregation(d.aggregations[i].index, kept)];
    }
    trimmed := Data(out);
  }

  method TrimValues(values: seq<Point>, limit: nat) returns (kept: seq<Point>)
    ensures kept == Trimmed(values, limit)
  {
    kept := [];
    for k := 0 to |values|
      invariant kept == Trimmed(values[..k], limit)
    {
      assert values[..k + 1][..k] == values[..k];
      if values[k].partial {
        continue;
      }
      if values[k].ts <= limit {
        kept := kept + [values[k]];
      }
    }
    assert values[..|values|] == values;
  }

  method FilterResultToTimeRange(d: Data, start: nat, end: nat) returns (filtered: Data)
    ensures filtered == Data(ClippedAggregations(d.aggregations, start, end))
  {
    var out: seq<Aggregation> := [];
    for i := 0 to |d.aggregations|
      invariant out == ClippedAggregations(d.aggregations[..i], start, end)
    {
      assert d.aggregations[..i + 1][..i] == d.aggregations[..i];
      var series := d.aggregations[i].series;
      var kept: seq<Series> := [];
      for j := 0 to |series|
        invariant kept == ClippedSeries(series, start, end)[..j]
      {
        var values := ClipValues(series[j].values, start, end);
        kept := kept + [Series(series[j].key, values)];
      }
      assert ClippedSeries(series, start, end)[..|series|] == ClippedSeries(series, start, end);
      if |kept| > 0 {
        out := out + [Aggregation(d.aggregations[i].index, kept)];
      }
    }
    assert d.aggregations[..|d.aggregations|] == d.aggregations;
    filtered := Data(out);
  }

  method ClipValues(values: seq<Point>, start: nat, end: nat) returns (kept: seq<Point>)
    ensures kept == Clipped(values, start, end)
  {
    kept := [];
    for k := 0 to |values|
      invariant kept == Clipped(values[..k], start, end)
    {
      assert values[..k + 1][..k] == values[..k];
      if values[k].ts >= start && values[k].ts < end {
        kept := kept + [values[k]];
      }
    }
    assert values[..|values|] == values;
  }

  /** Trimming keeps the series and drops points one by one. */
  lemma {:induction false} TrimmedEntries(d: Data, limit: nat)
    ensures var a, b := Entries(d.aggregations), Entries(TrimmedData(d, limit).aggregations);
            |a| == |b| && forall k :: 0 <= k < |a| ==> b[k] == Entry(a[k].id, Trimmed(a[k].values, limit))
    decreases |d.aggregations|
  {
    if d.aggregations != [] {
      var n := |d.aggregations| - 1;
      var rest := Data(d.aggregations[..n]);
      TrimmedEntries(rest, limit);
      assert TrimmedData(d, limit).aggregations[..n] == TrimmedData(rest, limit).aggregations;
    }
  }

  ghost predicate ClippedOneByOne(a: seq<Entry>, b: seq<Entry>, start: nat, end: nat) {
    |a| == |b| && forall k :: 0 <= k < |a| ==> b[k] == Entry(a[k].id, Clipped(a[k].values, start, end))
  }

  lemma {:induction false} ClippedEntries(aggs: seq<Aggregation>, start: nat, end: nat)
    ensures ClippedOneByOne(Entries(aggs), Entries(ClippedAggregations(aggs, start, end)), start, end)
  {
    if aggs != [] {
      var n := |aggs| - 1;
      var clipped := ClippedAggregations(aggs[..n], start, end);
      ClippedEntries(aggs[..n], start, end);
      if aggs[n].series != [] {
        var a := Aggregation(aggs[n].index, ClippedSeries(aggs[n].series, start, end));
        AppendedWalk(clipped, a);
        ClippedTail(Entries(aggs[..n]), Entries(clipped), aggs[n].index, aggs[n].series, start, end);
      }
    }
  }

  lemma ClippedTail(a: seq<Entry>, b: seq<Entry>, index: nat, series: seq<Series>, start: nat, end: nat)
    requires ClippedOneByOne(a, b, start, end)
    ensures ClippedOneByOne(a + SeriesEntries(index, series), b + SeriesEntries(index, ClippedSeries(series, start, end)), start, end)
  {
  }

  /** What trimming keeps: every series, and exactly its whole values up to the limit. */
  lemma TrimmedPoints(d: Data, limit: nat)
    ensures forall id, p :: HasPoint(TrimmedData(d, limit), id, p) <==> HasPoint(d, id, p) && !p.partial && p.ts <= limit
    ensures WellFormed(d) ==> WellFormed(TrimmedData(d, limit))
  {
    TrimmedEntries(d, limit);
    var a, b := Entries(d.aggregations), Entries(TrimmedData(d, limit).aggregations);
    forall id, p | HasPoint(d, id, p) && !p.partial && p.ts <= limit ensures HasPoint(TrimmedData(d, limit), id, p) {
      var k :| 0 <= k < |a| && a[k].id == id && p in a[k].values;
      assert b[k].id == id && p in b[k].values;
    }
    forall id, p | HasPoint(TrimmedData(d, limit), id, p) ensures HasPoint(d, id, p) && !p.partial && p.ts <= limit {
      var k :| 0 <= k < |b| && b[k].id == id && p in b[k].values;
      assert a[k].id == id && p in a[k].values;
    }
    forall e | e in b && WellFormed(d) ensures DistinctTs(e.values) {
      var k :| 0 <= k < |b| && b[k] == e;
      assert a[k] in a;
    }
  }

  /** What clipping keeps: exactly the points inside the range. */
  lemma ClippedPoints(d: Data, start: nat, end: nat)
    ensures var c := Data(ClippedAggregations(d.aggregations, start, end));
            (forall id, p :: HasPoint(c, id, p) <==> HasPoint(d, id, p) && start <= p.ts < end)
            && (WellFormed(d) ==> WellFormed(c))
  {
    var c := Data(ClippedAggregations(d.aggregations, start, end));
    ClippedEntries(d.aggregations, start, end);
    var a, b := Entries(d.aggregations), Entries(c.aggregations);
    forall id, p | HasPoint(d, id, p) && start <= p.ts < end ensures HasPoint(c, id, p) {
      var k :| 0 <= k < |a| && a[k].id == id && p in a[k].values;
      assert b[k].id == id && p in b[k].values;
    }
    forall id, p | HasPoint(c, id, p) ensures HasPoint(d, id, p) && start <= p.ts < end {
      var k :| 0 <= k < |b| && b[k].id == id && p in b[k].values;
      assert a[k].id == id && p in a[k].values;
    }
    forall e | e in b && WellFormed(d) ensures DistinctTs(e.values) {
      var k :| 0 <= k < |b| && b[k] == e;
      assert a[k] in a;
    }
  }

  // ----- bucket lists -----

  predicate Overlaps(b: Bucket, start: nat, end: nat) {
    b.end > start && b.start < end
  }

  /** A bucket overlaps a range when they have an instant in common. */
  lemma OverlapIsShared(b: Bucket, start: nat, end: nat)
    requires b.start < b.end && start < end
    ensures Overlaps(b, start, end) <==> exists t :: SharesInstant(b, start, end, t)
  {
    if Overlaps(b, start, end) {
      assert SharesInstant(b, start, end, if b.start < start then start else b.start);
    }
  }

  predicate SharesInstant(b: Bucket, start: nat, end: nat, t: int) {
    b.start <= t < b.end && start <= t < end
  }

  function Overlapping(buckets: seq<Bucket>, start: nat, end: nat): (r: seq<Bucket>)
    ensures forall b :: b in r <==> b in buckets && Overlaps(b, start, end)
  {
    if buckets == [] then []
    else
      var n := |buckets| - 1;
      assert buckets == buckets[..n] + [buckets[n]];
      Overlapping(buckets[..n], start, end) + if Overlaps(buckets[n], start, end) then [buckets[n]] else []
  }

  /** Exactly the overlapping buckets, each as often as it is stored, by start. */
  ghost predicate RelevantOf(relevant: seq<Bucket>, buckets: seq<Bucket>, start: nat, end: nat) {
    SortedByStart(relevant)
    && multiset(relevant) == multiset(Overlapping(buckets, start, end))
    && forall b :: b in relevant <==> b in buckets && Overlaps(b, start, end)
  }

  method FilterRelevantBuckets(buckets: seq<Bucket>, start: nat, end: nat) returns (relevant: seq<Bucket>)
    ensures RelevantOf(relevant, buckets, start, end)
  {
    var found: seq<Bucket> := [];
    for i := 0 to |buckets|
      invariant found == Overlapping(buckets[..i], start, end)
    {
      assert buckets[..i + 1][..i] == buckets[..i];
      if buckets[i].end > start && buckets[i].start < end {
        found := found + [buckets[i]];
      }
    }
    assert buckets[..|buckets|] == buckets;
    relevant := SortedBy(found, (b: Bucket) => b.start);
    forall b ensures b in relevant <==> b in found {
      SameMembers(relevant, found, b);
    }
  }

  predicate SameSpan(a: Bucket, b: Bucket) {
    a.start == b.start && a.end == b.end
  }

  /** b is in the list, and nothing behind it has its span. */
  ghost predicate LastWithSpan(buckets: seq<Bucket>, b: Bucket) {
    exists k :: 0 <= k < |buckets| && buckets[k] == b && forall j | k < j < |buckets| :: !SameSpan(buckets[j], b)
  }

  /** The buckets kept for a key: for every span of the existing and then the new buckets the last
      bucket with it, once, in order of their starts. */
  ghost predicate Deduplicated(merged: seq<Bucket>, existing: seq<Bucket>, added: seq<Bucket>) {
    SortedByStart(merged)
    && (forall i, j :: 0 <= i < j < |merged| ==> !SameSpan(merged[i], merged[j]))
    && forall b :: b in merged <==> LastWithSpan(existing + added, b)
  }

  /** The bucket map, keyed by span, after the buckets have been entered one by one. */
  function BySpan(buckets: seq<Bucket>): (m: map<(nat, nat), Bucket>)
    ensures forall span :: span in m ==> (m[span].start, m[span].end) == span
  {
    if buckets == [] then map[]
    else var b := buckets[|buckets| - 1]; BySpan(buckets[..|buckets| - 1])[(b.start, b.end) := b]
  }

  lemma {:induction false} BySpanKeepsLast(buckets: seq<Bucket>, b: Bucket)
    ensures KeptInMap(buckets, b) <==> LastWithSpan(buckets, b)
  {
    if buckets != [] {
      BySpanKeepsLast(buckets[..|buckets| - 1], b);
      LastWithSpanExtends(buckets, b);
    }
  }

  ghost predicate KeptInMap(buckets: seq<Bucket>, b: Bucket) {
    (b.start, b.end) in BySpan(buckets) && BySpan(buckets)[(b.start, b.end)] == b
  }

  lemma LastWithSpanExtends(buckets: seq<Bucket>, b: Bucket)
    requires buckets != []
    ensures var n := |buckets| - 1;
            LastWithSpan(buckets, b) <==> if SameSpan(buckets[n], b) then buckets[n] == b else LastWithSpan(buckets[..n], b)
  {
    var n := |buckets| - 1;
    var rest := buckets[..n];
    if !SameSpan(buckets[n], b) && LastWithSpan(rest, b) {
      var k :| 0 <= k < |rest| && rest[k] == b && forall j | k < j < |rest| :: !SameSpan(rest[j], b);
      assert buckets[k] == b;
      forall j | k < j < |buckets| ensures !SameSpan(buckets[j], b) {
        assert j < n ==> buckets[j] == rest[j];
      }
    }
    if !SameSpan(buckets[n], b) && LastWithSpan(buckets, b) {
      var k :| 0 <= k < |buckets| && buckets[k] == b && forall j | k < j < |buckets| :: !SameSpan(buckets[j], b);
      assert rest[k] == b;
      forall j | k < j < |rest| ensures !SameSpan(rest[j], b) {
        assert buckets[j] == rest[j];
      }
    }
  }

  method MergeAndDeduplicateBuckets(existing: seq<Bucket>, added: seq<Bucket>) returns (merged: seq<Bucket>)
    ensures Deduplicated(merged, existing, added)
  {
    var bucketMap: map<(nat, nat), Bucket> := map[];
    for i := 0 to |existing|
      invariant bucketMap == BySpan(existing[..i])
    {
      assert existing[..i + 1][..i] == existing[..i];
      bucketMap := bucketMap[(existing[i].start, existing[i].end) := existing[i]];
    }
    assert existing[..|existing|] == existing + added[..0];
    for i := 0 to |added|
      invariant bucketMap == BySpan(existing + added[..i])
    {
      assert (existing + added[..i + 1])[..|existing| + i] == existing + added[..i];
      bucketMap := bucketMap[(added[i].start, added[i].end) := added[i]];
    }
    assert added[..|added|] == added;
    var found := BucketsOfMap(bucketMap);
    merged := SortedBy(found, (b: Bucket) => b.start);
    SortKeepsSpans(merged, found);
    forall b ensures b in merged <==> LastWithSpan(existing + added, b) {
      SameMembers(merged, found, b);
      BySpanKeepsLast(existing + added, b);
    }
  }

  /** The values of the map in whatever order it yields them. */
  method BucketsOfMap(m: map<(nat, nat), Bucket>) returns (found: seq<Bucket>)
    requires forall span :: span in m ==> (m[span].start, m[span].end) == span
    ensures forall b :: b in found <==> (b.start, b.end) in m && m[(b.start, b.end)] == b
    ensures forall i, j :: 0 <= i < j < |found| ==> !SameSpan(found[i], found[j])
  {
    found := [];
    var todo := m.Keys;
    ghost var done: set<(nat, nat)> := {};
    while todo != {}
      invariant todo + done == m.Keys && todo !! done
      invariant forall b :: b in found <==> (b.start, b.end) in done && m[(b.start, b.end)] == b
      invariant forall i, j :: 0 <= i < j < |found| ==> !SameSpan(found[i], found[j])
      decreases todo
    {
      var span :| span in todo;
      MoveOne(todo, done, m.Keys, span);
      forall i | 0 <= i < |found| ensures !SameSpan(found[i], m[span]) {
        assert found[i] in found;
      }
      found := found + [m[span]];
      todo := todo - {span};
      done := done + {span};
    }
  }

  lemma SortKeepsSpans(sorted: seq<Bucket>, found: seq<Bucket>)
    requires multiset(sorted) == multiset(found)
    requires forall i, j :: 0 <= i < j < |found| ==> !SameSpan(found[i], found[j])
    ensures forall i, j :: 0 <= i < j < |sorted| ==> !SameSpan(sorted[i], sorted[j])
  {
    forall i, j | 0 <= i < j < |sorted| ensures !SameSpan(sorted[i], sorted[j]) {
      SameMembers(sorted, found, sorted[i]);
      SameMembers(sorted, found, sorted[j]);
      assert sorted[i] in found && sorted[j] in found;
      var a :| 0 <= a < |found| && found[a] == sorted[i];
      var b :| 0 <= b < |found| && found[b] == sorted[j];
      if a == b {
        TwiceMeansTwo(sorted, i, j);
        OneOfDistinctSpans(found, sorted[i]);
      }
    }
  }

  lemma {:induction false} OneOfDistinctSpans(s: seq<Bucket>, b: Bucket)
    requires forall i, j :: 0 <= i < j < |s| ==> !SameSpan(s[i], s[j])
    ensures multiset(s)[b] <= 1
  {
    if s != [] {
      var n := |s| - 1;
      assert s == s[..n] + [s[n]];
      OneOfDistinctSpans(s[..n], b);
      if b in s[..n] {
        var k :| 0 <= k < n && s[..n][k] == b;
        assert s[k] != s[n];
      }
    }
  }
}
