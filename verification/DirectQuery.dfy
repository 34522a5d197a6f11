/** A direct query carried out: the log grouped by series and aggregated window by window. It shows
    that the results the cache is compared with exist for every store and range. */
module DirectQuery {
  import opened TimeSteps
  import opened TimeSeries
  import opened EventStore

  /** The points of one series from the window at w onwards. */
  function WindowPoints(store: Store, id: Id, from: nat, to: nat, step: nat, w: nat): seq<Point>
    requires step > 0 && from < w + step
    decreases if w < to then to - w else 0
  {
    if w >= to then []
    else
      var rest := WindowPoints(store, id, from, to, step, w + step);
      match Aggregate(store, id, Max(w, from), Min(w + step, to))
      case None => rest
      case Some(v) => if w == 0 then rest else [Point(w, v, IsPartial(w, from, to, step))] + rest
  }

  lemma {:induction false} WindowPointMembers(store: Store, id: Id, from: nat, to: nat, step: nat, w: nat, p: Point)
    requires step > 0 && Aligned(w, step) && from < w + step
    ensures p in WindowPoints(store, id, from, to, step, w) <==> w <= p.ts && DirectPoint(store, id, from, to, step, p)
    decreases if w < to then to - w else 0
  {
    if w < to {
      ShiftAligned(w, step);
      WindowPointMembers(store, id, from, to, step, w + step, p);
      if w < p.ts && Aligned(p.ts, step) {
        AlignedGap(w, p.ts, step);
      }
    }
  }

  lemma {:induction false} WindowPointsDistinct(store: Store, id: Id, from: nat, to: nat, step: nat, w: nat)
    requires step > 0 && Aligned(w, step) && from < w + step
    ensures DistinctTs(WindowPoints(store, id, from, to, step, w))
    decreases if w < to then to - w else 0
  {
    if w < to {
      ShiftAligned(w, step);
      WindowPointsDistinct(store, id, from, to, step, w + step);
      var rest := WindowPoints(store, id, from, to, step, w + step);
      forall k | 0 <= k < |rest| ensures rest[k].ts > w {
        assert rest[k] in rest;
        WindowPointMembers(store, id, from, to, step, w + step, rest[k]);
      }
    }
  }

  /** The keys of the log, each once. */
  function Keys(log: seq<Event>): (keys: seq<SeriesKey>)
    ensures forall i, j :: 0 <= i < j < |keys| ==> keys[i] != keys[j]
  {
    if log == [] then []
    else
      var rest := Keys(log[1..]);
      if log[0].key in rest then rest else [log[0].key] + rest
  }

  lemma {:induction false} EventsHaveKeys(log: seq<Event>, key: SeriesKey, lo: nat, hi: nat)
    requires EventsIn(log, key, lo, hi) != []
    ensures key in Keys(log)
  {
    if !(log[0].key == key && lo <= log[0].ts < hi) {
      EventsHaveKeys(log[1..], key, lo, hi);
    }
  }

  function SeriesFor(store: Store, keys: seq<SeriesKey>, agg: nat, from: nat, to: nat, step: nat): seq<Series>
    requires step > 0
  {
    seq(|keys|, i requires 0 <= i < |keys| =>
      Series(keys[i], WindowPoints(store, Id(agg, keys[i]), from, to, step, FloorTo(from, step))))
  }

  function Direct(store: Store, from: nat, to: nat, step: nat): Data
    requires step > 0
  {
    Data(seq(|store.aggregates|, a requires 0 <= a < |store.aggregates| =>
      Aggregation(a, SeriesFor(store, Keys(store.log), a, from, to, step))))
  }

  /** Carrying the query out gives a direct result: such results exist for every range. */
  lemma DirectIsDirect(store: Store, from: nat, to: nat, step: nat)
    requires step > 0
    ensures IsDirect(store, from, to, step, Direct(store, from, to, step))
  {
    var d := Direct(store, from, to, step);
    DistinctSeries(d.aggregations);
    forall e | e in Entries(d.aggregations) ensures DistinctTs(e.values) {
      EntryMembers(d.aggregations, e);
      WindowPointsDistinct(store, e.id, from, to, step, FloorTo(from, step));
    }
    forall id: Id, p: Point ensures HasPoint(d, id, p) <==> DirectPoint(store, id, from, to, step, p) {
      PointsOfDirect(store, from, to, step, id, p);
    }
  }

  lemma SeriesOfDirect(store: Store, from: nat, to: nat, step: nat, e: Entry)
    requires step > 0
    ensures e in Entries(Direct(store, from, to, step).aggregations)
            <==> e.id.agg < |store.aggregates| && e.id.key in Keys(store.log)
                 && e.values == WindowPoints(store, e.id, from, to, step, FloorTo(from, step))
  {
    var aggs := Direct(store, from, to, step).aggregations;
    var keys := Keys(store.log);
    EntryMembers(aggs, e);
    if e.id.agg < |store.aggregates| && e.id.key in keys
       && e.values == WindowPoints(store, e.id, from, to, step, FloorTo(from, step)) {
      var j :| 0 <= j < |keys| && keys[j] == e.id.key;
      assert e == Entry(Id(aggs[e.id.agg].index, aggs[e.id.agg].series[j].key), aggs[e.id.agg].series[j].values);
    }
  }

  lemma PointsOfDirect(store: Store, from: nat, to: nat, step: nat, id: Id, p: Point)
    requires step > 0
    ensures HasPoint(Direct(store, from, to, step), id, p) <==> DirectPoint(store, id, from, to, step, p)
  {
    var es := Entries(Direct(store, from, to, step).aggregations);
    var w := FloorTo(from, step);
    var e := Entry(id, WindowPoints(store, id, from, to, step, w));
    WindowPointMembers(store, id, from, to, step, w, p);
    if k :| 0 <= k < |es| && es[k].id == id && p in es[k].values {
      SeriesOfDirect(store, from, to, step, es[k]);
    }
    if DirectPoint(store, id, from, to, step, p) {
      if p.ts < w {
        AlignedGap(p.ts, w, step);
      }
      EventsHaveKeys(store.log, id.key, Max(p.ts, from), Min(p.ts + step, to));
      SeriesOfDirect(store, from, to, step, e);
      var k :| 0 <= k < |es| && es[k] == e;
    }
  }

  /** Different indexes and, below one index, different keys make every series of a result distinct. */
  lemma {:induction false} DistinctSeries(aggs: seq<Aggregation>)
    requires forall i, j :: 0 <= i < j < |aggs| ==> aggs[i].index != aggs[j].index
    requires forall i, j, k :: 0 <= i < |aggs| && 0 <= j < k < |aggs[i].series| ==> aggs[i].series[j].key != aggs[i].series[k].key
    ensures DistinctIds(Entries(aggs))
  {
    if aggs != [] {
      var n := |aggs| - 1;
      var rest := Entries(aggs[..n]);
      DistinctSeries(aggs[..n]);
      forall e | e in rest ensures e.id.agg != aggs[n].index {
        EntryMembers(aggs[..n], e);
      }
      forall k | 0 <= k < |rest| ensures rest[k].id.agg != aggs[n].index {
        assert rest[k] in rest;
      }
      assert aggs[n].series == aggs[|aggs| - 1].series;
    }
  }
}
