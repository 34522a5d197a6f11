/** The backing store as a fixed log of events, and what one direct query over a time range
    returns: a point for every aligned step window that meets the range. */
module EventStore {
  import opened TimeSteps
  import opened Options
  import opened TimeSeries

  datatype Event = Event(key: SeriesKey, ts: nat, value: real)

  /** aggregates[i] computes result column i; None stands for NaN and infinities, which are dropped. */
  datatype Store = Store(log: seq<Event>, aggregates: seq<seq<Event> -> Option<real>>)

  function EventsIn(log: seq<Event>, key: SeriesKey, lo: nat, hi: nat): seq<Event> {
    if log == [] then []
    else
      var rest := EventsIn(log[1..], key, lo, hi);
      if log[0].key == key && lo <= log[0].ts < hi then [log[0]] + rest else rest
  }

  /** The aggregate of a series over [lo, hi), if it has events there. */
  function Aggregate(store: Store, id: Id, lo: nat, hi: nat): Option<real> {
    var events := EventsIn(store.log, id.key, lo, hi);
    if id.agg < |store.aggregates| && events != [] then store.aggregates[id.agg](events) else None
  }

  /** The value of the complete window starting at w. Rows at timestamp zero are passed over. */
  function Truth(store: Store, id: Id, w: nat, step: nat): Option<real> {
    if w == 0 then None else Aggregate(store, id, w, w + step)
  }

  /** The flag a query over [from, to) puts on the point at ts. */
  function IsPartial(ts: nat, from: nat, to: nat, step: nat): bool {
    if step == 0 then false
    else
      var firstCompleteInterval := if from % step != 0 then (from / step + 1) * step else from;
      if ts < firstCompleteInterval then true
      else if ts + step > to then to % step != 0
      else false
  }

  /** A window that meets the queried range is flagged partial exactly when it sticks out of it. */
  lemma PartialMeaning(ts: nat, from: nat, to: nat, step: nat)
    requires step > 0 && Aligned(ts, step)
    requires ts < to && from < ts + step
    ensures !IsPartial(ts, from, to, step) <==> from <= ts && ts + step <= to
  {
    var first := if from % step != 0 then (from / step + 1) * step else from;
    if from % step != 0 {
      assert (from / step + 1) * step == from / step * step + step;
      NextMultiple(from, step);
      if ts < first {
        AlignedGap(ts, first, step);
      }
    }
    assert first == CeilTo(from, step);
    if ts < first {
      if ts >= from {
        NoMultipleBetween(from, ts, step);
      }
    }
    if to % step == 0 {
      AlignedGap(ts, to, step);
    }
  }

  lemma NoMultipleBetween(from: nat, ts: nat, step: nat)
    requires step > 0 && Aligned(ts, step) && from <= ts
    ensures CeilTo(from, step) <= ts
  {
    if ts < CeilTo(from, step) {
      AlignedGap(ts, CeilTo(from, step), step);
    }
  }

  /** p is the point a direct query over [from, to) has for id at p.ts. */
  ghost predicate DirectPoint(store: Store, id: Id, from: nat, to: nat, step: nat, p: Point)
    requires step > 0
  {
    Aligned(p.ts, step) && 0 < p.ts < to && from < p.ts + step
    && Aggregate(store, id, Max(p.ts, from), Min(p.ts + step, to)) == Some(p.value)
    && p.partial == IsPartial(p.ts, from, to, step)
  }

  ghost predicate IsDirect(store: Store, from: nat, to: nat, step: nat, d: Data)
    requires step > 0
  {
    WellFormed(d) && DistinctIds(Entries(d.aggregations))
    && forall id, p :: HasPoint(d, id, p) <==> DirectPoint(store, id, from, to, step, p)
  }

  /** A point of a direct query is whole exactly when its window lies in the range, and then it is
      the true aggregate of that window. */
  lemma WholePointIsTrue(store: Store, id: Id, from: nat, to: nat, step: nat, p: Point)
    requires step > 0 && DirectPoint(store, id, from, to, step, p)
    ensures !p.partial <==> from <= p.ts && p.ts + step <= to
    ensures !p.partial ==> Truth(store, id, p.ts, step) == Some(p.value)
  {
    PartialMeaning(p.ts, from, to, step);
  }

  /** Over a range that contains a window, the window's point is its true aggregate. */
  lemma TruthIsDirect(store: Store, id: Id, from: nat, to: nat, step: nat, p: Point)
    requires step > 0 && Aligned(p.ts, step) && from <= p.ts && p.ts + step <= to
    ensures DirectPoint(store, id, from, to, step, p) <==> Truth(store, id, p.ts, step) == Some(p.value) && !p.partial
  {
    PartialMeaning(p.ts, from, to, step);
  }
}
