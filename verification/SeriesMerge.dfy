/** The loops both merges share: absorbing one series into another, and turning the series map
    back into a result whose buckets and series come in whatever order the maps are iterated. */
module SeriesMerge {
  import opened TimeSeries

  /** Appends the points whose timestamps are new, collecting the known timestamps first. */
  method AddNewPoints(existing: seq<Point>, values: seq<Point>) returns (merged: seq<Point>)
    ensures merged == existing + NewPoints(existing, values)
  {
    var timestamps: set<nat> := {};
    for i := 0 to |existing|
      invariant forall ts :: ts in timestamps <==> HasTs(existing[..i], ts)
    {
      assert existing[..i + 1] == existing[..i] + [existing[i]];
      forall ts ensures HasTs(existing[..i + 1], ts) <==> HasTs(existing[..i], ts) || ts == existing[i].ts {
        ConcatTs(existing[..i], [existing[i]], ts);
        assert [existing[i]][0].ts == existing[i].ts;
      }
      timestamps := timestamps + {existing[i].ts};
    }
    assert existing[..|existing|] == existing;
    merged := existing;
    for i := 0 to |values|
      invariant merged == existing + NewPoints(existing, values[..i])
    {
      assert values[..i + 1][..i] == values[..i];
      if values[i].ts !in timestamps {
        merged := merged + [values[i]];
      }
    }
    assert values[..|values|] == values;
  }

  /** list holds the series of one aggregation of m, each once, with its points sorted. */
  ghost predicate SeriesListOf(list: seq<Series>, index: nat, m: map<Id, seq<Point>>) {
    (forall i, j :: 0 <= i < j < |list| ==> list[i].key != list[j].key)
    && (forall i :: 0 <= i < |list| ==> Id(index, list[i].key) in m && SortOf(list[i].values, m[Id(index, list[i].key)]))
    && forall key :: Id(index, key) in m ==> exists i :: 0 <= i < |list| && list[i].key == key
  }

  ghost function OfIndexes(m: map<Id, seq<Point>>, indexes: set<nat>): map<Id, seq<Point>> {
    map id | id in m && id.agg in indexes :: m[id]
  }

  ghost predicate EntriesOf(es: seq<Entry>, m: map<Id, seq<Point>>) {
    (forall e :: e in es ==> e.id in m && SortOf(e.values, m[e.id]))
    && forall id :: id in m ==> exists e :: e in es && e.id == id
  }

  /** Appending the series of one more aggregation extends a rendered result. */
  lemma AppendAggregation(out: seq<Aggregation>, done: set<nat>, index: nat, list: seq<Series>, m: map<Id, seq<Point>>)
    requires Renders(Data(out), done, OfIndexes(m, done))
    requires index !in done && SeriesListOf(list, index, m)
    ensures Renders(Data(out + [Aggregation(index, list)]), done + {index}, OfIndexes(m, done + {index}))
  {
    var a := Aggregation(index, list);
    var old_, new_ := Entries(out), SeriesEntries(index, list);
    var m' := OfIndexes(m, done + {index});
    AppendedWalk(out, a);
    AppendedEntries(out, done, index, list, m);
    IdsOfEntries(old_ + new_, m');
    AggsOfEntries(old_, OfIndexes(m, done), done);
    DistinctAfterAppend(old_, new_, index, done);
    AppendedIndexes(out, done, a);
  }

  lemma AppendedWalk(out: seq<Aggregation>, a: Aggregation)
    ensures Entries(out + [a]) == Entries(out) + SeriesEntries(a.index, a.series)
  {
    assert (out + [a])[..|out + [a]| - 1] == out;
  }

  lemma IdsOfEntries(es: seq<Entry>, m: map<Id, seq<Point>>)
    requires EntriesOf(es, m)
    ensures m.Keys == (set e | e in es :: e.id)
  {
  }

  lemma AggsOfEntries(es: seq<Entry>, m: map<Id, seq<Point>>, done: set<nat>)
    requires forall e :: e in es ==> e.id in m
    requires forall id :: id in m ==> id.agg in done
    ensures forall e :: e in es ==> e.id.agg in done
  {
  }

  lemma AppendedIndexes(out: seq<Aggregation>, done: set<nat>, a: Aggregation)
    requires done == set b | b in out :: b.index
    requires a.index !in done
    requires forall i, j :: 0 <= i < j < |out| ==> out[i].index != out[j].index
    ensures done + {a.index} == set b | b in out + [a] :: b.index
    ensures forall i, j :: 0 <= i < j < |out + [a]| ==> (out + [a])[i].index != (out + [a])[j].index
  {
    forall i | 0 <= i < |out| ensures out[i].index in done {
      assert out[i] in out;
    }
  }

  lemma AppendedEntries(out: seq<Aggregation>, done: set<nat>, index: nat, list: seq<Series>, m: map<Id, seq<Point>>)
    requires Renders(Data(out), done, OfIndexes(m, done))
    requires index !in done && SeriesListOf(list, index, m)
    ensures EntriesOf(Entries(out) + SeriesEntries(index, list), OfIndexes(m, done + {index}))
  {
    var old_, new_ := Entries(out), SeriesEntries(index, list);
    var es := old_ + new_;
    var m' := OfIndexes(m, done + {index});
    forall e: Entry | e in es ensures e.id in m' && SortOf(e.values, m'[e.id]) {
      if e in old_ {
        assert e.id in OfIndexes(m, done);
      } else {
        var j :| 0 <= j < |new_| && new_[j] == e;
        assert e.id == Id(index, list[j].key);
      }
    }
    forall id | id in m' ensures exists e :: e in es && e.id == id {
      if id.agg == index {
        var i :| 0 <= i < |list| && list[i].key == id.key;
        assert new_[i] in es && new_[i].id == id;
      } else {
        assert id in OfIndexes(m, done).Keys;
        var e :| e in old_ && e.id == id;
        assert e in es;
      }
    }
  }

  lemma DistinctAfterAppend(old_: seq<Entry>, new_: seq<Entry>, index: nat, done: set<nat>)
    requires DistinctIds(old_) && DistinctIds(new_)
    requires forall e :: e in old_ ==> e.id.agg in done
    requires forall e :: e in new_ ==> e.id.agg == index
    requires index !in done
    ensures DistinctIds(old_ + new_)
  {
    var es := old_ + new_;
    forall i, j | 0 <= i < j < |es| ensures es[i].id != es[j].id {
      if i < |old_| && j >= |old_| {
        assert es[i] == old_[i] && es[i] in old_;
        assert es[j] == new_[j - |old_|] && es[j] in new_;
      } else if j < |old_| {
        assert es[i] == old_[i] && es[j] == old_[j];
      } else {
        assert es[i] == new_[i - |old_|] && es[j] == new_[j - |old_|];
      }
    }
  }

  /** Bookkeeping of a loop that visits a set one element at a time. */
  lemma MoveOne<T>(todo: set<T>, done: set<T>, all: set<T>, x: T)
    requires todo + done == all && todo !! done && x in todo
    ensures (todo - {x}) + (done + {x}) == all && todo - {x} !! done + {x} && x !in done && x in all
  {
  }
}
