/** Which of several results a merge takes a window's value from: the cached one, then the earliest. */
module Preference {
  import opened Options
  import opened TimeSeries
  import opened CacheCorrectness

  /** What a result has for a series at the window at w: nothing, or one partial value. */
  ghost predicate GivesAt(d: Data, id: Id, w: nat, v: Option<real>) {
    forall p: Point | p.ts == w :: HasPoint(d, id, p) <==> v == Some(p.value) && p.partial
  }

  /** Up to result n, nothing is given at the window. */
  ghost predicate SilentUpTo(cached: Option<Data>, results: seq<Data>, n: nat, id: Id, w: nat)
    requires n <= |results|
  {
    (cached.Some? ==> GivesAt(cached.value, id, w, None))
    && forall i :: 0 <= i < n ==> GivesAt(results[i], id, w, None)
  }

  /** The first result that gives something at the window decides. */
  lemma FirstGiverWins(cached: Option<Data>, results: seq<Data>, merged: Data, id: Id, i: nat, w: nat, v: real)
    requires IsMergedResult(cached, results, Some(merged)) && AllWellFormed(cached, results)
    requires i < |results| && SilentUpTo(cached, results, i, id, w) && GivesAt(results[i], id, w, Some(v))
    ensures GivesAt(merged, id, w, Some(v))
  {
    var p := Point(w, v, true);
    if cached.None? && |results| == 1 {
      assert merged == results[i];
    } else {
      var es := ResultEntries(cached, results);
      GiverIsOnly(cached, results, id, i, p);
      var f := FirstEntry(cached, results, i + 1, id, p);
      MergedFirstAt(cached, results, merged, id);
      WalkedDistinct(cached, results);
      assert FirstWins(es, id, p);
      forall x: Point | x.ts == w && HasPoint(merged, id, x) ensures x == p {
        var k :| FirstAt(es, id, x, k);
        OneFirst(es, id, p, f, x, k);
      }
    }
  }

  lemma MergedFirstAt(cached: Option<Data>, results: seq<Data>, merged: Data, id: Id)
    requires IsMergedResult(cached, results, Some(merged)) && AllWellFormed(cached, results)
    requires |results| > 0 && (cached.Some? || |results| > 1)
    ensures forall p :: HasPoint(merged, id, p) <==> FirstWins(ResultEntries(cached, results), id, p)
  {
    WalkedDistinct(cached, results);
    MergeMeaning(merged, ResultIndexes(cached, results), ResultEntries(cached, results));
  }

  /** A merged series has one point at a timestamp. */
  lemma MergedOnce(cached: Option<Data>, results: seq<Data>, merged: Data, id: Id, p: Point, x: Point)
    requires IsMergedResult(cached, results, Some(merged)) && AllWellFormed(cached, results)
    requires |results| > 0 && (cached.Some? || |results| > 1)
    requires HasPoint(merged, id, p) && HasPoint(merged, id, x) && x.ts == p.ts
    ensures x == p
  {
    var es := ResultEntries(cached, results);
    MergedFirstAt(cached, results, merged, id);
    WalkedDistinct(cached, results);
    var f :| FirstAt(es, id, p, f);
    var k :| FirstAt(es, id, x, k);
    OneFirst(es, id, p, f, x, k);
  }

  lemma OneFirst(es: seq<Entry>, id: Id, p: Point, f: int, x: Point, k: int)
    requires FirstAt(es, id, p, f) && FirstAt(es, id, x, k) && x.ts == p.ts
    requires forall e :: e in es ==> DistinctTs(e.values)
    ensures x == p
  {
    var i :| 0 <= i < |es[f].values| && es[f].values[i] == p;
    var j :| 0 <= j < |es[k].values| && es[k].values[j] == x;
    assert HasTs(es[f].values, p.ts) && HasTs(es[k].values, p.ts);
    assert es[f] in es;
  }

  /** If the cached result and the first n others agree on a timestamp, the walk's first entry with it
      holds their point. */
  lemma FirstEntry(cached: Option<Data>, results: seq<Data>, n: nat, id: Id, p: Point) returns (f: nat)
    requires n <= |results| && InputHasPoint(cached, results[..n], id, p)
    requires forall x :: InputHasPoint(cached, results[..n], id, x) && x.ts == p.ts ==> x == p
    ensures FirstAt(ResultEntries(cached, results), id, p, f)
  {
    var es := ResultEntries(cached, results);
    var upTo := ResultEntries(cached, results[..n]);
    WalkedPrefix(cached, results, n);
    var e := InputEntry(cached, results[..n], id, p);
    var k :| 0 <= k < |upTo| && upTo[k] == e;
    var a :| 0 <= a < |e.values| && e.values[a] == p;
    assert es[k] == upTo[k];
    f := EarliestEntry(es, id, p.ts, k);
    var b :| 0 <= b < |es[f].values| && es[f].values[b].ts == p.ts;
    var x := es[f].values[b];
    assert HasTs(es[k].values, p.ts);
    assert f <= k && es[f] == upTo[f];
    assert SomeHasPoint(upTo, id, x);
    WalkedPoints(cached, results[..n], id, x);
  }

  lemma GiverIsOnly(cached: Option<Data>, results: seq<Data>, id: Id, i: nat, p: Point)
    requires i < |results| && SilentUpTo(cached, results, i, id, p.ts) && p.partial
    requires GivesAt(results[i], id, p.ts, Some(p.value))
    ensures InputHasPoint(cached, results[..i + 1], id, p)
    ensures forall x :: InputHasPoint(cached, results[..i + 1], id, x) && x.ts == p.ts ==> x == p
  {
    var upTo := results[..i + 1];
    assert upTo[i] == results[i];
    forall x | InputHasPoint(cached, upTo, id, x) && x.ts == p.ts ensures x == p {
      if !(cached.Some? && HasPoint(cached.value, id, x)) {
        var j :| 0 <= j < |upTo| && HasPoint(upTo[j], id, x);
        assert j < i ==> GivesAt(results[j], id, p.ts, None);
      }
    }
  }

  /** What the cached result has at a timestamp is never overwritten. */
  lemma CachedPointWins(cached: Option<Data>, results: seq<Data>, merged: Data, id: Id, p: Point)
    requires IsMergedResult(cached, results, Some(merged)) && AllWellFormed(cached, results)
    requires cached.Some? && HasPoint(cached.value, id, p)
    requires forall x :: HasPoint(cached.value, id, x) && x.ts == p.ts ==> x == p
    ensures HasPoint(merged, id, p)
  {
    if |results| > 0 {
      assert results[..0] == [];
      var f := FirstEntry(cached, results, 0, id, p);
      MergedFirstAt(cached, results, merged, id);
      assert FirstWins(ResultEntries(cached, results), id, p);
    }
  }

  /** The walk over the first results comes first. */
  lemma {:induction false} WalkedPrefix(cached: Option<Data>, results: seq<Data>, n: nat)
    requires n <= |results|
    ensures ResultEntries(cached, results[..n]) <= ResultEntries(cached, results)
    decreases |results|
  {
    if n == |results| {
      assert results[..n] == results;
    } else {
      var m := |results| - 1;
      WalkedPrefix(cached, results[..m], n);
      assert results[..m][..n] == results[..n];
      WalkedLast(cached, results);
    }
  }

  lemma WalkedLast(cached: Option<Data>, results: seq<Data>)
    requires results != []
    ensures var m := |results| - 1;
            ResultEntries(cached, results) == ResultEntries(cached, results[..m]) + Entries(results[m].aggregations)
  {
  }

  /** If nothing gives anything at the window, neither does the merge. */
  lemma NothingGives(cached: Option<Data>, results: seq<Data>, merged: Data, id: Id, w: nat)
    requires IsMergedResult(cached, results, Some(merged)) && AllWellFormed(cached, results)
    requires SilentUpTo(cached, results, |results|, id, w)
    ensures GivesAt(merged, id, w, None)
  {
    forall p: Point | p.ts == w ensures !HasPoint(merged, id, p) {
      MergedPoints(cached, results, Some(merged), id, p);
    }
  }

  /** If no other result gives anything, one result decides alone. */
  lemma OnlyGiverDecides(cached: Option<Data>, results: seq<Data>, merged: Data, id: Id, i: nat, w: nat, v: Option<real>)
    requires IsMergedResult(cached, results, Some(merged)) && AllWellFormed(cached, results)
    requires i < |results| && SilentUpTo(cached, results, i, id, w) && GivesAt(results[i], id, w, v)
    requires forall k :: i < k < |results| ==> GivesAt(results[k], id, w, None)
    ensures GivesAt(merged, id, w, v)
  {
    match v
    case Some(x) => FirstGiverWins(cached, results, merged, id, i, w, x);
    case None => NothingGives(cached, results, merged, id, w);
  }

  /** Of the last two results, the first that gives something at the window decides. */
  lemma FirstOfTwo(cached: Option<Data>, results: seq<Data>, merged: Data, id: Id, i: nat, w: nat, first: Option<real>, second: Option<real>)
    requires IsMergedResult(cached, results, Some(merged)) && AllWellFormed(cached, results) && i + 2 == |results|
    requires SilentUpTo(cached, results, i, id, w)
    requires GivesAt(results[i], id, w, first) && GivesAt(results[i + 1], id, w, second)
    ensures GivesAt(merged, id, w, if first.Some? then first else second)
  {
    if first.Some? {
      FirstGiverWins(cached, results, merged, id, i, w, first.value);
    } else {
      OnlyGiverDecides(cached, results, merged, id, i + 1, w, second);
    }
  }
}
