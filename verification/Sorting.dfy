/** The sorts by a key that the cache code calls, and the scan it runs before it calls them. */
module Sorting {

  predicate OrderedBy<T>(s: seq<T>, key: T -> nat) {
    forall i, j :: 0 <= i < j < |s| ==> key(s[i]) <= key(s[j])
  }

  /** Where x belongs in an ordered sequence: behind everything that is not greater. */
  function Place<T>(s: seq<T>, x: T, key: T -> nat): (k: nat)
    ensures k <= |s|
    ensures k > 0 ==> key(s[k - 1]) <= key(x)
    ensures forall i :: k <= i < |s| ==> key(s[i]) > key(x)
  {
    if s == [] || key(s[|s| - 1]) <= key(x) then |s| else Place(s[..|s| - 1], x, key)
  }

  /** A library sort: the same elements in order of their keys. */
  function SortedBy<T(==)>(s: seq<T>, key: T -> nat): (r: seq<T>)
    ensures OrderedBy(r, key) && multiset(r) == multiset(s)
  {
    if s == [] then []
    else
      var n := |s| - 1;
      var rest := SortedBy(s[..n], key);
      var k := Place(rest, s[n], key);
      InsertedInOrder(rest, k, s[n], key);
      assert s == s[..n] + [s[n]];
      rest[..k] + [s[n]] + rest[k..]
  }

  lemma InsertedInOrder<T>(s: seq<T>, k: nat, x: T, key: T -> nat)
    requires k <= |s| && OrderedBy(s, key)
    requires k > 0 ==> key(s[k - 1]) <= key(x)
    requires k < |s| ==> key(x) <= key(s[k])
    ensures OrderedBy(s[..k] + [x] + s[k..], key)
    ensures multiset(s[..k] + [x] + s[k..]) == multiset(s) + multiset{x}
  {
    assert s == s[..k] + s[k..];
    InOrder(s[..k], x, s[k..], key);
  }

  lemma InOrder<T>(a: seq<T>, x: T, b: seq<T>, key: T -> nat)
    requires OrderedBy(a, key) && OrderedBy(b, key)
    requires |a| > 0 ==> key(a[|a| - 1]) <= key(x)
    requires |b| > 0 ==> key(x) <= key(b[0])
    ensures OrderedBy(a + [x] + b, key)
  {
    var r := a + [x] + b;
    forall i | 0 <= i < |r|
      ensures i <= |a| ==> key(r[i]) <= key(x)
      ensures i >= |a| ==> key(r[i]) >= key(x)
    {
      if i < |a| {
        assert r[i] == a[i];
      } else if i > |a| {
        assert r[i] == b[i - |a| - 1];
      }
    }
    forall i, j | 0 <= i < j < |r| ensures key(r[i]) <= key(r[j]) {
      if j < |a| {
        assert r[i] == a[i] && r[j] == a[j];
      } else if i > |a| {
        assert r[i] == b[i - |a| - 1] && r[j] == b[j - |a| - 1];
      }
    }
  }

  /** Sorting is skipped when the scan finds no element smaller than the one before it. */
  method SortIfNeeded<T(==)>(s: seq<T>, key: T -> nat) returns (sorted: seq<T>)
    ensures OrderedBy(sorted, key) && multiset(sorted) == multiset(s)
  {
    var needsSort := false;
    var i := 1;
    while i < |s|
      invariant 1 <= i && (|s| > 0 ==> i <= |s|)
      invariant forall a, b | 0 <= a < b < i && b < |s| :: key(s[a]) <= key(s[b])
    {
      if key(s[i]) < key(s[i - 1]) {
        needsSort := true;
        break;
      }
      i := i + 1;
    }
    sorted := if needsSort then SortedBy(s, key) else s;
  }
}
