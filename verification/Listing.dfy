/** Raw rows, what it means to list a set of rows in timestamp order, and the list statement the
    database runs. */
module Listing {
  import opened Epoch

  /** Timestamps are nanoseconds. rank orders rows of one timestamp: the id for logs, whatever the
      further order columns give, or nothing at all, for traces. */
  datatype Row = Row(id: nat, ts: nat, rank: int)

  /** a may be listed in front of b. */
  predicate InOrder(a: Row, b: Row, asc: bool) {
    if asc then a.ts < b.ts || (a.ts == b.ts && a.rank <= b.rank)
    else a.ts > b.ts || (a.ts == b.ts && a.rank >= b.rank)
  }

  ghost predicate NoRepeats(s: seq<Row>) {
    forall i, j :: 0 <= i < j < |s| ==> s[i] != s[j]
  }

  /** s lists exactly the given rows, each once, in order. */
  ghost predicate IsListing(s: seq<Row>, rows: set<Row>, asc: bool) {
    (forall i, j :: 0 <= i < j < |s| ==> InOrder(s[i], s[j], asc))
    && NoRepeats(s)
    && forall r :: r in s <==> r in rows
  }

  function InWindow(table: set<Row>, fromNs: nat, toNs: nat): set<Row> {
    set r | r in table && fromNs <= r.ts < toNs
  }

  function Take(s: seq<Row>, n: nat): seq<Row> {
    if n <= |s| then s[..n] else s
  }

  /** Rows offset to offset + limit of a listing. */
  function Page(s: seq<Row>, offset: nat, limit: nat): seq<Row> {
    if offset <= |s| then Take(s[offset..], limit) else []
  }

  /** What an ORDER BY with a LIMIT over a half-open window may return. */
  ghost predicate IsListAnswer(table: set<Row>, fromNs: nat, toNs: nat, asc: bool, limit: nat, answer: seq<Row>) {
    exists full :: IsListing(full, InWindow(table, fromNs, toNs), asc) && answer == Take(full, limit)
  }

  lemma {:induction false} FirstExists(rows: set<Row>, asc: bool) returns (r: Row)
    requires rows != {}
    ensures r in rows && forall x :: x in rows ==> InOrder(r, x, asc)
  {
    r :| r in rows;
    if rows != {r} {
      var rest := rows - {r};
      assert rest == {} ==> rows == {r};
      var f := FirstExists(rest, asc);
      if !InOrder(r, f, asc) {
        assert forall x :: x in rows ==> x == r || x in rest;
        r := f;
      } else {
        assert forall x :: x in rows ==> x == r || x in rest;
      }
    }
  }

  /** ORDER BY: the rows one after the other, each time one that may come next. */
  method OrderBy(rows: set<Row>, asc: bool) returns (full: seq<Row>)
    ensures IsListing(full, rows, asc)
  {
    full := [];
    var rest := rows;
    while rest != {}
      invariant rest <= rows
      invariant IsListing(full, rows - rest, asc)
      invariant forall i, x :: 0 <= i < |full| && x in rest ==> InOrder(full[i], x, asc)
      decreases rest
    {
      ghost var first := FirstExists(rest, asc);
      var r :| r in rest && forall x :: x in rest ==> InOrder(r, x, asc);
      AppendNext(full, rows - rest, r, asc);
      assert rows - (rest - {r}) == (rows - rest) + {r};
      full := full + [r];
      rest := rest - {r};
    }
    assert rows - {} == rows;
  }

  lemma AppendNext(full: seq<Row>, done: set<Row>, r: Row, asc: bool)
    requires IsListing(full, done, asc) && r !in done
    requires forall i :: 0 <= i < |full| ==> InOrder(full[i], r, asc)
    ensures IsListing(full + [r], done + {r}, asc)
  {
    forall i | 0 <= i < |full| ensures full[i] != r {
      assert full[i] in full;
    }
  }

  /** The statement of one window: bounds in milliseconds, scaled to nanoseconds again, and a limit
      of a hundred rows when none is given. */
  method RunListStatement(table: set<Row>, fromMs: nat, toMs: nat, asc: bool, limit: nat) returns (answer: seq<Row>)
    ensures IsListAnswer(table, Nanos(fromMs), Nanos(toMs), asc, if limit > 0 then limit else 100, answer)
  {
    var full := OrderBy(InWindow(table, Nanos(fromMs), Nanos(toMs)), asc);
    answer := Take(full, if limit > 0 then limit else 100);
  }

  /** Listings of two windows on either side of a timestamp make a listing of both. */
  lemma ConcatListings(a: seq<Row>, rowsA: set<Row>, b: seq<Row>, rowsB: set<Row>, cut: nat, asc: bool)
    requires IsListing(a, rowsA, asc) && IsListing(b, rowsB, asc)
    requires forall r :: r in rowsA ==> if asc then r.ts < cut else r.ts >= cut
    requires forall r :: r in rowsB ==> if asc then r.ts >= cut else r.ts < cut
    ensures IsListing(a + b, rowsA + rowsB, asc)
  {
    var s := a + b;
    forall i, j | 0 <= i < j < |s| ensures InOrder(s[i], s[j], asc) && s[i] != s[j] {
      if i < |a| && j >= |a| {
        assert s[i] == a[i] && a[i] in a;
        assert s[j] == b[j - |a|] && b[j - |a|] in b;
      } else if j < |a| {
        assert s[i] == a[i] && s[j] == a[j];
      } else {
        assert s[i] == b[i - |a|] && s[j] == b[j - |a|];
      }
    }
  }

  /** With ranks that tell all rows of a timestamp apart a set of rows has only one listing. */
  lemma {:induction false} ListingIsUnique(a: seq<Row>, b: seq<Row>, rows: set<Row>, asc: bool)
    requires IsListing(a, rows, asc) && IsListing(b, rows, asc)
    requires forall r, x :: r in rows && x in rows && r.ts == x.ts && r.rank == x.rank ==> r == x
    ensures a == b
    decreases |a|
  {
    assert b != [] ==> b[0] in b;
    if a != [] {
      assert a[0] in a;
      FirstIsShared(a, b, rows, asc);
      TailListing(a, rows, asc);
      TailListing(b, rows, asc);
      ListingIsUnique(a[1..], b[1..], rows - {a[0]}, asc);
      assert a == [a[0]] + a[1..] && b == [b[0]] + b[1..];
    }
  }

  lemma FirstIsShared(a: seq<Row>, b: seq<Row>, rows: set<Row>, asc: bool)
    requires IsListing(a, rows, asc) && IsListing(b, rows, asc) && a != []
    requires forall r, x :: r in rows && x in rows && r.ts == x.ts && r.rank == x.rank ==> r == x
    ensures b != [] && a[0] == b[0]
  {
    assert a[0] in a && a[0] in b;
    assert b[0] in b && b[0] in a;
    var i :| 0 <= i < |b| && b[i] == a[0];
    var j :| 0 <= j < |a| && a[j] == b[0];
  }

  lemma TailListing(s: seq<Row>, rows: set<Row>, asc: bool)
    requires IsListing(s, rows, asc) && s != []
    ensures IsListing(s[1..], rows - {s[0]}, asc)
  {
    assert s == [s[0]] + s[1..];
    forall r ensures r in s[1..] <==> r in rows - {s[0]} {
      if r in s[1..] {
        var k :| 0 <= k < |s[1..]| && s[1..][k] == r;
        assert s[k + 1] == r && r in s;
      }
    }
  }
}
