/** The loops that look for contradictions among the constraints of one field. */
module FieldChecks {
  import opened Options
  import opened FilterTree
  import opened FieldRules

  method GroupConstraints(cs: seq<Constraint>) returns (g: Groups)
    ensures g == GroupsOf(cs)
  {
    g := Groups([], [], [], [], [], [], [], [], []);
    for i := 0 to |cs|
      invariant g == GroupsOf(cs[..i])
    {
      var c := cs[i];
      assert cs[..i + 1][..i] == cs[..i];
      match c.op
      case Eq => g := g.(eqs := g.eqs + [c]);
      case Neq => g := g.(neqs := g.neqs + [c]);
      case In => g := g.(ins := g.ins + [c]);
      case NotIn => g := g.(notIns := g.notIns + [c]);
      case Exists => g := g.(exists_ := g.exists_ + [c]);
      case NotExists => g := g.(notExists := g.notExists + [c]);
      case Between => g := g.(betweens := g.betweens + [c]);
      case NotBetween => g := g.(notBetweens := g.notBetweens + [c]);
      case Like | ILike | NotLike | NotILike =>
      case _ =>
        if IsRangeOperator(c.op) {
          g := g.(ranges := g.ranges + [c]);
        }
    }
    assert cs[..|cs|] == cs;
  }

  method FindSameText(values: seq<Constraint>, text: string) returns (found: bool)
    ensures found == SameText(values, text)
  {
    found := false;
    for i := 0 to |values|
      invariant !SameText(values[..i], text)
    {
      if ValueOf(values[i]).text == text {
        return true;
      }
    }
    assert values[..|values|] == values;
  }

  method FindText(values: seq<Operand>, text: string) returns (found: bool)
    ensures found == TextAmong(values, text)
  {
    found := false;
    for i := 0 to |values|
      invariant !TextAmong(values[..i], text)
    {
      if values[i].text == text {
        return true;
      }
    }
    assert values[..|values|] == values;
  }

  method FindListWith(lists: seq<Constraint>, text: string, has: bool) returns (found: bool)
    ensures found == if has then SomeListHas(lists, text) else SomeListLacks(lists, text)
  {
    found := false;
    for i := 0 to |lists|
      invariant forall k :: 0 <= k < i ==> TextAmong(lists[k].values, text) == !has
    {
      var among := FindText(lists[i].values, text);
      if among == has {
        return true;
      }
    }
  }

  method FindBetween(value: Option<real>, betweens: seq<Constraint>) returns (found: bool)
    ensures found == InSomeBetween(value, betweens)
  {
    found := false;
    for i := 0 to |betweens|
      invariant !InSomeBetween(value, betweens[..i])
    {
      if ValueSatisfiesBetween(value, betweens[i]) {
        return true;
      }
    }
    assert betweens[..|betweens|] == betweens;
  }

  /** The ways an equality is reported, one by one. */
  lemma EqualReports(field: Field, e: Operand, g: Groups, r: Report)
    ensures EqualReport(field, e, g, r) <==>
            (r == EqualAndNotEqual(field, e.text) && SameText(g.neqs, e.text))
            || (r == EqualInNotIn(field, e.text) && SomeListHas(g.notIns, e.text))
            || (r == EqualNotInIn(field, e.text) && SomeListLacks(g.ins, e.text))
            || (r == EqualOutsideRange(field, e.text) && OutsideRanges(e.num, g.ranges))
            || (r == EqualOutsideBetween(field, e.text) && g.betweens != [] && !InSomeBetween(e.num, g.betweens))
            || (r == EqualInNotBetween(field, e.text) && InSomeBetween(e.num, g.notBetweens))
  {
  }

  /** All checks of one equality against the other constraints. */
  method CheckEqual(field: Field, e: Operand, g: Groups) returns (found: seq<Report>)
    ensures forall r :: r in found <==> EqualReport(field, e, g, r)
  {
    var clash := FindSameText(g.neqs, e.text);
    var excluded := FindListWith(g.notIns, e.text, true);
    var missing := FindListWith(g.ins, e.text, false);
    var inRange := ValuesSatisfyRanges(e, g.ranges);
    var inBetween := FindBetween(e.num, g.betweens);
    var inNotBetween := FindBetween(e.num, g.notBetweens);
    found := [];
    found := AddIf(found, clash, EqualAndNotEqual(field, e.text));
    found := AddIf(found, excluded, EqualInNotIn(field, e.text));
    found := AddIf(found, missing, EqualNotInIn(field, e.text));
    found := AddIf(found, !inRange, EqualOutsideRange(field, e.text));
    found := AddIf(found, |g.betweens| > 0 && !inBetween, EqualOutsideBetween(field, e.text));
    found := AddIf(found, inNotBetween, EqualInNotBetween(field, e.text));
    forall r ensures r in found <==> EqualReport(field, e, g, r) {
      EqualReports(field, e, g, r);
    }
  }

  function AddIf(found: seq<Report>, add: bool, report: Report): (r: seq<Report>)
    ensures forall x :: x in r <==> x in found || (add && x == report)
  {
    if add then found + [report] else found
  }

  method CheckEquals(field: Field, g: Groups) returns (found: seq<Report>)
    ensures forall r :: r in found <==> SomeEqualReport(field, g, r)
  {
    found := [];
    for i := 0 to |g.eqs|
      invariant forall r :: r in found <==> exists k :: 0 <= k < i && EqualReport(field, ValueOf(g.eqs[k]), g, r)
    {
      var more := CheckEqual(field, ValueOf(g.eqs[i]), g);
      found := found + more;
    }
  }

  method FindDifferentTexts(eqs: seq<Constraint>) returns (found: bool)
    ensures found == DifferentTexts(eqs)
  {
    if |eqs| <= 1 {
      return false;
    }
    var values: set<string> := {};
    for i := 0 to |eqs|
      invariant forall t :: t in values <==> exists k :: 0 <= k < i && ValueOf(eqs[k]).text == t
    {
      values := values + {ValueOf(eqs[i]).text};
    }
    TwoElements(values, ValueOf(eqs[0]).text);
    found := |values| > 1;
    if found {
      var t :| t in values && t != ValueOf(eqs[0]).text;
      var k :| 0 <= k < |eqs| && ValueOf(eqs[k]).text == t;
      assert ValueOf(eqs[k]).text != ValueOf(eqs[0]).text;
    } else {
      forall i, j | 0 <= i < |eqs| && 0 <= j < |eqs| ensures ValueOf(eqs[i]).text == ValueOf(eqs[j]).text {
        assert ValueOf(eqs[i]).text in values && ValueOf(eqs[j]).text in values;
      }
    }
  }

  lemma TwoElements(s: set<string>, a: string)
    requires a in s
    ensures |s| > 1 <==> exists b :: b in s && b != a
  {
    var rest := s - {a};
    assert |rest| == |s| - 1;
    if rest != {} {
      var b :| b in rest;
      assert b in s && b != a;
    }
  }

  method CollectOverlap(values: seq<Operand>, others: seq<Operand>) returns (overlap: seq<string>)
    ensures overlap == Overlap(values, others)
  {
    overlap := [];
    for i := 0 to |values|
      invariant overlap == Overlap(values[..i], others)
    {
      assert values[..i + 1][..i] == values[..i];
      ghost var before := overlap;
      for j := 0 to |others|
        invariant overlap == before + Repeats(values[i].text, others[..j])
      {
        assert others[..j + 1][..j] == others[..j];
        if values[i].text == others[j].text {
          overlap := overlap + [values[i].text];
        }
      }
      assert others[..|others|] == others;
    }
    assert values[..|values|] == values;
  }

  method CheckOverlaps(field: Field, ins: seq<Constraint>, notIns: seq<Constraint>) returns (found: seq<Report>)
    ensures forall r :: r in found <==> r.InOverlapsNotIn? && r.field == field && ListsOverlap(ins, notIns, r.overlap)
  {
    found := [];
    for i := 0 to |ins|
      invariant forall r :: r in found <==> r.InOverlapsNotIn? && r.field == field && ListsOverlap(ins[..i], notIns, r.overlap)
    {
      var more := CheckOverlapsOf(field, ins[i], notIns);
      assert ins[..i + 1] == ins[..i] + [ins[i]];
      forall overlap
        ensures ListsOverlap(ins[..i + 1], notIns, overlap)
                <==> ListsOverlap(ins[..i], notIns, overlap) || ListsOverlap([ins[i]], notIns, overlap)
      {
        OverlapsExtend(ins[..i], ins[i], notIns, overlap);
      }
      found := found + more;
    }
    assert ins[..|ins|] == ins;
  }

  lemma OverlapsExtend(ins: seq<Constraint>, list: Constraint, notIns: seq<Constraint>, overlap: seq<string>)
    ensures ListsOverlap(ins + [list], notIns, overlap)
            <==> ListsOverlap(ins, notIns, overlap) || ListsOverlap([list], notIns, overlap)
  {
    var all := ins + [list];
    assert all[|ins|] == list == [list][0];
    assert forall i :: 0 <= i < |ins| ==> all[i] == ins[i];
  }

  method CheckOverlapsOf(field: Field, list: Constraint, notIns: seq<Constraint>) returns (found: seq<Report>)
    ensures forall r :: r in found <==> r.InOverlapsNotIn? && r.field == field && ListsOverlap([list], notIns, r.overlap)
  {
    found := [];
    for j := 0 to |notIns|
      invariant forall r :: r in found <==> r.InOverlapsNotIn? && r.field == field && ListsOverlap([list], notIns[..j], r.overlap)
    {
      var overlap := CollectOverlap(list.values, notIns[j].values);
      assert notIns[..j + 1] == notIns[..j] + [notIns[j]];
      forall o
        ensures ListsOverlap([list], notIns[..j + 1], o)
                <==> ListsOverlap([list], notIns[..j], o) || (o != [] && o == overlap)
      {
        OverlapExtends(list, notIns[..j], notIns[j], o);
      }
      if |overlap| > 0 {
        found := found + [InOverlapsNotIn(field, overlap)];
      }
    }
    assert notIns[..|notIns|] == notIns;
  }

  lemma OverlapExtends(list: Constraint, notIns: seq<Constraint>, other: Constraint, overlap: seq<string>)
    ensures ListsOverlap([list], notIns + [other], overlap)
            <==> ListsOverlap([list], notIns, overlap) || (overlap != [] && overlap == Overlap(list.values, other.values))
  {
    var all := notIns + [other];
    assert all[|notIns|] == other && [list][0] == list;
    assert forall j :: 0 <= j < |notIns| ==> all[j] == notIns[j];
  }

  method FindImplied(cs: seq<Constraint>) returns (op: Option<Op>)
    ensures op == FirstImplied(cs)
  {
    op := None;
    for i := 0 to |cs|
      invariant FirstImplied(cs) == FirstImplied(cs[i..])
    {
      assert cs[i..][1..] == cs[i + 1..];
      if ImpliesExistence(cs[i].op) {
        return Some(cs[i].op);
      }
    }
  }

  method FindExcluded(betweens: seq<Constraint>, notBetweens: seq<Constraint>) returns (found: bool)
    ensures found == SomeExcluded(betweens, notBetweens)
  {
    found := false;
    if |betweens| > 0 && |notBetweens| > 0 {
      for i := 0 to |betweens|
        invariant forall k :: 0 <= k < i ==> !ThreePointsExcluded(betweens[k], notBetweens)
      {
        if NumericBetween(betweens[i]) {
          var bMin, bMax := betweens[i].values[0].num.value, betweens[i].values[1].num.value;
          var low := FindBetween(Some(bMin), notBetweens);
          var high := FindBetween(Some(bMax), notBetweens);
          var middle := FindBetween(Some((bMin + bMax) / 2.0), notBetweens);
          if low && high && middle {
            return true;
          }
        }
      }
    }
  }

  /** The checks that do not start from an equality. */
  method CheckOthers(field: Field, cs: seq<Constraint>, g: Groups) returns (found: seq<Report>)
    ensures forall r :: r in found <==> OtherReport(field, cs, g, r)
  {
    var multiple := FindDifferentTexts(g.eqs);
    var overlaps := CheckOverlaps(field, g.ins, g.notIns);
    var impossible := FindImpossible(g.ranges);
    var disjoint := FindDisjoint(g.betweens);
    var excluded := FindExcluded(g.betweens, g.notBetweens);
    found := AddIf(overlaps, multiple, MultipleEquals(field));
    found := AddIf(found, impossible, ImpossibleRange(field));
    found := AddIf(found, disjoint, BetweensDisjoint(field));
    found := AddIf(found, excluded, BetweenExcluded(field));
    var existence := CheckExistence(field, cs, g);
    found := found + existence;
  }

  /** EXISTS and what implies it against NOT EXISTS. */
  method CheckExistence(field: Field, cs: seq<Constraint>, g: Groups) returns (found: seq<Report>)
    ensures forall r :: r in found <==> (r.ExistsAndNotExists? || r.NotExistsButImplied?) && OtherReport(field, cs, g, r)
  {
    var implied := FindImplied(cs);
    found := AddIf([], |g.exists_| > 0 && |g.notExists| > 0, ExistsAndNotExists(field));
    if implied.Some? {
      found := AddIf(found, |g.notExists| > 0, NotExistsButImplied(field, implied.value));
    }
  }

  ghost predicate Impossible(ranges: seq<Constraint>) {
    forall x: real :: !MeetsBounds(x, ranges)
  }

  method FindImpossible(ranges: seq<Constraint>) returns (impossible: bool)
    ensures impossible == Impossible(ranges)
  {
    impossible := false;
    if |ranges| > 0 {
      impossible := CheckRangeContradictions(ranges);
    } else {
      assert MeetsBounds(0.0, ranges);
    }
  }

  ghost predicate Disjoint(betweens: seq<Constraint>) {
    |betweens| >= 2 && forall x: real :: !InAllBetweens(x, betweens)
  }

  method FindDisjoint(betweens: seq<Constraint>) returns (disjoint: bool)
    ensures disjoint == Disjoint(betweens)
  {
    disjoint := false;
    if |betweens| >= 2 {
      var common := HasCommonIntersection(betweens);
      disjoint := !common;
    }
  }

  /** All contradictions among the constraints of one field. */
  method FindContradictionsInConstraints(field: Field, cs: seq<Constraint>) returns (found: seq<Report>)
    ensures forall r :: r in found <==> IsReport(field, cs, r)
  {
    var g := GroupConstraints(cs);
    var equals := CheckEquals(field, g);
    var others := CheckOthers(field, cs, g);
    found := equals + others;
  }
}
