/** The reports of a field, rule by rule: each says that certain constraints exclude each other. */
module FieldExactness {
  import opened Options
  import opened FilterTree
  import opened FieldRules
  import opened FieldMeaning

  /** One text for each number, and one number for each text. */
  ghost predicate OneSpelling(cs: seq<Constraint>) {
    forall o, p :: HasOperand(cs, o) && HasOperand(cs, p) ==> (o.num == p.num <==> o.text == p.text)
  }

  /** Nothing satisfies both. */
  ghost predicate Exclude(c: Constraint, d: Constraint)
    requires Numeric(c) && Numeric(d)
  {
    forall v :: !(Holds(c, v) && Holds(d, v))
  }

  /** An equality with this text. */
  ghost predicate Equals(cs: seq<Constraint>, e: Constraint, text: string) {
    e in cs && e.op == Eq && |e.values| == 1 && e.values[0].text == text
  }

  /** A constraint with the operator excludes the equality. */
  ghost predicate ExcludedBy(cs: seq<Constraint>, e: Constraint, op: Op)
    requires AllNumeric(cs) && e in cs
  {
    exists d :: d in cs && d.op == op && Exclude(e, d)
  }

  ghost predicate ExcludedByBound(cs: seq<Constraint>, e: Constraint)
    requires AllNumeric(cs) && e in cs
  {
    exists d :: d in cs && IsRangeOperator(d.op) && Exclude(e, d)
  }

  /** The equality lies in none of the ranges of the field, and there are some. */
  ghost predicate OutsideAll(cs: seq<Constraint>, e: Constraint)
    requires AllNumeric(cs) && e in cs
  {
    (exists b :: b in cs && b.op == Between) && forall b :: b in cs && b.op == Between ==> Exclude(e, b)
  }

  ghost predicate SomeBoundFails(cs: seq<Constraint>, x: real)
    requires AllNumeric(cs)
  {
    exists c :: c in cs && IsRangeOperator(c.op) && !Holds(c, Some(x))
  }

  ghost predicate SomeRangeFails(cs: seq<Constraint>, x: real)
    requires AllNumeric(cs)
  {
    exists b :: b in cs && b.op == Between && !Holds(b, Some(x))
  }

  /** The operator occurs at two places. */
  predicate Twice(cs: seq<Constraint>, op: Op) {
    exists i, j :: 0 <= i < j < |cs| && cs[i].op == cs[j].op == op
  }

  /** Other than EXISTS, and not satisfied by an absent field. */
  predicate NeedsValue(c: Constraint)
    requires Numeric(c)
  {
    c.op != Exists && !Holds(c, None)
  }

  ghost predicate FirstNeed(cs: seq<Constraint>, i: nat)
    requires AllNumeric(cs)
  {
    i < |cs| && NeedsValue(cs[i]) && forall j :: 0 <= j < i ==> !NeedsValue(cs[j])
  }

  /** The first constraint that needs a value has the operator. */
  ghost predicate FirstNeedHas(cs: seq<Constraint>, op: Op)
    requires AllNumeric(cs)
  {
    exists i: nat :: FirstNeed(cs, i) && cs[i].op == op
  }

  /** The texts are those that an IN and a NOT IN list share. */
  ghost predicate Shared(cs: seq<Constraint>, c: Constraint, d: Constraint, texts: seq<string>) {
    c in cs && c.op == In && d in cs && d.op == NotIn
    && forall text :: text in texts <==> TextAmong(c.values, text) && TextAmong(d.values, text)
  }

  /** What a report that starts from an equality says of it. */
  ghost predicate ClashAt(cs: seq<Constraint>, e: Constraint, r: Report)
    requires AllNumeric(cs)
  {
    match r
    case EqualAndNotEqual(_, text) => Equals(cs, e, text) && ExcludedBy(cs, e, Neq)
    case EqualInNotIn(_, text) => Equals(cs, e, text) && ExcludedBy(cs, e, NotIn)
    case EqualNotInIn(_, text) => Equals(cs, e, text) && ExcludedBy(cs, e, In)
    case EqualOutsideRange(_, text) => Equals(cs, e, text) && ExcludedByBound(cs, e)
    case EqualInNotBetween(_, text) => Equals(cs, e, text) && ExcludedBy(cs, e, NotBetween)
    case EqualOutsideBetween(_, text) => Equals(cs, e, text) && OutsideAll(cs, e)
    case _ => false
  }

  /** What a report says of the constraints. */
  ghost predicate Clash(field: Field, cs: seq<Constraint>, r: Report)
    requires AllNumeric(cs)
  {
    r.field == field
    && match r
       case MultipleEquals(_) => exists e :: e in cs && e.op == Eq && ExcludedBy(cs, e, Eq)
       case ImpossibleRange(_) => forall x: real :: SomeBoundFails(cs, x)
       case ExistsAndNotExists(_) => Has(cs, Exists) && Has(cs, NotExists)
       case NotExistsButImplied(_, op) => Has(cs, NotExists) && FirstNeedHas(cs, op)
       case BetweensDisjoint(_) => Twice(cs, Between) && forall x: real :: SomeRangeFails(cs, x)
       case BetweenExcluded(_) => EndsExcluded(cs)
       case InOverlapsNotIn(_, texts) => texts != [] && exists c, d :: Shared(cs, c, d, texts)
       case _ => exists e :: ClashAt(cs, e, r)
  }

  ghost predicate Has(cs: seq<Constraint>, op: Op) {
    exists c :: c in cs && c.op == op
  }

  // ----- equalities -----

  /** What excludes an equality is what its number does not satisfy. */
  lemma EqualityExcludes(e: Constraint, d: Constraint)
    requires Numeric(e) && e.op == Eq && Numeric(d)
    ensures Exclude(e, d) <==> !Holds(d, e.values[0].num)
  {
    assert Holds(e, e.values[0].num);
    forall v ensures Holds(e, v) ==> v == e.values[0].num {
    }
  }

  /** Members of a group are the constraints with its operator. */
  lemma IndexOf(cs: seq<Constraint>, c: Constraint) returns (i: nat)
    requires c in cs
    ensures i < |WithOp(cs, c.op)| && WithOp(cs, c.op)[i] == c
  {
    assert c in WithOp(cs, c.op);
    i :| 0 <= i < |WithOp(cs, c.op)| && WithOp(cs, c.op)[i] == c;
  }

  lemma OperandOf(cs: seq<Constraint>, c: Constraint, k: nat)
    requires c in cs && k < |c.values|
    ensures HasOperand(cs, c.values[k])
  {
    assert c.values[k] in c.values;
  }

  lemma DifferMeansExclude(cs: seq<Constraint>, e: Constraint, d: Constraint)
    requires AllNumeric(cs) && OneSpelling(cs) && e in cs && e.op == Eq && d in cs && (d.op == Eq || d.op == Neq)
    ensures ValueOf(e) == e.values[0] && ValueOf(d) == d.values[0]
    ensures d.op == Eq ==> (Exclude(e, d) <==> ValueOf(e).text != ValueOf(d).text)
    ensures d.op == Neq ==> (Exclude(e, d) <==> ValueOf(e).text == ValueOf(d).text)
  {
    assert Numeric(e) && Numeric(d);
    EqualityExcludes(e, d);
    OperandOf(cs, e, 0);
    OperandOf(cs, d, 0);
  }

  lemma ListMeansExclude(cs: seq<Constraint>, e: Constraint, d: Constraint)
    requires AllNumeric(cs) && OneSpelling(cs) && e in cs && e.op == Eq && d in cs && (d.op == In || d.op == NotIn)
    ensures ValueOf(e) == e.values[0]
    ensures d.op == In ==> (Exclude(e, d) <==> !TextAmong(d.values, ValueOf(e).text))
    ensures d.op == NotIn ==> (Exclude(e, d) <==> TextAmong(d.values, ValueOf(e).text))
  {
    assert Numeric(e) && Numeric(d);
    EqualityExcludes(e, d);
    OperandOf(cs, e, 0);
    forall k | 0 <= k < |d.values| ensures d.values[k].num == e.values[0].num <==> d.values[k].text == e.values[0].text {
      OperandOf(cs, d, k);
    }
  }

  lemma RangeMeansExclude(cs: seq<Constraint>, e: Constraint, d: Constraint)
    requires AllNumeric(cs) && e in cs && e.op == Eq && d in cs && (d.op == Between || d.op == NotBetween)
    ensures ValueOf(e) == e.values[0]
    ensures d.op == Between ==> (Exclude(e, d) <==> !ValueSatisfiesBetween(ValueOf(e).num, d))
    ensures d.op == NotBetween ==> (Exclude(e, d) <==> ValueSatisfiesBetween(ValueOf(e).num, d))
  {
    assert Numeric(e) && Numeric(d);
    EqualityExcludes(e, d);
  }

  /** Some bound excludes the equality exactly when it lies outside the bounds. */
  lemma BoundMeansExclude(cs: seq<Constraint>, e: Constraint)
    requires AllNumeric(cs) && e in cs && e.op == Eq
    ensures OutsideRanges(ValueOf(e).num, Ranges(cs)) <==> ExcludedByBound(cs, e)
  {
    assert Numeric(e);
    var x := e.values[0].num.value;
    if OutsideRanges(ValueOf(e).num, Ranges(cs)) {
      var d := FailingBound(cs, x);
      EqualityExcludes(e, d);
    }
    if d :| d in cs && IsRangeOperator(d.op) && Exclude(e, d) {
      EqualityExcludes(e, d);
      if MeetsBounds(x, Ranges(cs)) {
        BoundsMeanRanges(cs, x, d);
      }
    }
  }

  lemma FailingBound(cs: seq<Constraint>, x: real) returns (d: Constraint)
    requires AllNumeric(cs) && !MeetsBounds(x, Ranges(cs))
    ensures d in cs && IsRangeOperator(d.op) && !Holds(d, Some(x))
  {
    var ranges := Ranges(cs);
    var i :| 0 <= i < |ranges| && ValueOf(ranges[i]).num.Some? && !SatisfiesRange(x, ranges[i].op, ValueOf(ranges[i]).num.value);
    d := ranges[i];
    assert d in ranges;
    assert Numeric(d);
  }

  lemma SameTextExcludes(cs: seq<Constraint>, e: Constraint)
    requires AllNumeric(cs) && OneSpelling(cs) && e in cs && e.op == Eq
    ensures SameText(WithOp(cs, Neq), ValueOf(e).text) <==> ExcludedBy(cs, e, Neq)
  {
    var neqs := WithOp(cs, Neq);
    if i :| 0 <= i < |neqs| && ValueOf(neqs[i]).text == ValueOf(e).text {
      GroupMember(cs, Neq, i);
      DifferMeansExclude(cs, e, neqs[i]);
    }
    if d :| d in cs && d.op == Neq && Exclude(e, d) {
      DifferMeansExclude(cs, e, d);
      var i := IndexOf(cs, d);
    }
  }

  lemma OtherTextExcludes(cs: seq<Constraint>)
    requires AllNumeric(cs) && OneSpelling(cs)
    ensures DifferentTexts(WithOp(cs, Eq)) <==> exists e :: e in cs && e.op == Eq && ExcludedBy(cs, e, Eq)
  {
    var eqs := WithOp(cs, Eq);
    if i, j :| 0 <= i < |eqs| && 0 <= j < |eqs| && ValueOf(eqs[i]).text != ValueOf(eqs[j]).text {
      GroupMember(cs, Eq, i);
      GroupMember(cs, Eq, j);
      DifferMeansExclude(cs, eqs[i], eqs[j]);
      assert ExcludedBy(cs, eqs[i], Eq);
    }
    if e :| e in cs && e.op == Eq && ExcludedBy(cs, e, Eq) {
      var d :| d in cs && d.op == Eq && Exclude(e, d);
      DifferMeansExclude(cs, e, d);
      var i := IndexOf(cs, e);
      var j := IndexOf(cs, d);
    }
  }

  lemma ListedExcludes(cs: seq<Constraint>, e: Constraint)
    requires AllNumeric(cs) && OneSpelling(cs) && e in cs && e.op == Eq
    ensures SomeListHas(WithOp(cs, NotIn), ValueOf(e).text) <==> ExcludedBy(cs, e, NotIn)
  {
    var lists := WithOp(cs, NotIn);
    if i :| 0 <= i < |lists| && TextAmong(lists[i].values, ValueOf(e).text) {
      GroupMember(cs, NotIn, i);
      ListMeansExclude(cs, e, lists[i]);
    }
    if d :| d in cs && d.op == NotIn && Exclude(e, d) {
      ListMeansExclude(cs, e, d);
      var i := IndexOf(cs, d);
    }
  }

  lemma LackingExcludes(cs: seq<Constraint>, e: Constraint)
    requires AllNumeric(cs) && OneSpelling(cs) && e in cs && e.op == Eq
    ensures SomeListLacks(WithOp(cs, In), ValueOf(e).text) <==> ExcludedBy(cs, e, In)
  {
    var lists := WithOp(cs, In);
    if i :| 0 <= i < |lists| && !TextAmong(lists[i].values, ValueOf(e).text) {
      GroupMember(cs, In, i);
      ListMeansExclude(cs, e, lists[i]);
    }
    if d :| d in cs && d.op == In && Exclude(e, d) {
      ListMeansExclude(cs, e, d);
      var i := IndexOf(cs, d);
    }
  }

  lemma InsideExcludes(cs: seq<Constraint>, e: Constraint)
    requires AllNumeric(cs) && e in cs && e.op == Eq
    ensures InSomeBetween(ValueOf(e).num, WithOp(cs, NotBetween)) <==> ExcludedBy(cs, e, NotBetween)
  {
    var ranges := WithOp(cs, NotBetween);
    if i :| 0 <= i < |ranges| && ValueSatisfiesBetween(ValueOf(e).num, ranges[i]) {
      GroupMember(cs, NotBetween, i);
      RangeMeansExclude(cs, e, ranges[i]);
    }
    if d :| d in cs && d.op == NotBetween && Exclude(e, d) {
      RangeMeansExclude(cs, e, d);
      var i := IndexOf(cs, d);
    }
  }

  lemma OutsideExcludes(cs: seq<Constraint>, e: Constraint)
    requires AllNumeric(cs) && e in cs && e.op == Eq
    ensures WithOp(cs, Between) != [] && !InSomeBetween(ValueOf(e).num, WithOp(cs, Between)) <==> OutsideAll(cs, e)
  {
    var ranges := WithOp(cs, Between);
    if ranges != [] && !InSomeBetween(ValueOf(e).num, ranges) {
      GroupMember(cs, Between, 0);
      forall b | b in cs && b.op == Between ensures Exclude(e, b) {
        var i := IndexOf(cs, b);
        RangeMeansExclude(cs, e, b);
      }
    }
    if OutsideAll(cs, e) {
      var b :| b in cs && b.op == Between;
      var k := IndexOf(cs, b);
      forall i | 0 <= i < |ranges| ensures !ValueSatisfiesBetween(ValueOf(e).num, ranges[i]) {
        GroupMember(cs, Between, i);
        RangeMeansExclude(cs, e, ranges[i]);
      }
    }
  }

  lemma NotEqualRule(field: Field, cs: seq<Constraint>, e: Constraint, text: string)
    requires AllNumeric(cs) && OneSpelling(cs) && e in cs && e.op == Eq
    ensures var r := EqualAndNotEqual(field, text); EqualReport(field, ValueOf(e), GroupsOf(cs), r) <==> ClashAt(cs, e, r)
  {
    assert Numeric(e);
    SameTextExcludes(cs, e);
  }

  lemma NotInRule(field: Field, cs: seq<Constraint>, e: Constraint, text: string)
    requires AllNumeric(cs) && OneSpelling(cs) && e in cs && e.op == Eq
    ensures var r := EqualInNotIn(field, text); EqualReport(field, ValueOf(e), GroupsOf(cs), r) <==> ClashAt(cs, e, r)
  {
    assert Numeric(e);
    ListedExcludes(cs, e);
  }

  lemma InRule(field: Field, cs: seq<Constraint>, e: Constraint, text: string)
    requires AllNumeric(cs) && OneSpelling(cs) && e in cs && e.op == Eq
    ensures var r := EqualNotInIn(field, text); EqualReport(field, ValueOf(e), GroupsOf(cs), r) <==> ClashAt(cs, e, r)
  {
    assert Numeric(e);
    LackingExcludes(cs, e);
  }

  lemma BoundRule(field: Field, cs: seq<Constraint>, e: Constraint, text: string)
    requires AllNumeric(cs) && OneSpelling(cs) && e in cs && e.op == Eq
    ensures var r := EqualOutsideRange(field, text); EqualReport(field, ValueOf(e), GroupsOf(cs), r) <==> ClashAt(cs, e, r)
  {
    assert Numeric(e);
    BoundMeansExclude(cs, e);
    OutsideRangeReport(field, ValueOf(e), GroupsOf(cs), text);
  }

  lemma NotBetweenRule(field: Field, cs: seq<Constraint>, e: Constraint, text: string)
    requires AllNumeric(cs) && OneSpelling(cs) && e in cs && e.op == Eq
    ensures var r := EqualInNotBetween(field, text); EqualReport(field, ValueOf(e), GroupsOf(cs), r) <==> ClashAt(cs, e, r)
  {
    assert Numeric(e);
    InsideExcludes(cs, e);
  }

  lemma BetweenRule(field: Field, cs: seq<Constraint>, e: Constraint, text: string)
    requires AllNumeric(cs) && OneSpelling(cs) && e in cs && e.op == Eq
    ensures var r := EqualOutsideBetween(field, text); EqualReport(field, ValueOf(e), GroupsOf(cs), r) <==> ClashAt(cs, e, r)
  {
    assert Numeric(e);
    OutsideExcludes(cs, e);
  }

  /** The rules that start from an equality. */
  lemma EqualityRules(field: Field, cs: seq<Constraint>, e: Constraint, r: Report)
    requires AllNumeric(cs) && OneSpelling(cs) && e in cs && e.op == Eq && r.field == field
    ensures EqualReport(field, ValueOf(e), GroupsOf(cs), r) <==> ClashAt(cs, e, r)
  {
    match r
    case EqualAndNotEqual(_, text) => NotEqualRule(field, cs, e, text);
    case EqualInNotIn(_, text) => NotInRule(field, cs, e, text);
    case EqualNotInIn(_, text) => InRule(field, cs, e, text);
    case EqualOutsideRange(_, text) => BoundRule(field, cs, e, text);
    case EqualInNotBetween(_, text) => NotBetweenRule(field, cs, e, text);
    case EqualOutsideBetween(_, text) => BetweenRule(field, cs, e, text);
    case _ =>
  }

  lemma SomeEqualityRule(field: Field, cs: seq<Constraint>, r: Report)
    requires AllNumeric(cs) && OneSpelling(cs) && r.field == field
    ensures SomeEqualReport(field, GroupsOf(cs), r) <==> exists e :: ClashAt(cs, e, r)
  {
    if SomeEqualReport(field, GroupsOf(cs), r) {
      var eqs := WithOp(cs, Eq);
      var i :| 0 <= i < |eqs| && EqualReport(field, ValueOf(eqs[i]), GroupsOf(cs), r);
      GroupMember(cs, Eq, i);
      EqualityRules(field, cs, eqs[i], r);
    } else if e :| ClashAt(cs, e, r) {
      ClashIsOfEquality(cs, e, r);
      EqualityRules(field, cs, e, r);
      var i := IndexOf(cs, e);
    }
  }

  lemma ClashIsOfEquality(cs: seq<Constraint>, e: Constraint, r: Report)
    requires AllNumeric(cs) && ClashAt(cs, e, r)
    ensures e in cs && e.op == Eq
  {
  }

  // ----- the other rules -----

  lemma BoundsRule(cs: seq<Constraint>, x: real)
    requires AllNumeric(cs)
    ensures MeetsBounds(x, Ranges(cs)) <==> !SomeBoundFails(cs, x)
  {
    if !MeetsBounds(x, Ranges(cs)) {
      var c := FailingBound(cs, x);
    } else if SomeBoundFails(cs, x) {
      var c :| c in cs && IsRangeOperator(c.op) && !Holds(c, Some(x));
      BoundsMeanRanges(cs, x, c);
    }
  }

  lemma GroupIsThere(cs: seq<Constraint>, op: Op)
    ensures WithOp(cs, op) != [] <==> Has(cs, op)
  {
    if WithOp(cs, op) != [] {
      GroupMember(cs, op, 0);
    }
  }

  lemma TwiceInRest(cs: seq<Constraint>, op: Op)
    requires cs != [] && Twice(cs, op)
    ensures var rest := cs[..|cs| - 1]; Twice(rest, op) || (cs[|cs| - 1].op == op && Has(rest, op))
  {
    var n := |cs| - 1;
    var rest := cs[..n];
    var i, j :| 0 <= i < j < |cs| && cs[i].op == cs[j].op == op;
    if j < n {
      assert rest[i] == cs[i] && rest[j] == cs[j];
    } else {
      assert rest[i] in rest;
    }
  }

  lemma TwiceWithLast(cs: seq<Constraint>, op: Op)
    requires cs != []
    requires var rest := cs[..|cs| - 1]; Twice(rest, op) || (cs[|cs| - 1].op == op && Has(rest, op))
    ensures Twice(cs, op)
  {
    var n := |cs| - 1;
    var rest := cs[..n];
    if i, j :| 0 <= i < j < n && rest[i].op == rest[j].op == op {
      assert cs[i] == rest[i] && cs[j] == rest[j];
    } else {
      var c :| c in rest && c.op == op;
      var i :| 0 <= i < n && rest[i] == c;
      assert cs[i].op == cs[n].op == op;
    }
  }

  /** A group has two members exactly when the operator occurs at two places. */
  lemma {:induction false} GroupOfTwo(cs: seq<Constraint>, op: Op)
    ensures |WithOp(cs, op)| >= 2 <==> Twice(cs, op)
  {
    if cs != [] {
      GroupOfTwo(cs[..|cs| - 1], op);
      GroupIsThere(cs[..|cs| - 1], op);
      if Twice(cs, op) {
        TwiceInRest(cs, op);
      } else if |WithOp(cs, op)| >= 2 {
        TwiceWithLast(cs, op);
      }
    }
  }

  lemma RangesRule(cs: seq<Constraint>, x: real)
    requires AllNumeric(cs)
    ensures InAllBetweens(x, WithOp(cs, Between)) <==> !SomeRangeFails(cs, x)
  {
    var ranges := WithOp(cs, Between);
    if !InAllBetweens(x, ranges) {
      var i :| 0 <= i < |ranges| && NumericBetween(ranges[i]) && !(ranges[i].values[0].num.value <= x <= ranges[i].values[1].num.value);
      GroupMember(cs, Between, i);
      assert !Holds(ranges[i], Some(x));
    } else if SomeRangeFails(cs, x) {
      var b :| b in cs && b.op == Between && !Holds(b, Some(x));
      var i := IndexOf(cs, b);
    }
  }

  lemma NeedIsImplied(c: Constraint)
    requires Numeric(c)
    ensures NeedsValue(c) <==> ImpliesExistence(c.op)
  {
  }

  lemma FirstNeedShifts(cs: seq<Constraint>, i: nat)
    requires AllNumeric(cs) && cs != [] && !NeedsValue(cs[0])
    ensures FirstNeed(cs, i + 1) <==> FirstNeed(cs[1..], i)
  {
    var rest := cs[1..];
    if FirstNeed(cs, i + 1) {
      forall j | 0 <= j < i ensures !NeedsValue(rest[j]) {
        assert rest[j] == cs[j + 1];
      }
    }
    if FirstNeed(rest, i) {
      forall j | 0 < j < i + 1 ensures !NeedsValue(cs[j]) {
        assert cs[j] == rest[j - 1];
      }
    }
  }

  lemma NeedBehindFirst(cs: seq<Constraint>, op: Op)
    requires AllNumeric(cs) && cs != [] && !NeedsValue(cs[0])
    ensures FirstNeedHas(cs, op) <==> FirstNeedHas(cs[1..], op)
  {
    if i: nat :| FirstNeed(cs, i) && cs[i].op == op {
      FirstNeedShifts(cs, i - 1);
      assert cs[1..][i - 1] == cs[i];
    }
    if i: nat :| FirstNeed(cs[1..], i) && cs[1..][i].op == op {
      FirstNeedShifts(cs, i);
      assert cs[1..][i] == cs[i + 1];
    }
  }

  lemma {:induction false} FirstNeedIsImplied(cs: seq<Constraint>, op: Op)
    requires AllNumeric(cs)
    ensures FirstImplied(cs) == Some(op) <==> FirstNeedHas(cs, op)
  {
    if cs != [] {
      NeedIsImplied(cs[0]);
      if NeedsValue(cs[0]) {
        assert FirstNeed(cs, 0);
      } else {
        FirstNeedIsImplied(cs[1..], op);
        NeedBehindFirst(cs, op);
      }
    }
  }

  lemma ExcludedRule(cs: seq<Constraint>)
    requires AllNumeric(cs)
    ensures SomeExcluded(WithOp(cs, Between), WithOp(cs, NotBetween)) <==> EndsExcluded(cs)
  {
    if SomeExcluded(WithOp(cs, Between), WithOp(cs, NotBetween)) {
      ThreePointsAreExcluded(cs);
    }
    if EndsExcluded(cs) {
      EndsAreFound(cs);
    }
  }

  lemma OverlapRule(cs: seq<Constraint>, texts: seq<string>)
    requires ListsOverlap(WithOp(cs, In), WithOp(cs, NotIn), texts)
    ensures texts != [] && exists c, d :: Shared(cs, c, d, texts)
  {
    var ins, notIns := WithOp(cs, In), WithOp(cs, NotIn);
    var i, j :| 0 <= i < |ins| && 0 <= j < |notIns| && texts == Overlap(ins[i].values, notIns[j].values);
    GroupMember(cs, In, i);
    GroupMember(cs, NotIn, j);
    forall text ensures text in texts <==> TextAmong(ins[i].values, text) && TextAmong(notIns[j].values, text) {
      OverlapTexts(ins[i].values, notIns[j].values, text);
    }
    assert Shared(cs, ins[i], notIns[j], texts);
  }

  lemma ImpossibleRule(field: Field, cs: seq<Constraint>)
    requires AllNumeric(cs)
    ensures OtherReport(field, cs, GroupsOf(cs), ImpossibleRange(field)) <==> Clash(field, cs, ImpossibleRange(field))
  {
    forall x: real ensures MeetsBounds(x, Ranges(cs)) <==> !SomeBoundFails(cs, x) {
      BoundsRule(cs, x);
    }
  }

  lemma DisjointReport(field: Field, cs: seq<Constraint>, g: Groups)
    ensures OtherReport(field, cs, g, BetweensDisjoint(field))
            <==> |g.betweens| >= 2 && forall x: real :: !InAllBetweens(x, g.betweens)
  {
  }

  lemma DisjointRule(field: Field, cs: seq<Constraint>)
    requires AllNumeric(cs)
    ensures OtherReport(field, cs, GroupsOf(cs), BetweensDisjoint(field)) <==> Clash(field, cs, BetweensDisjoint(field))
  {
    GroupOfTwo(cs, Between);
    DisjointReport(field, cs, GroupsOf(cs));
    forall x: real ensures InAllBetweens(x, WithOp(cs, Between)) <==> !SomeRangeFails(cs, x) {
      RangesRule(cs, x);
    }
  }

  lemma AbsenceRule(field: Field, cs: seq<Constraint>)
    requires AllNumeric(cs)
    ensures OtherReport(field, cs, GroupsOf(cs), ExistsAndNotExists(field)) <==> Clash(field, cs, ExistsAndNotExists(field))
  {
    GroupIsThere(cs, Exists);
    GroupIsThere(cs, NotExists);
    ExistenceReport(field, cs, GroupsOf(cs));
  }

  lemma ImpliedRule(field: Field, cs: seq<Constraint>, op: Op)
    requires AllNumeric(cs)
    ensures OtherReport(field, cs, GroupsOf(cs), NotExistsButImplied(field, op)) <==> Clash(field, cs, NotExistsButImplied(field, op))
  {
    GroupIsThere(cs, NotExists);
    FirstNeedIsImplied(cs, op);
    ImpliedReport(field, cs, GroupsOf(cs), op);
  }

  lemma OtherRules(field: Field, cs: seq<Constraint>, r: Report)
    requires AllNumeric(cs) && OneSpelling(cs) && r.field == field && !(exists e :: ClashAt(cs, e, r))
    ensures OtherReport(field, cs, GroupsOf(cs), r) ==> Clash(field, cs, r)
    ensures Clash(field, cs, r) && !r.InOverlapsNotIn? ==> OtherReport(field, cs, GroupsOf(cs), r)
  {
    match r
    case MultipleEquals(_) => OtherTextExcludes(cs);
    case ImpossibleRange(_) => ImpossibleRule(field, cs);
    case ExistsAndNotExists(_) => AbsenceRule(field, cs);
    case NotExistsButImplied(_, op) => ImpliedRule(field, cs, op);
    case BetweensDisjoint(_) => DisjointRule(field, cs);
    case BetweenExcluded(_) => ExcludedRule(cs);
    case InOverlapsNotIn(_, texts) =>
      if ListsOverlap(WithOp(cs, In), WithOp(cs, NotIn), texts) {
        OverlapRule(cs, texts);
      }
    case _ =>
  }

  /** Two lists that share texts are reported with just these. */
  lemma SharedTextsAreReported(field: Field, cs: seq<Constraint>, c: Constraint, d: Constraint, texts: seq<string>)
    returns (r: Report)
    requires Shared(cs, c, d, texts) && texts != []
    ensures IsReport(field, cs, r) && r.InOverlapsNotIn? && r.field == field
    ensures forall text :: text in r.overlap <==> text in texts
  {
    var overlap := Overlap(c.values, d.values);
    forall text ensures text in overlap <==> text in texts {
      OverlapTexts(c.values, d.values, text);
    }
    assert texts[0] in overlap;
    r := InOverlapsNotIn(field, overlap);
    OverlapIsReported(field, cs, c, d);
  }

  /** Each rule reports exactly when the constraints it looks at exclude each other; a list overlap is
      reported with the texts the lists share. */
  lemma ReportsAreClashes(field: Field, cs: seq<Constraint>, r: Report)
    requires AllNumeric(cs) && OneSpelling(cs)
    ensures IsReport(field, cs, r) ==> Clash(field, cs, r)
    ensures Clash(field, cs, r) && !r.InOverlapsNotIn? ==> IsReport(field, cs, r)
  {
    if r.field == field {
      SomeEqualityRule(field, cs, r);
      if !(exists e :: ClashAt(cs, e, r)) {
        OtherRules(field, cs, r);
      }
    }
  }
}
