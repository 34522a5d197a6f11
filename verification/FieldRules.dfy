/** The checks on the constraints of one field: which contradictions are reported, and the loops
    that find them. */
module FieldRules {
  import opened Options
  import opened FilterTree

  /** A message, by its kind and the operands it names. */
  datatype Report =
    | MultipleEquals(field: Field)
    | EqualAndNotEqual(field: Field, text: string)
    | EqualInNotIn(field: Field, text: string)
    | EqualNotInIn(field: Field, text: string)
    | InOverlapsNotIn(field: Field, overlap: seq<string>)
    | ImpossibleRange(field: Field)
    | EqualOutsideRange(field: Field, text: string)
    | ExistsAndNotExists(field: Field)
    | NotExistsButImplied(field: Field, op: Op)
    | BetweensDisjoint(field: Field)
    | EqualOutsideBetween(field: Field, text: string)
    | EqualInNotBetween(field: Field, text: string)
    | BetweenExcluded(field: Field)

  /** The constraints with one operator, in order. */
  function WithOp(cs: seq<Constraint>, op: Op): (r: seq<Constraint>)
    ensures forall c :: c in r <==> c in cs && c.op == op
  {
    if cs == [] then []
    else
      var n := |cs| - 1;
      var rest := WithOp(cs[..n], op);
      assert cs == cs[..n] + [cs[n]];
      if cs[n].op == op then rest + [cs[n]] else rest
  }

  /** The range constraints, in order. */
  function Ranges(cs: seq<Constraint>): (r: seq<Constraint>)
    ensures forall c :: c in r <==> c in cs && IsRangeOperator(c.op)
  {
    if cs == [] then []
    else
      var n := |cs| - 1;
      var rest := Ranges(cs[..n]);
      assert cs == cs[..n] + [cs[n]];
      if IsRangeOperator(cs[n].op) then rest + [cs[n]] else rest
  }

  /** The single operand of a comparison. */
  function ValueOf(c: Constraint): Operand {
    if |c.values| == 1 then c.values[0] else Operand("", None)
  }

  predicate TextAmong(values: seq<Operand>, text: string) {
    exists i :: 0 <= i < |values| && values[i].text == text
  }

  // ----- bounds -----

  /** x meets every bound that is a number. */
  predicate MeetsBounds(x: real, ranges: seq<Constraint>) {
    forall i :: 0 <= i < |ranges| && ValueOf(ranges[i]).num.Some?
                ==> SatisfiesRange(x, ranges[i].op, ValueOf(ranges[i]).num.value)
  }

  /** A bound and whether it is included. */
  datatype Bound = Bound(value: real, inclusive: bool)

  predicate Above(x: real, b: Bound) { if b.inclusive then x >= b.value else x > b.value }

  predicate Below(x: real, b: Bound) { if b.inclusive then x <= b.value else x < b.value }

  predicate AllAbove(x: real, bounds: seq<Bound>) {
    forall k :: 0 <= k < |bounds| ==> Above(x, bounds[k])
  }

  predicate AllBelow(x: real, bounds: seq<Bound>) {
    forall k :: 0 <= k < |bounds| ==> Below(x, bounds[k])
  }

  lemma OneMore(bounds: seq<Bound>, b: Bound)
    ensures forall x: real :: AllAbove(x, bounds + [b]) <==> AllAbove(x, bounds) && Above(x, b)
    ensures forall x: real :: AllBelow(x, bounds + [b]) <==> AllBelow(x, bounds) && Below(x, b)
  {
    forall x: real
      ensures AllAbove(x, bounds + [b]) <==> AllAbove(x, bounds) && Above(x, b)
      ensures AllBelow(x, bounds + [b]) <==> AllBelow(x, bounds) && Below(x, b)
    {
      assert (bounds + [b])[|bounds|] == b;
      assert forall k :: 0 <= k < |bounds| ==> (bounds + [b])[k] == bounds[k];
    }
  }

  /** x fits between the bounds there are. */
  predicate Fits(x: real, lower: Option<Bound>, upper: Option<Bound>) {
    (lower.Some? ==> Above(x, lower.value)) && (upper.Some? ==> Below(x, upper.value))
  }

  /** Whether no number at all satisfies the range constraints. */
  method CheckRangeContradictions(constraints: seq<Constraint>) returns (impossible: bool)
    ensures impossible <==> forall x: real :: !MeetsBounds(x, constraints)
  {
    var lowerBounds: seq<Bound>, upperBounds: seq<Bound> := [], [];
    for i := 0 to |constraints|
      invariant forall x: real :: MeetsBounds(x, constraints[..i]) <==> AllAbove(x, lowerBounds) && AllBelow(x, upperBounds)
    {
      var c := constraints[i];
      OneMoreBound(constraints, i);
      if ValueOf(c).num.None? {
        continue;
      }
      var val := ValueOf(c).num.value;
      OneMore(lowerBounds, Bound(val, c.op == Ge));
      OneMore(upperBounds, Bound(val, c.op == Le));
      match c.op
      case Gt => lowerBounds := lowerBounds + [Bound(val, false)];
      case Ge => lowerBounds := lowerBounds + [Bound(val, true)];
      case Lt => upperBounds := upperBounds + [Bound(val, false)];
      case Le => upperBounds := upperBounds + [Bound(val, true)];
      case _ =>
    }
    assert constraints[..|constraints|] == constraints;
    var effectiveLower := TightestLower(lowerBounds);
    var effectiveUpper := TightestUpper(upperBounds);
    BoundsMeet(effectiveLower, effectiveUpper);
    assert forall x: real :: MeetsBounds(x, constraints) <==> Fits(x, effectiveLower, effectiveUpper);
    impossible := false;
    if effectiveLower.Some? && effectiveUpper.Some? {
      if effectiveLower.value.value > effectiveUpper.value.value {
        impossible := true;
      } else if effectiveLower.value.value == effectiveUpper.value.value
                && (!effectiveLower.value.inclusive || !effectiveUpper.value.inclusive) {
        impossible := true;
      }
    }
  }

  lemma OneMoreBound(cs: seq<Constraint>, i: nat)
    requires i < |cs|
    ensures forall x: real :: MeetsBounds(x, cs[..i + 1])
                              <==> MeetsBounds(x, cs[..i])
                                   && (ValueOf(cs[i]).num.Some? ==> SatisfiesRange(x, cs[i].op, ValueOf(cs[i]).num.value))
  {
    assert cs[..i + 1] == cs[..i] + [cs[i]];
  }

  method TightestLower(bounds: seq<Bound>) returns (tightest: Option<Bound>)
    ensures forall x: real :: AllAbove(x, bounds) <==> Fits(x, tightest, None)
  {
    tightest := None;
    for i := 0 to |bounds|
      invariant forall x: real :: AllAbove(x, bounds[..i]) <==> Fits(x, tightest, None)
    {
      var lb := bounds[i];
      OneMore(bounds[..i], lb);
      assert bounds[..i + 1] == bounds[..i] + [lb];
      if tightest.None? || lb.value > tightest.value.value
         || (lb.value == tightest.value.value && !lb.inclusive && tightest.value.inclusive) {
        tightest := Some(lb);
      }
    }
    assert bounds[..|bounds|] == bounds;
  }

  method TightestUpper(bounds: seq<Bound>) returns (tightest: Option<Bound>)
    ensures forall x: real :: AllBelow(x, bounds) <==> Fits(x, None, tightest)
  {
    tightest := None;
    for i := 0 to |bounds|
      invariant forall x: real :: AllBelow(x, bounds[..i]) <==> Fits(x, None, tightest)
    {
      var ub := bounds[i];
      OneMore(bounds[..i], ub);
      assert bounds[..i + 1] == bounds[..i] + [ub];
      if tightest.None? || ub.value < tightest.value.value
         || (ub.value == tightest.value.value && !ub.inclusive && tightest.value.inclusive) {
        tightest := Some(ub);
      }
    }
    assert bounds[..|bounds|] == bounds;
  }

  /** Between a lower and an upper bound lies a number unless they cross or touch without including. */
  lemma BoundsMeet(lower: Option<Bound>, upper: Option<Bound>)
    ensures (exists x: real :: Fits(x, lower, upper))
            <==> !(lower.Some? && upper.Some?
                   && (lower.value.value > upper.value.value
                       || (lower.value.value == upper.value.value && (!lower.value.inclusive || !upper.value.inclusive))))
  {
    if lower.Some? && upper.Some? {
      var mid := (lower.value.value + upper.value.value) / 2.0;
      assert lower.value.value < upper.value.value ==> Fits(mid, lower, upper);
      assert lower.value.value == upper.value.value && lower.value.inclusive && upper.value.inclusive ==> Fits(mid, lower, upper);
    } else if lower.Some? {
      assert Fits(lower.value.value + 1.0, lower, upper);
    } else if upper.Some? {
      assert Fits(upper.value.value - 1.0, lower, upper);
    } else {
      assert Fits(0.0, lower, upper);
    }
  }

  /** A value that is not a number passes; so does a bound that is not one. */
  method ValuesSatisfyRanges(value: Operand, constraints: seq<Constraint>) returns (ok: bool)
    ensures ok <==> value.num.None? || MeetsBounds(value.num.value, constraints)
  {
    ok := true;
    if value.num.None? {
      return;
    }
    var val := value.num.value;
    for i := 0 to |constraints|
      invariant MeetsBounds(val, constraints[..i])
    {
      OneMoreBound(constraints, i);
      var c := ValueOf(constraints[i]);
      if c.num.None? {
        continue;
      }
      var fails := match constraints[i].op
        case Gt => val <= c.num.value
        case Ge => val < c.num.value
        case Lt => val >= c.num.value
        case Le => val > c.num.value
        case _ => false;
      if fails {
        assert !MeetsBounds(val, constraints[..i + 1]);
        return false;
      }
    }
    assert constraints[..|constraints|] == constraints;
  }

  // ----- BETWEEN -----

  predicate NumericBetween(c: Constraint) {
    |c.values| == 2 && c.values[0].num.Some? && c.values[1].num.Some?
  }

  /** x lies in every BETWEEN range whose bounds are numbers. */
  predicate InAllBetweens(x: real, betweens: seq<Constraint>) {
    forall i :: 0 <= i < |betweens| && NumericBetween(betweens[i])
                ==> betweens[i].values[0].num.value <= x <= betweens[i].values[1].num.value
  }

  /** Whether one number lies in all the ranges. */
  method HasCommonIntersection(betweens: seq<Constraint>) returns (common: bool)
    ensures common <==> exists x: real :: InAllBetweens(x, betweens)
  {
    var intersectionMin, intersectionMax := 0.0, 0.0;
    var initialized := false;
    for i := 0 to |betweens|
      invariant forall x: real :: InAllBetweens(x, betweens[..i]) <==> Inside(x, initialized, intersectionMin, intersectionMax)
    {
      OneMoreBetween(betweens, i);
      if !NumericBetween(betweens[i]) {
        continue;
      }
      var min, max := betweens[i].values[0].num.value, betweens[i].values[1].num.value;
      ghost var bounded, lo, hi := initialized, intersectionMin, intersectionMax;
      if !initialized {
        intersectionMin, intersectionMax, initialized := min, max, true;
      } else {
        if min > intersectionMin {
          intersectionMin := min;
        }
        if max < intersectionMax {
          intersectionMax := max;
        }
      }
      assert forall x: real :: Inside(x, initialized, intersectionMin, intersectionMax) <==> Inside(x, bounded, lo, hi) && min <= x <= max;
    }
    assert betweens[..|betweens|] == betweens;
    common := !initialized || intersectionMin <= intersectionMax;
    assert forall x: real :: InAllBetweens(x, betweens) <==> Inside(x, initialized, intersectionMin, intersectionMax);
    if common {
      assert Inside(intersectionMin, initialized, intersectionMin, intersectionMax);
    }
  }

  predicate Inside(x: real, bounded: bool, lo: real, hi: real) {
    bounded ==> lo <= x <= hi
  }

  lemma OneMoreBetween(cs: seq<Constraint>, i: nat)
    requires i < |cs|
    ensures forall x: real :: InAllBetweens(x, cs[..i + 1])
                              <==> InAllBetweens(x, cs[..i])
                                   && (NumericBetween(cs[i]) ==> cs[i].values[0].num.value <= x <= cs[i].values[1].num.value)
  {
    assert cs[..i + 1] == cs[..i] + [cs[i]];
  }

  /** What cannot be compared as numbers is taken to be inside. */
  predicate ValueSatisfiesBetween(value: Option<real>, between: Constraint) {
    if |between.values| != 2 then false
    else if value.None? || !NumericBetween(between) then true
    else between.values[0].num.value <= value.value <= between.values[1].num.value
  }

  predicate InSomeBetween(value: Option<real>, betweens: seq<Constraint>) {
    exists i :: 0 <= i < |betweens| && ValueSatisfiesBetween(value, betweens[i])
  }

  /** Both ends and the middle of a BETWEEN range lie in NOT BETWEEN ranges. */
  predicate ThreePointsExcluded(between: Constraint, notBetweens: seq<Constraint>) {
    NumericBetween(between)
    && var lo, hi := between.values[0].num.value, between.values[1].num.value;
       InSomeBetween(Some(lo), notBetweens) && InSomeBetween(Some(hi), notBetweens)
       && InSomeBetween(Some((lo + hi) / 2.0), notBetweens)
  }

  // ----- the rules -----

  /** The constraints of a field by operator; LIKE, REGEXP and CONTAINS take part in no rule here. */
  datatype Groups = Groups(eqs: seq<Constraint>, neqs: seq<Constraint>, ranges: seq<Constraint>, ins: seq<Constraint>,
                           notIns: seq<Constraint>, exists_: seq<Constraint>, notExists: seq<Constraint>,
                           betweens: seq<Constraint>, notBetweens: seq<Constraint>)

  function GroupsOf(cs: seq<Constraint>): Groups {
    Groups(WithOp(cs, Eq), WithOp(cs, Neq), Ranges(cs), WithOp(cs, In), WithOp(cs, NotIn), WithOp(cs, Exists),
           WithOp(cs, NotExists), WithOp(cs, Between), WithOp(cs, NotBetween))
  }

  predicate SameText(values: seq<Constraint>, text: string) {
    exists i :: 0 <= i < |values| && ValueOf(values[i]).text == text
  }

  predicate SomeListHas(lists: seq<Constraint>, text: string) {
    exists i :: 0 <= i < |lists| && TextAmong(lists[i].values, text)
  }

  predicate SomeListLacks(lists: seq<Constraint>, text: string) {
    exists i :: 0 <= i < |lists| && !TextAmong(lists[i].values, text)
  }

  predicate OutsideRanges(value: Option<real>, ranges: seq<Constraint>) {
    value.Some? && !MeetsBounds(value.value, ranges)
  }

  /** The reports one equality gives rise to. */
  predicate EqualReport(field: Field, e: Operand, g: Groups, r: Report) {
    r.field == field
    && match r
       case EqualAndNotEqual(_, text) => text == e.text && SameText(g.neqs, text)
       case EqualInNotIn(_, text) => text == e.text && SomeListHas(g.notIns, text)
       case EqualNotInIn(_, text) => text == e.text && SomeListLacks(g.ins, text)
       case EqualOutsideRange(_, text) => text == e.text && OutsideRanges(e.num, g.ranges)
       case EqualOutsideBetween(_, text) => text == e.text && g.betweens != [] && !InSomeBetween(e.num, g.betweens)
       case EqualInNotBetween(_, text) => text == e.text && InSomeBetween(e.num, g.notBetweens)
       case _ => false
  }

  predicate DifferentTexts(eqs: seq<Constraint>) {
    exists i, j :: 0 <= i < |eqs| && 0 <= j < |eqs| && ValueOf(eqs[i]).text != ValueOf(eqs[j]).text
  }

  /** The texts an IN and a NOT IN list share, as the nested loops collect them. */
  function Overlap(values: seq<Operand>, others: seq<Operand>): seq<string> {
    if values == [] then []
    else Overlap(values[..|values| - 1], others) + Repeats(values[|values| - 1].text, others)
  }

  /** The text once for every operand that has it. */
  function Repeats(text: string, others: seq<Operand>): seq<string> {
    if others == [] then []
    else Repeats(text, others[..|others| - 1]) + (if others[|others| - 1].text == text then [text] else [])
  }

  predicate ListsOverlap(ins: seq<Constraint>, notIns: seq<Constraint>, overlap: seq<string>) {
    overlap != []
    && exists i, j :: 0 <= i < |ins| && 0 <= j < |notIns| && overlap == Overlap(ins[i].values, notIns[j].values)
  }

  /** The first operator that implies existence. */
  function FirstImplied(cs: seq<Constraint>): Option<Op> {
    if cs == [] then None
    else if ImpliesExistence(cs[0].op) then Some(cs[0].op)
    else FirstImplied(cs[1..])
  }

  predicate SomeExcluded(betweens: seq<Constraint>, notBetweens: seq<Constraint>) {
    notBetweens != [] && exists i :: 0 <= i < |betweens| && ThreePointsExcluded(betweens[i], notBetweens)
  }

  /** The reports that do not come from an equality alone. */
  ghost predicate OtherReport(field: Field, cs: seq<Constraint>, g: Groups, r: Report) {
    r.field == field
    && match r
       case MultipleEquals(_) => DifferentTexts(g.eqs)
       case InOverlapsNotIn(_, overlap) => ListsOverlap(g.ins, g.notIns, overlap)
       case ImpossibleRange(_) => forall x: real :: !MeetsBounds(x, g.ranges)
       case ExistsAndNotExists(_) => g.exists_ != [] && g.notExists != []
       case NotExistsButImplied(_, op) => g.notExists != [] && FirstImplied(cs) == Some(op)
       case BetweensDisjoint(_) => |g.betweens| >= 2 && forall x: real :: !InAllBetweens(x, g.betweens)
       case BetweenExcluded(_) => SomeExcluded(g.betweens, g.notBetweens)
       case _ => false
  }

  ghost predicate SomeEqualReport(field: Field, g: Groups, r: Report) {
    exists i :: 0 <= i < |g.eqs| && EqualReport(field, ValueOf(g.eqs[i]), g, r)
  }

  /** Which reports the constraints of a field give rise to. */
  ghost predicate IsReport(field: Field, cs: seq<Constraint>, r: Report) {
    SomeEqualReport(field, GroupsOf(cs), r) || OtherReport(field, cs, GroupsOf(cs), r)
  }
}
