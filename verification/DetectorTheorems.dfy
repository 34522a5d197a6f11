/** What the detector's reports say about a filter, and what its traversal keeps. */
module DetectorTheorems {
  import opened Options
  import opened FilterTree
  import opened FieldRules
  import opened FieldMeaning
  import opened Detector

  // ----- traversal of any tree -----

  lemma {:induction false} BranchMembers(o: Or, n: nat, neg: bool, cs: Constraints, r: Report)
    requires n <= |o.ands|
    ensures r in BranchReports(o, n, neg, cs) <==> exists i :: 0 <= i < n && r in TraceAnd(o.ands[i], neg, cs).reports
  {
    if n > 0 {
      BranchMembers(o, n - 1, neg, cs, r);
    }
  }

  /** The branches of an OR do not see each other: their order changes neither the reports nor the
      constraints that are left. */
  lemma OrBranchesAreIndependent(o: Or, p: Or, neg: bool, cs: Constraints)
    requires |o.ands| == |p.ands| > 1
    requires forall a :: a in o.ands <==> a in p.ands
    ensures TraceOr(o, neg, cs).cs == TraceOr(p, neg, cs).cs == cs
    ensures forall r :: r in TraceOr(o, neg, cs).reports <==> r in TraceOr(p, neg, cs).reports
  {
    forall r ensures r in TraceOr(o, neg, cs).reports <==> r in TraceOr(p, neg, cs).reports {
      BranchMembers(o, |o.ands|, neg, cs, r);
      BranchMembers(p, |p.ands|, neg, cs, r);
      if i :| 0 <= i < |o.ands| && r in TraceAnd(o.ands[i], neg, cs).reports {
        assert o.ands[i] in p.ands;
      }
      if i :| 0 <= i < |p.ands| && r in TraceAnd(p.ands[i], neg, cs).reports {
        assert p.ands[i] in o.ands;
      }
    }
  }

  /** The opposite of a comparison, as a comparison of the same kind. */
  function Flipped(c: Comparison): Comparison {
    match c
    case Existence(field, not) => Existence(field, !not)
    case InList(field, values) => NotInList(field, values)
    case NotInList(field, values) => InList(field, values)
    case Range(field, not, lo, hi) => Range(field, !not, lo, hi)
    case Plain(field, token, not, value) =>
      match token
      case TEquals => Plain(field, TNotEquals, not, value)
      case TNotEquals => Plain(field, TEquals, not, value)
      case TLt => Plain(field, TGe, not, value)
      case TLe => Plain(field, TGt, not, value)
      case TGt => Plain(field, TLe, not, value)
      case TGe => Plain(field, TLt, not, value)
      case TLike => Plain(field, TNotLike, not, value)
      case TILike => Plain(field, TNotILike, not, value)
      case TNotLike => Plain(field, TLike, not, value)
      case TNotILike => Plain(field, TILike, not, value)
      case TRegexp => Plain(field, TRegexp, !not, value)
      case TContains => Plain(field, TContains, !not, value)
  }

  /** The tree with every NOT removed, and every comparison under an odd number of NOTs flipped;
      nots counts the NOTs around the tree. */
  function WithoutNotsOr(o: Or, nots: nat): Or
    decreases o, 1
  {
    Or(seq(|o.ands|, i requires 0 <= i < |o.ands| => WithoutNotsAnd(o.ands[i], nots)))
  }

  function WithoutNotsAnd(a: And, nots: nat): And
    decreases a, 1
  {
    And(seq(|a.unaries|, i requires 0 <= i < |a.unaries| => WithoutNotsUnary(a.unaries[i], nots)))
  }

  function WithoutNotsUnary(u: Unary, nots: nat): Unary
    decreases u, 1
  {
    Unary(false, WithoutNots(u.primary, if u.not then nots + 1 else nots))
  }

  function WithoutNots(p: Primary, nots: nat): Primary
    decreases p, 1
  {
    match p
    case Paren(o) => Paren(WithoutNotsOr(o, nots))
    case Compare(c) => Compare(if Odd(nots) then Flipped(c) else c)
    case Other(id) => p
  }

  predicate Odd(n: nat) {
    n % 2 == 1
  }

  /** The NOT context is the parity of the enclosing NOTs, in every tree: visiting it in some context
      adds and reports what visiting the tree without NOTs does. */
  lemma {:induction false} NotContextIsParity(o: Or, nots: nat, cs: Constraints)
    ensures TraceOr(o, Odd(nots), cs) == TraceOr(WithoutNotsOr(o, nots), false, cs)
    decreases o, |o.ands| + 1
  {
    if |o.ands| == 1 {
      ParityOfAnd(o.ands[0], |o.ands[0].unaries|, nots, cs);
    } else {
      ParityOfBranches(o, |o.ands|, nots, cs);
    }
  }

  lemma {:induction false} ParityOfBranches(o: Or, n: nat, nots: nat, cs: Constraints)
    requires n <= |o.ands|
    ensures BranchReports(o, n, Odd(nots), cs) == BranchReports(WithoutNotsOr(o, nots), n, false, cs)
    decreases o, n
  {
    if n > 0 {
      ParityOfBranches(o, n - 1, nots, cs);
      ParityOfAnd(o.ands[n - 1], |o.ands[n - 1].unaries|, nots, cs);
    }
  }

  lemma {:induction false} ParityOfAnd(a: And, n: nat, nots: nat, cs: Constraints)
    requires n <= |a.unaries|
    ensures TraceUnaries(a, n, Odd(nots), cs) == TraceUnaries(WithoutNotsAnd(a, nots), n, false, cs)
    decreases a, n
  {
    if n > 0 {
      ParityOfAnd(a, n - 1, nots, cs);
      ParityOfUnary(a.unaries[n - 1], nots, TraceUnaries(a, n - 1, Odd(nots), cs).cs);
    }
  }

  lemma {:induction false} ParityOfUnary(u: Unary, nots: nat, cs: Constraints)
    ensures TraceUnary(u, Odd(nots), cs) == TraceUnary(WithoutNotsUnary(u, nots), false, cs)
    decreases u, 0
  {
    var inside := if u.not then nots + 1 else nots;
    assert Odd(inside) == if u.not then !Odd(nots) else Odd(nots);
    match u.primary
    case Paren(o) => NotContextIsParity(o, inside, cs);
    case Compare(c) => FlippedIsNegated(c);
    case Other(_) =>
  }

  lemma FlippedIsNegated(c: Comparison)
    ensures ConstraintOf(c, true) == ConstraintOf(Flipped(c), false)
    ensures Flipped(c).field == c.field && (Flipped(c).Plain? <==> c.Plain?)
  {
  }

  /** A bound, which an absent field satisfies neither as it is nor negated. */
  predicate IsBound(c: Comparison) {
    c.Plain? && (c.token == TLt || c.token == TLe || c.token == TGt || c.token == TGe)
  }

  /** The flipped comparison says the opposite, on the same operands, except of a bound on an absent field. */
  lemma FlippedIsOpposite(c: Comparison, v: Option<real>)
    requires Understood(c)
    ensures Understood(Flipped(c)) && OperandsOf(Flipped(c)) == OperandsOf(c) && Flipped(Flipped(c)) == c
    ensures (Means(Flipped(c), v) <==> !Means(c, v)) <==> v.Some? || !IsBound(c)
  {
  }

  // ----- filters without NOT and OR as lists of comparisons -----

  function LeavesOr(o: Or): seq<Comparison>
    decreases o, |o.ands| + 1
  {
    if |o.ands| == 1 then LeavesAnd(o.ands[0]) else []
  }

  function LeavesAnd(a: And): seq<Comparison>
    decreases a, |a.unaries| + 1
  {
    LeavesUpTo(a, |a.unaries|)
  }

  function LeavesUpTo(a: And, n: nat): seq<Comparison>
    requires n <= |a.unaries|
    decreases a, n
  {
    if n == 0 then [] else LeavesUpTo(a, n - 1) + LeavesUnary(a.unaries[n - 1])
  }

  function LeavesUnary(u: Unary): seq<Comparison>
    decreases u, 0
  {
    match u.primary
    case Paren(o) => LeavesOr(o)
    case Compare(c) => [c]
    case Other(_) => []
  }

  /** The constraint set after the comparisons have been added one by one. */
  function AddAll(cs: Constraints, ls: seq<Comparison>): Constraints {
    if ls == [] then cs
    else
      var l := ls[|ls| - 1];
      Added(AddAll(cs, ls[..|ls| - 1]), l.field, BaseConstraint(l))
  }

  lemma {:induction false} AddAllConcat(cs: Constraints, a: seq<Comparison>, b: seq<Comparison>)
    ensures AddAll(cs, a + b) == AddAll(AddAll(cs, a), b)
  {
    if b == [] {
      assert a + b == a;
    } else {
      var m := |b| - 1;
      assert (a + b)[..|a + b| - 1] == a + b[..m];
      AddAllConcat(cs, a, b[..m]);
    }
  }

  /** A report made during a visit: after some comparison that is followed by a check, the comparisons
      so far are reported. */
  ghost predicate ReportedAt(cs: Constraints, ls: seq<Comparison>, r: Report) {
    exists k: nat :: ReportedAfter(cs, ls, k, r)
  }

  ghost predicate ReportedAfter(cs: Constraints, ls: seq<Comparison>, k: nat, r: Report) {
    0 < k <= |ls| && ls[k - 1].Plain? && Reported(AddAll(cs, ls[..k]), r)
  }

  /** The visit leaves all the comparisons in the set, and makes exactly those reports. */
  ghost predicate TracesLeaves(t: Trace, cs: Constraints, ls: seq<Comparison>) {
    t.cs == AddAll(cs, ls) && forall r :: r in t.reports <==> ReportedAt(cs, ls, r)
  }

  lemma ReportedInFirst(cs: Constraints, a: seq<Comparison>, b: seq<Comparison>, k: nat, r: Report)
    requires k <= |a|
    ensures ReportedAfter(cs, a + b, k, r) <==> ReportedAfter(cs, a, k, r)
    ensures ReportedAfter(cs, a + b, k, r) ==> ReportedAt(cs, a, r) && ReportedAt(cs, a + b, r)
  {
    assert (a + b)[..k] == a[..k];
  }

  lemma ReportedInSecond(cs: Constraints, a: seq<Comparison>, b: seq<Comparison>, k: nat, r: Report)
    requires 0 < k <= |b|
    ensures ReportedAfter(cs, a + b, |a| + k, r) <==> ReportedAfter(AddAll(cs, a), b, k, r)
    ensures ReportedAfter(AddAll(cs, a), b, k, r) ==> ReportedAt(AddAll(cs, a), b, r) && ReportedAt(cs, a + b, r)
  {
    assert (a + b)[..|a| + k] == a + b[..k];
    AddAllConcat(cs, a, b[..k]);
  }

  lemma CheckIndex(cs: Constraints, ls: seq<Comparison>, r: Report) returns (k: nat)
    requires ReportedAt(cs, ls, r)
    ensures 0 < k <= |ls| && ReportedAfter(cs, ls, k, r)
  {
    k :| ReportedAfter(cs, ls, k, r);
  }

  lemma ReportedInOne(cs: Constraints, a: seq<Comparison>, b: seq<Comparison>, r: Report)
    requires ReportedAt(cs, a + b, r)
    ensures ReportedAt(cs, a, r) || ReportedAt(AddAll(cs, a), b, r)
  {
    var k := CheckIndex(cs, a + b, r);
    if k <= |a| {
      ReportedInFirst(cs, a, b, k, r);
    } else {
      ReportedInSecond(cs, a, b, k - |a|, r);
    }
  }

  lemma ReportedInEither(cs: Constraints, a: seq<Comparison>, b: seq<Comparison>, r: Report)
    ensures ReportedAt(cs, a + b, r) <==> ReportedAt(cs, a, r) || ReportedAt(AddAll(cs, a), b, r)
  {
    if ReportedAt(cs, a + b, r) {
      ReportedInOne(cs, a, b, r);
    } else if ReportedAt(cs, a, r) {
      var k := CheckIndex(cs, a, r);
      ReportedInFirst(cs, a, b, k, r);
    } else if ReportedAt(AddAll(cs, a), b, r) {
      var k := CheckIndex(AddAll(cs, a), b, r);
      ReportedInSecond(cs, a, b, k, r);
    }
  }

  lemma {:induction false} OrTracesLeaves(o: Or, cs: Constraints)
    requires PlainOr(o)
    ensures TracesLeaves(TraceOr(o, false, cs), cs, LeavesOr(o))
    decreases o, |o.ands| + 1
  {
    AndTracesLeaves(o.ands[0], |o.ands[0].unaries|, cs);
  }

  lemma {:induction false} AndTracesLeaves(a: And, n: nat, cs: Constraints)
    requires PlainAnd(a) && n <= |a.unaries|
    ensures TracesLeaves(TraceUnaries(a, n, false, cs), cs, LeavesUpTo(a, n))
    decreases a, n
  {
    if n == 0 {
      assert LeavesUpTo(a, 0) == [];
    } else {
      AndTracesLeaves(a, n - 1, cs);
      UnaryTracesLeaves(a.unaries[n - 1], AddAll(cs, LeavesUpTo(a, n - 1)));
      OneMoreUnary(a, n, cs);
    }
  }

  lemma OneMoreUnary(a: And, n: nat, cs: Constraints)
    requires 0 < n <= |a.unaries|
    requires TracesLeaves(TraceUnaries(a, n - 1, false, cs), cs, LeavesUpTo(a, n - 1))
    requires var between := AddAll(cs, LeavesUpTo(a, n - 1));
             TracesLeaves(TraceUnary(a.unaries[n - 1], false, between), between, LeavesUnary(a.unaries[n - 1]))
    ensures TracesLeaves(TraceUnaries(a, n, false, cs), cs, LeavesUpTo(a, n))
  {
    var first := TraceUnaries(a, n - 1, false, cs);
    JoinTraces(cs, LeavesUpTo(a, n - 1), LeavesUnary(a.unaries[n - 1]), first, TraceUnary(a.unaries[n - 1], false, first.cs));
  }

  lemma JoinTraces(cs: Constraints, a: seq<Comparison>, b: seq<Comparison>, first: Trace, second: Trace)
    requires TracesLeaves(first, cs, a) && TracesLeaves(second, AddAll(cs, a), b)
    ensures TracesLeaves(Trace(second.cs, first.reports + second.reports), cs, a + b)
  {
    AddAllConcat(cs, a, b);
    forall r ensures r in first.reports + second.reports <==> ReportedAt(cs, a + b, r) {
      ReportedInEither(cs, a, b, r);
    }
  }

  lemma {:induction false} UnaryTracesLeaves(u: Unary, cs: Constraints)
    requires PlainUnary(u)
    ensures TracesLeaves(TraceUnary(u, false, cs), cs, LeavesUnary(u))
    decreases u, 0
  {
    match u.primary
    case Paren(o) => OrTracesLeaves(o, cs);
    case Compare(c) => OneComparison(c, cs);
    case Other(_) =>
  }

  lemma OneComparison(c: Comparison, cs: Constraints)
    ensures TracesLeaves(TraceComparison(c, false, cs), cs, [c])
  {
    assert [c][..0] == [] && [c][..1] == [c];
    assert AddAll(cs, [c]) == Added(cs, c.field, BaseConstraint(c));
    forall r ensures c.Plain? && Reported(AddAll(cs, [c]), r) <==> ReportedAt(cs, [c], r) {
      assert ReportedAfter(cs, [c], 1, r) <==> c.Plain? && Reported(AddAll(cs, [c]), r);
    }
  }

  /** What is reported of a filter: what is reported after one of the comparisons that are followed by
      a check, or at the end. */
  lemma FilterReports(o: Or, r: Report)
    requires PlainOr(o)
    ensures r in AllReports(o) <==> ReportedAt(map[], LeavesOr(o), r) || Reported(AddAll(map[], LeavesOr(o)), r)
  {
    OrTracesLeaves(o, map[]);
  }

  /** A report of a filter is one of its first comparisons. */
  lemma ReportsComeFromPrefixes(o: Or, r: Report) returns (k: nat)
    requires PlainOr(o) && r in AllReports(o)
    ensures k <= |LeavesOr(o)| && Reported(AddAll(map[], LeavesOr(o)[..k]), r)
  {
    FilterReports(o, r);
    k := |LeavesOr(o)|;
    if ReportedAt(map[], LeavesOr(o), r) {
      k := ReportedSomewhere(map[], LeavesOr(o), r);
    } else {
      TakeAll(LeavesOr(o));
    }
  }

  lemma ReportedSomewhere(cs: Constraints, ls: seq<Comparison>, r: Report) returns (k: nat)
    requires ReportedAt(cs, ls, r)
    ensures k <= |ls| && Reported(AddAll(cs, ls[..k]), r)
  {
    k :| ReportedAfter(cs, ls, k, r);
  }

  lemma TakeAll<T>(s: seq<T>)
    ensures s[..|s|] == s
  {
  }

  /** An OR of several branches leaves the constraints as they were, and reports what each branch is
      reported for when it is joined to them: only after comparisons that are followed by a check. */
  lemma BranchesAreJoined(o: Or, cs: Constraints, r: Report)
    requires |o.ands| != 1 && forall i :: 0 <= i < |o.ands| ==> PlainAnd(o.ands[i])
    ensures TraceOr(o, false, cs).cs == cs
    ensures r in TraceOr(o, false, cs).reports <==> exists i :: 0 <= i < |o.ands| && ReportedAt(cs, LeavesAnd(o.ands[i]), r)
  {
    BranchMembers(o, |o.ands|, false, cs, r);
    forall i | 0 <= i < |o.ands|
      ensures r in TraceAnd(o.ands[i], false, cs).reports <==> ReportedAt(cs, LeavesAnd(o.ands[i]), r)
    {
      AndTracesLeaves(o.ands[i], |o.ands[i].unaries|, cs);
    }
  }

  // ----- meaning of the list -----

  /** The row satisfies every comparison, each as it is written. */
  ghost predicate LeavesHold(ls: seq<Comparison>, row: Row)
    requires NumericLeaves(ls)
  {
    forall l :: l in ls ==> Means(l, Lookup(row, l.field))
  }

  ghost predicate NumericLeaves(ls: seq<Comparison>) {
    forall l :: l in ls ==> Understood(l)
  }

  /** No part of the filter is ignored by the detector. */
  predicate NothingIgnoredOr(o: Or) {
    forall i :: 0 <= i < |o.ands| ==> forall j :: 0 <= j < |o.ands[i].unaries| ==> NothingIgnored(o.ands[i].unaries[j])
  }

  predicate NothingIgnored(u: Unary) {
    match u.primary
    case Paren(o) => NothingIgnoredOr(o)
    case Compare(_) => true
    case Other(_) => false
  }

  lemma {:induction false} EvalOrIsLeaves(o: Or, row: Row, oracle: (nat, Row) -> bool)
    requires PlainOr(o)
    ensures NumericLeaves(LeavesOr(o))
    ensures EvalOr(o, row, oracle) ==> LeavesHold(LeavesOr(o), row)
    ensures NothingIgnoredOr(o) && LeavesHold(LeavesOr(o), row) ==> EvalOr(o, row, oracle)
    decreases o, |o.ands| + 1
  {
    var a := o.ands[0];
    EvalAndIsLeaves(a, |a.unaries|, row, oracle);
    assert LeavesOr(o) == LeavesAnd(a) == LeavesUpTo(a, |a.unaries|);
    assert EvalOr(o, row, oracle) == EvalAnd(a, row, oracle);
    assert EvalAnd(a, row, oracle) <==> forall i :: 0 <= i < |a.unaries| ==> EvalUnary(a.unaries[i], row, oracle);
    assert NothingIgnoredOr(o) ==> forall i :: 0 <= i < |a.unaries| ==> NothingIgnored(a.unaries[i]);
  }

  predicate FirstHold(a: And, n: nat, row: Row, oracle: (nat, Row) -> bool)
    requires PlainAnd(a) && n <= |a.unaries|
  {
    forall i :: 0 <= i < n ==> EvalUnary(a.unaries[i], row, oracle)
  }

  lemma OneMoreHolds(a: And, n: nat, row: Row, oracle: (nat, Row) -> bool)
    requires PlainAnd(a) && 0 < n <= |a.unaries|
    ensures FirstHold(a, n, row, oracle) <==> FirstHold(a, n - 1, row, oracle) && EvalUnary(a.unaries[n - 1], row, oracle)
  {
  }

  lemma {:induction false} EvalAndIsLeaves(a: And, n: nat, row: Row, oracle: (nat, Row) -> bool)
    requires PlainAnd(a) && n <= |a.unaries|
    ensures NumericLeaves(LeavesUpTo(a, n))
    ensures FirstHold(a, n, row, oracle) ==> LeavesHold(LeavesUpTo(a, n), row)
    ensures (forall i :: 0 <= i < n ==> NothingIgnored(a.unaries[i])) && LeavesHold(LeavesUpTo(a, n), row)
            ==> FirstHold(a, n, row, oracle)
    decreases a, n
  {
    if n > 0 {
      EvalAndIsLeaves(a, n - 1, row, oracle);
      EvalUnaryIsLeaves(a.unaries[n - 1], row, oracle);
      OneMoreEval(a, n, row, oracle);
      OneMoreHolds(a, n, row, oracle);
    }
  }

  lemma OneMoreEval(a: And, n: nat, row: Row, oracle: (nat, Row) -> bool)
    requires 0 < n <= |a.unaries|
    requires NumericLeaves(LeavesUpTo(a, n - 1)) && NumericLeaves(LeavesUnary(a.unaries[n - 1]))
    ensures NumericLeaves(LeavesUpTo(a, n))
    ensures LeavesHold(LeavesUpTo(a, n), row) <==> LeavesHold(LeavesUpTo(a, n - 1), row) && LeavesHold(LeavesUnary(a.unaries[n - 1]), row)
  {
    HoldTogether(LeavesUpTo(a, n - 1), LeavesUnary(a.unaries[n - 1]), row);
  }

  lemma HoldTogether(a: seq<Comparison>, b: seq<Comparison>, row: Row)
    requires NumericLeaves(a) && NumericLeaves(b)
    ensures NumericLeaves(a + b)
    ensures LeavesHold(a + b, row) <==> LeavesHold(a, row) && LeavesHold(b, row)
  {
    assert forall l :: l in a + b <==> l in a || l in b;
  }

  lemma {:induction false} EvalUnaryIsLeaves(u: Unary, row: Row, oracle: (nat, Row) -> bool)
    requires PlainUnary(u)
    ensures NumericLeaves(LeavesUnary(u))
    ensures EvalUnary(u, row, oracle) ==> LeavesHold(LeavesUnary(u), row)
    ensures NothingIgnored(u) && LeavesHold(LeavesUnary(u), row) ==> EvalUnary(u, row, oracle)
    decreases u, 0
  {
    match u.primary
    case Paren(o) => EvalOrIsLeaves(o, row, oracle);
    case Compare(c) =>
    case Other(_) =>
  }

  /** A constraint of a field comes from a comparison of it, or is the EXISTS that one implies. */
  ghost predicate ComesFrom(l: Comparison, field: Field, c: Constraint) {
    l.field == field && (c == BaseConstraint(l) || (ImpliesExistence(BaseConstraint(l).op) && c == Constraint(Exists, [])))
  }

  ghost predicate SomeSource(ls: seq<Comparison>, field: Field, c: Constraint) {
    exists l :: l in ls && ComesFrom(l, field, c)
  }

  lemma SourceExtends(ls: seq<Comparison>, l: Comparison, field: Field, c: Constraint)
    ensures SomeSource(ls + [l], field, c) <==> SomeSource(ls, field, c) || ComesFrom(l, field, c)
  {
    assert l in ls + [l];
    assert forall x :: x in ls ==> x in ls + [l];
  }

  lemma {:induction false} CollectedMembers(ls: seq<Comparison>, field: Field, c: Constraint)
    ensures c in OfField(AddAll(map[], ls), field) <==> SomeSource(ls, field, c)
  {
    if ls != [] {
      var n := |ls| - 1;
      CollectedMembers(ls[..n], field, c);
      SourceExtends(ls[..n], ls[n], field, c);
      assert ls == ls[..n] + [ls[n]];
      AddedMembers(AddAll(map[], ls[..n]), ls[n], field, c);
    }
  }

  lemma AddedMembers(cs: Constraints, l: Comparison, field: Field, c: Constraint)
    ensures c in OfField(Added(cs, l.field, BaseConstraint(l)), field) <==> c in OfField(cs, field) || ComesFrom(l, field, c)
  {
  }

  // ----- the conditions on spellings -----

  function OperandsOf(c: Comparison): seq<Operand> {
    match c
    case Existence(_, _) => []
    case InList(_, values) => values
    case NotInList(_, values) => values
    case Range(_, _, lo, hi) => [lo, hi]
    case Plain(_, _, _, value) => [value]
  }

  predicate IsEquality(c: Comparison) {
    c.Plain? && c.token == TEquals
  }

  /** The kinds of comparison the rules look at, and the constraints drawn from them. */
  lemma KindsOfConstraints(c: Comparison)
    ensures BaseConstraint(c).values == OperandsOf(c)
    ensures BaseConstraint(c).op == Eq <==> IsEquality(c)
    ensures BaseConstraint(c).op == In <==> c.InList?
    ensures BaseConstraint(c).op == NotIn <==> c.NotInList?
    ensures BaseConstraint(c).op == Between <==> c.Range? && !c.not
    ensures BaseConstraint(c).op == NotBetween <==> c.Range? && c.not
  {
  }

  ghost predicate LeafOperand(ls: seq<Comparison>, field: Field, o: Operand) {
    exists l :: l in ls && l.field == field && o in OperandsOf(l)
  }

  /** Within a field a text stands for one number. */
  ghost predicate OneNumberPerText(ls: seq<Comparison>) {
    forall field, o, p :: LeafOperand(ls, field, o) && LeafOperand(ls, field, p) && o.text == p.text ==> o.num == p.num
  }

  ghost predicate EqualityLeaf(ls: seq<Comparison>, field: Field, o: Operand) {
    exists l :: l in ls && l.field == field && IsEquality(l) && l.value == o
  }

  /** A field is compared for equality with one number in two spellings. */
  ghost predicate EqualitySpelledTwice(ls: seq<Comparison>) {
    exists field, o, p :: EqualityLeaf(ls, field, o) && EqualityLeaf(ls, field, p) && o.num == p.num && o.text != p.text
  }

  /** An IN list of a field holds the number of an equality on it, but only in other spellings. */
  ghost predicate ListSpelledOtherwise(ls: seq<Comparison>, l: Comparison, o: Operand) {
    l in ls && l.InList? && EqualityLeaf(ls, l.field, o)
    && !TextAmong(l.values, o.text) && exists p :: p in l.values && p.num == o.num
  }

  /** The comparisons of a filter that the detector misunderstands. */
  ghost predicate MisspelledLeaves(ls: seq<Comparison>) {
    EqualitySpelledTwice(ls) || exists l, o :: ListSpelledOtherwise(ls, l, o)
  }

  /** An IN and a NOT IN list of a field share a text. */
  ghost predicate LeavesShare(ls: seq<Comparison>, l: Comparison, m: Comparison) {
    l in ls && m in ls && l.field == m.field && l.InList? && m.NotInList?
    && exists o, p :: o in l.values && p in m.values && o.text == p.text
  }

  /** A NOT BETWEEN on the field excludes the number. */
  ghost predicate LeavesExclude(ls: seq<Comparison>, field: Field, x: real)
    requires NumericLeaves(ls)
  {
    exists m :: m in ls && m.field == field && m.Range? && m.not && !Means(m, Some(x))
  }

  /** Both ends and the middle of a BETWEEN are excluded. */
  ghost predicate LeafExcluded(ls: seq<Comparison>, l: Comparison)
    requires NumericLeaves(ls)
  {
    l in ls && l.Range? && !l.not
    && var lo, hi := l.lo.num.value, l.hi.num.value;
       LeavesExclude(ls, l.field, lo) && LeavesExclude(ls, l.field, hi) && LeavesExclude(ls, l.field, (lo + hi) / 2.0)
  }

  /** The comparisons on which the detector judges without being sure. */
  ghost predicate GuessedLeaves(ls: seq<Comparison>)
    requires NumericLeaves(ls)
  {
    (exists l, m :: LeavesShare(ls, l, m)) || exists l :: LeafExcluded(ls, l)
  }

  lemma OperandsAreLeafOperands(ls: seq<Comparison>, field: Field, o: Operand)
    requires HasOperand(OfField(AddAll(map[], ls), field), o)
    ensures LeafOperand(ls, field, o)
  {
    var c :| c in OfField(AddAll(map[], ls), field) && o in c.values;
    CollectedMembers(ls, field, c);
    var l :| l in ls && ComesFrom(l, field, c);
    KindsOfConstraints(l);
  }

  lemma EqualitiesAreLeaves(ls: seq<Comparison>, field: Field, o: Operand)
    ensures EqOperand(OfField(AddAll(map[], ls), field), o) <==> EqualityLeaf(ls, field, o)
  {
    var cs := OfField(AddAll(map[], ls), field);
    CollectedMembers(ls, field, Constraint(Eq, [o]));
    if EqOperand(cs, o) {
      var c :| c in cs && c.op == Eq && c.values == [o];
      assert c == Constraint(Eq, [o]);
      var l :| l in ls && ComesFrom(l, field, c);
      KindsOfConstraints(l);
    }
    if EqualityLeaf(ls, field, o) {
      var l :| l in ls && l.field == field && IsEquality(l) && l.value == o;
      KindsOfConstraints(l);
      assert ComesFrom(l, field, Constraint(Eq, [o]));
    }
  }

  /** A constraint other than EXISTS is that of some comparison. */
  lemma SourceOf(ls: seq<Comparison>, field: Field, c: Constraint) returns (l: Comparison)
    requires c in OfField(AddAll(map[], ls), field) && c.op != Exists
    ensures l in ls && l.field == field && BaseConstraint(l) == c
  {
    CollectedMembers(ls, field, c);
    l :| l in ls && ComesFrom(l, field, c);
  }

  lemma Collected(ls: seq<Comparison>, l: Comparison)
    requires l in ls
    ensures BaseConstraint(l) in OfField(AddAll(map[], ls), l.field)
  {
    assert ComesFrom(l, l.field, BaseConstraint(l));
    CollectedMembers(ls, l.field, BaseConstraint(l));
  }

  lemma ExclusionIsLeaves(ls: seq<Comparison>, field: Field, x: real)
    requires NumericLeaves(ls) && AllNumeric(OfField(AddAll(map[], ls), field))
    ensures Excluded(OfField(AddAll(map[], ls), field), x) <==> LeavesExclude(ls, field, x)
  {
    var cs := OfField(AddAll(map[], ls), field);
    if Excluded(cs, x) {
      var d :| d in cs && d.op == NotBetween && Spans(d, x);
      var m := SourceOf(ls, field, d);
      ExcludesIsSpans(m, x);
    }
    if LeavesExclude(ls, field, x) {
      var m :| m in ls && m.field == field && m.Range? && m.not && !Means(m, Some(x));
      Collected(ls, m);
      ExcludesIsSpans(m, x);
    }
  }

  lemma ExcludesIsSpans(m: Comparison, x: real)
    requires Understood(m)
    ensures BaseConstraint(m).op == NotBetween <==> m.Range? && m.not
    ensures m.Range? && m.not ==> (Spans(BaseConstraint(m), x) <==> !Means(m, Some(x)))
  {
  }

  lemma RangeIsLeaf(ls: seq<Comparison>, l: Comparison)
    requires NumericLeaves(ls) && AllNumeric(OfField(AddAll(map[], ls), l.field))
    requires l in ls && l.Range? && !l.not
    ensures BaseConstraint(l) in OfField(AddAll(map[], ls), l.field)
    ensures RangeExcluded(OfField(AddAll(map[], ls), l.field), BaseConstraint(l)) <==> LeafExcluded(ls, l)
  {
    Collected(ls, l);
    var lo, hi := l.lo.num.value, l.hi.num.value;
    ExclusionIsLeaves(ls, l.field, lo);
    ExclusionIsLeaves(ls, l.field, hi);
    ExclusionIsLeaves(ls, l.field, (lo + hi) / 2.0);
  }

  /** What is unsure on a field is unsure in the filter. */
  lemma GuessedFieldIsLeaves(ls: seq<Comparison>, field: Field)
    requires NumericLeaves(ls) && AllNumeric(OfField(AddAll(map[], ls), field))
    requires Guessed(OfField(AddAll(map[], ls), field))
    ensures GuessedLeaves(ls)
  {
    var cs := OfField(AddAll(map[], ls), field);
    if c, d, o, p :| ShareText(cs, c, d, o, p) {
      var l := SourceOf(ls, field, c);
      var m := SourceOf(ls, field, d);
      KindsOfConstraints(l);
      KindsOfConstraints(m);
      assert LeavesShare(ls, l, m);
    } else {
      var b :| b in cs && b.op == Between && RangeExcluded(cs, b);
      var l := SourceOf(ls, field, b);
      KindsOfConstraints(l);
      RangeIsLeaf(ls, l);
    }
  }

  /** Conversely, comparisons on which the detector is unsure make a field unsure, with two constraints. */
  lemma GuessedLeavesAreField(ls: seq<Comparison>) returns (field: Field)
    requires NumericLeaves(ls) && GuessedLeaves(ls)
    requires forall f :: AllNumeric(OfField(AddAll(map[], ls), f))
    ensures var cs := OfField(AddAll(map[], ls), field); Guessed(cs) && |cs| >= 2
  {
    if l, m :| LeavesShare(ls, l, m) {
      field := l.field;
      SharingLeaves(ls, l, m);
    } else {
      var l :| LeafExcluded(ls, l);
      field := l.field;
      ExcludedLeaf(ls, l);
    }
  }

  lemma SharingLeaves(ls: seq<Comparison>, l: Comparison, m: Comparison)
    requires LeavesShare(ls, l, m)
    ensures var cs := OfField(AddAll(map[], ls), l.field); ListsShare(cs) && |cs| >= 2
  {
    var cs := OfField(AddAll(map[], ls), l.field);
    Collected(ls, l);
    Collected(ls, m);
    KindsOfConstraints(l);
    KindsOfConstraints(m);
    var o, p :| o in l.values && p in m.values && o.text == p.text;
    assert ShareText(cs, BaseConstraint(l), BaseConstraint(m), o, p);
    TwoMembers(cs, BaseConstraint(l), BaseConstraint(m));
  }

  lemma ExcludedLeaf(ls: seq<Comparison>, l: Comparison)
    requires NumericLeaves(ls) && LeafExcluded(ls, l)
    requires AllNumeric(OfField(AddAll(map[], ls), l.field))
    ensures var cs := OfField(AddAll(map[], ls), l.field); EndsExcluded(cs) && |cs| >= 2
  {
    var cs := OfField(AddAll(map[], ls), l.field);
    RangeIsLeaf(ls, l);
    KindsOfConstraints(l);
    var d :| d in cs && d.op == NotBetween && Spans(d, l.lo.num.value);
    TwoMembers(cs, BaseConstraint(l), d);
  }

  lemma TwoMembers<T>(cs: seq<T>, c: T, d: T)
    requires c in cs && d in cs && c != d
    ensures |cs| >= 2
  {
    var i :| 0 <= i < |cs| && cs[i] == c;
    var j :| 0 <= j < |cs| && cs[j] == d;
    assert i != j;
  }

  /** Misspelled constraints of a field come from misspelled comparisons. */
  lemma MisspelledFieldIsLeaves(ls: seq<Comparison>, field: Field)
    requires Misspelled(OfField(AddAll(map[], ls), field))
    ensures MisspelledLeaves(ls)
  {
    var cs := OfField(AddAll(map[], ls), field);
    if TwoSpellings(cs) {
      var o, p :| EqOperand(cs, o) && EqOperand(cs, p) && o.num == p.num && o.text != p.text;
      EqualitiesAreLeaves(ls, field, o);
      EqualitiesAreLeaves(ls, field, p);
    } else {
      var o, c :| ListSpellsOtherwise(cs, o, c);
      var l := ListOfField(ls, field, o, c);
    }
  }

  lemma ListOfField(ls: seq<Comparison>, field: Field, o: Operand, c: Constraint) returns (l: Comparison)
    requires ListSpellsOtherwise(OfField(AddAll(map[], ls), field), o, c)
    ensures ListSpelledOtherwise(ls, l, o)
  {
    EqualitiesAreLeaves(ls, field, o);
    l := SourceOf(ls, field, c);
    KindsOfConstraints(l);
  }

  /** Conversely, misspelled comparisons make a field misspelled, which then has two constraints. */
  lemma MisspelledLeavesAreField(ls: seq<Comparison>) returns (field: Field)
    requires MisspelledLeaves(ls)
    ensures var cs := OfField(AddAll(map[], ls), field); Misspelled(cs) && |cs| >= 2
  {
    var all := AddAll(map[], ls);
    if EqualitySpelledTwice(ls) {
      var f, o, p :| EqualityLeaf(ls, f, o) && EqualityLeaf(ls, f, p) && o.num == p.num && o.text != p.text;
      field := f;
      EqualitiesAreLeaves(ls, f, o);
      EqualitiesAreLeaves(ls, f, p);
      assert TwoSpellings(OfField(all, f));
      TwoEqualitiesAreTwo(OfField(all, f));
    } else {
      var l, o :| ListSpelledOtherwise(ls, l, o);
      field := l.field;
      EqualitiesAreLeaves(ls, field, o);
      Collected(ls, l);
      KindsOfConstraints(l);
      assert ListSpellsOtherwise(OfField(all, field), o, BaseConstraint(l));
      EqualityAndListAreTwo(OfField(all, field), o, BaseConstraint(l));
    }
  }

  lemma EqualityAndListAreTwo(cs: seq<Constraint>, o: Operand, c: Constraint)
    requires ListSpellsOtherwise(cs, o, c)
    ensures |cs| >= 2
  {
    var e :| e in cs && e.op == Eq && e.values == [o];
    TwoMembers(cs, e, c);
  }

  /** What the collected constraints of a field inherit from the comparisons. */
  lemma CollectedInherits(ls: seq<Comparison>, field: Field)
    requires NumericLeaves(ls)
    ensures var cs := OfField(AddAll(map[], ls), field);
            AllNumeric(cs)
            && (OneNumberPerText(ls) ==> Consistent(cs))
            && ((forall l :: l in ls ==> IsDecided(l)) ==> AllDecided(cs))
  {
    var cs := OfField(AddAll(map[], ls), field);
    forall c | c in cs ensures Numeric(c) && ((forall l :: l in ls ==> IsDecided(l)) ==> Decided(c.op)) {
      CollectedMembers(ls, field, c);
      var l :| l in ls && ComesFrom(l, field, c);
      ConstraintMeansComparison(l, None);
    }
    forall o | HasOperand(cs, o) ensures LeafOperand(ls, field, o) {
      OperandsAreLeafOperands(ls, field, o);
    }
  }

  /** Comparisons, of texts too, that no absent field satisfies; an inner NOT counts before REGEXP and
      CONTAINS, and not before LIKE and ILIKE. */
  predicate SaysPresent(c: Comparison) {
    match c
    case Existence(_, not) => !not
    case InList(_, _) => true
    case NotInList(_, _) => false
    case Range(_, not, _, _) => !not
    case Plain(_, token, not, _) =>
      if token == TRegexp || token == TContains then !not
      else token != TNotEquals && token != TNotLike && token != TNotILike
  }

  lemma PresenceIsImplied(c: Comparison)
    ensures BaseConstraint(c).op == Exists || ImpliesExistence(BaseConstraint(c).op) <==> SaysPresent(c)
    ensures BaseConstraint(c).op == Exists <==> c.Existence? && !c.not
    ensures BaseConstraint(c).op == NotExists <==> c.Existence? && c.not
    ensures c.Existence? ==> BaseConstraint(c).values == []
  {
  }

  /** A comparison of the field that says it is absent, and one that says it is there. */
  ghost predicate Absent(ls: seq<Comparison>, field: Field) {
    exists l :: l in ls && l.field == field && l.Existence? && l.not
  }

  ghost predicate Present(ls: seq<Comparison>, field: Field) {
    exists l :: l in ls && l.field == field && SaysPresent(l)
  }

  ghost predicate PresentByValue(ls: seq<Comparison>, field: Field) {
    exists l :: l in ls && l.field == field && SaysPresent(l) && !l.Existence?
  }

  lemma AbsentIsCollected(ls: seq<Comparison>, field: Field)
    ensures WithOp(OfField(AddAll(map[], ls), field), NotExists) != [] <==> Absent(ls, field)
  {
    var cs := OfField(AddAll(map[], ls), field);
    if WithOp(cs, NotExists) != [] {
      GroupMember(cs, NotExists, 0);
      var l := SourceOf(ls, field, WithOp(cs, NotExists)[0]);
      PresenceIsImplied(l);
    }
    if l :| l in ls && l.field == field && l.Existence? && l.not {
      Collected(ls, l);
      PresenceIsImplied(l);
      assert BaseConstraint(l) in WithOp(cs, NotExists);
    }
  }

  lemma PresentIsCollected(ls: seq<Comparison>, field: Field)
    ensures WithOp(OfField(AddAll(map[], ls), field), Exists) != [] <==> Present(ls, field)
  {
    var cs := OfField(AddAll(map[], ls), field);
    if WithOp(cs, Exists) != [] {
      GroupMember(cs, Exists, 0);
      CollectedMembers(ls, field, WithOp(cs, Exists)[0]);
      var l :| l in ls && ComesFrom(l, field, WithOp(cs, Exists)[0]);
      PresenceIsImplied(l);
    }
    if l :| l in ls && l.field == field && SaysPresent(l) {
      PresenceIsImplied(l);
      assert ComesFrom(l, field, Constraint(Exists, []));
      CollectedMembers(ls, field, Constraint(Exists, []));
      assert Constraint(Exists, []) in WithOp(cs, Exists);
    }
  }

  lemma ValueIsCollected(ls: seq<Comparison>, field: Field)
    ensures FirstImplied(OfField(AddAll(map[], ls), field)).Some? <==> PresentByValue(ls, field)
  {
    var cs := OfField(AddAll(map[], ls), field);
    if FirstImplied(cs).Some? {
      var c := ImpliedMember(cs, FirstImplied(cs).value);
      var l := SourceOf(ls, field, c);
      PresenceIsImplied(l);
    } else if l :| l in ls && l.field == field && SaysPresent(l) && !l.Existence? {
      Collected(ls, l);
      PresenceIsImplied(l);
      NothingImplied(cs, BaseConstraint(l));
    }
  }

  lemma AbsentAndPresent(ls: seq<Comparison>, field: Field)
    requires Absent(ls, field) && Present(ls, field)
    ensures |OfField(AddAll(map[], ls), field)| >= 2
  {
    var cs := OfField(AddAll(map[], ls), field);
    AbsentIsCollected(ls, field);
    PresentIsCollected(ls, field);
    GroupMember(cs, NotExists, 0);
    GroupMember(cs, Exists, 0);
    TwoMembers(cs, WithOp(cs, NotExists)[0], WithOp(cs, Exists)[0]);
  }

  lemma ReportedOnField(all: Constraints, field: Field, r: Report)
    requires r.ExistsAndNotExists? || r.NotExistsButImplied?
    requires r.field == field
    ensures Reported(all, r) <==> |OfField(all, field)| >= 2 && OtherReport(field, OfField(all, field), GroupsOf(OfField(all, field)), r)
  {
  }

  /** Whatever the comparisons are about: a field is reported for being absent and there exactly when
      one says the one and one says the other. */
  lemma AbsenceIsReported(ls: seq<Comparison>, field: Field)
    ensures Reported(AddAll(map[], ls), ExistsAndNotExists(field)) <==> Absent(ls, field) && Present(ls, field)
  {
    var all := AddAll(map[], ls);
    AbsentIsCollected(ls, field);
    PresentIsCollected(ls, field);
    if Absent(ls, field) && Present(ls, field) {
      AbsentAndPresent(ls, field);
    }
    ReportedOnField(all, field, ExistsAndNotExists(field));
    ExistenceReport(field, OfField(all, field), GroupsOf(OfField(all, field)));
  }

  /** And for a value it cannot have exactly when its value is compared although it is said to be absent. */
  lemma ValueOfAbsentIsReported(ls: seq<Comparison>, field: Field)
    ensures (exists op :: Reported(AddAll(map[], ls), NotExistsButImplied(field, op)))
            <==> Absent(ls, field) && PresentByValue(ls, field)
  {
    AbsentIsCollected(ls, field);
    ValueIsCollected(ls, field);
    if Absent(ls, field) && PresentByValue(ls, field) {
      assert Present(ls, field);
      AbsentAndPresent(ls, field);
      ImpliedIsReported(ls, field, FirstImplied(OfField(AddAll(map[], ls), field)).value);
    }
    if op :| Reported(AddAll(map[], ls), NotExistsButImplied(field, op)) {
      ImpliedIsReported(ls, field, op);
    }
  }

  lemma ImpliedIsReported(ls: seq<Comparison>, field: Field, op: Op)
    ensures var cs := OfField(AddAll(map[], ls), field);
            Reported(AddAll(map[], ls), NotExistsButImplied(field, op))
            <==> |cs| >= 2 && WithOp(cs, NotExists) != [] && FirstImplied(cs) == Some(op)
  {
    var cs := OfField(AddAll(map[], ls), field);
    ReportedOnField(AddAll(map[], ls), field, NotExistsButImplied(field, op));
    ImpliedReport(field, cs, GroupsOf(cs), op);
  }

  /** A row that satisfies the comparisons satisfies the constraints collected from them, and conversely. */
  lemma HoldingLeaves(ls: seq<Comparison>, row: Row)
    requires NumericLeaves(ls)
    ensures forall field :: AllNumeric(OfField(AddAll(map[], ls), field))
    ensures LeavesHold(ls, row) <==> forall field :: AllHold(OfField(AddAll(map[], ls), field), Lookup(row, field))
  {
    forall field ensures AllNumeric(OfField(AddAll(map[], ls), field)) {
      CollectedInherits(ls, field);
    }
    if LeavesHold(ls, row) {
      forall field ensures AllHold(OfField(AddAll(map[], ls), field), Lookup(row, field)) {
        forall c | c in OfField(AddAll(map[], ls), field) ensures Holds(c, Lookup(row, field)) {
          CollectedMembers(ls, field, c);
          var l :| l in ls && ComesFrom(l, field, c);
          ConstraintMeansComparison(l, Lookup(row, field));
        }
      }
    }
    if forall field :: AllHold(OfField(AddAll(map[], ls), field), Lookup(row, field)) {
      forall l | l in ls ensures Means(l, Lookup(row, l.field)) {
        Collected(ls, l);
        ConstraintMeansComparison(l, Lookup(row, l.field));
        assert AllHold(OfField(AddAll(map[], ls), l.field), Lookup(row, l.field));
      }
    }
  }

  lemma PrefixMembers(ls: seq<Comparison>, k: nat)
    requires k <= |ls|
    ensures forall l :: l in ls[..k] ==> l in ls
  {
  }

  /** Soundness: on filters built with AND from =, !=, the range operators, IN, NOT IN, BETWEEN, NOT
      BETWEEN, EXISTS and NOT EXISTS over numbers, neither misspelled nor guessed at, a report means
      that no row satisfies the filter, whatever the ignored parts mean. */
  lemma ReportMeansUnsatisfiable(o: Or, r: Report, row: Row, oracle: (nat, Row) -> bool)
    requires PlainOr(o) && r in AllReports(o)
    requires Undisputed(LeavesOr(o))
    ensures !EvalOr(o, row, oracle)
  {
    var ls := LeavesOr(o);
    var k := ReportsComeFromPrefixes(o, r);
    EvalOrIsLeaves(o, row, oracle);
    PrefixKeeps(ls, k);
    PrefixGuesses(ls, k);
    ReportedLeavesFail(ls[..k], r, row);
    PrefixMembers(ls, k);
  }

  /** A report of an OR after some comparisons means that they cannot be joined to one of its branches:
      no row satisfies both. */
  lemma ReportMeansDeadBranch(ls: seq<Comparison>, o: Or, r: Report) returns (i: nat)
    requires |o.ands| != 1 && forall i :: 0 <= i < |o.ands| ==> PlainAnd(o.ands[i])
    requires r in TraceOr(o, false, AddAll(map[], ls)).reports
    requires forall i :: 0 <= i < |o.ands| ==> Undisputed(Joined(ls, o.ands[i]))
    ensures i < |o.ands| && NumericLeaves(Joined(ls, o.ands[i])) && NoRowHolds(Joined(ls, o.ands[i]))
  {
    BranchesAreJoined(o, AddAll(map[], ls), r);
    i :| 0 <= i < |o.ands| && ReportedAt(AddAll(map[], ls), LeavesAnd(o.ands[i]), r);
    ReportedInEither(map[], ls, LeavesAnd(o.ands[i]), r);
    ReportedIsDead(Joined(ls, o.ands[i]), r);
  }

  function Joined(ls: seq<Comparison>, a: And): seq<Comparison> {
    ls + LeavesAnd(a)
  }

  lemma ReportedIsDead(ls: seq<Comparison>, r: Report)
    requires Undisputed(ls) && ReportedAt(map[], ls, r)
    ensures NoRowHolds(ls)
  {
    var k := ReportedSomewhere(map[], ls, r);
    PrefixKeeps(ls, k);
    PrefixGuesses(ls, k);
    PrefixMembers(ls, k);
    forall row: Row ensures !LeavesHold(ls, row) {
      ReportedLeavesFail(ls[..k], r, row);
    }
  }

  /** Comparisons of numbers that the detector neither misunderstands nor guesses at. */
  ghost predicate Undisputed(ls: seq<Comparison>) {
    NumericLeaves(ls) && OneNumberPerText(ls) && !MisspelledLeaves(ls) && !GuessedLeaves(ls)
  }

  /** Comparisons that are reported hold of no row. */
  lemma ReportedLeavesFail(ls: seq<Comparison>, r: Report, row: Row)
    requires Undisputed(ls)
    requires Reported(AddAll(map[], ls), r)
    ensures !LeavesHold(ls, row)
  {
    var field := ReportedField(AddAll(map[], ls), r);
    CollectedInherits(ls, field);
    if Misspelled(OfField(AddAll(map[], ls), field)) {
      MisspelledFieldIsLeaves(ls, field);
    }
    if Guessed(OfField(AddAll(map[], ls), field)) {
      GuessedFieldIsLeaves(ls, field);
    }
    ReportMeansNoValue(field, OfField(AddAll(map[], ls), field), r, Lookup(row, field));
    HoldingLeaves(ls, row);
  }

  lemma ReportedField(cs: Constraints, r: Report) returns (field: Field)
    requires Reported(cs, r)
    ensures field in cs && IsReport(field, cs[field], r)
  {
    field :| field in cs && |cs[field]| >= 2 && IsReport(field, cs[field], r);
  }

  lemma PrefixKeeps(ls: seq<Comparison>, k: nat)
    requires k <= |ls|
    ensures NumericLeaves(ls) ==> NumericLeaves(ls[..k])
    ensures OneNumberPerText(ls) ==> OneNumberPerText(ls[..k])
    ensures MisspelledLeaves(ls[..k]) ==> MisspelledLeaves(ls)
    ensures EqualitySpelledTwice(ls[..k]) ==> EqualitySpelledTwice(ls)
    ensures forall f, o :: LeafOperand(ls[..k], f, o) ==> LeafOperand(ls, f, o)
  {
    PrefixMembers(ls, k);
    forall f, o | LeafOperand(ls[..k], f, o) ensures LeafOperand(ls, f, o) {
      var l :| l in ls[..k] && l.field == f && o in OperandsOf(l);
      assert l in ls;
    }
    forall f, o | EqualityLeaf(ls[..k], f, o) ensures EqualityLeaf(ls, f, o) {
      var l :| l in ls[..k] && l.field == f && IsEquality(l) && l.value == o;
      assert l in ls;
    }
    forall l, o | ListSpelledOtherwise(ls[..k], l, o) ensures ListSpelledOtherwise(ls, l, o) {
    }
  }

  lemma PrefixGuesses(ls: seq<Comparison>, k: nat)
    requires k <= |ls| && NumericLeaves(ls) && NumericLeaves(ls[..k])
    ensures GuessedLeaves(ls[..k]) ==> GuessedLeaves(ls)
  {
    PrefixMembers(ls, k);
    if l, m :| LeavesShare(ls[..k], l, m) {
      assert LeavesShare(ls, l, m);
    }
    forall f, x | LeavesExclude(ls[..k], f, x) ensures LeavesExclude(ls, f, x) {
    }
    if l :| LeafExcluded(ls[..k], l) {
      assert LeafExcluded(ls, l);
    }
  }

  /** A filter of these operators that some row satisfies is reported exactly when it is misspelled or
      guessed at. */
  lemma FalseReportsExactly(o: Or, oracle: (nat, Row) -> bool)
    requires PlainOr(o) && NumericLeaves(LeavesOr(o)) && OneNumberPerText(LeavesOr(o)) && !Unsatisfiable(o, oracle)
    ensures (exists r :: r in AllReports(o)) <==> MisspelledLeaves(LeavesOr(o)) || GuessedLeaves(LeavesOr(o))
  {
    var ls := LeavesOr(o);
    if MisspelledLeaves(ls) || GuessedLeaves(ls) {
      var row :| EvalOr(o, row, oracle);
      EvalOrIsLeaves(o, row, oracle);
      var r := MistakeIsReported(ls, row);
      FilterReports(o, r);
    } else if r :| r in AllReports(o) {
      forall row ensures !EvalOr(o, row, oracle) {
        ReportMeansUnsatisfiable(o, r, row, oracle);
      }
    }
  }

  lemma MistakeIsReported(ls: seq<Comparison>, row: Row) returns (r: Report)
    requires NumericLeaves(ls) && OneNumberPerText(ls) && LeavesHold(ls, row)
    requires MisspelledLeaves(ls) || GuessedLeaves(ls)
    ensures Reported(AddAll(map[], ls), r)
  {
    HoldingLeaves(ls, row);
    var field: Field;
    if MisspelledLeaves(ls) {
      field := MisspelledLeavesAreField(ls);
    } else {
      field := GuessedLeavesAreField(ls);
    }
    var cs := OfField(AddAll(map[], ls), field);
    CollectedInherits(ls, field);
    assert AllHold(cs, Lookup(row, field));
    FalseReportsOfField(field, cs);
    r :| IsReport(field, cs, r);
  }

  // ----- exactness -----

  /** Comparisons on which the detector decides exactly. */
  predicate IsDecided(c: Comparison) {
    c.Existence? || (c.Plain? && c.token != TNotEquals)
  }

  ghost predicate DecidedLeaves(ls: seq<Comparison>) {
    NumericLeaves(ls) && forall l :: l in ls ==> IsDecided(l)
  }

  /** A row made of one value per field that satisfies that field's constraints. */
  lemma SomeRow(ls: seq<Comparison>) returns (row: Row)
    requires DecidedLeaves(ls)
    requires forall field :: AllNumeric(OfField(AddAll(map[], ls), field)) && !NoValue(OfField(AddAll(map[], ls), field))
    ensures LeavesHold(ls, row)
  {
    var all := AddAll(map[], ls);
    forall field | field in all ensures AllNumeric(all[field]) && !NoValue(all[field]) {
      assert OfField(all, field) == all[field];
    }
    row := RowFor(all, all.Keys);
    HoldingLeaves(ls, row);
    forall field ensures AllHold(OfField(all, field), Lookup(row, field)) {
      if field !in all {
        assert OfField(all, field) == [];
      }
    }
  }

  lemma {:induction false} RowFor(all: Constraints, fields: set<Field>) returns (row: Row)
    requires fields <= all.Keys
    requires forall field :: field in all ==> AllNumeric(all[field]) && !NoValue(all[field])
    ensures row.Keys <= fields
    ensures forall field :: field in fields ==> AllHold(all[field], Lookup(row, field))
  {
    if fields == {} {
      row := map[];
    } else {
      var f :| f in fields;
      var rest := RowFor(all, fields - {f});
      var v :| AllHold(all[f], v);
      row := if v.Some? then rest[f := v.value] else rest;
      forall field | field in fields ensures AllHold(all[field], Lookup(row, field)) {
        if field == f {
          assert Lookup(row, f) == v;
        } else {
          assert field in fields - {f};
          assert Lookup(row, field) == Lookup(rest, field);
        }
      }
    }
  }

  lemma OneConstraint(c: Constraint) returns (v: Option<real>)
    requires Numeric(c) && Decided(c.op)
    ensures Holds(c, v)
  {
    v := match c.op
      case NotExists => None
      case Exists => Some(0.0)
      case Lt => Some(c.values[0].num.value - 1.0)
      case Gt => Some(c.values[0].num.value + 1.0)
      case Eq | Le | Ge => c.values[0].num;
  }

  /** One decided constraint alone is always satisfiable, so nothing is lost by passing over it. */
  lemma OneConstraintHasValue(cs: seq<Constraint>)
    requires AllNumeric(cs) && AllDecided(cs) && |cs| <= 1
    ensures !NoValue(cs)
  {
    if |cs| == 0 {
      assert AllHold(cs, None);
    } else {
      assert cs[0] in cs && forall c :: c in cs ==> c == cs[0];
      var v := OneConstraint(cs[0]);
      assert AllHold(cs, v);
    }
  }

  /** Unsatisfiable decided comparisons make the final check report something. */
  lemma UnsatisfiableIsReported(ls: seq<Comparison>) returns (r: Report)
    requires DecidedLeaves(ls) && OneNumberPerText(ls)
    requires NoRowHolds(ls) || EqualitySpelledTwice(ls)
    ensures Reported(AddAll(map[], ls), r)
  {
    var all := AddAll(map[], ls);
    forall field
      ensures AllNumeric(OfField(all, field)) && AllDecided(OfField(all, field)) && Consistent(OfField(all, field))
    {
      CollectedInherits(ls, field);
    }
    var field: Field;
    if EqualitySpelledTwice(ls) {
      var f, o, p :| EqualityLeaf(ls, f, o) && EqualityLeaf(ls, f, p) && o.num == p.num && o.text != p.text;
      EqualitiesAreLeaves(ls, f, o);
      EqualitiesAreLeaves(ls, f, p);
      assert TwoSpellings(OfField(all, f));
      TwoEqualitiesAreTwo(OfField(all, f));
      field := f;
    } else {
      if forall f :: !NoValue(OfField(all, f)) {
        var row := SomeRow(ls);
        assert false;
      }
      field :| NoValue(OfField(all, field));
      if |OfField(all, field)| <= 1 {
        OneConstraintHasValue(OfField(all, field));
      }
    }
    FieldIsDecided(field, OfField(all, field));
    r :| IsReport(field, OfField(all, field), r);
    assert field in all;
  }

  lemma TwoEqualitiesAreTwo(cs: seq<Constraint>)
    requires TwoSpellings(cs)
    ensures |cs| >= 2
  {
    var o, p :| EqOperand(cs, o) && EqOperand(cs, p) && o.num == p.num && o.text != p.text;
    var c :| c in cs && c.op == Eq && c.values == [o];
    var d :| d in cs && d.op == Eq && d.values == [p];
    assert c.values[0] != d.values[0];
    TwoMembers(cs, c, d);
  }

  /** A report on decided comparisons means they are unsatisfiable or spell an equality twice. */
  lemma ReportedIsUnsatisfiable(ls: seq<Comparison>, r: Report, row: Row)
    requires DecidedLeaves(ls) && OneNumberPerText(ls)
    requires Reported(AddAll(map[], ls), r)
    ensures !LeavesHold(ls, row) || EqualitySpelledTwice(ls)
  {
    var field :| field in AddAll(map[], ls) && IsReport(field, AddAll(map[], ls)[field], r);
    var cs := OfField(AddAll(map[], ls), field);
    CollectedInherits(ls, field);
    FieldIsDecided(field, cs);
    if TwoSpellings(cs) {
      var o, p :| EqOperand(cs, o) && EqOperand(cs, p) && o.num == p.num && o.text != p.text;
      EqualitiesAreLeaves(ls, field, o);
      EqualitiesAreLeaves(ls, field, p);
    } else {
      HoldingLeaves(ls, row);
      assert NoValue(cs);
    }
  }

  /** Exactness: on filters built with AND from =, <, <=, >, >=, EXISTS and NOT EXISTS over numbers,
      the detector reports something exactly when no row satisfies the filter, or when a field is
      compared for equality with one number spelled in two ways. */
  lemma DetectionIsExact(o: Or, oracle: (nat, Row) -> bool)
    requires PlainOr(o) && NothingIgnoredOr(o)
    requires DecidedLeaves(LeavesOr(o)) && OneNumberPerText(LeavesOr(o))
    ensures (exists r :: r in AllReports(o)) <==> Unsatisfiable(o, oracle) || EqualitySpelledTwice(LeavesOr(o))
  {
    var ls := LeavesOr(o);
    UnsatisfiableByLeaves(o, oracle);
    if r :| r in AllReports(o) {
      AnyReportIsUnsatisfiable(o, r);
    }
    if NoRowHolds(ls) || EqualitySpelledTwice(ls) {
      var r := UnsatisfiableIsReported(ls);
      FilterReports(o, r);
    }
  }

  /** No row satisfies the filter. */
  ghost predicate Unsatisfiable(o: Or, oracle: (nat, Row) -> bool)
    requires PlainOr(o)
  {
    forall row :: !EvalOr(o, row, oracle)
  }

  ghost predicate NoRowHolds(ls: seq<Comparison>)
    requires NumericLeaves(ls)
  {
    forall row :: !LeavesHold(ls, row)
  }

  lemma UnsatisfiableByLeaves(o: Or, oracle: (nat, Row) -> bool)
    requires PlainOr(o) && NothingIgnoredOr(o) && NumericLeaves(LeavesOr(o))
    ensures Unsatisfiable(o, oracle) <==> NoRowHolds(LeavesOr(o))
  {
    if row :| EvalOr(o, row, oracle) {
      EvalOrIsLeaves(o, row, oracle);
    }
    if row :| LeavesHold(LeavesOr(o), row) {
      EvalOrIsLeaves(o, row, oracle);
    }
  }

  lemma AnyReportIsUnsatisfiable(o: Or, r: Report)
    requires PlainOr(o) && DecidedLeaves(LeavesOr(o)) && OneNumberPerText(LeavesOr(o))
    requires r in AllReports(o)
    ensures EqualitySpelledTwice(LeavesOr(o)) || NoRowHolds(LeavesOr(o))
  {
    var ls := LeavesOr(o);
    var k := ReportsComeFromPrefixes(o, r);
    PrefixKeeps(ls, k);
    PrefixMembers(ls, k);
    forall row: Row ensures !LeavesHold(ls, row) || EqualitySpelledTwice(ls) {
      ReportedIsUnsatisfiable(ls[..k], r, row);
    }
  }

  /** x = 1 AND x = 1.0 is reported although x = 1 satisfies it. */
  lemma SpellingIsMistaken(oracle: (nat, Row) -> bool)
    ensures var one, oneDotZero := Operand("1", Some(1.0)), Operand("1.0", Some(1.0));
            var o := Or([And([Unary(false, Compare(Plain("x", TEquals, false, one))),
                              Unary(false, Compare(Plain("x", TEquals, false, oneDotZero)))])]);
            PlainOr(o) && EvalOr(o, map["x" := 1.0], oracle) && exists r :: r in AllReports(o)
  {
    var one, oneDotZero := Operand("1", Some(1.0)), Operand("1.0", Some(1.0));
    var a, b := Plain("x", TEquals, false, one), Plain("x", TEquals, false, oneDotZero);
    TwoLeaves(a, b);
    TwoSpellingsOfOne(a, b, one, oneDotZero);
    BothHold(a, b, oracle);
    DetectionIsExact(Or([And([Unary(false, Compare(a)), Unary(false, Compare(b))])]), oracle);
  }

  lemma BothHold(a: Comparison, b: Comparison, oracle: (nat, Row) -> bool)
    requires a == Plain("x", TEquals, false, Operand("1", Some(1.0))) && b == Plain("x", TEquals, false, Operand("1.0", Some(1.0)))
    ensures var o := Or([And([Unary(false, Compare(a)), Unary(false, Compare(b))])]);
            PlainOr(o) && NothingIgnoredOr(o) && EvalOr(o, map["x" := 1.0], oracle)
  {
    var u, v := Unary(false, Compare(a)), Unary(false, Compare(b));
    var row: Row := map["x" := 1.0];
    assert PlainUnary(u) && PlainUnary(v);
    assert EvalUnary(u, row, oracle) && EvalUnary(v, row, oracle);
    assert EvalAnd(And([u, v]), row, oracle);
  }

  lemma TwoSpellingsOfOne(a: Comparison, b: Comparison, one: Operand, oneDotZero: Operand)
    requires one == Operand("1", Some(1.0)) && oneDotZero == Operand("1.0", Some(1.0))
    requires a == Plain("x", TEquals, false, one) && b == Plain("x", TEquals, false, oneDotZero)
    ensures DecidedLeaves([a, b]) && OneNumberPerText([a, b]) && EqualitySpelledTwice([a, b])
  {
    var ls := [a, b];
    assert a in ls && b in ls;
    assert EqualityLeaf(ls, "x", one) && EqualityLeaf(ls, "x", oneDotZero);
    forall f, p | LeafOperand(ls, f, p) ensures p == one || p == oneDotZero {
    }
  }

  /** x = 1 AND x IN (1.0) is reported although x = 1 satisfies it. */
  lemma ListSpellingIsMistaken(oracle: (nat, Row) -> bool)
    ensures var one, oneDotZero := Operand("1", Some(1.0)), Operand("1.0", Some(1.0));
            var o := Or([And([Unary(false, Compare(Plain("x", TEquals, false, one))),
                              Unary(false, Compare(InList("x", [oneDotZero])))])]);
            PlainOr(o) && EvalOr(o, map["x" := 1.0], oracle) && exists r :: r in AllReports(o)
  {
    var one, oneDotZero := Operand("1", Some(1.0)), Operand("1.0", Some(1.0));
    var a, b := Plain("x", TEquals, false, one), InList("x", [oneDotZero]);
    TwoLeaves(a, b);
    ListMisspells(a, b, one, oneDotZero);
    EqualAndListHold(a, b, oracle);
    FalseReportsExactly(Or([And([Unary(false, Compare(a)), Unary(false, Compare(b))])]), oracle);
  }

  lemma EqualAndListHold(a: Comparison, b: Comparison, oracle: (nat, Row) -> bool)
    requires a == Plain("x", TEquals, false, Operand("1", Some(1.0))) && b == InList("x", [Operand("1.0", Some(1.0))])
    ensures var o := Or([And([Unary(false, Compare(a)), Unary(false, Compare(b))])]);
            PlainOr(o) && EvalOr(o, map["x" := 1.0], oracle)
  {
    var u, v := Unary(false, Compare(a)), Unary(false, Compare(b));
    var row: Row := map["x" := 1.0];
    assert BaseConstraint(b).values[0].num == Some(1.0);
    assert PlainUnary(u) && PlainUnary(v);
    assert EvalUnary(u, row, oracle) && EvalUnary(v, row, oracle);
    assert EvalAnd(And([u, v]), row, oracle);
  }

  lemma ListMisspells(a: Comparison, b: Comparison, one: Operand, oneDotZero: Operand)
    requires one == Operand("1", Some(1.0)) && oneDotZero == Operand("1.0", Some(1.0))
    requires a == Plain("x", TEquals, false, one) && b == InList("x", [oneDotZero])
    ensures OneNumberPerText([a, b]) && MisspelledLeaves([a, b])
  {
    var ls := [a, b];
    assert a in ls && b in ls;
    assert EqualityLeaf(ls, "x", one);
    assert oneDotZero in b.values;
    assert ListSpelledOtherwise(ls, b, one);
    forall f, p | LeafOperand(ls, f, p) ensures p == one || p == oneDotZero {
    }
  }

  /** x IN (1, 2) AND x NOT IN (2) is reported although x = 1 satisfies it. */
  lemma OverlapIsMistaken(oracle: (nat, Row) -> bool)
    ensures var one, two := Operand("1", Some(1.0)), Operand("2", Some(2.0));
            var o := Or([And([Unary(false, Compare(InList("x", [one, two]))), Unary(false, Compare(NotInList("x", [two])))])]);
            PlainOr(o) && EvalOr(o, map["x" := 1.0], oracle) && exists r :: r in AllReports(o)
  {
    var one, two := Operand("1", Some(1.0)), Operand("2", Some(2.0));
    var a, b := InList("x", [one, two]), NotInList("x", [two]);
    TwoLeaves(a, b);
    ListsOverlapInText(a, b, one, two);
    ListsHold(a, b, oracle);
    FalseReportsExactly(Or([And([Unary(false, Compare(a)), Unary(false, Compare(b))])]), oracle);
  }

  lemma ListsHold(a: Comparison, b: Comparison, oracle: (nat, Row) -> bool)
    requires a == InList("x", [Operand("1", Some(1.0)), Operand("2", Some(2.0))]) && b == NotInList("x", [Operand("2", Some(2.0))])
    ensures var o := Or([And([Unary(false, Compare(a)), Unary(false, Compare(b))])]);
            PlainOr(o) && EvalOr(o, map["x" := 1.0], oracle)
  {
    var u, v := Unary(false, Compare(a)), Unary(false, Compare(b));
    var row: Row := map["x" := 1.0];
    assert a.values[0].num == Some(1.0);
    assert PlainUnary(u) && PlainUnary(v);
    assert EvalUnary(u, row, oracle) && EvalUnary(v, row, oracle);
    assert EvalAnd(And([u, v]), row, oracle);
  }

  lemma ListsOverlapInText(a: Comparison, b: Comparison, one: Operand, two: Operand)
    requires one == Operand("1", Some(1.0)) && two == Operand("2", Some(2.0))
    requires a == InList("x", [one, two]) && b == NotInList("x", [two])
    ensures NumericLeaves([a, b]) && OneNumberPerText([a, b]) && GuessedLeaves([a, b])
  {
    var ls := [a, b];
    assert a in ls && b in ls;
    assert a.values[1] in a.values && b.values[0] in b.values;
    assert LeavesShare(ls, a, b);
    assert one.text[0] == '1' && two.text[0] == '2';
    forall f, p | LeafOperand(ls, f, p) ensures p == one || p == two {
    }
  }

  lemma TwoLeaves(a: Comparison, b: Comparison)
    ensures LeavesOr(Or([And([Unary(false, Compare(a)), Unary(false, Compare(b))])])) == [a, b]
  {
    var c := And([Unary(false, Compare(a)), Unary(false, Compare(b))]);
    assert LeavesUpTo(c, 0) == [];
    assert LeavesUpTo(c, 1) == [a];
    assert LeavesUpTo(c, 2) == [a, b];
    assert Or([c]).ands[0] == c;
    assert LeavesAnd(c) == LeavesUpTo(c, 2);
  }
}
