/** The contradiction detector: a visitor over the parse tree with a stack of constraint sets, a
    stack of NOT contexts, and a list of reports. */
module Detector {
  import opened FilterTree
  import opened FieldRules
  import opened FieldChecks

  type Constraints = map<Field, seq<Constraint>>

  // ----- what a visit does, as a function -----

  /** The constraint set after a visit, and the reports made during it. */
  datatype Trace = Trace(cs: Constraints, reports: iset<Report>)

  function OfField(cs: Constraints, field: Field): seq<Constraint> {
    if field in cs then cs[field] else []
  }

  /** A positive predicate brings an implicit EXISTS with it. */
  function Added(cs: Constraints, field: Field, c: Constraint): Constraints {
    cs[field := OfField(cs, field) + (if ImpliesExistence(c.op) then [Constraint(Exists, [])] else []) + [c]]
  }

  /** The reports of a check of a whole constraint set; fields with one constraint are passed over. */
  ghost predicate Reported(cs: Constraints, r: Report) {
    exists field :: field in cs && |cs[field]| >= 2 && IsReport(field, cs[field], r)
  }

  ghost function ReportsOf(cs: Constraints): iset<Report> {
    iset r | Reported(cs, r)
  }

  /** Only plain comparisons are followed by a check. */
  ghost function TraceComparison(c: Comparison, neg: bool, cs: Constraints): Trace {
    var after := Added(cs, c.field, ConstraintOf(c, neg));
    Trace(after, if c.Plain? then ReportsOf(after) else iset{})
  }

  ghost function TracePrimary(p: Primary, neg: bool, cs: Constraints): Trace
    decreases p, 0
  {
    match p
    case Paren(o) => TraceOr(o, neg, cs)
    case Compare(c) => TraceComparison(c, neg, cs)
    case Other(_) => Trace(cs, iset{})
  }

  /** A NOT flips the context for what it stands in front of. */
  ghost function TraceUnary(u: Unary, neg: bool, cs: Constraints): Trace
    decreases u, 0
  {
    TracePrimary(u.primary, if u.not then !neg else neg, cs)
  }

  /** The first n operands of an AND, one after the other. */
  ghost function TraceUnaries(a: And, n: nat, neg: bool, cs: Constraints): Trace
    requires n <= |a.unaries|
    decreases a, n
  {
    if n == 0 then Trace(cs, iset{})
    else
      var before := TraceUnaries(a, n - 1, neg, cs);
      var last := TraceUnary(a.unaries[n - 1], neg, before.cs);
      Trace(last.cs, before.reports + last.reports)
  }

  ghost function TraceAnd(a: And, neg: bool, cs: Constraints): Trace
    decreases a, |a.unaries| + 1
  {
    TraceUnaries(a, |a.unaries|, neg, cs)
  }

  /** The first n branches of an OR, each started from the same constraint set. */
  ghost function BranchReports(o: Or, n: nat, neg: bool, cs: Constraints): iset<Report>
    requires n <= |o.ands|
    decreases o, n
  {
    if n == 0 then iset{}
    else BranchReports(o, n - 1, neg, cs) + TraceAnd(o.ands[n - 1], neg, cs).reports
  }

  /** A single branch adds to the constraints; several leave them as they were. */
  ghost function TraceOr(o: Or, neg: bool, cs: Constraints): Trace
    decreases o, |o.ands| + 1
  {
    if |o.ands| == 1 then TraceAnd(o.ands[0], neg, cs)
    else Trace(cs, BranchReports(o, |o.ands|, neg, cs))
  }

  /** All reports of a filter: those of the visit and those of the final check. */
  ghost function AllReports(o: Or): iset<Report> {
    var t := TraceOr(o, false, map[]);
    t.reports + ReportsOf(t.cs)
  }

  // ----- the visitor -----

  class ConstraintSet {
    var constraints: Constraints

    constructor (constraints: Constraints)
      ensures this.constraints == constraints
    {
      this.constraints := constraints;
    }
  }

  class LogicalContradictionDetector {
    var constraintStack: seq<ConstraintSet>
    var contradictions: seq<Report>
    var notContextStack: seq<bool>

    /** The stacks are never empty, and the current constraint set is on its stack once. */
    ghost predicate Valid()
      reads this
    {
      |constraintStack| > 0 && |notContextStack| > 0 && Top() !in Lower()
    }

    ghost function Top(): ConstraintSet
      requires |constraintStack| > 0
      reads this
    {
      constraintStack[|constraintStack| - 1]
    }

    ghost function Lower(): seq<ConstraintSet>
      requires |constraintStack| > 0
      reads this
    {
      constraintStack[..|constraintStack| - 1]
    }

    ghost function Neg(): bool
      requires |notContextStack| > 0
      reads this
    {
      notContextStack[|notContextStack| - 1]
    }

    /** What every visit keeps: the NOT stack, the lower constraint sets, and a current set that is
        the same object or a new one; and what it does: the traced constraints and reports. */
    twostate predicate Visited(t: Trace)
      reads this, constraintStack
      requires |old(constraintStack)| > 0
    {
      Valid() && notContextStack == old(notContextStack)
      && Lower() == old(Lower())
      && (Top() == old(Top()) || fresh(Top()))
      && Top().constraints == t.cs
      && forall r :: r in contradictions <==> r in old(contradictions) || r in t.reports
    }

    constructor ()
      ensures Valid() && fresh(Top()) && Top().constraints == map[] && contradictions == [] && notContextStack == [false]
      ensures constraintStack == [Top()]
    {
      var empty := new ConstraintSet(map[]);
      constraintStack := [empty];
      contradictions := [];
      notContextStack := [false];
    }

    method CurrentConstraints() returns (set_: ConstraintSet)
      requires Valid()
      ensures set_ == Top()
    {
      set_ := constraintStack[|constraintStack| - 1];
    }

    method AddConstraint(field: Field, c: Constraint)
      requires Valid()
      modifies Top()
      ensures Top().constraints == Added(old(Top().constraints), field, c)
    {
      var current := CurrentConstraints();
      if ImpliesExistence(c.op) {
        var had := if field in current.constraints then current.constraints[field] else [];
        current.constraints := current.constraints[field := had + [Constraint(Exists, [])]];
      }
      var list := if field in current.constraints then current.constraints[field] else [];
      current.constraints := current.constraints[field := list + [c]];
      ghost var before := old(Top().constraints);
      assert list == OfField(before, field) + (if ImpliesExistence(c.op) then [Constraint(Exists, [])] else []);
      assert current.constraints == Added(before, field, c);
    }

    /** Checks the fields in whatever order the map yields them. */
    method CheckContradictions()
      requires Valid()
      modifies this`contradictions
      ensures forall r :: r in contradictions <==> r in old(contradictions) || Reported(Top().constraints, r)
    {
      var current := CurrentConstraints();
      var cs := current.constraints;
      var todo := cs.Keys;
      while todo != {}
        invariant todo <= cs.Keys
        invariant forall r :: r in contradictions <==> r in old(contradictions) || ReportedFor(cs, cs.Keys - todo, r)
        decreases todo
      {
        var field :| field in todo;
        ReportedForOneMore(cs, cs.Keys - todo, field);
        assert cs.Keys - (todo - {field}) == (cs.Keys - todo) + {field};
        if |cs[field]| >= 2 {
          var found := FindContradictionsInConstraints(field, cs[field]);
          contradictions := contradictions + found;
        }
        todo := todo - {field};
      }
      forall r ensures ReportedFor(cs, cs.Keys, r) <==> Reported(cs, r) {
      }
      assert cs.Keys - {} == cs.Keys;
    }

    method CloneConstraintSet() returns (copy: ConstraintSet)
      requires Valid()
      ensures fresh(copy) && copy.constraints == Top().constraints
    {
      var current := CurrentConstraints();
      copy := new ConstraintSet(current.constraints);
    }

    method PushNotContext(value: bool)
      modifies this`notContextStack
      ensures notContextStack == old(notContextStack) + [value]
    {
      notContextStack := notContextStack + [value];
    }

    method PopNotContext()
      modifies this`notContextStack
      ensures notContextStack == if |old(notContextStack)| > 1 then old(notContextStack)[..|old(notContextStack)| - 1] else old(notContextStack)
    {
      if |notContextStack| > 1 {
        notContextStack := notContextStack[..|notContextStack| - 1];
      }
    }

    method VisitComparison(c: Comparison)
      requires Valid()
      modifies this, Top()
      ensures Visited(TraceComparison(c, old(Neg()), old(Top().constraints)))
    {
      var notContext := notContextStack[|notContextStack| - 1];
      AddConstraint(c.field, ConstraintOf(c, notContext));
      if c.Plain? {
        CheckContradictions();
      }
    }

    method VisitPrimary(p: Primary)
      requires Valid()
      modifies this, Top()
      ensures Visited(TracePrimary(p, old(Neg()), old(Top().constraints)))
      decreases p, 0
    {
      match p
      case Paren(o) => VisitOrExpression(o);
      case Compare(c) => VisitComparison(c);
      case Other(_) =>
    }

    method VisitUnaryExpression(u: Unary)
      requires Valid()
      modifies this, Top()
      ensures Visited(TraceUnary(u, old(Neg()), old(Top().constraints)))
      decreases u, 0
    {
      if u.not {
        PushNotContext(!notContextStack[|notContextStack| - 1]);
      }
      VisitPrimary(u.primary);
      if u.not {
        PopNotContext();
      }
    }

    method VisitAndExpression(a: And)
      requires Valid()
      modifies this, Top()
      ensures Visited(TraceAnd(a, old(Neg()), old(Top().constraints)))
      decreases a, |a.unaries| + 1
    {
      for i := 0 to |a.unaries|
        invariant Visited(TraceUnaries(a, i, old(Neg()), old(Top().constraints)))
      {
        VisitUnaryExpression(a.unaries[i]);
      }
    }

    method VisitOrExpression(o: Or)
      requires Valid()
      modifies this, Top()
      ensures Visited(TraceOr(o, old(Neg()), old(Top().constraints)))
      decreases o, |o.ands| + 1
    {
      if |o.ands| == 1 {
        VisitAndExpression(o.ands[0]);
        return;
      }
      for i := 0 to |o.ands|
        invariant Visited(Trace(old(Top().constraints), BranchReports(o, i, old(Neg()), old(Top().constraints))))
      {
        var saved := CloneConstraintSet();
        VisitAndExpression(o.ands[i]);
        constraintStack := constraintStack[|constraintStack| - 1 := saved];
      }
    }

    method VisitQuery(o: Or)
      requires Valid()
      modifies this, Top()
      ensures Valid() && notContextStack == old(notContextStack)
      ensures var t := TraceOr(o, old(Neg()), old(Top().constraints));
              forall r :: r in contradictions <==> r in old(contradictions) || r in t.reports || Reported(t.cs, r)
    {
      VisitOrExpression(o);
      CheckContradictions();
    }
  }

  ghost predicate ReportedFor(cs: Constraints, fields: set<Field>, r: Report) {
    exists field :: field in fields && field in cs && |cs[field]| >= 2 && IsReport(field, cs[field], r)
  }

  lemma ReportedForOneMore(cs: Constraints, fields: set<Field>, field: Field)
    requires field in cs
    ensures forall r :: ReportedFor(cs, fields + {field}, r)
                        <==> ReportedFor(cs, fields, r) || (|cs[field]| >= 2 && IsReport(field, cs[field], r))
  {
  }

  /** Visits the tree and drops repeated reports. */
  method DetectContradictions(o: Or) returns (unique: seq<Report>)
    ensures forall r :: r in unique <==> r in AllReports(o)
    ensures forall i, j :: 0 <= i < j < |unique| ==> unique[i] != unique[j]
  {
    var detector := new LogicalContradictionDetector();
    detector.VisitQuery(o);
    var seen: set<Report> := {};
    unique := [];
    for i := 0 to |detector.contradictions|
      invariant forall r :: r in unique <==> r in detector.contradictions[..i]
      invariant forall r :: r in seen <==> r in unique
      invariant forall a, b :: 0 <= a < b < |unique| ==> unique[a] != unique[b]
    {
      var c := detector.contradictions[i];
      assert detector.contradictions[..i + 1] == detector.contradictions[..i] + [c];
      if c !in seen {
        seen := seen + {c};
        unique := unique + [c];
      }
    }
    assert detector.contradictions[..|detector.contradictions|] == detector.contradictions;
  }
}
