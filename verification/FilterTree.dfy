/** Filter expressions as parse trees, the constraints the detector draws from them, and what a row
    of numeric fields, any of which may be absent, makes of them. */
module FilterTree {
  import opened Options

  type Field = string

  /** An operand's text, and its value when the text parses as a number. */
  datatype Operand = Operand(text: string, num: Option<real>)

  datatype Op =
    | Eq | Neq | Lt | Le | Gt | Ge | In | NotIn | Exists | NotExists | Between | NotBetween
    | Like | NotLike | ILike | NotILike | Regexp | NotRegexp | Contains | NotContains

  /** values holds the operands: one for plain comparisons, the list for IN, the bounds for BETWEEN. */
  datatype Constraint = Constraint(op: Op, values: seq<Operand>)

  datatype Token =
    | TEquals | TNotEquals | TLt | TLe | TGt | TGe | TLike | TILike | TNotLike | TNotILike | TRegexp | TContains

  /** A comparison of the grammar; not is a NOT inside the comparison itself. */
  datatype Comparison =
    | Existence(field: Field, not: bool)
    | InList(field: Field, values: seq<Operand>)
    | NotInList(field: Field, values: seq<Operand>)
    | Range(field: Field, not: bool, lo: Operand, hi: Operand)
    | Plain(field: Field, token: Token, not: bool, value: Operand)

  datatype Or = Or(ands: seq<And>)

  datatype And = And(unaries: seq<Unary>)

  datatype Unary = Unary(not: bool, primary: Primary)

  /** Other is a function call, full-text search, bare key or value; the detector ignores it. */
  datatype Primary = Paren(or: Or) | Compare(comparison: Comparison) | Other(id: nat)

  function NegateOperator(op: Op): Op {
    match op
    case Eq => Neq
    case Neq => Eq
    case Lt => Ge
    case Le => Gt
    case Gt => Le
    case Ge => Lt
    case In => NotIn
    case NotIn => In
    case Exists => NotExists
    case NotExists => Exists
    case Like => NotLike
    case NotLike => Like
    case ILike => NotILike
    case NotILike => ILike
    case Between => NotBetween
    case NotBetween => Between
    case Regexp => NotRegexp
    case NotRegexp => Regexp
    case Contains => NotContains
    case NotContains => Contains
  }

  predicate IsRangeOperator(op: Op) {
    op == Lt || op == Le || op == Gt || op == Ge
  }

  predicate IsNegativeOperator(op: Op) {
    match op
    case Neq | NotIn | NotExists | NotLike | NotILike | NotBetween | NotRegexp | NotContains => true
    case _ => false
  }

  predicate AddDefaultExistsFilter(op: Op) {
    match op
    case Eq | Gt | Ge | Lt | Le | Like | ILike | Between | In | Regexp | Contains => true
    case _ => false
  }

  /** Positive predicates imply that the field exists. */
  predicate ImpliesExistence(op: Op) {
    AddDefaultExistsFilter(op) && !IsNegativeOperator(op)
  }

  /** The operator of a plain comparison; for LIKE and ILIKE an inner NOT is not looked at. */
  function PlainOperator(token: Token, not: bool): Op {
    match token
    case TEquals => Eq
    case TNotEquals => Neq
    case TLt => Lt
    case TLe => Le
    case TGt => Gt
    case TGe => Ge
    case TLike => Like
    case TILike => ILike
    case TNotLike => NotLike
    case TNotILike => NotILike
    case TRegexp => if not then NotRegexp else Regexp
    case TContains => if not then NotContains else Contains
  }

  /** The constraint of a comparison before any enclosing NOT. */
  function BaseConstraint(c: Comparison): Constraint {
    match c
    case Existence(_, not) => Constraint(if not then NotExists else Exists, [])
    case InList(_, values) => Constraint(In, values)
    case NotInList(_, values) => Constraint(NotIn, values)
    case Range(_, not, lo, hi) => Constraint(if not then NotBetween else Between, [lo, hi])
    case Plain(_, token, not, value) => Constraint(PlainOperator(token, not), [value])
  }

  function ConstraintOf(c: Comparison, negated: bool): Constraint {
    var base := BaseConstraint(c);
    if negated then base.(op := NegateOperator(base.op)) else base
  }

  // ----- meaning -----

  /** A row gives some fields a number; the others are absent. */
  type Row = map<Field, real>

  function Lookup(row: Row, field: Field): Option<real> {
    if field in row then Some(row[field]) else None
  }

  predicate SatisfiesRange(x: real, op: Op, bound: real) {
    match op
    case Gt => x > bound
    case Ge => x >= bound
    case Lt => x < bound
    case Le => x <= bound
    case _ => true
  }

  /** The operators whose meaning is fixed here. */
  predicate HasMeaning(op: Op) {
    IsRangeOperator(op) || op == Eq || op == Neq || op == In || op == NotIn || op == Between || op == NotBetween
    || op == Exists || op == NotExists
  }

  /** All operands are numbers, and there are as many as the operator takes. */
  predicate Numeric(c: Constraint) {
    HasMeaning(c.op)
    && (forall i :: 0 <= i < |c.values| ==> c.values[i].num.Some?)
    && (IsRangeOperator(c.op) || c.op == Eq || c.op == Neq ==> |c.values| == 1)
    && (c.op == Between || c.op == NotBetween ==> |c.values| == 2)
  }

  /** Whether a field with value v, or absent, satisfies a constraint. An absent field satisfies the
      negative operators and nothing else. */
  predicate Holds(c: Constraint, v: Option<real>)
    requires Numeric(c)
  {
    match c.op
    case Exists => v.Some?
    case NotExists => v.None?
    case Neq => v.None? || v != c.values[0].num
    case Eq => v.Some? && v == c.values[0].num
    case In => v.Some? && exists i :: 0 <= i < |c.values| && v == c.values[i].num
    case NotIn => v.None? || forall i :: 0 <= i < |c.values| ==> v != c.values[i].num
    case Between => v.Some? && c.values[0].num.value <= v.value <= c.values[1].num.value
    case NotBetween => v.None? || !(c.values[0].num.value <= v.value <= c.values[1].num.value)
    case _ => v.Some? && SatisfiesRange(v.value, c.op, c.values[0].num.value)
  }

  /** Comparisons of numbers whose meaning is fixed. */
  predicate Understood(c: Comparison) {
    match c
    case Existence(_, _) => true
    case InList(_, values) => forall i :: 0 <= i < |values| ==> values[i].num.Some?
    case NotInList(_, values) => forall i :: 0 <= i < |values| ==> values[i].num.Some?
    case Range(_, _, lo, hi) => lo.num.Some? && hi.num.Some?
    case Plain(_, token, _, value) =>
      value.num.Some? && (token == TEquals || token == TNotEquals || token == TLt || token == TLe || token == TGt || token == TGe)
  }

  /** What a comparison says of a field with value v, or of an absent one, as it is written. */
  predicate Means(c: Comparison, v: Option<real>)
    requires Understood(c)
  {
    match c
    case Existence(_, not) => if not then v == None else v != None
    case InList(_, values) => v != None && exists i :: 0 <= i < |values| && values[i].num == v
    case NotInList(_, values) => v == None || forall i :: 0 <= i < |values| ==> values[i].num != v
    case Range(_, not, lo, hi) =>
      if v == None then not
      else if not then v.value < lo.num.value || v.value > hi.num.value
      else v.value >= lo.num.value && v.value <= hi.num.value
    case Plain(_, token, _, value) =>
      if v == None then token == TNotEquals
      else
        match token
        case TEquals => v.value == value.num.value
        case TNotEquals => v.value != value.num.value
        case TLt => v.value < value.num.value
        case TLe => v.value <= value.num.value
        case TGt => v.value > value.num.value
        case _ => v.value >= value.num.value
  }

  /** The constraint the detector draws from a comparison says the same. */
  lemma ConstraintMeansComparison(c: Comparison, v: Option<real>)
    requires Understood(c)
    ensures Numeric(BaseConstraint(c)) && (Holds(BaseConstraint(c), v) <==> Means(c, v))
  {
  }

  /** No NOT, no OR, and only comparisons of numbers with a fixed meaning. */
  predicate PlainOr(o: Or) {
    |o.ands| == 1 && PlainAnd(o.ands[0])
  }

  predicate PlainAnd(a: And) {
    forall i :: 0 <= i < |a.unaries| ==> PlainUnary(a.unaries[i])
  }

  predicate PlainUnary(u: Unary) {
    !u.not
    && match u.primary
       case Paren(o) => PlainOr(o)
       case Compare(c) => Understood(c)
       case Other(_) => true
  }

  /** What a row makes of a filter; oracle answers for the parts the detector ignores. */
  predicate EvalOr(o: Or, row: Row, oracle: (nat, Row) -> bool)
    requires PlainOr(o)
  {
    EvalAnd(o.ands[0], row, oracle)
  }

  predicate EvalAnd(a: And, row: Row, oracle: (nat, Row) -> bool)
    requires PlainAnd(a)
  {
    forall i :: 0 <= i < |a.unaries| ==> EvalUnary(a.unaries[i], row, oracle)
  }

  predicate EvalUnary(u: Unary, row: Row, oracle: (nat, Row) -> bool)
    requires PlainUnary(u)
  {
    match u.primary
    case Paren(o) => EvalOr(o, row, oracle)
    case Compare(c) => Means(c, Lookup(row, c.field))
    case Other(id) => oracle(id, row)
  }
}
