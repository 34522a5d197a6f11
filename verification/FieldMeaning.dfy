/** What a report means: the constraints of the field exclude every value and the absence of one,
    unless one number is spelled in two ways, which the textual comparisons cannot see through. */
module FieldMeaning {
  import opened Options
  import opened FilterTree
  import opened FieldRules

  ghost predicate AllNumeric(cs: seq<Constraint>) {
    forall c :: c in cs ==> Numeric(c)
  }

  /** Operators on which the detector decides exactly. */
  predicate Decided(op: Op) {
    IsRangeOperator(op) || op == Eq || op == Exists || op == NotExists
  }

  ghost predicate AllDecided(cs: seq<Constraint>) {
    forall c :: c in cs ==> Decided(c.op)
  }

  /** A field's value, or its absence, satisfies all constraints. */
  ghost predicate AllHold(cs: seq<Constraint>, v: Option<real>)
    requires AllNumeric(cs)
  {
    forall c :: c in cs ==> Holds(c, v)
  }

  ghost predicate HasOperand(cs: seq<Constraint>, o: Operand) {
    exists c :: c in cs && o in c.values
  }

  /** A text stands for one number only. */
  ghost predicate Consistent(cs: seq<Constraint>) {
    forall o, p :: HasOperand(cs, o) && HasOperand(cs, p) && o.text == p.text ==> o.num == p.num
  }

  ghost predicate EqOperand(cs: seq<Constraint>, o: Operand) {
    exists c :: c in cs && c.op == Eq && c.values == [o]
  }

  /** Two equalities with one number in two spellings. */
  ghost predicate TwoSpellings(cs: seq<Constraint>) {
    exists o, p :: EqOperand(cs, o) && EqOperand(cs, p) && o.num == p.num && o.text != p.text
  }

  /** An IN list holds the number of an equality, but only in other spellings. */
  ghost predicate ListSpellsOtherwise(cs: seq<Constraint>, o: Operand, c: Constraint) {
    EqOperand(cs, o) && c in cs && c.op == In && !TextAmong(c.values, o.text) && exists p :: p in c.values && p.num == o.num
  }

  /** The spellings that the textual comparisons cannot see through. */
  ghost predicate Misspelled(cs: seq<Constraint>) {
    TwoSpellings(cs) || exists o, c :: ListSpellsOtherwise(cs, o, c)
  }

  /** An IN and a NOT IN list share a text. */
  ghost predicate ListsShare(cs: seq<Constraint>) {
    exists c, d, o, p :: ShareText(cs, c, d, o, p)
  }

  ghost predicate ShareText(cs: seq<Constraint>, c: Constraint, d: Constraint, o: Operand, p: Operand) {
    c in cs && c.op == In && o in c.values && d in cs && d.op == NotIn && p in d.values && o.text == p.text
  }

  predicate Spans(c: Constraint, x: real)
    requires Numeric(c) && (c.op == Between || c.op == NotBetween)
  {
    c.values[0].num.value <= x <= c.values[1].num.value
  }

  /** A NOT BETWEEN excludes the number. */
  ghost predicate Excluded(cs: seq<Constraint>, x: real)
    requires AllNumeric(cs)
  {
    exists d :: d in cs && d.op == NotBetween && Spans(d, x)
  }

  /** Both ends of a BETWEEN and its middle are excluded. */
  ghost predicate RangeExcluded(cs: seq<Constraint>, b: Constraint)
    requires AllNumeric(cs) && b in cs && b.op == Between
  {
    var lo, hi := b.values[0].num.value, b.values[1].num.value;
    Excluded(cs, lo) && Excluded(cs, hi) && Excluded(cs, (lo + hi) / 2.0)
  }

  ghost predicate EndsExcluded(cs: seq<Constraint>)
    requires AllNumeric(cs)
  {
    exists b :: b in cs && b.op == Between && RangeExcluded(cs, b)
  }

  /** The two rules that judge without being sure: lists that overlap need not exclude each other, nor
      do three excluded points of a range exclude the rest. */
  ghost predicate Guessed(cs: seq<Constraint>)
    requires AllNumeric(cs)
  {
    ListsShare(cs) || EndsExcluded(cs)
  }

  lemma GroupMember(cs: seq<Constraint>, op: Op, i: nat)
    requires i < |WithOp(cs, op)|
    ensures WithOp(cs, op)[i] in cs && WithOp(cs, op)[i].op == op
  {
    assert WithOp(cs, op)[i] in WithOp(cs, op);
  }

  /** The operand of an equality among the constraints. */
  lemma EqualityOf(cs: seq<Constraint>, i: nat)
    requires AllNumeric(cs) && i < |WithOp(cs, Eq)|
    ensures var e := WithOp(cs, Eq)[i];
            e in cs && e.values == [ValueOf(e)] && ValueOf(e).num.Some?
            && EqOperand(cs, ValueOf(e)) && HasOperand(cs, ValueOf(e))
            && forall v :: Holds(e, v) <==> v == ValueOf(e).num
  {
    GroupMember(cs, Eq, i);
    var e := WithOp(cs, Eq)[i];
    assert Numeric(e);
    assert e.values == [e.values[0]];
    assert ValueOf(e) in e.values;
  }

  lemma RangesMeanBounds(cs: seq<Constraint>, x: real)
    requires AllNumeric(cs) && AllHold(cs, Some(x))
    ensures MeetsBounds(x, Ranges(cs))
  {
    var ranges := Ranges(cs);
    forall i | 0 <= i < |ranges| && ValueOf(ranges[i]).num.Some?
      ensures SatisfiesRange(x, ranges[i].op, ValueOf(ranges[i]).num.value)
    {
      assert ranges[i] in ranges;
      assert Holds(ranges[i], Some(x));
    }
  }

  /** Conversely, a number within all bounds satisfies every range constraint. */
  lemma BoundsMeanRanges(cs: seq<Constraint>, x: real, c: Constraint)
    requires AllNumeric(cs) && MeetsBounds(x, Ranges(cs)) && c in cs && IsRangeOperator(c.op)
    ensures Holds(c, Some(x))
  {
    var ranges := Ranges(cs);
    assert c in ranges;
    var i :| 0 <= i < |ranges| && ranges[i] == c;
  }

  lemma BetweensMeanInside(cs: seq<Constraint>, x: real)
    requires AllNumeric(cs) && AllHold(cs, Some(x))
    ensures InAllBetweens(x, WithOp(cs, Between))
  {
    var bs := WithOp(cs, Between);
    forall i | 0 <= i < |bs| && NumericBetween(bs[i]) ensures bs[i].values[0].num.value <= x <= bs[i].values[1].num.value {
      GroupMember(cs, Between, i);
      assert Holds(bs[i], Some(x));
    }
  }

  lemma UndecidedIsAbsent(cs: seq<Constraint>, op: Op)
    requires AllDecided(cs) && !Decided(op)
    ensures WithOp(cs, op) == []
  {
    if WithOp(cs, op) != [] {
      GroupMember(cs, op, 0);
    }
  }

  /** A value equal to an operand clashes with a != on the same text. */
  lemma EqualClashes(cs: seq<Constraint>, o: Operand)
    requires AllNumeric(cs) && Consistent(cs) && HasOperand(cs, o) && o.num.Some?
    requires SameText(WithOp(cs, Neq), o.text)
    ensures !AllHold(cs, o.num)
  {
    var neqs := WithOp(cs, Neq);
    var j :| 0 <= j < |neqs| && ValueOf(neqs[j]).text == o.text;
    GroupMember(cs, Neq, j);
    var p := ValueOf(neqs[j]);
    assert p in neqs[j].values;
    assert HasOperand(cs, p);
    assert p.num == o.num;
    assert !Holds(neqs[j], o.num);
  }

  /** A value equal to an operand misses an IN list without its text, unless it is there in another spelling. */
  lemma EqualMisses(cs: seq<Constraint>, o: Operand)
    requires AllNumeric(cs) && !Misspelled(cs) && EqOperand(cs, o) && o.num.Some?
    requires SomeListLacks(WithOp(cs, In), o.text)
    ensures !AllHold(cs, o.num)
  {
    var ins := WithOp(cs, In);
    var j :| 0 <= j < |ins| && !TextAmong(ins[j].values, o.text);
    GroupMember(cs, In, j);
    assert !ListSpellsOtherwise(cs, o, ins[j]);
    forall k | 0 <= k < |ins[j].values| ensures ins[j].values[k].num != o.num {
      assert ins[j].values[k] in ins[j].values;
    }
    assert !Holds(ins[j], o.num);
  }

  lemma EqualLeavesBetweens(cs: seq<Constraint>, x: real)
    requires AllNumeric(cs) && WithOp(cs, Between) != [] && !InSomeBetween(Some(x), WithOp(cs, Between))
    ensures !AllHold(cs, Some(x))
  {
    var betweens := WithOp(cs, Between);
    if AllHold(cs, Some(x)) {
      BetweensMeanInside(cs, x);
      GroupMember(cs, Between, 0);
      assert NumericBetween(betweens[0]);
      assert ValueSatisfiesBetween(Some(x), betweens[0]);
    }
  }

  /** A NOT IN list with the text of an operand excludes its number. */
  lemma EqualIsListed(cs: seq<Constraint>, o: Operand)
    requires AllNumeric(cs) && Consistent(cs) && HasOperand(cs, o) && o.num.Some?
    requires SomeListHas(WithOp(cs, NotIn), o.text)
    ensures !AllHold(cs, o.num)
  {
    var notIns := WithOp(cs, NotIn);
    var j :| 0 <= j < |notIns| && TextAmong(notIns[j].values, o.text);
    GroupMember(cs, NotIn, j);
    var k :| 0 <= k < |notIns[j].values| && notIns[j].values[k].text == o.text;
    var p := notIns[j].values[k];
    assert p in notIns[j].values && HasOperand(cs, p);
    assert p.num == o.num;
    assert !Holds(notIns[j], o.num);
  }

  lemma EqualIsExcluded(cs: seq<Constraint>, x: real)
    requires AllNumeric(cs) && InSomeBetween(Some(x), WithOp(cs, NotBetween))
    ensures !AllHold(cs, Some(x)) && Excluded(cs, x)
  {
    var excluded := WithOp(cs, NotBetween);
    var j :| 0 <= j < |excluded| && ValueSatisfiesBetween(Some(x), excluded[j]);
    GroupMember(cs, NotBetween, j);
    assert Numeric(excluded[j]) && Spans(excluded[j], x);
    assert !Holds(excluded[j], Some(x));
  }

  lemma ExcludedIsFound(cs: seq<Constraint>, x: real)
    requires AllNumeric(cs) && Excluded(cs, x)
    ensures InSomeBetween(Some(x), WithOp(cs, NotBetween))
  {
    var d :| d in cs && d.op == NotBetween && Spans(d, x);
    var excluded := WithOp(cs, NotBetween);
    assert d in excluded;
    var j :| 0 <= j < |excluded| && excluded[j] == d;
    assert ValueSatisfiesBetween(Some(x), excluded[j]);
  }

  /** A report of an equality against other constraints leaves no value. */
  lemma EqualReportMeansNoValue(field: Field, cs: seq<Constraint>, i: nat, r: Report, v: Option<real>)
    requires AllNumeric(cs) && Consistent(cs) && !Misspelled(cs)
    requires i < |WithOp(cs, Eq)| && EqualReport(field, ValueOf(WithOp(cs, Eq)[i]), GroupsOf(cs), r)
    ensures !AllHold(cs, v)
  {
    var o := ValueOf(WithOp(cs, Eq)[i]);
    EqualityOf(cs, i);
    if v == o.num {
      match r
      case EqualAndNotEqual(_, _) => EqualClashes(cs, o);
      case EqualNotInIn(_, _) => EqualMisses(cs, o);
      case EqualInNotIn(_, _) => EqualIsListed(cs, o);
      case EqualInNotBetween(_, _) => EqualIsExcluded(cs, o.num.value);
      case EqualOutsideBetween(_, _) => EqualLeavesBetweens(cs, o.num.value);
      case EqualOutsideRange(_, _) =>
        if AllHold(cs, v) {
          RangesMeanBounds(cs, o.num.value);
        }
      case _ =>
    } else {
      assert !Holds(WithOp(cs, Eq)[i], v);
    }
  }

  /** Two equalities with different texts leave no value unless they spell one number. */
  lemma DifferentEqualsMeanNoValue(cs: seq<Constraint>, v: Option<real>)
    requires AllNumeric(cs) && !TwoSpellings(cs) && DifferentTexts(WithOp(cs, Eq))
    ensures !AllHold(cs, v)
  {
    var eqs := WithOp(cs, Eq);
    var i, j :| 0 <= i < |eqs| && 0 <= j < |eqs| && ValueOf(eqs[i]).text != ValueOf(eqs[j]).text;
    EqualityOf(cs, i);
    EqualityOf(cs, j);
    assert !(Holds(eqs[i], v) && Holds(eqs[j], v));
  }

  lemma NoNumberInRange(cs: seq<Constraint>, v: Option<real>)
    requires AllNumeric(cs) && forall x: real :: !MeetsBounds(x, Ranges(cs))
    ensures !AllHold(cs, v)
  {
    SomeRange(Ranges(cs));
    assert Ranges(cs)[0] in Ranges(cs);
    if AllHold(cs, v) {
      RangesMeanBounds(cs, v.value);
    }
  }

  lemma NoNumberBetween(cs: seq<Constraint>, v: Option<real>)
    requires AllNumeric(cs) && WithOp(cs, Between) != [] && forall x: real :: !InAllBetweens(x, WithOp(cs, Between))
    ensures !AllHold(cs, v)
  {
    GroupMember(cs, Between, 0);
    if AllHold(cs, v) {
      BetweensMeanInside(cs, v.value);
    }
  }

  lemma ExistenceClashes(cs: seq<Constraint>, v: Option<real>)
    requires AllNumeric(cs) && WithOp(cs, Exists) != [] && WithOp(cs, NotExists) != []
    ensures !AllHold(cs, v)
  {
    GroupMember(cs, Exists, 0);
    GroupMember(cs, NotExists, 0);
    assert !(Holds(WithOp(cs, Exists)[0], v) && Holds(WithOp(cs, NotExists)[0], v));
  }

  lemma ImpliedClashes(cs: seq<Constraint>, op: Op, v: Option<real>)
    requires AllNumeric(cs) && WithOp(cs, NotExists) != [] && FirstImplied(cs) == Some(op)
    ensures !AllHold(cs, v)
  {
    GroupMember(cs, NotExists, 0);
    var c := ImpliedMember(cs, op);
    assert !(Holds(WithOp(cs, NotExists)[0], v) && Holds(c, v));
  }

  /** Any other report leaves no value either. */
  lemma OtherReportMeansNoValue(field: Field, cs: seq<Constraint>, r: Report, v: Option<real>)
    requires AllNumeric(cs) && !Guessed(cs) && !r.MultipleEquals?
    requires OtherReport(field, cs, GroupsOf(cs), r)
    ensures !AllHold(cs, v)
  {
    if r.InOverlapsNotIn? || r.BetweenExcluded? {
      GuessIsGuessed(field, cs, r);
    }
    match r
    case ImpossibleRange(_) => NoNumberInRange(cs, v);
    case ExistsAndNotExists(_) => ExistenceClashes(cs, v);
    case NotExistsButImplied(_, op) => ImpliedClashes(cs, op, v);
    case BetweensDisjoint(_) => NoNumberBetween(cs, v);
    case _ =>
  }

  lemma {:induction false} RepeatedText(text: string, others: seq<Operand>, t: string)
    ensures t in Repeats(text, others) <==> t == text && TextAmong(others, text)
  {
    if others != [] {
      var n := |others| - 1;
      RepeatedText(text, others[..n], t);
      assert TextAmong(others, text) <==> TextAmong(others[..n], text) || others[n].text == text by {
        if k :| 0 <= k < n && others[k].text == text {
          assert others[..n][k].text == text;
        }
      }
    }
  }

  lemma {:induction false} OverlapTexts(values: seq<Operand>, others: seq<Operand>, t: string)
    ensures t in Overlap(values, others) <==> TextAmong(values, t) && TextAmong(others, t)
  {
    if values != [] {
      var n := |values| - 1;
      OverlapTexts(values[..n], others, t);
      RepeatedText(values[n].text, others, t);
      assert TextAmong(values, t) <==> TextAmong(values[..n], t) || values[n].text == t by {
        if k :| 0 <= k < n && values[k].text == t {
          assert values[..n][k].text == t;
        }
      }
    }
  }

  /** What two lists share is not empty exactly when some texts are equal. */
  lemma OverlapMeans(values: seq<Operand>, others: seq<Operand>)
    ensures Overlap(values, others) != [] <==> exists o, p :: o in values && p in others && o.text == p.text
  {
    if Overlap(values, others) != [] {
      var t := Overlap(values, others)[0];
      OverlapTexts(values, others, t);
      var i :| 0 <= i < |values| && values[i].text == t;
      var j :| 0 <= j < |others| && others[j].text == t;
      assert values[i] in values && others[j] in others;
    }
    if o, p :| o in values && p in others && o.text == p.text {
      var i :| 0 <= i < |values| && values[i] == o;
      var j :| 0 <= j < |others| && others[j] == p;
      OverlapTexts(values, others, o.text);
    }
  }

  /** Reports of the two unsure rules come from what they look at. */
  lemma GuessIsGuessed(field: Field, cs: seq<Constraint>, r: Report)
    requires AllNumeric(cs) && OtherReport(field, cs, GroupsOf(cs), r)
    ensures r.InOverlapsNotIn? ==> ListsShare(cs)
    ensures r.BetweenExcluded? ==> EndsExcluded(cs)
  {
    if r.InOverlapsNotIn? {
      OverlapIsShared(cs, r.overlap);
    }
    if r.BetweenExcluded? {
      ThreePointsAreExcluded(cs);
    }
  }

  lemma OverlapIsShared(cs: seq<Constraint>, overlap: seq<string>)
    requires ListsOverlap(WithOp(cs, In), WithOp(cs, NotIn), overlap)
    ensures ListsShare(cs)
  {
    var ins, notIns := WithOp(cs, In), WithOp(cs, NotIn);
    var i, j :| 0 <= i < |ins| && 0 <= j < |notIns| && overlap == Overlap(ins[i].values, notIns[j].values);
    GroupMember(cs, In, i);
    GroupMember(cs, NotIn, j);
    OverlapMeans(ins[i].values, notIns[j].values);
    var o, p :| o in ins[i].values && p in notIns[j].values && o.text == p.text;
    assert ShareText(cs, ins[i], notIns[j], o, p);
  }

  lemma ExcludedIsInside(cs: seq<Constraint>, x: real)
    requires AllNumeric(cs)
    ensures Excluded(cs, x) <==> InSomeBetween(Some(x), WithOp(cs, NotBetween))
  {
    if Excluded(cs, x) {
      ExcludedIsFound(cs, x);
    } else if InSomeBetween(Some(x), WithOp(cs, NotBetween)) {
      EqualIsExcluded(cs, x);
    }
  }

  lemma RangeIsExcluded(cs: seq<Constraint>, b: Constraint)
    requires AllNumeric(cs) && b in cs && b.op == Between
    ensures RangeExcluded(cs, b) <==> ThreePointsExcluded(b, WithOp(cs, NotBetween))
  {
    assert Numeric(b);
    var lo, hi := b.values[0].num.value, b.values[1].num.value;
    ExcludedIsInside(cs, lo);
    ExcludedIsInside(cs, hi);
    ExcludedIsInside(cs, (lo + hi) / 2.0);
  }

  lemma ThreePointsAreExcluded(cs: seq<Constraint>)
    requires AllNumeric(cs) && SomeExcluded(WithOp(cs, Between), WithOp(cs, NotBetween))
    ensures EndsExcluded(cs)
  {
    var betweens := WithOp(cs, Between);
    var i :| 0 <= i < |betweens| && ThreePointsExcluded(betweens[i], WithOp(cs, NotBetween));
    GroupMember(cs, Between, i);
    RangeIsExcluded(cs, betweens[i]);
  }

  lemma SharedIsReported(field: Field, cs: seq<Constraint>)
    requires ListsShare(cs)
    ensures exists overlap :: IsReport(field, cs, InOverlapsNotIn(field, overlap))
  {
    var c, d, o, p :| ShareText(cs, c, d, o, p);
    OverlapMeans(c.values, d.values);
    OverlapIsReported(field, cs, c, d);
  }

  /** Two lists with a text in common are reported with what they share. */
  lemma OverlapIsReported(field: Field, cs: seq<Constraint>, c: Constraint, d: Constraint)
    requires c in cs && c.op == In && d in cs && d.op == NotIn && Overlap(c.values, d.values) != []
    ensures IsReport(field, cs, InOverlapsNotIn(field, Overlap(c.values, d.values)))
  {
    var ins, notIns := WithOp(cs, In), WithOp(cs, NotIn);
    assert c in ins && d in notIns;
    var i :| 0 <= i < |ins| && ins[i] == c;
    var j :| 0 <= j < |notIns| && notIns[j] == d;
    assert ListsOverlap(ins, notIns, Overlap(ins[i].values, notIns[j].values));
    assert OtherReport(field, cs, GroupsOf(cs), InOverlapsNotIn(field, Overlap(c.values, d.values)));
  }

  lemma EndsAreFound(cs: seq<Constraint>)
    requires AllNumeric(cs) && EndsExcluded(cs)
    ensures SomeExcluded(WithOp(cs, Between), WithOp(cs, NotBetween))
  {
    var b :| b in cs && b.op == Between && RangeExcluded(cs, b);
    RangeIsExcluded(cs, b);
    var betweens := WithOp(cs, Between);
    assert b in betweens;
    var i :| 0 <= i < |betweens| && betweens[i] == b;
    assert InSomeBetween(Some(b.values[0].num.value), WithOp(cs, NotBetween));
  }

  lemma ExclusionIsReported(field: Field, cs: seq<Constraint>)
    requires AllNumeric(cs) && EndsExcluded(cs)
    ensures IsReport(field, cs, BetweenExcluded(field))
  {
    EndsAreFound(cs);
    assert OtherReport(field, cs, GroupsOf(cs), BetweenExcluded(field));
  }

  lemma SomeRange(ranges: seq<Constraint>)
    requires forall x: real :: !MeetsBounds(x, ranges)
    ensures ranges != []
  {
    if ranges == [] {
      assert MeetsBounds(0.0, ranges);
    }
  }

  lemma {:induction false} ImpliedMember(cs: seq<Constraint>, op: Op) returns (c: Constraint)
    requires FirstImplied(cs) == Some(op)
    ensures c in cs && c.op == op && ImpliesExistence(op)
  {
    if ImpliesExistence(cs[0].op) {
      c := cs[0];
    } else {
      c := ImpliedMember(cs[1..], op);
    }
  }

  lemma {:induction false} NothingImplied(cs: seq<Constraint>, c: Constraint)
    requires FirstImplied(cs) == None && c in cs
    ensures !ImpliesExistence(c.op)
  {
    if c != cs[0] {
      NothingImplied(cs[1..], c);
    }
  }

  /** Soundness on one field. */
  lemma ReportMeansNoValue(field: Field, cs: seq<Constraint>, r: Report, v: Option<real>)
    requires AllNumeric(cs) && Consistent(cs) && !Misspelled(cs) && !Guessed(cs)
    requires IsReport(field, cs, r)
    ensures !AllHold(cs, v)
  {
    if i :| 0 <= i < |WithOp(cs, Eq)| && EqualReport(field, ValueOf(WithOp(cs, Eq)[i]), GroupsOf(cs), r) {
      EqualReportMeansNoValue(field, cs, i, r, v);
    } else if r.MultipleEquals? {
      DifferentEqualsMeanNoValue(cs, v);
    } else {
      OtherReportMeansNoValue(field, cs, r, v);
    }
  }

  ghost predicate Silent(field: Field, cs: seq<Constraint>) {
    forall r :: !IsReport(field, cs, r)
  }

  /** Completeness on one field: without a report some value, or absence, satisfies the constraints. */
  lemma SilenceMeansValue(field: Field, cs: seq<Constraint>) returns (v: Option<real>)
    requires AllNumeric(cs) && AllDecided(cs) && Consistent(cs) && Silent(field, cs)
    ensures AllHold(cs, v)
  {
    var g := GroupsOf(cs);
    if g.notExists != [] {
      v := None;
      SilentAbsence(field, cs);
    } else if g.eqs != [] {
      v := ValueOf(g.eqs[0]).num;
      SilentEquality(field, cs);
    } else {
      var x := SilentHasNumber(field, cs);
      v := Some(x);
      MeetingBoundsHolds(cs, x);
    }
  }

  lemma SilentAbsenceFacts(field: Field, cs: seq<Constraint>)
    requires Silent(field, cs) && WithOp(cs, NotExists) != []
    ensures WithOp(cs, Exists) == [] && FirstImplied(cs) == None
  {
    SilentOthers(field, cs, ExistsAndNotExists(field));
    ExistenceReport(field, cs, GroupsOf(cs));
    if FirstImplied(cs).Some? {
      var op := FirstImplied(cs).value;
      SilentOthers(field, cs, NotExistsButImplied(field, op));
      ImpliedReport(field, cs, GroupsOf(cs), op);
    }
  }

  lemma ExistenceReport(field: Field, cs: seq<Constraint>, g: Groups)
    ensures OtherReport(field, cs, g, ExistsAndNotExists(field)) <==> g.exists_ != [] && g.notExists != []
  {
  }

  lemma ImpliedReport(field: Field, cs: seq<Constraint>, g: Groups, op: Op)
    ensures OtherReport(field, cs, g, NotExistsButImplied(field, op)) <==> g.notExists != [] && FirstImplied(cs) == Some(op)
  {
  }

  lemma MeetingBoundsHolds(cs: seq<Constraint>, x: real)
    requires AllNumeric(cs) && AllDecided(cs) && MeetsBounds(x, Ranges(cs))
    requires WithOp(cs, NotExists) == [] && WithOp(cs, Eq) == []
    ensures AllHold(cs, Some(x))
  {
    forall c | c in cs ensures Holds(c, Some(x)) {
      assert c.op == Eq ==> c in WithOp(cs, Eq);
      assert c.op == NotExists ==> c in WithOp(cs, NotExists);
      if IsRangeOperator(c.op) {
        BoundsMeanRanges(cs, x, c);
      }
    }
  }

  lemma SilentAbsence(field: Field, cs: seq<Constraint>)
    requires AllNumeric(cs) && AllDecided(cs) && Silent(field, cs)
    requires WithOp(cs, NotExists) != []
    ensures AllHold(cs, None)
  {
    SilentAbsenceFacts(field, cs);
    forall c | c in cs ensures Holds(c, None) {
      NothingImplied(cs, c);
      assert c.op == Exists ==> c in WithOp(cs, Exists);
    }
  }

  lemma SilentOthers(field: Field, cs: seq<Constraint>, r: Report)
    requires Silent(field, cs)
    ensures !OtherReport(field, cs, GroupsOf(cs), r)
  {
    assert !IsReport(field, cs, r);
  }

  lemma SilentEquals(field: Field, cs: seq<Constraint>, i: nat, r: Report)
    requires Silent(field, cs) && i < |WithOp(cs, Eq)|
    ensures !EqualReport(field, ValueOf(WithOp(cs, Eq)[i]), GroupsOf(cs), r)
  {
    assert !IsReport(field, cs, r);
  }

  lemma SilentEquality(field: Field, cs: seq<Constraint>)
    requires AllNumeric(cs) && AllDecided(cs) && Consistent(cs) && Silent(field, cs)
    requires WithOp(cs, NotExists) == [] && WithOp(cs, Eq) != []
    ensures AllHold(cs, ValueOf(WithOp(cs, Eq)[0]).num)
  {
    SilentEqualityFacts(field, cs);
    EqualityHolds(cs);
  }

  lemma SilentEqualityFacts(field: Field, cs: seq<Constraint>)
    requires Silent(field, cs) && WithOp(cs, Eq) != []
    ensures !DifferentTexts(WithOp(cs, Eq)) && !OutsideRanges(ValueOf(WithOp(cs, Eq)[0]).num, Ranges(cs))
  {
    SilentEqualityInRange(field, cs);
    SilentOthers(field, cs, MultipleEquals(field));
  }

  lemma SilentEqualityInRange(field: Field, cs: seq<Constraint>)
    requires Silent(field, cs) && WithOp(cs, Eq) != []
    ensures !OutsideRanges(ValueOf(WithOp(cs, Eq)[0]).num, Ranges(cs))
  {
    var e, g := ValueOf(WithOp(cs, Eq)[0]), GroupsOf(cs);
    SilentEquals(field, cs, 0, EqualOutsideRange(field, e.text));
    OutsideRangeReport(field, e, g, e.text);
  }

  lemma OutsideRangeReport(field: Field, e: Operand, g: Groups, text: string)
    ensures EqualReport(field, e, g, EqualOutsideRange(field, text)) <==> text == e.text && OutsideRanges(e.num, g.ranges)
  {
  }

  lemma SilentHasNumber(field: Field, cs: seq<Constraint>) returns (x: real)
    requires Silent(field, cs)
    ensures MeetsBounds(x, Ranges(cs))
  {
    SilentOthers(field, cs, ImpossibleRange(field));
    x :| MeetsBounds(x, Ranges(cs));
  }

  lemma EqualityHolds(cs: seq<Constraint>)
    requires AllNumeric(cs) && AllDecided(cs) && Consistent(cs)
    requires WithOp(cs, NotExists) == [] && WithOp(cs, Eq) != []
    requires !DifferentTexts(WithOp(cs, Eq)) && !OutsideRanges(ValueOf(WithOp(cs, Eq)[0]).num, Ranges(cs))
    ensures AllHold(cs, ValueOf(WithOp(cs, Eq)[0]).num)
  {
    var o := ValueOf(WithOp(cs, Eq)[0]);
    EqualityOf(cs, 0);
    forall c | c in cs ensures Holds(c, o.num) {
      assert c.op == NotExists ==> c in WithOp(cs, NotExists);
      if c.op == Eq {
        OtherEqualityHolds(cs, c);
      } else if IsRangeOperator(c.op) {
        BoundsMeanRanges(cs, o.num.value, c);
      }
    }
  }

  lemma OtherEqualityHolds(cs: seq<Constraint>, c: Constraint)
    requires AllNumeric(cs) && Consistent(cs) && c in cs && c.op == Eq && WithOp(cs, Eq) != []
    requires !DifferentTexts(WithOp(cs, Eq))
    ensures Holds(c, ValueOf(WithOp(cs, Eq)[0]).num)
  {
    var eqs := WithOp(cs, Eq);
    assert c in eqs;
    var j :| 0 <= j < |eqs| && eqs[j] == c;
    EqualityOf(cs, 0);
    EqualityOf(cs, j);
    assert ValueOf(eqs[j]).text == ValueOf(eqs[0]).text;
  }

  /** Nothing, and no absence either, satisfies the constraints. */
  ghost predicate NoValue(cs: seq<Constraint>)
    requires AllNumeric(cs)
  {
    forall v :: !AllHold(cs, v)
  }

  /** On the decided operators the detector is exact on one field: it reports something exactly when
      nothing satisfies the constraints, or when two equalities spell one number differently. */
  lemma FieldIsDecided(field: Field, cs: seq<Constraint>)
    requires AllNumeric(cs) && AllDecided(cs) && Consistent(cs)
    ensures !Silent(field, cs) <==> NoValue(cs) || TwoSpellings(cs)
  {
    if TwoSpellings(cs) {
      SpellingsAreReported(field, cs);
    } else if Silent(field, cs) {
      var v := SilenceMeansValue(field, cs);
    } else {
      var r :| IsReport(field, cs, r);
      forall v ensures !AllHold(cs, v) {
        DecidedReportMeansNoValue(field, cs, r, v);
      }
    }
  }

  lemma SpellingsAreReported(field: Field, cs: seq<Constraint>)
    requires TwoSpellings(cs)
    ensures !Silent(field, cs)
  {
    var o, p :| EqOperand(cs, o) && EqOperand(cs, p) && o.num == p.num && o.text != p.text;
    var i := EqIndex(cs, o);
    var j := EqIndex(cs, p);
    assert DifferentTexts(WithOp(cs, Eq));
    assert OtherReport(field, cs, GroupsOf(cs), MultipleEquals(field));
    assert IsReport(field, cs, MultipleEquals(field));
  }

  lemma ListSpellingIsReported(field: Field, cs: seq<Constraint>, o: Operand, c: Constraint)
    requires ListSpellsOtherwise(cs, o, c)
    ensures IsReport(field, cs, EqualNotInIn(field, o.text))
  {
    var g := GroupsOf(cs);
    var i := EqIndex(cs, o);
    assert c in WithOp(cs, In);
    var j :| 0 <= j < |g.ins| && g.ins[j] == c;
    assert SomeListLacks(g.ins, o.text);
    assert EqualReport(field, ValueOf(g.eqs[i]), g, EqualNotInIn(field, o.text));
  }

  /** With the other operators too, constraints that something satisfies are reported exactly when they
      are misspelled or one of the two unsure rules applies. */
  lemma FalseReportsOfField(field: Field, cs: seq<Constraint>)
    requires AllNumeric(cs) && Consistent(cs) && !NoValue(cs)
    ensures !Silent(field, cs) <==> Misspelled(cs) || Guessed(cs)
  {
    if TwoSpellings(cs) {
      SpellingsAreReported(field, cs);
    } else if o, c :| ListSpellsOtherwise(cs, o, c) {
      ListSpellingIsReported(field, cs, o, c);
    } else if ListsShare(cs) {
      SharedIsReported(field, cs);
    } else if EndsExcluded(cs) {
      ExclusionIsReported(field, cs);
    } else if r :| IsReport(field, cs, r) {
      forall v ensures !AllHold(cs, v) {
        ReportMeansNoValue(field, cs, r, v);
      }
    }
  }

  lemma EqIndex(cs: seq<Constraint>, o: Operand) returns (i: nat)
    requires EqOperand(cs, o)
    ensures i < |WithOp(cs, Eq)| && ValueOf(WithOp(cs, Eq)[i]) == o
  {
    var c :| c in cs && c.op == Eq && c.values == [o];
    assert c in WithOp(cs, Eq);
    i :| 0 <= i < |WithOp(cs, Eq)| && WithOp(cs, Eq)[i] == c;
  }

  /** As soundness, but only the equalities' spellings matter. */
  lemma DecidedReportMeansNoValue(field: Field, cs: seq<Constraint>, r: Report, v: Option<real>)
    requires AllNumeric(cs) && AllDecided(cs) && Consistent(cs) && !TwoSpellings(cs)
    requires IsReport(field, cs, r)
    ensures !AllHold(cs, v)
  {
    var g := GroupsOf(cs);
    if i :| 0 <= i < |g.eqs| && EqualReport(field, ValueOf(g.eqs[i]), g, r) {
      EqualityOf(cs, i);
      DecidedGroups(cs);
      if AllHold(cs, v) {
        RangesMeanBounds(cs, ValueOf(g.eqs[i]).num.value);
      }
    } else if r.MultipleEquals? {
      DifferentEqualsMeanNoValue(cs, v);
    } else {
      DecidedIsNotGuessed(cs);
      OtherReportMeansNoValue(field, cs, r, v);
    }
  }

  lemma DecidedIsNotGuessed(cs: seq<Constraint>)
    requires AllNumeric(cs) && AllDecided(cs)
    ensures !Guessed(cs)
  {
    assert forall c :: c in cs ==> Decided(c.op);
    assert forall c :: c in cs ==> c.op != In && c.op != Between;
  }

  lemma DecidedGroups(cs: seq<Constraint>)
    requires AllDecided(cs)
    ensures var g := GroupsOf(cs);
            g.neqs == [] && g.ins == [] && g.notIns == [] && g.betweens == [] && g.notBetweens == []
  {
    UndecidedIsAbsent(cs, Neq);
    UndecidedIsAbsent(cs, In);
    UndecidedIsAbsent(cs, NotIn);
    UndecidedIsAbsent(cs, Between);
    UndecidedIsAbsent(cs, NotBetween);
  }

  /** With BETWEEN silence proves nothing: between 1 and 2 and above 5 there is no number, and no rule
      compares a BETWEEN with a bound. */
  lemma SilenceCanMiss(field: Field)
    ensures var one, two, five := Operand("1", Some(1.0)), Operand("2", Some(2.0)), Operand("5", Some(5.0));
            var cs := [Constraint(Between, [one, two]), Constraint(Gt, [five])];
            AllNumeric(cs) && Consistent(cs) && Silent(field, cs) && NoValue(cs)
  {
    var one, two, five := Operand("1", Some(1.0)), Operand("2", Some(2.0)), Operand("5", Some(5.0));
    var b, g := Constraint(Between, [one, two]), Constraint(Gt, [five]);
    NoneBetweenAbove([b, g], b, g);
    BetweenIsSilent(field, b, g);
    OneTextEach([b, g], b, g);
  }

  lemma OneTextEach(cs: seq<Constraint>, b: Constraint, g: Constraint)
    requires cs == [b, g]
    requires b == Constraint(Between, [Operand("1", Some(1.0)), Operand("2", Some(2.0))]) && g == Constraint(Gt, [Operand("5", Some(5.0))])
    ensures Consistent(cs)
  {
    assert "1"[0] == '1' && "2"[0] == '2' && "5"[0] == '5';
    forall o | HasOperand(cs, o) ensures o == b.values[0] || o == b.values[1] || o == g.values[0] {
    }
  }

  lemma BetweenIsSilent(field: Field, b: Constraint, g: Constraint)
    requires b.op == Between && g == Constraint(Gt, [Operand("5", Some(5.0))])
    ensures Silent(field, [b, g])
  {
    BetweenAndBound(b, g);
    assert MeetsBounds(6.0, [g]);
    forall r ensures !IsReport(field, [b, g], r) {
      NoRuleApplies(field, [b, g], r);
    }
  }

  lemma NoneBetweenAbove(cs: seq<Constraint>, b: Constraint, g: Constraint)
    requires cs == [b, g]
    requires b == Constraint(Between, [Operand("1", Some(1.0)), Operand("2", Some(2.0))]) && g == Constraint(Gt, [Operand("5", Some(5.0))])
    ensures AllNumeric(cs) && NoValue(cs)
  {
    assert b in cs && g in cs;
    forall v ensures !AllHold(cs, v) {
      assert !(Holds(b, v) && Holds(g, v));
    }
  }

  lemma TwoConstraints(a: Constraint, b: Constraint, op: Op)
    ensures WithOp([a, b], op) == (if a.op == op then [a] else []) + if b.op == op then [b] else []
    ensures Ranges([a, b]) == (if IsRangeOperator(a.op) then [a] else []) + if IsRangeOperator(b.op) then [b] else []
  {
    assert [a, b][..1] == [a] && [a][..0] == [];
    assert WithOp([a], op) == if a.op == op then [a] else [];
    assert Ranges([a]) == if IsRangeOperator(a.op) then [a] else [];
  }

  lemma BetweenAndBound(b: Constraint, g: Constraint)
    requires b.op == Between && g.op == Gt
    ensures var groups := GroupsOf([b, g]);
            groups.eqs == [] && groups.ins == [] && groups.notExists == [] && groups.notBetweens == []
            && groups.betweens == [b] && groups.ranges == [g]
  {
    TwoConstraints(b, g, Eq);
    TwoConstraints(b, g, In);
    TwoConstraints(b, g, NotExists);
    TwoConstraints(b, g, NotBetween);
    TwoConstraints(b, g, Between);
  }

  lemma NoRuleApplies(field: Field, cs: seq<Constraint>, r: Report)
    requires var g := GroupsOf(cs);
             g.eqs == [] && g.ins == [] && g.notExists == [] && |g.betweens| == 1 && g.notBetweens == []
    requires MeetsBounds(6.0, Ranges(cs))
    ensures !IsReport(field, cs, r)
  {
  }
}
