/** The aggregations over the samples tables of meter queries. The one-day table holds
    one row for the samples of a day; its expressions must give what the raw ones give. */
module MeterTables {
  import opened Options
  import opened Words

  datatype Temporality = Delta | Cumulative | Unspecified | Unknown

  datatype TimeAggregation = Latest | Sum | Avg | Min | Max | Count | CountDistinct | Rate | Increase | Other

  /** Any other table can be named by a hint. */
  datatype SamplesTable = Samples | Agg1d | Hinted(name: string)

  /** The aggregation functions of the database, over a column of a samples table. */
  datatype Fn = AnyLast | SumOf | AvgOf | MinOf | MaxOf | CountOf | DistinctOf

  datatype ColumnName = ValueColumn | LastColumn | MinColumn | MaxColumn | SumColumn | CountColumn

  datatype Expr = Agg(fn: Fn, column: ColumnName) | Ratio(num: Expr, den: Expr)

  /** No expression is given for an unknown table, temporality or aggregation. */
  function AggregationColumn(table: SamplesTable, temporality: Temporality, agg: TimeAggregation): Option<Expr> {
    if temporality.Unknown? then None
    else
      match table
      case Samples => (
        match agg
        case Latest => Some(Agg(AnyLast, ValueColumn))
        case Sum => Some(Agg(SumOf, ValueColumn))
        case Avg => Some(Agg(AvgOf, ValueColumn))
        case Min => Some(Agg(MinOf, ValueColumn))
        case Max => Some(Agg(MaxOf, ValueColumn))
        case Count => Some(Agg(CountOf, ValueColumn))
        case CountDistinct => Some(Agg(DistinctOf, ValueColumn))
        case Rate | Increase => Some(if temporality.Cumulative? then Agg(MaxOf, ValueColumn) else Agg(SumOf, ValueColumn))
        case Other => None)
      case Agg1d => (
        match agg
        case Latest => Some(Agg(AnyLast, LastColumn))
        case Sum => Some(Agg(SumOf, SumColumn))
        case Avg => Some(Ratio(Agg(SumOf, SumColumn), Agg(SumOf, CountColumn)))
        case Min => Some(Agg(MinOf, MinColumn))
        case Max => Some(Agg(MaxOf, MaxColumn))
        case Count => Some(Agg(SumOf, CountColumn))
        case CountDistinct => None
        case Rate | Increase => Some(if temporality.Cumulative? then Agg(MaxOf, MaxColumn) else Agg(SumOf, SumColumn))
        case Other => None)
      case Hinted(_) => None
  }

  // ----- what expressions evaluate to -----

  function Total(values: seq<real>): real {
    if values == [] then 0.0 else Total(values[..|values| - 1]) + values[|values| - 1]
  }

  function Least(values: seq<real>): real
    requires values != []
  {
    if |values| == 1 then values[0]
    else
      var before := Least(values[..|values| - 1]);
      if values[|values| - 1] < before then values[|values| - 1] else before
  }

  function Greatest(values: seq<real>): real
    requires values != []
  {
    if |values| == 1 then values[0]
    else
      var before := Greatest(values[..|values| - 1]);
      if values[|values| - 1] > before then values[|values| - 1] else before
  }

  function Elements(values: seq<real>): set<real> {
    set v | v in values
  }

  function Apply(fn: Fn, values: seq<real>): real
    requires values != []
  {
    match fn
    case AnyLast => values[|values| - 1]
    case SumOf => Total(values)
    case AvgOf => Total(values) / |values| as real
    case MinOf => Least(values)
    case MaxOf => Greatest(values)
    case CountOf => |values| as real
    case DistinctOf => |Elements(values)| as real
  }

  /** A row of a samples table: a raw sample, or the summary of a day's samples. */
  datatype SampleRow = Raw(value: real) | Day(last: real, min: real, max: real, sum: real, count: nat)

  /** A column of a row; a missing column reads as nothing. */
  function Read(row: SampleRow, column: ColumnName): Option<real> {
    match row
    case Raw(value) => if column == ValueColumn then Some(value) else None
    case Day(last, min, max, sum, count) =>
      match column
      case ValueColumn => None
      case LastColumn => Some(last)
      case MinColumn => Some(min)
      case MaxColumn => Some(max)
      case SumColumn => Some(sum)
      case CountColumn => Some(count as real)
  }

  /** The column over all rows, if they all have it. */
  function ColumnOf(rows: seq<SampleRow>, column: ColumnName): (r: Option<seq<real>>)
    ensures r.Some? ==> |r.value| == |rows| && forall i :: 0 <= i < |rows| ==> Read(rows[i], column) == Some(r.value[i])
    ensures r.None? <==> exists i :: 0 <= i < |rows| && Read(rows[i], column).None?
  {
    if rows == [] then Some([])
    else
      var before := ColumnOf(rows[..|rows| - 1], column);
      var v := Read(rows[|rows| - 1], column);
      if before.None? || v.None? then None else Some(before.value + [v.value])
  }

  /** None: no such column, or a division by zero. */
  function Eval(expr: Expr, rows: seq<SampleRow>): Option<real>
    requires rows != []
  {
    match expr
    case Agg(fn, column) =>
      var values := ColumnOf(rows, column);
      if values.None? then None else Some(Apply(fn, values.value))
    case Ratio(num, den) =>
      var n, d := Eval(num, rows), Eval(den, rows);
      if n.None? || d.None? || d.value == 0.0 then None else Some(n.value / d.value)
  }

  // ----- the one-day table -----

  function RawRows(samples: seq<real>): seq<SampleRow> {
    seq(|samples|, i requires 0 <= i < |samples| => Raw(samples[i]))
  }

  /** The row of a day with samples. */
  function DayRow(samples: seq<real>): SampleRow
    requires samples != []
  {
    Day(samples[|samples| - 1], Least(samples), Greatest(samples), Total(samples), |samples|)
  }

  predicate NonEmptyDays(days: seq<seq<real>>) {
    forall i :: 0 <= i < |days| ==> days[i] != []
  }

  function DayRows(days: seq<seq<real>>): seq<SampleRow>
    requires NonEmptyDays(days)
  {
    seq(|days|, i requires 0 <= i < |days| => DayRow(days[i]))
  }

  function Flat(days: seq<seq<real>>): (r: seq<real>)
    ensures days != [] && NonEmptyDays(days) ==> r != []
  {
    if days == [] then [] else Flat(days[..|days| - 1]) + days[|days| - 1]
  }

  // ----- whole days summed up -----

  lemma {:induction false} TotalConcat(a: seq<real>, b: seq<real>)
    ensures Total(a + b) == Total(a) + Total(b)
    decreases |b|
  {
    if b == [] {
      assert a + b == a;
    } else {
      var n := |b| - 1;
      assert (a + b)[..|a + b| - 1] == a + b[..n];
      TotalConcat(a, b[..n]);
    }
  }

  lemma {:induction false} LeastIs(values: seq<real>)
    requires values != []
    ensures Least(values) in values && forall i :: 0 <= i < |values| ==> Least(values) <= values[i]
  {
    if |values| > 1 {
      LeastIs(values[..|values| - 1]);
    }
  }

  lemma {:induction false} GreatestIs(values: seq<real>)
    requires values != []
    ensures Greatest(values) in values && forall i :: 0 <= i < |values| ==> Greatest(values) >= values[i]
  {
    if |values| > 1 {
      GreatestIs(values[..|values| - 1]);
    }
  }

  lemma LeastConcat(a: seq<real>, b: seq<real>)
    requires a != [] && b != []
    ensures Least(a + b) == if Least(b) < Least(a) then Least(b) else Least(a)
  {
    LeastIs(a);
    LeastIs(b);
    LeastIs(a + b);
    assert forall i :: 0 <= i < |a| ==> (a + b)[i] == a[i];
    assert forall i :: 0 <= i < |b| ==> (a + b)[|a| + i] == b[i];
  }

  lemma GreatestConcat(a: seq<real>, b: seq<real>)
    requires a != [] && b != []
    ensures Greatest(a + b) == if Greatest(b) > Greatest(a) then Greatest(b) else Greatest(a)
  {
    GreatestIs(a);
    GreatestIs(b);
    GreatestIs(a + b);
    assert forall i :: 0 <= i < |a| ==> (a + b)[i] == a[i];
    assert forall i :: 0 <= i < |b| ==> (a + b)[|a| + i] == b[i];
  }

  /** Columns of the one-day table. */
  function Lasts(days: seq<seq<real>>): seq<real>
    requires NonEmptyDays(days)
  {
    seq(|days|, i requires 0 <= i < |days| => days[i][|days[i]| - 1])
  }

  function Mins(days: seq<seq<real>>): seq<real>
    requires NonEmptyDays(days)
  {
    seq(|days|, i requires 0 <= i < |days| => Least(days[i]))
  }

  function Maxs(days: seq<seq<real>>): seq<real>
    requires NonEmptyDays(days)
  {
    seq(|days|, i requires 0 <= i < |days| => Greatest(days[i]))
  }

  function Sums(days: seq<seq<real>>): seq<real> {
    seq(|days|, i requires 0 <= i < |days| => Total(days[i]))
  }

  function Counts(days: seq<seq<real>>): seq<real> {
    seq(|days|, i requires 0 <= i < |days| => |days[i]| as real)
  }

  lemma FlatSplits(days: seq<seq<real>>)
    requires days != []
    ensures Flat(days) == Flat(days[..|days| - 1]) + days[|days| - 1]
    ensures |days| == 1 ==> Flat(days) == days[0]
  {
  }

  lemma {:induction false} SumsAddUp(days: seq<seq<real>>)
    ensures Total(Sums(days)) == Total(Flat(days)) && Total(Counts(days)) == |Flat(days)| as real
    decreases |days|
  {
    if days != [] {
      var rest, day := days[..|days| - 1], days[|days| - 1];
      SumsAddUp(rest);
      assert Sums(days)[..|days| - 1] == Sums(rest) && Counts(days)[..|days| - 1] == Counts(rest);
      TotalConcat(Flat(rest), day);
    }
  }

  lemma {:induction false} MinsAreLeast(days: seq<seq<real>>)
    requires days != [] && NonEmptyDays(days)
    ensures Least(Mins(days)) == Least(Flat(days))
    decreases |days|
  {
    var rest, day := days[..|days| - 1], days[|days| - 1];
    FlatSplits(days);
    if rest != [] {
      MinsAreLeast(rest);
      assert Mins(days)[..|days| - 1] == Mins(rest);
      LeastConcat(Flat(rest), day);
    }
  }

  lemma {:induction false} MaxsAreGreatest(days: seq<seq<real>>)
    requires days != [] && NonEmptyDays(days)
    ensures Greatest(Maxs(days)) == Greatest(Flat(days))
    decreases |days|
  {
    var rest, day := days[..|days| - 1], days[|days| - 1];
    FlatSplits(days);
    if rest != [] {
      MaxsAreGreatest(rest);
      assert Maxs(days)[..|days| - 1] == Maxs(rest);
      GreatestConcat(Flat(rest), day);
    }
  }

  lemma AggIs(fn: Fn, column: ColumnName, rows: seq<SampleRow>, values: seq<real>)
    requires rows != [] && |values| == |rows|
    requires forall i :: 0 <= i < |rows| ==> Read(rows[i], column) == Some(values[i])
    ensures Eval(Agg(fn, column), rows) == Some(Apply(fn, values))
  {
    assert ColumnOf(rows, column).value == values;
  }

  /** A column of the one-day table, row by row. */
  function DayColumn(days: seq<seq<real>>, column: ColumnName): (r: seq<real>)
    requires NonEmptyDays(days)
    ensures |r| == |days|
  {
    match column
    case ValueColumn => seq(|days|, i requires 0 <= i < |days| => 0.0)
    case LastColumn => Lasts(days)
    case MinColumn => Mins(days)
    case MaxColumn => Maxs(days)
    case SumColumn => Sums(days)
    case CountColumn => Counts(days)
  }

  lemma AggOfDays(fn: Fn, column: ColumnName, days: seq<seq<real>>)
    requires days != [] && NonEmptyDays(days) && column != ValueColumn
    ensures Eval(Agg(fn, column), DayRows(days)) == Some(Apply(fn, DayColumn(days, column)))
  {
    forall i | 0 <= i < |days| ensures Read(DayRows(days)[i], column) == Some(DayColumn(days, column)[i]) {
    }
    AggIs(fn, column, DayRows(days), DayColumn(days, column));
  }

  /** The one-day expression for a raw aggregation function. */
  function DayExpr(fn: Fn): Expr
    requires fn != DistinctOf
  {
    match fn
    case AnyLast => Agg(AnyLast, LastColumn)
    case SumOf => Agg(SumOf, SumColumn)
    case AvgOf => Ratio(Agg(SumOf, SumColumn), Agg(SumOf, CountColumn))
    case MinOf => Agg(MinOf, MinColumn)
    case MaxOf => Agg(MaxOf, MaxColumn)
    case CountOf => Agg(SumOf, CountColumn)
  }

  lemma AvgIsExact(days: seq<seq<real>>)
    requires days != [] && NonEmptyDays(days)
    ensures Eval(DayExpr(AvgOf), DayRows(days)) == Some(Apply(AvgOf, Flat(days)))
  {
    SumsAddUp(days);
    AggOfDays(SumOf, SumColumn, days);
    AggOfDays(SumOf, CountColumn, days);
    assert |Flat(days)| as real != 0.0;
  }

  lemma EndsAreExact(days: seq<seq<real>>, fn: Fn)
    requires days != [] && NonEmptyDays(days) && (fn == AnyLast || fn == MinOf || fn == MaxOf)
    ensures Eval(DayExpr(fn), DayRows(days)) == Some(Apply(fn, Flat(days)))
  {
    match fn
    case AnyLast =>
      AggOfDays(AnyLast, LastColumn, days);
      FlatSplits(days);
    case MinOf =>
      AggOfDays(MinOf, MinColumn, days);
      MinsAreLeast(days);
    case MaxOf =>
      AggOfDays(MaxOf, MaxColumn, days);
      MaxsAreGreatest(days);
  }

  lemma TotalsAreExact(days: seq<seq<real>>, fn: Fn)
    requires days != [] && NonEmptyDays(days) && (fn == SumOf || fn == CountOf)
    ensures Eval(DayExpr(fn), DayRows(days)) == Some(Apply(fn, Flat(days)))
  {
    SumsAddUp(days);
    AggOfDays(SumOf, SumColumn, days);
    AggOfDays(SumOf, CountColumn, days);
  }

  lemma DayExprIsExact(days: seq<seq<real>>, fn: Fn)
    requires days != [] && NonEmptyDays(days) && fn != DistinctOf
    ensures Eval(DayExpr(fn), DayRows(days)) == Some(Apply(fn, Flat(days)))
  {
    match fn
    case AnyLast | MinOf | MaxOf => EndsAreExact(days, fn);
    case SumOf | CountOf => TotalsAreExact(days, fn);
    case AvgOf => AvgIsExact(days);
  }

  /** Over any group of whole days, the expression for the one-day table gives what the expression for
      the raw samples gives, for every temporality and every aggregation the one-day table supports. */
  lemma DayTableIsExact(days: seq<seq<real>>, temporality: Temporality, agg: TimeAggregation)
    requires days != [] && NonEmptyDays(days)
    requires AggregationColumn(Agg1d, temporality, agg).Some?
    ensures AggregationColumn(Samples, temporality, agg).Some?
    ensures Eval(AggregationColumn(Agg1d, temporality, agg).value, DayRows(days))
            == Eval(AggregationColumn(Samples, temporality, agg).value, RawRows(Flat(days)))
    ensures Eval(AggregationColumn(Agg1d, temporality, agg).value, DayRows(days)).Some?
  {
    var raw := AggregationColumn(Samples, temporality, agg).value;
    assert AggregationColumn(Agg1d, temporality, agg).value == DayExpr(raw.fn);
    AggIs(raw.fn, ValueColumn, RawRows(Flat(days)), Flat(days));
    DayExprIsExact(days, raw.fn);
  }

  // ----- what the aggregations are -----

  /** What an aggregation of some samples is. */
  ghost predicate IsAggregate(temporality: Temporality, agg: TimeAggregation, samples: seq<real>, v: real) {
    match agg
    case Latest => samples != [] && v == samples[|samples| - 1]
    case Sum => v == Total(samples)
    case Avg => v * |samples| as real == Total(samples)
    case Min => v in samples && forall x :: x in samples ==> v <= x
    case Max => v in samples && forall x :: x in samples ==> v >= x
    case Count => v == |samples| as real
    case CountDistinct => v == |set x | x in samples| as real
    case Rate | Increase =>
      if temporality == Cumulative then v in samples && forall x :: x in samples ==> v >= x else v == Total(samples)
    case Other => false
  }

  /** The expression over the rows gives the aggregation of the samples. */
  ghost predicate Gives(expr: Option<Expr>, rows: seq<SampleRow>, temporality: Temporality, agg: TimeAggregation, samples: seq<real>) {
    expr.Some? && rows != [] && Eval(expr.value, rows).Some? && IsAggregate(temporality, agg, samples, Eval(expr.value, rows).value)
  }

  lemma AggregateOf(fn: Fn, samples: seq<real>, temporality: Temporality, agg: TimeAggregation)
    requires samples != [] && AggregationColumn(Samples, temporality, agg) == Some(Agg(fn, ValueColumn))
    ensures IsAggregate(temporality, agg, samples, Apply(fn, samples))
  {
    if fn == MinOf {
      LeastIs(samples);
    } else if fn == MaxOf {
      GreatestIs(samples);
    } else if fn == DistinctOf {
      assert Elements(samples) == set x | x in samples;
    }
  }

  lemma RawColumnExists(temporality: Temporality, agg: TimeAggregation)
    ensures AggregationColumn(Samples, temporality, agg).Some? <==> temporality != Unknown && agg != Other
    ensures AggregationColumn(Samples, temporality, agg).Some? ==>
              var expr := AggregationColumn(Samples, temporality, agg).value; expr.Agg? && expr.column == ValueColumn
  {
  }

  /** The expression over raw samples gives the aggregation, for every known temporality and aggregation. */
  lemma RawTableIsExact(samples: seq<real>, temporality: Temporality, agg: TimeAggregation)
    requires samples != [] && temporality != Unknown && agg != Other
    ensures Gives(AggregationColumn(Samples, temporality, agg), RawRows(samples), temporality, agg, samples)
  {
    RawColumnExists(temporality, agg);
    var fn := AggregationColumn(Samples, temporality, agg).value.fn;
    AggIs(fn, ValueColumn, RawRows(samples), samples);
    AggregateOf(fn, samples, temporality, agg);
  }

  const SAMPLES_TABLE := "distributed_samples"
  const SAMPLES_AGG_1D_TABLE := "distributed_samples_agg_1d"
  const ONE_MONTH_MILLIS: nat := 2_592_000_000
  const OFFSET_MILLIS: nat := 3_600_000

  function TableNamed(name: string): SamplesTable {
    if name == SAMPLES_TABLE then Samples else if name == SAMPLES_AGG_1D_TABLE then Agg1d else Hinted(name)
  }

  /** The table for a range in milliseconds: what the hint names; raw samples for distinct counts and for
      ranges of less than thirty days and an hour. */
  function WhichSamplesTable(start: nat, end: nat, agg: TimeAggregation, hint: Option<string>): SamplesTable {
    if hint.Some? && hint.value != "" then TableNamed(hint.value)
    else if agg == CountDistinct then Samples
    else if Sub64(end, start) < ONE_MONTH_MILLIS + OFFSET_MILLIS then Samples
    else Agg1d
  }

  /** The rows a table has for the samples of some whole days. */
  function RowsIn(table: SamplesTable, days: seq<seq<real>>): seq<SampleRow>
    requires NonEmptyDays(days)
  {
    if table == Agg1d then DayRows(days) else RawRows(Flat(days))
  }

  lemma DistinctIsRaw(start: nat, end: nat, agg: TimeAggregation)
    ensures var table := WhichSamplesTable(start, end, agg, None); table == Samples || (table == Agg1d && agg != CountDistinct)
  {
  }

  lemma DayGives(days: seq<seq<real>>, temporality: Temporality, agg: TimeAggregation)
    requires days != [] && NonEmptyDays(days) && AggregationColumn(Agg1d, temporality, agg).Some?
    requires Gives(AggregationColumn(Samples, temporality, agg), RawRows(Flat(days)), temporality, agg, Flat(days))
    ensures Gives(AggregationColumn(Agg1d, temporality, agg), DayRows(days), temporality, agg, Flat(days))
  {
    DayTableIsExact(days, temporality, agg);
  }

  lemma DayTableHas(temporality: Temporality, agg: TimeAggregation)
    ensures AggregationColumn(Agg1d, temporality, agg).Some? <==> temporality != Unknown && agg != Other && agg != CountDistinct
  {
  }

  /** Whatever the range is, without a hint the table chosen has an expression for every aggregation,
      which over whole days gives the aggregation of all their samples. */
  lemma ChosenTableIsExact(start: nat, end: nat, days: seq<seq<real>>, temporality: Temporality, agg: TimeAggregation)
    requires days != [] && NonEmptyDays(days) && temporality != Unknown && agg != Other
    ensures var table := WhichSamplesTable(start, end, agg, None);
            Gives(AggregationColumn(table, temporality, agg), RowsIn(table, days), temporality, agg, Flat(days))
  {
    DistinctIsRaw(start, end, agg);
    DayTableHas(temporality, agg);
    RawTableIsExact(Flat(days), temporality, agg);
    if agg != CountDistinct {
      DayGives(days, temporality, agg);
    }
  }

  lemma TotalOfFour(w: real, x: real, y: real, z: real)
    ensures Total([w, x, y, z]) == w + x + y + z
  {
    TotalConcat([w], [x]);
    TotalConcat([w] + [x], [y]);
    TotalConcat([w] + [x] + [y], [z]);
    assert [w] + [x] + [y] + [z] == [w, x, y, z];
    assert forall v: real :: Total([v]) == Total([]) + v by {
      forall v: real ensures Total([v]) == Total([]) + v {
        assert [v][..0] == [];
      }
    }
  }

  /** No expression over one-day rows can count distinct samples: these two days have the same row. */
  lemma DistinctNeedsSamples()
    ensures var a, b := [3.0, 2.0, 2.0, 1.0], [3.0, 1.5, 2.5, 1.0];
            DayRow(a) == DayRow(b) && Apply(DistinctOf, a) != Apply(DistinctOf, b)
  {
    var a, b := [3.0, 2.0, 2.0, 1.0], [3.0, 1.5, 2.5, 1.0];
    TotalOfFour(3.0, 2.0, 2.0, 1.0);
    TotalOfFour(3.0, 1.5, 2.5, 1.0);
    LeastIs(a);
    LeastIs(b);
    GreatestIs(a);
    GreatestIs(b);
    assert a[0] == b[0] == 3.0 && a[3] == b[3] == 1.0;
    assert Elements(a) == {1.0, 2.0, 3.0};
    assert Elements(b) == {1.0, 1.5, 2.5, 3.0};
  }
}
