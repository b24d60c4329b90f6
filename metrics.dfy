/** The four per-row metrics and the four public entry points built from them
    with `construct_agg_fn(metric, "all", "mean")`. Each metric maps a table
    to a series aligned with its rows. */
module Metrics {
  import opened Seqs
  import opened Frames
  import opened Aggregation

  const Response1: string := "response_1"
  const Response2: string := "response_2"
  const Advice: string := "advice"

  /** The default of `min_to_activate`. */
  const DefaultMinToActivate: real := 0.07

  /** The default `stage` of the accuracy metric. */
  const DefaultStage: string := Response1

  /** The guard added to the weight-of-advice denominator. */
  const Epsilon: real := 0.001

  function Abs(x: real): (r: real)
    ensures r >= 0.0 && (r == x || r == -x)
  {
    if x < 0.0 then -x else x
  }

  /** The column exists and every cell of it is a number. */
  predicate HasNumbers(t: Frame, c: string) {
    c in t.columns && forall i :: 0 <= i < |t.rows| ==> t.rows[i][c].Num?
  }

  /** The numbers of a series; a non-number makes the arithmetic on the
      series fail. */
  function Numbers(cells: seq<Value>, column: string): (r: Result<seq<real>>)
    ensures r.Ok? <==> forall i :: 0 <= i < |cells| ==> cells[i].Num?
    ensures r.Err? ==> r.error == NonNumeric(column)
    ensures r.Ok? ==> |r.value| == |cells| && forall i :: 0 <= i < |cells| ==> cells[i] == Num(r.value[i])
  {
    if forall i :: 0 <= i < |cells| ==> cells[i].Num? then Ok(seq(|cells|, i requires 0 <= i < |cells| => cells[i].x))
    else Err(NonNumeric(column))
  }

  /** `_activation_rate(df, min_to_activate=0.07)`: whether each row's second
      response moved away from the first by more than the threshold. */
  function ActivationRateMetric(t: Frame, minToActivate: Option<real>): (r: Result<seq<Value>>)
    ensures r.Ok? <==> HasNumbers(t, Response1) && HasNumbers(t, Response2)
    ensures Response1 !in t.columns ==> r == Err(MissingColumn(Response1))
    ensures Response1 in t.columns && Response2 !in t.columns ==> r == Err(MissingColumn(Response2))
    ensures r.Ok? ==> |r.value| == |t.rows| && forall i :: 0 <= i < |t.rows| ==>
      r.value[i] == Flag(Abs(t.rows[i][Response2].x - t.rows[i][Response1].x) > minToActivate.GetOr(DefaultMinToActivate))
  {
    var threshold := minToActivate.GetOr(DefaultMinToActivate);
    match Column(t, Response1)
    case Err(e) => Err(e)
    case Ok(c1) =>
      match Column(t, Response2)
      case Err(e) => Err(e)
      case Ok(c2) =>
        match Numbers(c2, Response2)
        case Err(e) => Err(e)
        case Ok(r2) =>
          match Numbers(c1, Response1)
          case Err(e) => Err(e)
          case Ok(r1) => Ok(seq(|t.rows|, i requires 0 <= i < |t.rows| => Flag(Abs(r2[i] - r1[i]) > threshold)))
  }

  /** `responses > 0` for one cell: a boolean compares as 0 or 1, text does
      not compare. */
  function Positive(v: Value): bool
    requires !v.Text?
  {
    match v
    case Num(x) => x > 0.0
    case Flag(b) => b
  }

  /** `_accuracy(df, stage='response_1')`: whether each row's `stage` value
      is positive. */
  function AccuracyMetric(t: Frame, stage: Option<string>): (r: Result<seq<Value>>)
    ensures var s := stage.GetOr(DefaultStage);
      && (r.Ok? <==> s in t.columns && forall i :: 0 <= i < |t.rows| ==> !t.rows[i][s].Text?)
      && (s !in t.columns ==> r == Err(MissingColumn(s)))
      && (s in t.columns && r.Err? ==> r == Err(NonNumeric(s)))
      && (r.Ok? ==> |r.value| == |t.rows| && forall i :: 0 <= i < |t.rows| ==>
            && (t.rows[i][s].Num? ==> r.value[i] == Flag(t.rows[i][s].x > 0.0))
            && (t.rows[i][s].Flag? ==> r.value[i] == t.rows[i][s]))
  {
    var s := stage.GetOr(DefaultStage);
    match Column(t, s)
    case Err(e) => Err(e)
    case Ok(cells) =>
      if forall i :: 0 <= i < |cells| ==> !cells[i].Text? then
        Ok(seq(|cells|, i requires 0 <= i < |cells| => Flag(Positive(cells[i]))))
      else Err(NonNumeric(s))
  }

  /** `_correct_confidence(df, stage)`: the `stage` column unchanged. */
  function CorrectConfidenceMetric(t: Frame, stage: string): (r: Result<seq<Value>>)
    ensures r.Ok? <==> stage in t.columns
    ensures r.Err? ==> r.error == MissingColumn(stage)
    ensures r.Ok? ==> |r.value| == |t.rows| && forall i :: 0 <= i < |t.rows| ==> r.value[i] == t.rows[i][stage]
  {
    Column(t, stage)
  }

  /** The weight-of-advice denominator of one row: the distance from the
      first response to the advice, plus the guard. */
  function Denominator(r1: real, a: real): real {
    a - r1 + Epsilon
  }

  /** The weight of advice of one row: the move from the first to the second
      response, relative to the denominator. */
  function Weight(r1: real, r2: real, a: real): real
    requires Denominator(r1, a) != 0.0
  {
    (r2 - r1) / Denominator(r1, a)
  }

  /** `_weight_of_advice(df)`: how far each row's second response moved,
      relative to the distance from the first response to the advice, with
      the denominator guarded by `Epsilon`. */
  function WeightOfAdviceMetric(t: Frame, noArgs: ()): (r: Result<seq<Value>>)
    ensures r.Ok? <==>
      && HasNumbers(t, Response1) && HasNumbers(t, Response2) && HasNumbers(t, Advice)
      && forall i :: 0 <= i < |t.rows| ==> Denominator(t.rows[i][Response1].x, t.rows[i][Advice].x) != 0.0
    ensures Response1 !in t.columns ==> r == Err(MissingColumn(Response1))
    ensures Response1 in t.columns && Response2 !in t.columns ==> r == Err(MissingColumn(Response2))
    ensures Response1 in t.columns && Response2 in t.columns && Advice !in t.columns ==> r == Err(MissingColumn(Advice))
    ensures r.Ok? ==> |r.value| == |t.rows| && forall i :: 0 <= i < |t.rows| ==>
      r.value[i] == Num(Weight(t.rows[i][Response1].x, t.rows[i][Response2].x, t.rows[i][Advice].x))
  {
    match Column(t, Response1)
    case Err(e) => Err(e)
    case Ok(c1) =>
      match Column(t, Response2)
      case Err(e) => Err(e)
      case Ok(c2) =>
        match Column(t, Advice)
        case Err(e) => Err(e)
        case Ok(ca) =>
          match Numbers(c2, Response2)
          case Err(e) => Err(e)
          case Ok(r2) =>
            match Numbers(c1, Response1)
            case Err(e) => Err(e)
            case Ok(r1) =>
              match Numbers(ca, Advice)
              case Err(e) => Err(e)
              case Ok(a) =>
                if forall i :: 0 <= i < |t.rows| ==> Denominator(r1[i], a[i]) != 0.0 then
                  Ok(seq(|t.rows|, i requires 0 <= i < |t.rows| => Num(Weight(r1[i], r2[i], a[i]))))
                else Err(ZeroDenominator)
  }

  /** `activation_rate`. */
  function ActivationRate(): (calcFn: (Frame, Option<string>, Option<string>, Option<real>) -> Result<Output>)
    ensures forall t, g, m, a :: calcFn(t, g, m, a) == AggregateOutput(t, ActivationRateMetric, g.GetOr("all"), m.GetOr("mean"), a)
  {
    ConstructAggFn(ActivationRateMetric, "all", "mean")
  }

  /** `accuracy`. */
  function Accuracy(): (calcFn: (Frame, Option<string>, Option<string>, Option<string>) -> Result<Output>)
    ensures forall t, g, m, a :: calcFn(t, g, m, a) == AggregateOutput(t, AccuracyMetric, g.GetOr("all"), m.GetOr("mean"), a)
  {
    ConstructAggFn(AccuracyMetric, "all", "mean")
  }

  /** `correct_confidence`. */
  function CorrectConfidence(): (calcFn: (Frame, Option<string>, Option<string>, string) -> Result<Output>)
    ensures forall t, g, m, a :: calcFn(t, g, m, a) == AggregateOutput(t, CorrectConfidenceMetric, g.GetOr("all"), m.GetOr("mean"), a)
  {
    ConstructAggFn(CorrectConfidenceMetric, "all", "mean")
  }

  /** `weight_of_advice`. */
  function WeightOfAdvice(): (calcFn: (Frame, Option<string>, Option<string>, ()) -> Result<Output>)
    ensures forall t, g, m, a :: calcFn(t, g, m, a) == AggregateOutput(t, WeightOfAdviceMetric, g.GetOr("all"), m.GetOr("mean"), a)
  {
    ConstructAggFn(WeightOfAdviceMetric, "all", "mean")
  }

  /** A value with (at most) two decimal places: a whole number of
      hundredths. */
  predicate TwoDecimals(x: real) {
    (x * 100.0).Floor as real == x * 100.0
  }

  /** With two-decimal responses and advice, `a - r1` is a whole number of
      hundredths, so adding a thousandth never gives zero. */
  lemma GuardedDenominatorNonZero(r1: real, a: real)
    requires TwoDecimals(r1) && TwoDecimals(a)
    ensures Denominator(r1, a) != 0.0
  {
    var p := (r1 * 100.0).Floor;
    var q := (a * 100.0).Floor;
    assert (a - r1 + Epsilon) * 1000.0 == (10 * (q - p) + 1) as real;
  }

  /** On two-decimal data the weight of advice is defined for every row. */
  lemma WeightOfAdviceDefined(t: Frame)
    requires HasNumbers(t, Response1) && HasNumbers(t, Response2) && HasNumbers(t, Advice)
    requires forall i :: 0 <= i < |t.rows| ==> TwoDecimals(t.rows[i][Response1].x) && TwoDecimals(t.rows[i][Advice].x)
    ensures WeightOfAdviceMetric(t, ()).Ok?
    ensures |WeightOfAdviceMetric(t, ()).value| == |t.rows|
  {
    forall i | 0 <= i < |t.rows|
      ensures Denominator(t.rows[i][Response1].x, t.rows[i][Advice].x) != 0.0
    {
      GuardedDenominatorNonZero(t.rows[i][Response1].x, t.rows[i][Advice].x);
    }
  }

  /** With the defaults, `activation_rate` on a non-empty table of numeric
      responses is the fraction of activated rows, between 0 and 1. */
  lemma ActivationRateIsFraction(t: Frame)
    requires |t.rows| > 0 && HasNumbers(t, Response1) && HasNumbers(t, Response2)
    ensures var out := ActivationRate()(t, None, None, None);
      && out.Ok? && out.value.Whole?
      && FractionTrue(out.value.result, ActivationRateMetric(t, None).value)
  {
    assert ActivationRate()(t, None, None, None) == AggregateOutput(t, ActivationRateMetric, "all", "mean", None);
    ActivationMean(t);
  }

  /** With the defaults, `accuracy` on a non-empty table whose first
      responses are numbers is the fraction of positive first responses. */
  lemma AccuracyIsFraction(t: Frame)
    requires |t.rows| > 0 && HasNumbers(t, Response1)
    ensures var out := Accuracy()(t, None, None, None);
      && out.Ok? && out.value.Whole?
      && FractionTrue(out.value.result, AccuracyMetric(t, None).value)
  {
    assert Accuracy()(t, None, None, None) == AggregateOutput(t, AccuracyMetric, "all", "mean", None);
    var s := AccuracyMetric(t, None).value;
    assert |s| == |t.rows| && forall i :: 0 <= i < |s| ==> s[i].Flag?;
    ApplyMeanOfFlags(t, AccuracyMetric, None);
  }

  /** With the defaults, `correct_confidence` of a non-numeric-free stage
      column is its mean: times the number of rows it is the column's sum. */
  lemma CorrectConfidenceIsMean(t: Frame, stage: string)
    requires |t.rows| > 0 && stage in t.columns
    requires forall i :: 0 <= i < |t.rows| ==> !t.rows[i][stage].Text?
    ensures var out := CorrectConfidence()(t, None, None, stage);
      && out.Ok? && out.value.Whole? && out.value.result.Scalar?
      && AllNumeric(Column(t, stage).value)
      && out.value.result.x * |t.rows| as real == Sum(Column(t, stage).value)
  {
    assert CorrectConfidence()(t, None, None, stage) == AggregateOutput(t, CorrectConfidenceMetric, "all", "mean", stage);
    ApplyMeanOfNumbers(t, CorrectConfidenceMetric, stage);
  }

  /** The rows of a group are rows of the table, so a column that is numeric
      in the table is numeric in each group. */
  lemma WhereKeepsNumbers(t: Frame, col: string, v: Value, c: string)
    requires HasNumbers(t, c)
    ensures HasNumbers(Where(t, col, v), c)
  {
    FilterMembers(t.rows, Matches(col, v));
    var g := Where(t, col, v);
    forall k | 0 <= k < |g.rows| ensures g.rows[k][c].Num? {
      var i :| 0 <= i < |t.rows| && t.rows[i] == g.rows[k];
    }
  }

  /** The activation rate of a non-empty table with numeric responses is its
      activated fraction. */
  lemma ActivationMean(g: Frame)
    requires |g.rows| > 0 && HasNumbers(g, Response1) && HasNumbers(g, Response2)
    ensures Apply(g, ActivationRateMetric, Mean, None).Ok?
    ensures FractionTrue(Apply(g, ActivationRateMetric, Mean, None).value, ActivationRateMetric(g, None).value)
  {
    var s := ActivationRateMetric(g, None).value;
    assert |s| == |g.rows| && forall i :: 0 <= i < |s| ==> s[i].Flag?;
    ApplyMeanOfFlags(g, ActivationRateMetric, None);
  }

  /** The group of a value that occurs in the column is non-empty and keeps
      the numeric responses. */
  lemma GroupOfNumbers(t: Frame, col: string, v: Value)
    requires col in t.columns && v in ColumnValues(t, col)
    requires HasNumbers(t, Response1) && HasNumbers(t, Response2)
    ensures |Where(t, col, v).rows| > 0
    ensures HasNumbers(Where(t, col, v), Response1) && HasNumbers(Where(t, col, v), Response2)
  {
    var i :| 0 <= i < |t.rows| && t.rows[i][col] == v;
    FilterMembers(t.rows, Matches(col, v));
    assert t.rows[i] in Where(t, col, v).rows;
    WhereKeepsNumbers(t, col, v, Response1);
    WhereKeepsNumbers(t, col, v, Response2);
  }

  /** One group's activation rate. */
  lemma GroupActivationFraction(t: Frame, col: string, v: Value)
    requires col in t.columns && v in ColumnValues(t, col)
    requires HasNumbers(t, Response1) && HasNumbers(t, Response2)
    ensures HasNumbers(Where(t, col, v), Response1) && HasNumbers(Where(t, col, v), Response2)
    ensures Apply(Where(t, col, v), ActivationRateMetric, Mean, None).Ok?
    ensures FractionTrue(Apply(Where(t, col, v), ActivationRateMetric, Mean, None).value,
                          ActivationRateMetric(Where(t, col, v), None).value)
  {
    GroupOfNumbers(t, col, v);
    ActivationMean(Where(t, col, v));
  }

  /** Grouped by a column, `activation_rate` gives, for every distinct value
      of that column, the activated fraction of that value's rows. */
  lemma ActivationRateByGroup(t: Frame, col: string)
    requires col != "all" && col in t.columns
    requires HasNumbers(t, Response1) && HasNumbers(t, Response2)
    ensures var out := ActivationRate()(t, Some(col), None, None);
      && out.Ok? && out.value.Grouped? && out.value.groups.Keys == ColumnValues(t, col)
      && forall v :: v in out.value.groups ==>
           && HasNumbers(Where(t, col, v), Response1) && HasNumbers(Where(t, col, v), Response2)
           && FractionTrue(out.value.groups[v], ActivationRateMetric(Where(t, col, v), None).value)
  {
    var out := AggregateOutput(t, ActivationRateMetric, col, "mean", None);
    assert ActivationRate()(t, Some(col), None, None) == out;
    assert ReductionOf("mean") == Mean;
    forall v | v in ColumnValues(t, col)
      ensures Apply(Where(t, col, v), ActivationRateMetric, Mean, None).Ok?
    {
      GroupActivationFraction(t, col, v);
    }
    forall v | v in out.value.groups
      ensures && HasNumbers(Where(t, col, v), Response1) && HasNumbers(Where(t, col, v), Response2)
              && FractionTrue(out.value.groups[v], ActivationRateMetric(Where(t, col, v), None).value)
    {
      GroupActivationFraction(t, col, v);
    }
  }

  /** With the defaults, `weight_of_advice` on a non-empty two-decimal table
      is the mean of the per-row weights. */
  lemma WeightOfAdviceMeanDefined(t: Frame)
    requires |t.rows| > 0 && HasNumbers(t, Response1) && HasNumbers(t, Response2) && HasNumbers(t, Advice)
    requires forall i :: 0 <= i < |t.rows| ==> TwoDecimals(t.rows[i][Response1].x) && TwoDecimals(t.rows[i][Advice].x)
    ensures var out := WeightOfAdvice()(t, None, None, ());
      && out.Ok? && out.value.Whole? && out.value.result.Scalar?
      && out.value.result.x * |t.rows| as real == Sum(WeightOfAdviceMetric(t, ()).value)
  {
    assert WeightOfAdvice()(t, None, None, ()) == AggregateOutput(t, WeightOfAdviceMetric, "all", "mean", ());
    WeightOfAdviceDefined(t);
    var s := WeightOfAdviceMetric(t, ()).value;
    assert AllNumeric(s);
    ApplyMeanOfNumbers(t, WeightOfAdviceMetric, ());
  }

  /** Worked examples: responses 0.50 then 0.60 activate, 0.50 then 0.55 do
      not. */
  lemma ActivationExample()
    ensures var t: Frame := Table([Response1, Response2],
                                  [map[Response1 := Num(0.50), Response2 := Num(0.60)],
                                   map[Response1 := Num(0.50), Response2 := Num(0.55)]]);
      ActivationRateMetric(t, None) == Ok([Flag(true), Flag(false)])
  {
    var t: Frame := Table([Response1, Response2],
                          [map[Response1 := Num(0.50), Response2 := Num(0.60)],
                           map[Response1 := Num(0.50), Response2 := Num(0.55)]]);
    assert Response1 != Response2 by { assert Response1[9] != Response2[9]; }
    assert t.rows[0][Response1] == Num(0.50) && t.rows[0][Response2] == Num(0.60);
    assert t.rows[1][Response1] == Num(0.50) && t.rows[1][Response2] == Num(0.55);
    assert HasNumbers(t, Response1) && HasNumbers(t, Response2);
    assert ActivationRateMetric(t, None).Ok?;
    var r := ActivationRateMetric(t, None).value;
    assert |r| == 2;
    assert r[0] == Flag(Abs(0.60 - 0.50) > 0.07);
    assert r[1] == Flag(Abs(0.55 - 0.50) > 0.07);
    assert r == [Flag(true), Flag(false)];
  }

  /** Responses 0.20 then 0.30 with advice 0.20: the guard alone is the
      denominator and the weight is 100. */
  lemma WeightOfAdviceExample()
    ensures var t: Frame := Table([Response1, Advice, Response2],
                                  [map[Response1 := Num(0.20), Advice := Num(0.20), Response2 := Num(0.30)]]);
      WeightOfAdviceMetric(t, ()) == Ok([Num(100.0)])
  {
    var t: Frame := Table([Response1, Advice, Response2],
                          [map[Response1 := Num(0.20), Advice := Num(0.20), Response2 := Num(0.30)]]);
    assert Response1 != Response2 by { assert Response1[9] != Response2[9]; }
    assert Advice != Response1 && Advice != Response2 by { assert |Advice| != |Response1| == |Response2|; }
    assert t.rows[0][Response1] == Num(0.20) && t.rows[0][Advice] == Num(0.20) && t.rows[0][Response2] == Num(0.30);
    assert HasNumbers(t, Response1) && HasNumbers(t, Response2) && HasNumbers(t, Advice);
    assert Denominator(0.20, 0.20) == 0.001;
    assert Weight(0.20, 0.30, 0.20) == 100.0;
    assert WeightOfAdviceMetric(t, ()).Ok?;
    var r := WeightOfAdviceMetric(t, ()).value;
    assert r[0] == Num(Weight(0.20, 0.30, 0.20));
    assert r == [Num(100.0)];
  }

  /** First responses 0.1, -0.2 and 0.0: only the first is positive. */
  lemma AccuracyExample()
    ensures var t: Frame := Table([Response1], [map[Response1 := Num(0.1)], map[Response1 := Num(-0.2)],
                                                map[Response1 := Num(0.0)]]);
      AccuracyMetric(t, None) == Ok([Flag(true), Flag(false), Flag(false)])
  {
    var t: Frame := Table([Response1], [map[Response1 := Num(0.1)], map[Response1 := Num(-0.2)],
                                        map[Response1 := Num(0.0)]]);
    assert forall i :: 0 <= i < |t.rows| ==> t.rows[i][Response1].Num?;
    assert AccuracyMetric(t, None).Ok?;
    var r := AccuracyMetric(t, None).value;
    assert r[0] == Flag(0.1 > 0.0) && r[1] == Flag(-0.2 > 0.0) && r[2] == Flag(0.0 > 0.0);
    assert r == [Flag(true), Flag(false), Flag(false)];
  }
}
