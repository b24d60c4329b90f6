/** The aggregation dispatcher (`aggregate_output`) and its partial
    application (`construct_agg_fn`): a per-row metric is evaluated on the
    whole table or on each group of rows sharing a value in one column, and
    its series is optionally reduced to its mean. */
module Aggregation {
  import opened Seqs
  import opened Frames

  /** The reduction `agg_method` selects: `'mean'` is the mean, anything else
      the identity. */
  datatype Reduction = Mean | Identity

  function ReductionOf(aggMethod: string): (red: Reduction)
    ensures red == Mean <==> aggMethod == "mean"
  {
    if aggMethod == "mean" then Mean else Identity
  }

  /** A metric's output after the reduction: its mean, or the series itself. */
  datatype Reduced = Scalar(x: real) | Series(cells: seq<Value>)

  /** The result of a call: one reduced output for the whole table, or one per
      value of the grouping column. */
  datatype Output = Whole(result: Reduced) | Grouped(groups: map<Value, Reduced>)

  /** A cell the mean can use: a number, or a boolean counted as 0 or 1. */
  predicate IsNumeric(v: Value) {
    !v.Text?
  }

  function NumberOf(v: Value): real
    requires IsNumeric(v)
  {
    match v
    case Num(x) => x
    case Flag(b) => if b then 1.0 else 0.0
  }

  predicate AllNumeric(s: seq<Value>) {
    forall i :: 0 <= i < |s| ==> IsNumeric(s[i])
  }

  function Sum(s: seq<Value>): real
    requires AllNumeric(s)
  {
    if s == [] then 0.0 else Sum(s[..|s| - 1]) + NumberOf(s[|s| - 1])
  }

  /** The arithmetic mean of a series. */
  function MeanOf(s: seq<Value>): (r: Result<real>)
    ensures r.Ok? <==> |s| > 0 && AllNumeric(s)
    ensures r.Err? ==> r.error == if |s| == 0 then EmptyMean else NonNumericMean
    ensures r.Ok? ==> r.value * |s| as real == Sum(s)
  {
    if |s| == 0 then Err(EmptyMean)
    else if !AllNumeric(s) then Err(NonNumericMean)
    else Ok(Sum(s) / |s| as real)
  }

  /** `agg_fn` applied to a series: the identity keeps the series, the mean
      is defined exactly when the series is non-empty and numeric. */
  function Reduce(red: Reduction, s: seq<Value>): (r: Result<Reduced>)
    ensures r.Ok? ==> (r.value.Scalar? <==> red == Mean)
    ensures red == Identity ==> r == Ok(Series(s))
    ensures red == Mean ==>
      && (r.Ok? <==> |s| > 0 && AllNumeric(s))
      && (r.Ok? ==> r.value.Scalar? && r.value.x * |s| as real == Sum(s))
      && (r.Err? ==> r.error == if |s| == 0 then EmptyMean else NonNumericMean)
  {
    match red
    case Identity => Ok(Series(s))
    case Mean =>
      match MeanOf(s)
      case Ok(x) => Ok(Scalar(x))
      case Err(e) => Err(e)
  }

  /** `agg_fn(fn(df, *fn_args, **fn_kwargs))`; the extra arguments are the
      single value `args`. */
  function Apply<A>(t: Frame, fn: (Frame, A) -> Result<seq<Value>>, red: Reduction, args: A): (r: Result<Reduced>)
    ensures r.Ok? ==> (r.value.Scalar? <==> red == Mean)
    // a failing metric fails the application with its own error
    ensures fn(t, args).Err? ==> r == Err(fn(t, args).error)
    ensures fn(t, args).Ok? && red == Identity ==> r == Ok(Series(fn(t, args).value))
    ensures fn(t, args).Ok? && red == Mean ==>
      && (r.Ok? <==> MeanOf(fn(t, args).value).Ok?)
      && (r.Ok? ==> r.value == Scalar(MeanOf(fn(t, args).value).value))
      && (r.Err? ==> r.error == MeanOf(fn(t, args).value).error)
  {
    match fn(t, args)
    case Ok(s) => Reduce(red, s)
    case Err(e) => Err(e)
  }

  /** The distinct values of `col` in the table. */
  ghost function ColumnValues(t: Frame, col: string): set<Value>
    requires col in t.columns
  {
    set i | 0 <= i < |t.rows| :: t.rows[i][col]
  }

  /** The distinct values of `col` over the rows that have it, in order of
      first appearance. */
  function KeysOf(rows: seq<Row>, col: string): (ks: seq<Value>)
    ensures Distinct(ks)
    ensures forall k :: 0 <= k < |ks| ==> ks[k] in (set i | 0 <= i < |rows| && col in rows[i] :: rows[i][col])
    ensures forall i :: 0 <= i < |rows| && col in rows[i] ==> rows[i][col] in ks
  {
    if rows == [] then []
    else
      var prefix := rows[..|rows| - 1];
      var last := rows[|rows| - 1];
      var ks := KeysOf(prefix, col);
      assert forall i :: 0 <= i < |prefix| ==> prefix[i] == rows[i];
      if col !in last || last[col] in ks then ks else ks + [last[col]]
  }

  /** The keys `df.groupby(col)` forms. */
  function GroupKeys(t: Frame, col: string): (ks: seq<Value>)
    requires col in t.columns
    ensures Distinct(ks)
    ensures (set v | v in ks) == ColumnValues(t, col)
  {
    var ks := KeysOf(t.rows, col);
    assert forall i :: 0 <= i < |t.rows| ==> col in t.rows[i];
    ks
  }

  /** The reduced metric for each key in `ks`, computed on the rows holding
      that key; the first key whose group fails gives the error. */
  function ApplyGroups<A>(t: Frame, fn: (Frame, A) -> Result<seq<Value>>, col: string, red: Reduction, args: A,
                          ks: seq<Value>): (r: Result<map<Value, Reduced>>)
    ensures r.Ok? <==> forall k :: 0 <= k < |ks| ==> Apply(Where(t, col, ks[k]), fn, red, args).Ok?
    ensures r.Ok? ==> r.value.Keys == (set v | v in ks)
    ensures r.Ok? ==> forall v :: v in r.value ==> r.value[v] == Apply(Where(t, col, v), fn, red, args).value
    ensures r.Err? ==> exists k :: 0 <= k < |ks| && Apply(Where(t, col, ks[k]), fn, red, args) == Err(r.error)
  {
    if ks == [] then Ok(map[])
    else
      match Apply(Where(t, col, ks[0]), fn, red, args)
      case Err(e) => Err(e)
      case Ok(first) =>
        match ApplyGroups(t, fn, col, red, args, ks[1..])
        case Err(e) => Err(e)
        case Ok(m) => Ok(m[ks[0] := first])
  }

  /** `aggregate_output(df, fn, agg_grouping, agg_method, *fn_args, **fn_kwargs)`. */
  function AggregateOutput<A>(t: Frame, fn: (Frame, A) -> Result<seq<Value>>, grouping: string, aggMethod: string,
                              args: A): (r: Result<Output>)
    // 'all' (checked before the columns): the reduction of fn on the whole table
    ensures grouping == "all" ==>
      && (fn(t, args).Err? ==> r == Err(fn(t, args).error))
      && (fn(t, args).Ok? && aggMethod != "mean" ==> r == Ok(Whole(Series(fn(t, args).value))))
      && (fn(t, args).Ok? && aggMethod == "mean" ==>
            && (r.Ok? <==> MeanOf(fn(t, args).value).Ok?)
            && (r.Ok? ==> r.value == Whole(Scalar(MeanOf(fn(t, args).value).value)))
            && (r.Err? ==> r.error == MeanOf(fn(t, args).value).error))
    // a column: one entry per distinct value, each the reduction on that group
    ensures grouping != "all" && grouping in t.columns ==>
      && (r.Ok? <==> forall v :: v in ColumnValues(t, grouping) ==> Apply(Where(t, grouping, v), fn, ReductionOf(aggMethod), args).Ok?)
      && (r.Ok? ==> r.value.Grouped? && r.value.groups.Keys == ColumnValues(t, grouping))
      && (r.Ok? ==> forall v :: v in r.value.groups ==>
            r.value.groups[v] == Apply(Where(t, grouping, v), fn, ReductionOf(aggMethod), args).value)
      && (r.Err? ==> exists v :: v in ColumnValues(t, grouping) && Apply(Where(t, grouping, v), fn, ReductionOf(aggMethod), args) == Err(r.error))
    // anything else fails before fn is called
    ensures grouping != "all" && grouping !in t.columns ==> r == Err(InvalidGrouping(grouping))
  {
    var red := ReductionOf(aggMethod);
    if grouping == "all" then
      match Apply(t, fn, red, args)
      case Ok(x) => Ok(Whole(x))
      case Err(e) => Err(e)
    else if grouping in t.columns then
      var ks := GroupKeys(t, grouping);
      match ApplyGroups(t, fn, grouping, red, args, ks)
      case Ok(m) => Ok(Grouped(m))
      case Err(e) => Err(e)
    else Err(InvalidGrouping(grouping))
  }

  /** `construct_agg_fn(fn, agg_grouping_default, agg_method_default)`: the
      returned function is `aggregate_output` with `fn` bound, and with a
      grouping and a method that take the bound defaults unless given. */
  function ConstructAggFn<A(!new)>(fn: (Frame, A) -> Result<seq<Value>>, groupingDefault: string, methodDefault: string):
    (calcFn: (Frame, Option<string>, Option<string>, A) -> Result<Output>)
    ensures forall t, g, m, a :: calcFn(t, g, m, a) == AggregateOutput(t, fn, g.GetOr(groupingDefault), m.GetOr(methodDefault), a)
  {
    (t: Frame, g: Option<string>, m: Option<string>, a: A) =>
      AggregateOutput(t, fn, g.GetOr(groupingDefault), m.GetOr(methodDefault), a)
  }

  /** Calling the constructed function without overrides is calling
      `aggregate_output` with the bound defaults; an explicit grouping or
      method replaces the corresponding default and nothing else. */
  lemma ConstructAggFnDefaults<A(!new)>(fn: (Frame, A) -> Result<seq<Value>>, groupingDefault: string, methodDefault: string,
                                        t: Frame, g: string, m: string, a: A)
    ensures ConstructAggFn(fn, groupingDefault, methodDefault)(t, None, None, a)
         == AggregateOutput(t, fn, groupingDefault, methodDefault, a)
    ensures ConstructAggFn(fn, groupingDefault, methodDefault)(t, Some(g), None, a)
         == AggregateOutput(t, fn, g, methodDefault, a)
    ensures ConstructAggFn(fn, groupingDefault, methodDefault)(t, None, Some(m), a)
         == AggregateOutput(t, fn, groupingDefault, m, a)
    ensures ConstructAggFn(fn, groupingDefault, methodDefault)(t, Some(g), Some(m), a)
         == AggregateOutput(t, fn, g, m, a)
  {
  }

  /** The shape of every result is decided by the method alone: a scalar for
      each group (or for the whole table) exactly when the method is
      `'mean'`. */
  lemma OutputShape<A>(t: Frame, fn: (Frame, A) -> Result<seq<Value>>, grouping: string, aggMethod: string, args: A)
    requires AggregateOutput(t, fn, grouping, aggMethod, args).Ok?
    ensures var out := AggregateOutput(t, fn, grouping, aggMethod, args).value;
      && (out.Whole? ==> (out.result.Scalar? <==> aggMethod == "mean"))
      && (out.Grouped? ==> forall v :: v in out.groups ==> (out.groups[v].Scalar? <==> aggMethod == "mean"))
      && (out.Whole? <==> grouping == "all")
  {
    var out := AggregateOutput(t, fn, grouping, aggMethod, args).value;
    if grouping != "all" {
      forall v | v in out.groups ensures out.groups[v].Scalar? <==> aggMethod == "mean" {
        assert Apply(Where(t, grouping, v), fn, ReductionOf(aggMethod), args).Ok?;
      }
    }
  }

  /** Bounds on every cell bound the sum. */
  lemma {:induction false} SumBounds(s: seq<Value>, lo: real, hi: real)
    requires AllNumeric(s)
    requires forall i :: 0 <= i < |s| ==> lo <= NumberOf(s[i]) <= hi
    ensures lo * |s| as real <= Sum(s) <= hi * |s| as real
  {
    if s != [] {
      var p := s[..|s| - 1];
      assert forall i :: 0 <= i < |p| ==> p[i] == s[i];
      SumBounds(p, lo, hi);
      assert lo * |s| as real == lo * |p| as real + lo;
      assert hi * |s| as real == hi * |p| as real + hi;
    }
  }

  /** The mean of a non-empty numeric series lies between any bounds of its
      cells. */
  lemma {:induction false} MeanWithinBounds(s: seq<Value>, lo: real, hi: real)
    requires |s| > 0 && AllNumeric(s)
    requires forall i :: 0 <= i < |s| ==> lo <= NumberOf(s[i]) <= hi
    ensures MeanOf(s).Ok? && lo <= MeanOf(s).value <= hi
  {
    SumBounds(s, lo, hi);
    var n := |s| as real;
    var m := MeanOf(s).value;
    assert m * n == Sum(s);
    assert lo * n <= m * n <= hi * n;
  }

  /** The number of true cells of a series. */
  function CountTrue(s: seq<Value>): nat {
    |Filter(s, (v: Value) => v == Flag(true))|
  }

  /** A boolean series sums to its number of true cells. */
  lemma {:induction false} SumOfFlags(s: seq<Value>)
    requires forall i :: 0 <= i < |s| ==> s[i].Flag?
    ensures AllNumeric(s) && Sum(s) == CountTrue(s) as real
  {
    if s != [] {
      var p := s[..|s| - 1];
      assert forall i :: 0 <= i < |p| ==> p[i] == s[i];
      SumOfFlags(p);
      assert s == p + [s[|s| - 1]];
      FilterAppend(p, s[|s| - 1], (v: Value) => v == Flag(true));
    }
  }

  /** The mean of a non-empty boolean series is the fraction of its true
      cells, a number between 0 and 1. */
  lemma {:induction false} MeanOfFlags(s: seq<Value>)
    requires |s| > 0 && forall i :: 0 <= i < |s| ==> s[i].Flag?
    ensures MeanOf(s).Ok?
    ensures MeanOf(s).value * |s| as real == CountTrue(s) as real
    ensures 0.0 <= MeanOf(s).value <= 1.0
  {
    SumOfFlags(s);
    MeanWithinBounds(s, 0.0, 1.0);
  }

  /** The mean of a metric that yields a non-empty numeric series times its
      length is the series' sum. */
  lemma ApplyMeanOfNumbers<A>(t: Frame, fn: (Frame, A) -> Result<seq<Value>>, args: A)
    requires fn(t, args).Ok? && |fn(t, args).value| > 0 && AllNumeric(fn(t, args).value)
    ensures Apply(t, fn, Mean, args).Ok? && Apply(t, fn, Mean, args).value.Scalar?
    ensures Apply(t, fn, Mean, args).value.x * |fn(t, args).value| as real == Sum(fn(t, args).value)
  {
    assert Apply(t, fn, Mean, args) == Ok(Scalar(MeanOf(fn(t, args).value).value));
  }

  /** `r` is the fraction of true cells of the series `flags`, a value
      between 0 and 1. */
  ghost predicate FractionTrue(r: Reduced, flags: seq<Value>) {
    && r.Scalar?
    && r.x * |flags| as real == CountTrue(flags) as real
    && 0.0 <= r.x <= 1.0
  }

  /** The mean of a metric that yields a non-empty boolean series is the
      fraction of its true cells. */
  lemma ApplyMeanOfFlags<A>(t: Frame, fn: (Frame, A) -> Result<seq<Value>>, args: A)
    requires fn(t, args).Ok? && |fn(t, args).value| > 0
    requires forall i :: 0 <= i < |fn(t, args).value| ==> fn(t, args).value[i].Flag?
    ensures Apply(t, fn, Mean, args).Ok? && FractionTrue(Apply(t, fn, Mean, args).value, fn(t, args).value)
  {
    MeanOfFlags(fn(t, args).value);
  }

  /** The total number of rows over the groups of the keys `ks`. */
  ghost function SizesOver(rows: seq<Row>, col: string, ks: seq<Value>): nat {
    if ks == [] then 0 else SizesOver(rows, col, ks[..|ks| - 1]) + |Filter(rows, Matches(col, ks[|ks| - 1]))|
  }

  /** Only a key that `KeysOf` lists can have a non-empty group. */
  lemma {:induction false} NoRowsOutsideKeys(rows: seq<Row>, col: string, v: Value)
    ensures Filter(rows, Matches(col, v)) != [] ==> v in KeysOf(rows, col)
  {
    var f := Filter(rows, Matches(col, v));
    if f != [] {
      FilterMembers(rows, Matches(col, v));
      assert f[0] in rows;
      var i :| 0 <= i < |rows| && rows[i] == f[0];
      assert rows[i][col] == v;
    }
  }

  /** One more row adds one to the total exactly when its key is listed. */
  lemma {:induction false} SizesAppendRow(p: seq<Row>, last: Row, col: string, ks: seq<Value>)
    requires Distinct(ks)
    ensures SizesOver(p + [last], col, ks) == SizesOver(p, col, ks) + (if col in last && last[col] in ks then 1 else 0)
  {
    if ks != [] {
      var q := ks[..|ks| - 1];
      var k := ks[|ks| - 1];
      assert ks == q + [k];
      assert Distinct(q);
      SizesAppendRow(p, last, col, q);
      FilterAppend(p, last, Matches(col, k));
      assert k !in q;
    }
  }

  /** The groups of the distinct keys together hold every row exactly once. */
  lemma {:induction false} SizesCoverRows(rows: seq<Row>, col: string)
    requires forall i :: 0 <= i < |rows| ==> col in rows[i]
    ensures SizesOver(rows, col, KeysOf(rows, col)) == |rows|
  {
    if rows != [] {
      var p := rows[..|rows| - 1];
      var last := rows[|rows| - 1];
      assert rows == p + [last];
      assert forall i :: 0 <= i < |p| ==> p[i] == rows[i];
      SizesCoverRows(p, col);
      var ks := KeysOf(p, col);
      SizesAppendRow(p, last, col, ks);
      if last[col] in ks {
        assert KeysOf(rows, col) == ks;
        assert SizesOver(rows, col, ks) == |p| + 1;
      } else {
        var v := last[col];
        assert KeysOf(rows, col) == ks + [v];
        assert (ks + [v])[..|ks|] == ks;
        NoRowsOutsideKeys(p, col, v);
        FilterAppend(p, last, Matches(col, v));
        assert |Filter(rows, Matches(col, v))| == 1;
        assert SizesOver(rows, col, ks + [v]) == SizesOver(rows, col, ks) + 1;
        assert SizesOver(rows, col, ks) == |p|;
      }
    }
  }

  /** `groupby` partitions the table: every group of a distinct value is
      non-empty, every row lies in the group of its own value, and the group
      sizes over the distinct values add up to the number of rows, so no row
      lies in two groups. */
  lemma GroupsPartition(t: Frame, col: string)
    requires col in t.columns
    ensures forall v :: v in ColumnValues(t, col) ==> |Where(t, col, v).rows| > 0
    ensures forall i :: 0 <= i < |t.rows| ==> t.rows[i] in Where(t, col, t.rows[i][col]).rows
    ensures SizesOver(t.rows, col, GroupKeys(t, col)) == |t.rows|
  {
    forall i | 0 <= i < |t.rows| ensures t.rows[i] in Where(t, col, t.rows[i][col]).rows {
      FilterMembers(t.rows, Matches(col, t.rows[i][col]));
    }
    assert forall i :: 0 <= i < |t.rows| ==> col in t.rows[i];
    SizesCoverRows(t.rows, col);
  }
}
