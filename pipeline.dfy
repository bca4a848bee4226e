/**
 * The forecasting half of the rebuild (backend/app/pipeline.py): cleaning a
 * series and the short-series fallback of the Holt forecast, the projection
 * of every generation source over a horizon, and the adequacy index derived
 * from the projected total generation and an exponential demand model.
 */
module Pipeline {
  import opened Numerics
  import opened Outcomes

  /** Fewer finite observations than this and the Holt fit is not attempted. */
  const MinFitLength: nat := 4

  /**
   * The statsmodels Holt fit with additive trend, seen from outside: it maps
   * a cleaned series and a horizon to exactly that many forecasts. It is
   * taken never to raise.
   */
  type HoltFit = f: (seq<real>, nat) -> seq<real> | forall y, p :: |f(y, p)| == p
    witness (y: seq<real>, p: nat) => seq(p, _ => 0.0)

  // ---------------------------------------------------------------------------
  // holt_forecast_yearly

  /** The finite entries of a series, in order: `replace([inf, -inf], nan).dropna()`. */
  function CleanSeries(values: seq<Float>): (y: seq<real>)
    ensures |y| <= |values|
  {
    if values == [] then []
    else
      var last := values[|values| - 1];
      CleanSeries(values[..|values| - 1]) + (if last.Finite? then [last.v] else [])
  }

  predicate NoFinite(values: seq<Float>)
  {
    forall i :: 0 <= i < |values| ==> !values[i].Finite?
  }

  /** `values[i]` is the last finite entry of the series. */
  predicate LastFiniteAt(values: seq<Float>, i: int)
  {
    0 <= i < |values| && values[i].Finite? &&
    forall j :: i < j < |values| ==> !values[j].Finite?
  }

  /** Cleaning commutes with concatenation: each entry is kept or dropped on its own. */
  lemma {:induction false} CleanConcat(a: seq<Float>, b: seq<Float>)
    ensures CleanSeries(a + b) == CleanSeries(a) + CleanSeries(b)
  {
    if b == [] {
      assert a + b == a;
    } else {
      assert (a + b)[..|a + b| - 1] == a + b[..|b| - 1];
      CleanConcat(a, b[..|b| - 1]);
    }
  }

  /** Cleaning leaves nothing exactly when the series has no finite entry. */
  lemma {:induction false} CleanEmpty(values: seq<Float>)
    ensures CleanSeries(values) == [] <==> NoFinite(values)
  {
    if values != [] {
      CleanEmpty(values[..|values| - 1]);
    }
  }

  /** The last cleaned value is the value of the last finite entry. */
  lemma {:induction false} CleanLast(values: seq<Float>)
    requires CleanSeries(values) != []
    ensures exists i :: LastFiniteAt(values, i) && values[i].v == CleanSeries(values)[|CleanSeries(values)| - 1]
  {
    var n := |values|;
    if values[n - 1].Finite? {
      assert LastFiniteAt(values, n - 1);
    } else {
      var front := values[..n - 1];
      assert CleanSeries(values) == CleanSeries(front);
      CleanLast(front);
      var i :| LastFiniteAt(front, i) && front[i].v == CleanSeries(front)[|CleanSeries(front)| - 1];
      assert LastFiniteAt(values, i);
    }
  }

  /** A series of finite values is left as it is by cleaning. */
  lemma {:induction false} CleanOfLifted(col: seq<real>)
    ensures CleanSeries(Lift(col)) == col
  {
    if col != [] {
      var n := |col|;
      assert Lift(col)[..n - 1] == Lift(col[..n - 1]);
      CleanOfLifted(col[..n - 1]);
      assert col == col[..n - 1] + [col[n - 1]];
    }
  }

  /**
   * `holt_forecast_yearly`: non-finite values are dropped first; fewer than
   * four left gives `periods` copies of the last one (zeros if none is
   * left), otherwise the Holt fit forecasts from the cleaned series.
   */
  function HoltForecast(values: seq<Float>, periods: nat, fit: HoltFit): (fc: seq<real>)
    ensures |fc| == periods
  {
    var y := CleanSeries(values);
    if |y| < MinFitLength then
      var last := if y == [] then 0.0 else y[|y| - 1];
      seq(periods, _ => last)
    else
      fit(y, periods)
  }

  /** The short-series fallback: the last finite value repeated, or zeros. */
  lemma ShortSeriesFallback(values: seq<Float>, periods: nat, fit: HoltFit)
    requires |CleanSeries(values)| < MinFitLength
    ensures NoFinite(values) ==>
      forall k :: 0 <= k < periods ==> HoltForecast(values, periods, fit)[k] == 0.0
    ensures !NoFinite(values) ==> exists i :: (LastFiniteAt(values, i) &&
      forall k :: 0 <= k < periods ==> HoltForecast(values, periods, fit)[k] == values[i].v)
  {
    CleanEmpty(values);
    var y := CleanSeries(values);
    var fc := HoltForecast(values, periods, fit);
    if !NoFinite(values) {
      CleanLast(values);
      var i :| LastFiniteAt(values, i) && values[i].v == y[|y| - 1];
      assert forall k :: 0 <= k < periods ==> fc[k] == values[i].v;
    }
  }

  /** A non-finite entry anywhere in the series has no effect on the forecast. */
  lemma NonFiniteIgnored(a: seq<Float>, x: Float, b: seq<Float>, periods: nat, fit: HoltFit)
    requires !x.Finite?
    ensures HoltForecast(a + [x] + b, periods, fit) == HoltForecast(a + b, periods, fit)
  {
    CleanConcat(a + [x], b);
    CleanConcat(a, [x]);
    CleanConcat(a, b);
    assert CleanSeries([x]) == [] by {
      assert [x][..0] == [];
    }
    assert CleanSeries(a + [x] + b) == CleanSeries(a + b);
  }

  // ---------------------------------------------------------------------------
  // forecast_mix

  /** A yearly table: a year column and one generation column per source. */
  datatype MixTable = MixTable(years: seq<int>, sources: seq<string>, columns: seq<seq<real>>)

  /** Every source column has one value per year. */
  predicate WellFormed(t: MixTable)
  {
    |t.columns| == |t.sources| &&
    forall c :: 0 <= c < |t.columns| ==> |t.columns[c]| == |t.years|
  }

  predicate Distinct(s: seq<int>)
  {
    forall a, b :: 0 <= a < b < |s| ==> s[a] != s[b]
  }

  /** `years.max()`. */
  function MaxOf(s: seq<int>): (m: int)
    requires s != []
    ensures m in s && forall x :: x in s ==> x <= m
  {
    if |s| == 1 then s[0]
    else
      var rest := MaxOf(s[1..]);
      assert forall x :: x in s ==> x == s[0] || x in s[1..];
      if s[0] > rest then s[0] else rest
  }

  /** `years.min()`. */
  function MinOf(s: seq<int>): (m: int)
    requires s != []
    ensures m in s && forall x :: x in s ==> m <= x
  {
    if |s| == 1 then s[0]
    else
      var rest := MinOf(s[1..]);
      assert forall x :: x in s ==> x == s[0] || x in s[1..];
      if s[0] < rest then s[0] else rest
  }

  /** `np.arange(lo, hi, dtype=int)`. */
  function IntRange(lo: int, hi: int): seq<int>
    decreases hi - lo
  {
    if lo >= hi then [] else [lo] + IntRange(lo + 1, hi)
  }

  /** `np.arange(lo, hi)` holds the integers lo, lo + 1, ..., hi - 1 with no gap. */
  lemma {:induction false} IntRangeContiguous(lo: int, hi: int)
    ensures |IntRange(lo, hi)| == if hi > lo then hi - lo else 0
    ensures forall k :: 0 <= k < |IntRange(lo, hi)| ==> IntRange(lo, hi)[k] == lo + k
    decreases hi - lo
  {
    if lo < hi {
      IntRangeContiguous(lo + 1, hi);
    }
  }

  /** The years after `lastYear` that the forecast covers. */
  function FutureYears(lastYear: int, horizon: int): seq<int>
  {
    IntRange(lastYear + 1, lastYear + horizon + 1)
  }

  /** A column of finite values as doubles. */
  function Lift(col: seq<real>): (s: seq<Float>)
    ensures |s| == |col|
    ensures forall i :: 0 <= i < |col| ==> s[i] == Finite(col[i])
  {
    seq(|col|, i requires 0 <= i < |col| => Finite(col[i]))
  }

  /** `np.clip(fc, 0, None)`. */
  function ClipNonNegative(fc: seq<real>): (r: seq<real>)
    ensures |r| == |fc|
  {
    seq(|fc|, i requires 0 <= i < |fc| => Max0(fc[i]))
  }

  /** One source column: the history followed by its clipped forecast. */
  function ProjectColumn(hist: seq<real>, periods: nat, fit: HoltFit): (full: seq<real>)
    ensures |full| == |hist| + periods
    ensures full[..|hist|] == hist
    ensures forall i :: |hist| <= i < |full| ==> full[i] >= 0.0
  {
    hist + ClipNonNegative(HoltForecast(Lift(hist), periods, fit))
  }

  /** What `forecast_mix` returns, or the error it raises on an empty table. */
  function ProjectMix(hist: MixTable, horizon: int, fit: HoltFit): (r: Result<MixTable>)
    requires WellFormed(hist)
    ensures r.Err? <==> hist.years == []
    ensures r.Err? ==> r.failure == EmptyHistory
    ensures r.Ok? ==> WellFormed(r.value)
  {
    if hist.years == [] then Err(EmptyHistory)
    else
      var future := FutureYears(MaxOf(hist.years), horizon);
      IntRangeContiguous(MaxOf(hist.years) + 1, MaxOf(hist.years) + horizon + 1);
      Ok(MixTable(hist.years + future, hist.sources,
        seq(|hist.columns|, c requires 0 <= c < |hist.columns| => ProjectColumn(hist.columns[c], |future|, fit))))
  }

  /**
   * `forecast_mix`: fills the output table column by column, each column
   * being the history followed by the non-negative forecast.
   */
  method ForecastMix(hist: MixTable, horizon: int, fit: HoltFit) returns (out: Result<MixTable>)
    requires WellFormed(hist)
    ensures out == ProjectMix(hist, horizon, fit)
  {
    if hist.years == [] {
      return Err(EmptyHistory);
    }
    var lastYear := MaxOf(hist.years);
    var future := FutureYears(lastYear, horizon);
    var columns: seq<seq<real>> := [];
    var c := 0;
    while c < |hist.columns|
      invariant 0 <= c <= |hist.columns|
      invariant |columns| == c
      invariant forall k :: 0 <= k < c ==> columns[k] == ProjectColumn(hist.columns[k], |future|, fit)
    {
      var col := hist.columns[c];
      var fc := HoltForecast(Lift(col), |future|, fit);
      var full := col + ClipNonNegative(fc);
      columns := columns + [full];
      c := c + 1;
    }
    assert columns == seq(|hist.columns|, k requires 0 <= k < |hist.columns| => ProjectColumn(hist.columns[k], |future|, fit));
    out := Ok(MixTable(hist.years + future, hist.sources, columns));
  }

  /**
   * The projected year column: the historical years in input order, then
   * max(years) + 1, ..., max(years) + horizon, all later than every
   * historical year.
   */
  lemma ProjectedYears(hist: MixTable, horizon: int, fit: HoltFit)
    requires WellFormed(hist) && hist.years != []
    ensures var out := ProjectMix(hist, horizon, fit).value;
      var n := |hist.years|;
      && |out.years| == n + (if horizon > 0 then horizon else 0)
      && out.years[..n] == hist.years
      && (forall k :: n <= k < |out.years| ==> out.years[k] == MaxOf(hist.years) + 1 + (k - n))
      && (forall k, y :: n <= k < |out.years| && y in hist.years ==> y < out.years[k])
  {
    var last := MaxOf(hist.years);
    IntRangeContiguous(last + 1, last + horizon + 1);
  }

  /**
   * Every projected column keeps its history unchanged, has one entry per
   * year, and its forecast tail is the clipped forecast, never negative.
   */
  lemma ProjectedColumns(hist: MixTable, horizon: int, fit: HoltFit)
    requires WellFormed(hist) && hist.years != []
    ensures var out := ProjectMix(hist, horizon, fit).value;
      var n := |hist.years|;
      var periods := |out.years| - n;
      && out.sources == hist.sources
      && |out.columns| == |hist.columns|
      && (forall c :: 0 <= c < |out.columns| ==>
            |out.columns[c]| == |out.years| && out.columns[c][..n] == hist.columns[c])
      && (forall c, k :: 0 <= c < |out.columns| && n <= k < |out.years| ==>
            out.columns[c][k] == Max0(HoltForecast(Lift(hist.columns[c]), periods, fit)[k - n]) &&
            out.columns[c][k] >= 0.0)
  {
  }

  /** Distinct historical years stay distinct after the projection. */
  lemma ProjectedYearsDistinct(hist: MixTable, horizon: int, fit: HoltFit)
    requires WellFormed(hist) && hist.years != [] && Distinct(hist.years)
    ensures Distinct(ProjectMix(hist, horizon, fit).value.years)
  {
    ProjectedYears(hist, horizon, fit);
    var ys := ProjectMix(hist, horizon, fit).value.years;
    var n := |hist.years|;
    forall a, b | 0 <= a < b < |ys| ensures ys[a] != ys[b] {
      if b >= n && a < n {
        assert ys[a] == hist.years[a];
        assert hist.years[a] in hist.years;
      }
    }
  }

  // ---------------------------------------------------------------------------
  // compute_adequacy

  /** One output row of `compute_adequacy`, with exactly its five columns. */
  datatype AdequacyRow = AdequacyRow(
    year: int,
    adequacyIndex: Float,
    availableSupply: real,
    peakDemand: real,
    totalGeneration: real)

  /** Row `i` summed across the generation columns, left to right. */
  function RowTotal(columns: seq<seq<real>>, i: nat): real
    requires forall c :: 0 <= c < |columns| ==> i < |columns[c]|
  {
    if columns == [] then 0.0
    else RowTotal(columns[..|columns| - 1], i) + columns[|columns| - 1][i]
  }

  /** `.iloc[0]` of the rows holding `x`. */
  function FirstIndexOf(s: seq<int>, x: int): (i: nat)
    requires x in s
    ensures i < |s| && s[i] == x
    ensures forall j :: 0 <= j < i ==> s[j] != x
  {
    if s[0] == x then 0 else 1 + FirstIndexOf(s[1..], x)
  }

  /** The total generation of the first row of the earliest year. */
  function BaseTotal(mix: MixTable): real
    requires WellFormed(mix) && mix.years != []
  {
    RowTotal(mix.columns, FirstIndexOf(mix.years, MinOf(mix.years)))
  }

  /** `base_total / (1 + m)` when the base total is positive, else the floor 1.0. */
  function BasePeak(baseTotal: real, margin: real): Result<real>
  {
    if baseTotal > 0.0 then
      if 1.0 + margin == 0.0 then Err(BaseDivisionByZero) else Ok(baseTotal / (1.0 + margin))
    else Ok(1.0)
  }

  /** Peak demand `elapsed` years after the base year. */
  function PeakDemand(basePeak: real, growth: real, elapsed: nat): real
  {
    basePeak * Pow(1.0 + growth, elapsed)
  }

  /**
   * `((supply - peak) / peak).clip(-0.5, 0.5)`. A zero peak arises as
   * `base_peak * 0.0 ** n`, a zero that carries the sign of the base peak;
   * dividing by -0.0 gives the infinity of the opposite sign to dividing by
   * +0.0, which is dividing the negated dividend by +0.0.
   */
  function AdequacyIndex(supply: real, peak: real, basePeak: real): Float
  {
    if peak == 0.0 && basePeak < 0.0 then ClipF(Divide(-supply, 0.0), -0.5, 0.5)
    else ClipF(Divide(supply - peak, peak), -0.5, 0.5)
  }

  function AdequacyRowAt(mix: MixTable, i: nat, baseYear: int, basePeak: real, growth: real): AdequacyRow
    requires WellFormed(mix) && i < |mix.years|
    requires forall y :: y in mix.years ==> baseYear <= y
  {
    var total := RowTotal(mix.columns, i);
    assert mix.years[i] in mix.years;
    var peak := PeakDemand(basePeak, growth, mix.years[i] - baseYear);
    AdequacyRow(mix.years[i], AdequacyIndex(total, peak, basePeak), total, peak, total)
  }

  /**
   * `compute_adequacy`: one row per input row, carrying its year, its
   * total generation (the row sum) as both total and available supply.
   * It raises on an empty table, and on a zero divisor `1 + m` when the
   * base total is positive.
   */
  function ComputeAdequacy(mix: MixTable, growth: real, margin: real): (r: Result<seq<AdequacyRow>>)
    requires WellFormed(mix)
    ensures r.Err? <==> mix.years == [] || (BaseTotal(mix) > 0.0 && margin == -1.0)
    ensures r.Ok? ==> |r.value| == |mix.years|
    ensures r.Ok? ==> forall i :: 0 <= i < |mix.years| ==>
      && r.value[i].year == mix.years[i]
      && r.value[i].totalGeneration == RowTotal(mix.columns, i)
      && r.value[i].availableSupply == r.value[i].totalGeneration
  {
    if mix.years == [] then Err(EmptyHistory)
    else
      var baseYear := MinOf(mix.years);
      match BasePeak(BaseTotal(mix), margin)
      case Err(f) => Err(f)
      case Ok(basePeak) =>
        Ok(seq(|mix.years|, i requires 0 <= i < |mix.years| => AdequacyRowAt(mix, i, baseYear, basePeak, growth)))
  }

  /**
   * The index is never infinite; it is a value in [-0.5, 0.5] except NaN,
   * which numpy produces exactly when both peak demand and supply are zero.
   * A zero peak with non-zero supply divides to an infinity, which the clip
   * saturates at 0.5 or -0.5: the supply's sign when the base peak is
   * positive, and the opposite sign when it is negative (m < -1 with a
   * positive base total), since the zero peak is then -0.0.
   */
  lemma AdequacyIndexBounded(mix: MixTable, growth: real, margin: real)
    requires WellFormed(mix) && mix.years != [] && !(BaseTotal(mix) > 0.0 && margin == -1.0)
    ensures ComputeAdequacy(mix, growth, margin).Ok?
    ensures forall row :: row in ComputeAdequacy(mix, growth, margin).value ==>
      && !row.adequacyIndex.PosInf? && !row.adequacyIndex.NegInf?
      && (row.adequacyIndex.Finite? ==> -0.5 <= row.adequacyIndex.v <= 0.5)
      && (row.adequacyIndex.NaN? <==> row.peakDemand == 0.0 && row.availableSupply == 0.0)
      && (row.peakDemand == 0.0 && row.availableSupply > 0.0 ==>
            row.adequacyIndex == Finite(if BasePeak(BaseTotal(mix), margin).value > 0.0 then 0.5 else -0.5))
      && (row.peakDemand == 0.0 && row.availableSupply < 0.0 ==>
            row.adequacyIndex == Finite(if BasePeak(BaseTotal(mix), margin).value > 0.0 then -0.5 else 0.5))
  {
    AdequacyRows(mix, growth, margin);
    var rows := ComputeAdequacy(mix, growth, margin).value;
    var total := BaseTotal(mix);
    var bp := BasePeak(total, margin).value;
    BasePeakNonZero(total, margin);
    forall row | row in rows
      ensures && !row.adequacyIndex.PosInf? && !row.adequacyIndex.NegInf?
        && (row.adequacyIndex.Finite? ==> -0.5 <= row.adequacyIndex.v <= 0.5)
        && (row.adequacyIndex.NaN? <==> row.peakDemand == 0.0 && row.availableSupply == 0.0)
        && (row.peakDemand == 0.0 && row.availableSupply > 0.0 ==> row.adequacyIndex == Finite(if bp > 0.0 then 0.5 else -0.5))
        && (row.peakDemand == 0.0 && row.availableSupply < 0.0 ==> row.adequacyIndex == Finite(if bp > 0.0 then -0.5 else 0.5))
    {
      var i :| 0 <= i < |rows| && rows[i] == row;
      IndexValues(row.availableSupply, row.peakDemand, bp);
    }
  }

  /** A base peak is never zero: it is 1 or a positive total divided by `1 + m`. */
  lemma BasePeakNonZero(baseTotal: real, margin: real)
    requires BasePeak(baseTotal, margin).Ok?
    ensures BasePeak(baseTotal, margin).value != 0.0
  {
    if baseTotal > 0.0 {
      var bp := baseTotal / (1.0 + margin);
      assert bp * (1.0 + margin) == baseTotal;
    }
  }

  /** The values one index can take, for a non-zero base peak. */
  lemma IndexValues(supply: real, peak: real, basePeak: real)
    requires basePeak != 0.0
    ensures var ix := AdequacyIndex(supply, peak, basePeak);
      && !ix.PosInf? && !ix.NegInf?
      && (ix.Finite? ==> -0.5 <= ix.v <= 0.5)
      && (ix.NaN? <==> peak == 0.0 && supply == 0.0)
      && (peak == 0.0 && supply > 0.0 ==> ix == Finite(if basePeak > 0.0 then 0.5 else -0.5))
      && (peak == 0.0 && supply < 0.0 ==> ix == Finite(if basePeak > 0.0 then -0.5 else 0.5))
  {
  }

  lemma PeakDemandOrder(basePeak: real, growth: real, ei: nat, ej: nat)
    requires basePeak > 0.0 && growth > 0.0 && ei < ej
    ensures PeakDemand(basePeak, growth, ei) < PeakDemand(basePeak, growth, ej)
  {
    PowStrictlyIncreasing(1.0 + growth, ei, ej);
    ScaledLess(basePeak, Pow(1.0 + growth, ei), Pow(1.0 + growth, ej));
  }

  lemma PeakDemandGrowthOrder(basePeak: real, g1: real, g2: real, e: nat)
    requires basePeak > 0.0 && -1.0 < g1 <= g2
    ensures PeakDemand(basePeak, g1, e) <= PeakDemand(basePeak, g2, e)
  {
    PowMonotoneBase(1.0 + g1, 1.0 + g2, e);
    ScaledAtMost(basePeak, Pow(1.0 + g1, e), Pow(1.0 + g2, e));
  }

  /** With m > -1 the base peak is positive, whether computed or the 1.0 floor. */
  lemma BasePeakPositive(mix: MixTable, margin: real)
    requires WellFormed(mix) && mix.years != [] && margin > -1.0
    ensures BasePeak(BaseTotal(mix), margin).Ok? && BasePeak(BaseTotal(mix), margin).value > 0.0
  {
    var total := BaseTotal(mix);
    if total > 0.0 {
      var q := total / (1.0 + margin);
      assert q * (1.0 + margin) == total;
      if q <= 0.0 {
        ScaledAtMost(1.0 + margin, q, 0.0);
        assert false;
      }
    }
  }

  /** The rows of a successful `compute_adequacy`, each computed from the shared base year and base peak. */
  lemma AdequacyRows(mix: MixTable, growth: real, margin: real)
    requires WellFormed(mix) && mix.years != [] && !(BaseTotal(mix) > 0.0 && margin == -1.0)
    ensures ComputeAdequacy(mix, growth, margin).Ok? && BasePeak(BaseTotal(mix), margin).Ok?
    ensures var rows := ComputeAdequacy(mix, growth, margin).value;
      forall i :: 0 <= i < |rows| ==>
        rows[i] == AdequacyRowAt(mix, i, MinOf(mix.years), BasePeak(BaseTotal(mix), margin).value, growth)
  {
  }

  /** With g > -1 and m > -1, every peak demand is positive, so every index is a finite value. */
  lemma PeakDemandPositive(mix: MixTable, growth: real, margin: real)
    requires WellFormed(mix) && mix.years != [] && growth > -1.0 && margin > -1.0
    ensures ComputeAdequacy(mix, growth, margin).Ok?
    ensures forall row :: row in ComputeAdequacy(mix, growth, margin).value ==>
      row.peakDemand > 0.0 && row.adequacyIndex.Finite?
  {
    BasePeakPositive(mix, margin);
    AdequacyRows(mix, growth, margin);
    var rows := ComputeAdequacy(mix, growth, margin).value;
    var basePeak := BasePeak(BaseTotal(mix), margin).value;
    var baseYear := MinOf(mix.years);
    forall i | 0 <= i < |rows| ensures rows[i].peakDemand > 0.0 && rows[i].adequacyIndex.Finite? {
      RowPeakPositive(mix, i, baseYear, basePeak, growth);
    }
  }

  lemma RowPeakPositive(mix: MixTable, i: nat, baseYear: int, basePeak: real, growth: real)
    requires WellFormed(mix) && i < |mix.years|
    requires forall y :: y in mix.years ==> baseYear <= y
    requires basePeak > 0.0 && growth > -1.0
    ensures AdequacyRowAt(mix, i, baseYear, basePeak, growth).peakDemand > 0.0
    ensures AdequacyRowAt(mix, i, baseYear, basePeak, growth).adequacyIndex.Finite?
  {
    assert mix.years[i] in mix.years;
    var elapsed: nat := mix.years[i] - baseYear;
    PowPositive(1.0 + growth, elapsed);
    ProductPositive(basePeak, Pow(1.0 + growth, elapsed));
  }

  /** With g > 0 (and m > -1), peak demand strictly increases with the year. */
  lemma PeakDemandIncreasing(mix: MixTable, growth: real, margin: real)
    requires WellFormed(mix) && mix.years != [] && growth > 0.0 && margin > -1.0
    ensures ComputeAdequacy(mix, growth, margin).Ok?
    ensures var rows := ComputeAdequacy(mix, growth, margin).value;
      forall i, j :: 0 <= i < |rows| && 0 <= j < |rows| && rows[i].year < rows[j].year ==>
        rows[i].peakDemand < rows[j].peakDemand
  {
    BasePeakPositive(mix, margin);
    AdequacyRows(mix, growth, margin);
    var rows := ComputeAdequacy(mix, growth, margin).value;
    var basePeak := BasePeak(BaseTotal(mix), margin).value;
    var baseYear := MinOf(mix.years);
    forall i, j | 0 <= i < |rows| && 0 <= j < |rows| && rows[i].year < rows[j].year
      ensures rows[i].peakDemand < rows[j].peakDemand
    {
      RowPeakIncreasing(mix, i, j, baseYear, basePeak, growth);
    }
  }

  lemma RowPeakIncreasing(mix: MixTable, i: nat, j: nat, baseYear: int, basePeak: real, growth: real)
    requires WellFormed(mix) && i < |mix.years| && j < |mix.years| && mix.years[i] < mix.years[j]
    requires forall y :: y in mix.years ==> baseYear <= y
    requires basePeak > 0.0 && growth > 0.0
    ensures AdequacyRowAt(mix, i, baseYear, basePeak, growth).peakDemand <
      AdequacyRowAt(mix, j, baseYear, basePeak, growth).peakDemand
  {
    assert mix.years[i] in mix.years && mix.years[j] in mix.years;
    PeakDemandOrder(basePeak, growth, mix.years[i] - baseYear, mix.years[j] - baseYear);
  }

  /** With g = 0, every year's peak demand is the base peak. */
  lemma PeakDemandConstant(mix: MixTable, margin: real)
    requires WellFormed(mix) && mix.years != [] && !(BaseTotal(mix) > 0.0 && margin == -1.0)
    ensures ComputeAdequacy(mix, 0.0, margin).Ok? && BasePeak(BaseTotal(mix), margin).Ok?
    ensures forall row :: row in ComputeAdequacy(mix, 0.0, margin).value ==>
      row.peakDemand == BasePeak(BaseTotal(mix), margin).value
  {
    AdequacyRows(mix, 0.0, margin);
    var rows := ComputeAdequacy(mix, 0.0, margin).value;
    var basePeak := BasePeak(BaseTotal(mix), margin).value;
    var baseYear := MinOf(mix.years);
    forall i | 0 <= i < |rows| ensures rows[i].peakDemand == basePeak {
      RowPeakConstant(mix, i, baseYear, basePeak);
    }
  }

  lemma RowPeakConstant(mix: MixTable, i: nat, baseYear: int, basePeak: real)
    requires WellFormed(mix) && i < |mix.years|
    requires forall y :: y in mix.years ==> baseYear <= y
    ensures AdequacyRowAt(mix, i, baseYear, basePeak, 0.0).peakDemand == basePeak
  {
    assert mix.years[i] in mix.years;
    PowOfOne(mix.years[i] - baseYear);
  }

  /** A higher growth rate never lowers any year's peak demand (m > -1). */
  lemma PeakDemandMonotoneInGrowth(mix: MixTable, g1: real, g2: real, margin: real)
    requires WellFormed(mix) && mix.years != [] && -1.0 < g1 <= g2 && margin > -1.0
    ensures ComputeAdequacy(mix, g1, margin).Ok? && ComputeAdequacy(mix, g2, margin).Ok?
    ensures var lo, hi := ComputeAdequacy(mix, g1, margin).value, ComputeAdequacy(mix, g2, margin).value;
      forall i :: 0 <= i < |lo| ==> lo[i].peakDemand <= hi[i].peakDemand
  {
    BasePeakPositive(mix, margin);
    AdequacyRows(mix, g1, margin);
    AdequacyRows(mix, g2, margin);
    var lo, hi := ComputeAdequacy(mix, g1, margin).value, ComputeAdequacy(mix, g2, margin).value;
    var basePeak := BasePeak(BaseTotal(mix), margin).value;
    var baseYear := MinOf(mix.years);
    forall i | 0 <= i < |lo| ensures lo[i].peakDemand <= hi[i].peakDemand {
      assert mix.years[i] in mix.years;
      var e: nat := mix.years[i] - baseYear;
      assert lo[i].peakDemand == PeakDemand(basePeak, g1, e);
      assert hi[i].peakDemand == PeakDemand(basePeak, g2, e);
      PeakDemandGrowthOrder(basePeak, g1, g2, e);
    }
  }

  /**
   * With a positive base total, the base-year row has peak demand
   * base_total / (1 + m) and index clip(m, -0.5, 0.5), whatever the growth.
   */
  lemma BaseYearIndex(mix: MixTable, growth: real, margin: real)
    requires WellFormed(mix) && mix.years != [] && BaseTotal(mix) > 0.0 && margin != -1.0
    ensures ComputeAdequacy(mix, growth, margin).Ok?
    ensures var row := ComputeAdequacy(mix, growth, margin).value[FirstIndexOf(mix.years, MinOf(mix.years))];
      && row.year == MinOf(mix.years)
      && row.peakDemand == BaseTotal(mix) / (1.0 + margin)
      && row.adequacyIndex == Finite(Clip(margin, -0.5, 0.5))
  {
    var baseYear := MinOf(mix.years);
    var i := FirstIndexOf(mix.years, baseYear);
    var total := BaseTotal(mix);
    var peak := total / (1.0 + margin);
    AdequacyRows(mix, growth, margin);
    assert ComputeAdequacy(mix, growth, margin).value[i] == AdequacyRowAt(mix, i, baseYear, peak, growth);
    assert Pow(1.0 + growth, 0) == 1.0;
    BaseIndexIsMargin(total, margin);
  }

  /** (t - t/(1+m)) / (t/(1+m)) is m. */
  lemma BaseIndexIsMargin(total: real, margin: real)
    requires total > 0.0 && margin != -1.0
    ensures AdequacyIndex(total, total / (1.0 + margin), total / (1.0 + margin)) == Finite(Clip(margin, -0.5, 0.5))
  {
    var peak := total / (1.0 + margin);
    assert peak * (1.0 + margin) == total;
    assert peak != 0.0;
    var q := Divide(total - peak, peak);
    assert total - peak == margin * peak;
    assert q.v * peak == margin * peak;
    assert (q.v - margin) * peak == 0.0;
    assert q.v == margin;
  }
}
