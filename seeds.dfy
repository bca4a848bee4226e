/**
 * The rebuild (backend/app/seeds.py) as an operation on the two record
 * stores: it empties both, stores four metric records per adequacy row,
 * then one heat record per lattice point for every year.
 */
module Seeds {
  import opened Numerics
  import opened Outcomes
  import opened Pipeline
  import opened Geo

  /** The generator seed every year's heat values are drawn with. */
  const HeatSeed: int := 7

  /** The metric names of a year's frame records, in the order they are added. */
  const MetricNames: seq<string> := ["adequacy_index", "available_supply", "peak_demand", "total_generation"]

  /** A row of the `frames` table; (year, metric) is unique. */
  datatype FrameRecord = FrameRecord(year: int, metric: string, value: Float)

  /** A row of the `heat_points` table. */
  datatype HeatRecord = HeatRecord(year: int, lon: real, lat: real, value: Float)

  lemma MetricNamesDistinct()
    ensures forall a, b :: 0 <= a < b < |MetricNames| ==> MetricNames[a] != MetricNames[b]
  {
    assert MetricNames[0][1] != MetricNames[1][1];
    assert |MetricNames[0]| != |MetricNames[2]| && |MetricNames[0]| != |MetricNames[3]|;
    assert |MetricNames[1]| != |MetricNames[2]| && MetricNames[1][0] != MetricNames[3][0];
    assert |MetricNames[2]| != |MetricNames[3]|;
  }

  // ---------------------------------------------------------------------------
  // The frame records

  /** The four values of one adequacy row, in the order of `MetricNames`. */
  function MetricValues(r: AdequacyRow): seq<Float>
  {
    [r.adequacyIndex, Finite(r.availableSupply), Finite(r.peakDemand), Finite(r.totalGeneration)]
  }

  /** The records one adequacy row adds: one per metric, all carrying the row's year. */
  function RowFrames(r: AdequacyRow): (fs: seq<FrameRecord>)
    ensures |fs| == |MetricNames|
    ensures forall k :: 0 <= k < |fs| ==>
      fs[k] == FrameRecord(r.year, MetricNames[k], MetricValues(r)[k])
  {
    seq(|MetricNames|, k requires 0 <= k < |MetricNames| => FrameRecord(r.year, MetricNames[k], MetricValues(r)[k]))
  }

  /** The frame records of a whole adequacy table, row by row. */
  function FramesOf(rows: seq<AdequacyRow>): (fs: seq<FrameRecord>)
    ensures |fs| == 4 * |rows|
  {
    if rows == [] then []
    else FramesOf(rows[..|rows| - 1]) + RowFrames(rows[|rows| - 1])
  }

  /** Record 4i + k is metric k of row i. */
  lemma {:induction false} FramesLayout(rows: seq<AdequacyRow>, i: nat, k: nat)
    requires i < |rows| && k < 4
    ensures FramesOf(rows)[4 * i + k] == FrameRecord(rows[i].year, MetricNames[k], MetricValues(rows[i])[k])
  {
    var n := |rows|;
    var front := rows[..n - 1];
    var head := FramesOf(front);
    var tail := RowFrames(rows[n - 1]);
    assert FramesOf(rows) == head + tail;
    if i < n - 1 {
      FramesLayout(front, i, k);
      assert rows[i] == front[i];
      assert 4 * i + k < |head|;
    } else {
      assert 4 * i + k == |head| + k;
    }
  }

  /** The years of an adequacy table, in row order. */
  function YearsOf(rows: seq<AdequacyRow>): (ys: seq<int>)
    ensures |ys| == |rows|
    ensures forall i :: 0 <= i < |rows| ==> ys[i] == rows[i].year
  {
    seq(|rows|, i requires 0 <= i < |rows| => rows[i].year)
  }

  /** No two records share a (year, metric) key: the constraint the frame commit enforces. */
  predicate UniqueKeys(fs: seq<FrameRecord>)
  {
    forall a, b :: 0 <= a < b < |fs| ==> fs[a].year != fs[b].year || fs[a].metric != fs[b].metric
  }

  /** Record a carries the year of row a / 4 and metric a % 4. */
  lemma FrameKeyAt(rows: seq<AdequacyRow>, a: nat)
    requires a < 4 * |rows|
    ensures a / 4 < |rows| && a == 4 * (a / 4) + a % 4
    ensures FramesOf(rows)[a].year == YearsOf(rows)[a / 4] && FramesOf(rows)[a].metric == MetricNames[a % 4]
  {
    FramesLayout(rows, a / 4, a % 4);
  }

  /** Two records from rows i <= j of a table with distinct years, metric k before l when i == j, differ in their key. */
  lemma DistinctKeysAt(ys: seq<int>, fa: FrameRecord, fb: FrameRecord, i: nat, k: nat, j: nat, l: nat)
    requires Distinct(ys) && i < |ys| && j < |ys| && k < 4 && l < 4
    requires 4 * i + k < 4 * j + l
    requires fa.year == ys[i] && fa.metric == MetricNames[k]
    requires fb.year == ys[j] && fb.metric == MetricNames[l]
    ensures fa.year != fb.year || fa.metric != fb.metric
  {
    if i == j {
      MetricNamesDistinct();
      assert MetricNames[k] != MetricNames[l];
    } else {
      assert ys[i] != ys[j];
    }
  }

  /** The frame records of a table violate the key constraint exactly when a year repeats. */
  lemma UniqueKeysIffDistinctYears(rows: seq<AdequacyRow>)
    ensures UniqueKeys(FramesOf(rows)) <==> Distinct(YearsOf(rows))
  {
    if Distinct(YearsOf(rows)) {
      DistinctYearsUniqueKeys(rows);
    } else {
      RepeatedYearRepeatsKey(rows);
    }
  }

  lemma DistinctYearsUniqueKeys(rows: seq<AdequacyRow>)
    requires Distinct(YearsOf(rows))
    ensures UniqueKeys(FramesOf(rows))
  {
    var fs := FramesOf(rows);
    var ys := YearsOf(rows);
    forall a, b | 0 <= a < b < |fs| ensures fs[a].year != fs[b].year || fs[a].metric != fs[b].metric {
      FrameKeyAt(rows, a);
      FrameKeyAt(rows, b);
      DistinctKeysAt(ys, fs[a], fs[b], a / 4, a % 4, b / 4, b % 4);
    }
  }

  lemma RepeatedYearRepeatsKey(rows: seq<AdequacyRow>)
    requires !Distinct(YearsOf(rows))
    ensures !UniqueKeys(FramesOf(rows))
  {
    var fs := FramesOf(rows);
    var ys := YearsOf(rows);
    var i, j :| 0 <= i < j < |ys| && ys[i] == ys[j];
    FramesLayout(rows, i, 0);
    FramesLayout(rows, j, 0);
    assert fs[4 * i].year == fs[4 * j].year && fs[4 * i].metric == fs[4 * j].metric;
  }

  // ---------------------------------------------------------------------------
  // year_to_ai = {year: adequacy_index for each row}

  /** The keys of the dict, in insertion order: each year where it first occurs. */
  function YearOrder(rows: seq<AdequacyRow>): (order: seq<int>)
    ensures Distinct(order)
    ensures forall y :: y in order <==> y in YearsOf(rows)
  {
    if rows == [] then []
    else
      var front := rows[..|rows| - 1];
      var y := rows[|rows| - 1].year;
      var o := YearOrder(front);
      assert forall x :: x in YearsOf(rows) <==> x in YearsOf(front) || x == y by {
        assert YearsOf(rows) == YearsOf(front) + [y];
      }
      if y in o then o else o + [y]
  }

  /** The dict itself: a later row for the same year overwrites the earlier value. */
  function YearIndex(rows: seq<AdequacyRow>): (index: map<int, Float>)
    ensures forall y :: y in index <==> y in YearsOf(rows)
  {
    if rows == [] then map[]
    else
      var front := rows[..|rows| - 1];
      var last := rows[|rows| - 1];
      assert YearsOf(rows) == YearsOf(front) + [last.year];
      YearIndex(front)[last.year := last.adequacyIndex]
  }

  /** The value kept for a year is the one of its last row. */
  lemma {:induction false} YearIndexLastWins(rows: seq<AdequacyRow>, i: nat)
    requires i < |rows|
    requires forall j :: i < j < |rows| ==> rows[j].year != rows[i].year
    ensures rows[i].year in YearIndex(rows) && YearIndex(rows)[rows[i].year] == rows[i].adequacyIndex
  {
    assert rows[i].year == YearsOf(rows)[i];
    var n := |rows|;
    if i < n - 1 {
      var front := rows[..n - 1];
      assert front[i] == rows[i];
      YearIndexLastWins(front, i);
    }
  }

  /** With distinct years the keys come in row order. */
  lemma {:induction false} YearOrderOfDistinct(rows: seq<AdequacyRow>)
    requires Distinct(YearsOf(rows))
    ensures YearOrder(rows) == YearsOf(rows)
  {
    if rows != [] {
      var n := |rows|;
      var front := rows[..n - 1];
      assert YearsOf(rows) == YearsOf(front) + [rows[n - 1].year];
      assert forall a :: 0 <= a < n - 1 ==> YearsOf(front)[a] == YearsOf(rows)[a];
      YearOrderOfDistinct(front);
      forall a | 0 <= a < n - 1 ensures YearsOf(front)[a] != rows[n - 1].year {
        assert YearsOf(rows)[a] != YearsOf(rows)[n - 1];
      }
    }
  }

  // ---------------------------------------------------------------------------
  // The heat records

  /** One year's records: point k with value k. */
  function YearHeat(year: int, pts: seq<Point>, vals: seq<Float>): (hs: seq<HeatRecord>)
    requires |vals| == |pts|
    ensures |hs| == |pts|
    ensures forall k :: 0 <= k < |hs| ==> hs[k] == HeatRecord(year, pts[k].0, pts[k].1, vals[k])
  {
    seq(|pts|, k requires 0 <= k < |pts| => HeatRecord(year, pts[k].0, pts[k].1, vals[k]))
  }

  /** The heat records of every year in `order`, each year's value drawn afresh with seed 7. */
  function HeatRecordsFor(order: seq<int>, index: map<int, Float>, pts: seq<Point>, draws: NormalDraws, exp: ExpFn): (hs: seq<HeatRecord>)
    requires forall i :: 0 <= i < |order| ==> order[i] in index
  {
    if order == [] then []
    else
      var y := order[|order| - 1];
      HeatRecordsFor(order[..|order| - 1], index, pts, draws, exp) + YearHeat(y, pts, HeatValues(pts, index[y], HeatSeed, draws, exp))
  }

  /** Concatenation regrouped; called with named terms, it is cheaper than leaving the step to the loop proofs. */
  lemma AppendAssociative<T>(a: seq<T>, b: seq<T>, c: seq<T>)
    ensures (a + b) + c == a + (b + c)
  {
  }

  /** |pts| records per year. */
  lemma {:induction false} HeatRecordsLength(order: seq<int>, index: map<int, Float>, pts: seq<Point>, draws: NormalDraws, exp: ExpFn)
    requires forall i :: 0 <= i < |order| ==> order[i] in index
    ensures |HeatRecordsFor(order, index, pts, draws, exp)| == |order| * |pts|
  {
    if order != [] {
      var n := |order|;
      HeatRecordsLength(order[..n - 1], index, pts, draws, exp);
      assert (n - 1) * |pts| + |pts| == n * |pts|;
    }
  }

  /** Adding one more year appends that year's records. */
  lemma HeatRecordsSnoc(order: seq<int>, index: map<int, Float>, pts: seq<Point>, draws: NormalDraws, exp: ExpFn, t: nat)
    requires forall i :: 0 <= i < |order| ==> order[i] in index
    requires t < |order|
    ensures HeatRecordsFor(order[..t + 1], index, pts, draws, exp) ==
      HeatRecordsFor(order[..t], index, pts, draws, exp) + YearHeat(order[t], pts, HeatValues(pts, index[order[t]], HeatSeed, draws, exp))
  {
    assert order[..t + 1][..t] == order[..t];
  }

  /**
   * Record t*|pts| + k is point k of the t-th year, with that year's index
   * and the k-th draw of the seed-7 stream: the same noise for every year.
   */
  lemma {:induction false} HeatLayout(order: seq<int>, index: map<int, Float>, pts: seq<Point>, draws: NormalDraws, exp: ExpFn, t: nat, k: nat)
    requires forall i :: 0 <= i < |order| ==> order[i] in index
    requires t < |order| && k < |pts|
    ensures t * |pts| + k < |HeatRecordsFor(order, index, pts, draws, exp)|
    ensures HeatRecordsFor(order, index, pts, draws, exp)[t * |pts| + k] ==
      HeatRecord(order[t], pts[k].0, pts[k].1, HeatValue(pts[k], index[order[t]], Noise(draws, HeatSeed, k), exp))
  {
    var n := |order|;
    var p := |pts|;
    var front := order[..n - 1];
    var y := order[n - 1];
    var head := HeatRecordsFor(front, index, pts, draws, exp);
    var tail := YearHeat(y, pts, HeatValues(pts, index[y], HeatSeed, draws, exp));
    assert HeatRecordsFor(order, index, pts, draws, exp) == head + tail;
    HeatRecordsLength(front, index, pts, draws, exp);
    var at := t * p + k;
    if t < n - 1 {
      MulStep(t, n - 1, p, k);
      HeatLayout(front, index, pts, draws, exp, t, k);
      assert front[t] == order[t];
      assert (head + tail)[at] == head[at];
    } else {
      assert at == |head| + k;
      assert (head + tail)[at] == tail[k];
    }
  }

  /** For t < m: t*p + k < m*p when k < p. */
  lemma MulStep(t: nat, m: nat, p: nat, k: nat)
    requires t < m && k < p
    ensures t * p + k < m * p
    decreases m - t
  {
    assert (t + 1) * p == t * p + p;
    if t + 1 < m {
      MulStep(t + 1, m, p, 0);
    }
  }

  // ---------------------------------------------------------------------------
  // rebuild

  datatype Outcome = Done | Failed(failure: Failure)

  /** What a rebuild ends with: how it ended and the contents of both tables. */
  datatype RebuildResult = RebuildResult(outcome: Outcome, frames: seq<FrameRecord>, heatPoints: seq<HeatRecord>)

  /**
   * `rebuild` from its inputs. `load` is the history download (None when it
   * raises); `fit`, `draws` and `exp` stand for statsmodels and numpy. Every
   * failure before the frame commit leaves both tables empty, since their
   * deletion was committed first; a repeated (year, metric) key fails the
   * frame commit, which rolls back to the empty tables; a zero step fails
   * after the frames were committed.
   */
  function RebuildSpec(load: Option<MixTable>, horizon: int, step: real, growth: real, margin: real,
                       fit: HoltFit, draws: NormalDraws, exp: ExpFn): RebuildResult
    requires load.Some? ==> WellFormed(load.value)
  {
    match load
    case None => RebuildResult(Failed(LoadFailed), [], [])
    case Some(hist) =>
      match AdequacyTable(hist, horizon, growth, margin, fit)
      case Err(f) => RebuildResult(Failed(f), [], [])
      case Ok(rows) => StoreSpec(rows, step, draws, exp)
  }

  /** `compute_adequacy(forecast_mix(hist, horizon), growth, margin)`, with the parameters passed on unchanged. */
  function AdequacyTable(hist: MixTable, horizon: int, growth: real, margin: real, fit: HoltFit): Result<seq<AdequacyRow>>
    requires WellFormed(hist)
  {
    match ProjectMix(hist, horizon, fit)
    case Err(f) => Err(f)
    case Ok(mix) => ComputeAdequacy(mix, growth, margin)
  }

  /** The part of `rebuild` after the adequacy table is known: both tables start empty. */
  function StoreSpec(rows: seq<AdequacyRow>, step: real, draws: NormalDraws, exp: ExpFn): RebuildResult
  {
    var frames := FramesOf(rows);
    if !UniqueKeys(frames) then RebuildResult(Failed(DuplicateFrameKey), [], [])
    else
      match LatticePointsWithin(BdBboxPolygon(), step)
      case Err(f) => RebuildResult(Failed(f), frames, [])
      case Ok(pts) => RebuildResult(Done, frames, HeatRecordsFor(YearOrder(rows), YearIndex(rows), pts, draws, exp))
  }

  /**
   * How the store step ends: a repeated year fails the frame commit and
   * leaves nothing; otherwise the frames stay, and the heat records follow
   * unless the step is zero.
   */
  lemma StoreOutcomes(rows: seq<AdequacyRow>, step: real, draws: NormalDraws, exp: ExpFn)
    ensures var r := StoreSpec(rows, step, draws, exp);
      && (r.outcome == Failed(DuplicateFrameKey) <==> !Distinct(YearsOf(rows)))
      && (r.outcome == Failed(ZeroStep) <==> Distinct(YearsOf(rows)) && step == 0.0)
      && (r.outcome == Done <==> Distinct(YearsOf(rows)) && step != 0.0)
      && (r.outcome == Failed(DuplicateFrameKey) ==> r.frames == [] && r.heatPoints == [])
      && (r.outcome != Failed(DuplicateFrameKey) ==> r.frames == FramesOf(rows))
      && (r.outcome != Done ==> r.heatPoints == [])
  {
    UniqueKeysIffDistinctYears(rows);
  }

  /**
   * Record t*|pts| + k of the heat records of a table with distinct years is
   * point k with the t-th row's year and a value from that row's index and
   * the k-th seed-7 draw.
   */
  lemma TableHeatLayout(rows: seq<AdequacyRow>, pts: seq<Point>, draws: NormalDraws, exp: ExpFn, t: nat, k: nat)
    requires Distinct(YearsOf(rows))
    requires t < |rows| && k < |pts|
    ensures var heat := HeatRecordsFor(YearsOf(rows), YearIndex(rows), pts, draws, exp);
      && t * |pts| + k < |heat|
      && heat[t * |pts| + k] ==
        HeatRecord(rows[t].year, pts[k].0, pts[k].1, HeatValue(pts[k], rows[t].adequacyIndex, Noise(draws, HeatSeed, k), exp))
  {
    HeatLayout(YearsOf(rows), YearIndex(rows), pts, draws, exp, t, k);
    forall j | t < j < |rows| ensures rows[j].year != rows[t].year {
      assert YearsOf(rows)[t] != YearsOf(rows)[j];
    }
    YearIndexLastWins(rows, t);
  }

  /** After a completed store the heat table holds the records of every row's year, the grid shared by all. */
  lemma StoreHeat(rows: seq<AdequacyRow>, step: real, draws: NormalDraws, exp: ExpFn)
    requires Distinct(YearsOf(rows)) && step != 0.0
    ensures forall y :: y in YearsOf(rows) ==> y in YearIndex(rows)
    ensures StoreSpec(rows, step, draws, exp).heatPoints ==
      HeatRecordsFor(YearsOf(rows), YearIndex(rows), LatticeGrid(RegionBox, step), draws, exp)
  {
    UniqueKeysIffDistinctYears(rows);
    YearOrderOfDistinct(rows);
    RegionLattice(step);
  }

  /** Every failure before the frame commit leaves both tables empty, because their deletion was committed first. */
  lemma RebuildFailures(load: Option<MixTable>, horizon: int, step: real, growth: real, margin: real,
                        fit: HoltFit, draws: NormalDraws, exp: ExpFn)
    requires load.Some? ==> WellFormed(load.value)
    ensures var r := RebuildSpec(load, horizon, step, growth, margin, fit, draws, exp);
      && (load.None? ==> r.outcome == Failed(LoadFailed))
      && (r.outcome.Failed? && r.outcome.failure != ZeroStep ==> r.frames == [] && r.heatPoints == [])
      && (r.outcome != Done ==> r.heatPoints == [])
  {
    if load.Some? {
      var a := AdequacyTable(load.value, horizon, growth, margin, fit);
      if a.Ok? {
        StoreOutcomes(a.value, step, draws, exp);
      }
    }
  }

  /**
   * A history with distinct years, a margin above -1 and a non-zero step
   * rebuilds completely.
   */
  lemma RebuildCompletes(hist: MixTable, horizon: int, step: real, growth: real, margin: real,
                         fit: HoltFit, draws: NormalDraws, exp: ExpFn)
    requires WellFormed(hist) && hist.years != [] && Distinct(hist.years)
    requires margin > -1.0 && step != 0.0
    ensures RebuildSpec(Some(hist), horizon, step, growth, margin, fit, draws, exp).outcome == Done
  {
    ProjectedYearsDistinct(hist, horizon, fit);
    var mix := ProjectMix(hist, horizon, fit).value;
    var rows := ComputeAdequacy(mix, growth, margin).value;
    assert YearsOf(rows) == mix.years;
    StoreOutcomes(rows, step, draws, exp);
  }

  /** The two tables of the database. */
  class Database {
    var frames: seq<FrameRecord>
    var heatPoints: seq<HeatRecord>

    constructor ()
      ensures frames == [] && heatPoints == []
    {
      frames := [];
      heatPoints := [];
    }

    /** `delete(Frame)`, `delete(HeatPoint)` and the commit. */
    method Clear()
      modifies this
      ensures frames == [] && heatPoints == []
    {
      frames := [];
      heatPoints := [];
    }

    /** The first loop of `rebuild`: four `db.add(Frame(...))` per adequacy row. */
    method AddFrames(rows: seq<AdequacyRow>)
      modifies this
      ensures frames == old(frames) + FramesOf(rows)
      ensures heatPoints == old(heatPoints)
    {
      var i := 0;
      while i < |rows|
        invariant 0 <= i <= |rows|
        invariant frames == old(frames) + FramesOf(rows[..i])
        invariant heatPoints == old(heatPoints)
      {
        ghost var done := FramesOf(rows[..i]);
        AddRowFrames(rows[i]);
        assert rows[..i + 1][..i] == rows[..i];
        AppendAssociative(old(frames), done, RowFrames(rows[i]));
        i := i + 1;
      }
      assert rows[..|rows|] == rows;
    }

    /** The inner frame loop: one `db.add(Frame(...))` per metric of the row, in order. */
    method AddRowFrames(r: AdequacyRow)
      modifies this
      ensures frames == old(frames) + RowFrames(r)
      ensures heatPoints == old(heatPoints)
    {
      var metrics := MetricValues(r);
      ghost var fs := RowFrames(r);
      var k := 0;
      while k < |MetricNames|
        invariant 0 <= k <= |MetricNames|
        invariant frames == old(frames) + fs[..k]
        invariant heatPoints == old(heatPoints)
      {
        frames := frames + [FrameRecord(r.year, MetricNames[k], metrics[k])];
        assert fs[..k + 1] == fs[..k] + [fs[k]];
        k := k + 1;
      }
      assert fs[..|MetricNames|] == fs;
    }

    /** The second loop of `rebuild`: for each year, its heat values and one `db.add(HeatPoint(...))` per point. */
    method AddHeat(order: seq<int>, index: map<int, Float>, pts: seq<Point>, draws: NormalDraws, exp: ExpFn)
      requires forall i :: 0 <= i < |order| ==> order[i] in index
      modifies this
      ensures heatPoints == old(heatPoints) + HeatRecordsFor(order, index, pts, draws, exp)
      ensures frames == old(frames)
    {
      var t := 0;
      while t < |order|
        invariant 0 <= t <= |order|
        invariant heatPoints == old(heatPoints) + HeatRecordsFor(order[..t], index, pts, draws, exp)
        invariant frames == old(frames)
      {
        ghost var done := HeatRecordsFor(order[..t], index, pts, draws, exp);
        AddYear(order[t], index[order[t]], pts, draws, exp);
        ghost var year := YearHeat(order[t], pts, HeatValues(pts, index[order[t]], HeatSeed, draws, exp));
        HeatRecordsSnoc(order, index, pts, draws, exp, t);
        AppendAssociative(old(heatPoints), done, year);
        t := t + 1;
      }
      assert order[..|order|] == order;
    }

    /** One pass of the outer heat loop: the year's values, then its records. */
    method AddYear(year: int, yearValue: Float, pts: seq<Point>, draws: NormalDraws, exp: ExpFn)
      modifies this
      ensures heatPoints == old(heatPoints) + YearHeat(year, pts, HeatValues(pts, yearValue, HeatSeed, draws, exp))
      ensures frames == old(frames)
    {
      var vals := MakeHeatValues(pts, yearValue, HeatSeed, draws, exp);
      AddYearHeat(year, pts, vals);
    }

    /** One year's `session.add(HeatPoint(...))` calls, point by point. */
    method AddYearHeat(year: int, pts: seq<Point>, vals: seq<Float>)
      requires |vals| == |pts|
      modifies this
      ensures heatPoints == old(heatPoints) + YearHeat(year, pts, vals)
      ensures frames == old(frames)
    {
      ghost var hs := YearHeat(year, pts, vals);
      var k := 0;
      while k < |pts|
        invariant 0 <= k <= |pts|
        invariant heatPoints == old(heatPoints) + hs[..k]
        invariant frames == old(frames)
      {
        heatPoints := heatPoints + [HeatRecord(year, pts[k].0, pts[k].1, vals[k])];
        assert hs[..k + 1] == hs[..k] + [hs[k]];
        k := k + 1;
      }
      assert hs[..|pts|] == hs;
    }

    /**
     * `rebuild`: the tables end up as `RebuildSpec` says, whichever step
     * fails.
     */
    method Rebuild(load: Option<MixTable>, horizon: int, step: real, growth: real, margin: real,
                   fit: HoltFit, draws: NormalDraws, exp: ExpFn) returns (outcome: Outcome)
      requires load.Some? ==> WellFormed(load.value)
      modifies this
      ensures RebuildResult(outcome, frames, heatPoints) == RebuildSpec(load, horizon, step, growth, margin, fit, draws, exp)
    {
      Clear();
      if load.None? {
        return Failed(LoadFailed);
      }
      var mix := ForecastMix(load.value, horizon, fit);
      if mix.Err? {
        return Failed(mix.failure);
      }
      var adequacy := ComputeAdequacy(mix.value, growth, margin);
      if adequacy.Err? {
        return Failed(adequacy.failure);
      }
      outcome := Store(adequacy.value, step, draws, exp);
    }

    /** The frame loop, its commit, the grid and the heat loop, on emptied tables. */
    method Store(rows: seq<AdequacyRow>, step: real, draws: NormalDraws, exp: ExpFn) returns (outcome: Outcome)
      requires frames == [] && heatPoints == []
      modifies this
      ensures RebuildResult(outcome, frames, heatPoints) == StoreSpec(rows, step, draws, exp)
    {
      ghost var fs := FramesOf(rows);
      AddFrames(rows);
      assert [] + fs == fs;
      if !UniqueKeys(frames) {
        frames := [];
        return Failed(DuplicateFrameKey);
      }
      outcome := StoreGrid(rows, step, draws, exp);
    }

    /** After the frame commit: the lattice of the region, then the heat loop. */
    method StoreGrid(rows: seq<AdequacyRow>, step: real, draws: NormalDraws, exp: ExpFn) returns (outcome: Outcome)
      requires frames == FramesOf(rows) && UniqueKeys(frames) && heatPoints == []
      modifies this
      ensures RebuildResult(outcome, frames, heatPoints) == StoreSpec(rows, step, draws, exp)
    {
      var poly := BdBboxPolygon();
      var pts := GridPointsWithin(poly, step);
      if pts.Err? {
        return Failed(pts.failure);
      }
      var order := YearOrder(rows);
      var index := YearIndex(rows);
      ghost var hs := HeatRecordsFor(order, index, pts.value, draws, exp);
      AddHeat(order, index, pts.value, draws, exp);
      assert [] + hs == hs;
      return Done;
    }
  }
}
