/**
 * The read and admin side of the API (backend/app/main.py): the rebuild
 * endpoint with its parameter defaults, the `frames` pivot of the metric
 * records by year, and the `heat` feature list of one year.
 */
module App {
  import opened Numerics
  import opened Outcomes
  import opened Pipeline
  import opened Geo
  import opened Seeds

  // ---------------------------------------------------------------------------
  // admin_rebuild

  const DefaultHorizon: int := 15
  const DefaultStep: real := 0.12
  const DefaultGrowth: real := 0.045
  const DefaultMargin: real := 0.15

  /** The query parameters of `POST /admin/rebuild`; an absent one takes its default. There is no seed parameter. */
  datatype RebuildQuery = RebuildQuery(
    horizon: Option<int>,
    stepDeg: Option<real>,
    demandGrowth: Option<real>,
    reserveMargin: Option<real>)

  /**
   * `admin_rebuild`: runs the rebuild with the given parameters, or the
   * defaults 15, 0.12, 0.045 and 0.15 where absent, passed on unchanged.
   */
  method AdminRebuild(db: Database, q: RebuildQuery, load: Option<MixTable>,
                      fit: HoltFit, draws: NormalDraws, exp: ExpFn) returns (outcome: Outcome)
    requires load.Some? ==> WellFormed(load.value)
    modifies db
    ensures RebuildResult(outcome, db.frames, db.heatPoints) ==
      RebuildSpec(load, q.horizon.GetOr(DefaultHorizon), q.stepDeg.GetOr(DefaultStep),
                  q.demandGrowth.GetOr(DefaultGrowth), q.reserveMargin.GetOr(DefaultMargin), fit, draws, exp)
  {
    outcome := db.Rebuild(load, q.horizon.GetOr(DefaultHorizon), q.stepDeg.GetOr(DefaultStep),
                          q.demandGrowth.GetOr(DefaultGrowth), q.reserveMargin.GetOr(DefaultMargin), fit, draws, exp);
  }

  /** With every parameter left out, the defaults give a complete rebuild for a history with distinct years. */
  lemma DefaultRebuildCompletes(hist: MixTable, fit: HoltFit, draws: NormalDraws, exp: ExpFn)
    requires WellFormed(hist) && hist.years != [] && Distinct(hist.years)
    ensures var q := RebuildQuery(None, None, None, None);
      RebuildSpec(Some(hist), q.horizon.GetOr(DefaultHorizon), q.stepDeg.GetOr(DefaultStep),
                  q.demandGrowth.GetOr(DefaultGrowth), q.reserveMargin.GetOr(DefaultMargin), fit, draws, exp).outcome == Done
  {
    RebuildCompletes(hist, DefaultHorizon, DefaultStep, DefaultGrowth, DefaultMargin, fit, draws, exp);
  }

  // ---------------------------------------------------------------------------
  // frames

  /** One element of the `frames` list: a year and its metric dict. */
  datatype YearFrame = YearFrame(year: int, metrics: map<string, Float>)

  /** The `by_year` dict after the given rows: `by_year.setdefault(year, {})[metric] = value` for each. */
  function Pivot(rows: seq<FrameRecord>): map<int, map<string, Float>>
  {
    if rows == [] then map[]
    else
      var byYear := Pivot(rows[..|rows| - 1]);
      var r := rows[|rows| - 1];
      var metrics := if r.year in byYear then byYear[r.year] else map[];
      byYear[r.year := metrics[r.metric := r.value]]
  }

  /** Some row carries this year. */
  predicate HasYear(rows: seq<FrameRecord>, y: int)
  {
    exists j :: 0 <= j < |rows| && rows[j].year == y
  }

  /** Some row carries this (year, metric) key. */
  predicate HasKey(rows: seq<FrameRecord>, y: int, m: string)
  {
    exists j :: 0 <= j < |rows| && rows[j].year == y && rows[j].metric == m
  }

  /** Row j is the last one with its (year, metric) key. */
  predicate LastWrite(rows: seq<FrameRecord>, j: int)
  {
    0 <= j < |rows| &&
    forall l :: j < l < |rows| ==> rows[l].year != rows[j].year || rows[l].metric != rows[j].metric
  }

  /** The dict holds a year exactly when some row has it. */
  lemma {:induction false} PivotYears(rows: seq<FrameRecord>)
    ensures forall y :: y in Pivot(rows) <==> HasYear(rows, y)
  {
    if rows != [] {
      var n := |rows|;
      var front := rows[..n - 1];
      PivotYears(front);
      forall y ensures HasYear(rows, y) <==> HasYear(front, y) || y == rows[n - 1].year {
        if HasYear(rows, y) {
          var j :| 0 <= j < n && rows[j].year == y;
          if j < n - 1 {
            assert front[j].year == y;
          }
        }
        if HasYear(front, y) {
          var j :| 0 <= j < n - 1 && front[j].year == y;
          assert rows[j].year == y;
        }
      }
    }
  }

  /** Under a year, the dict holds a metric exactly when some row has the pair. */
  lemma {:induction false} PivotMetrics(rows: seq<FrameRecord>)
    ensures forall y, m :: y in Pivot(rows) ==> (m in Pivot(rows)[y] <==> HasKey(rows, y, m))
  {
    if rows != [] {
      var n := |rows|;
      var front := rows[..n - 1];
      var r := rows[n - 1];
      PivotMetrics(front);
      PivotYears(front);
      forall y, m ensures HasKey(rows, y, m) <==> HasKey(front, y, m) || (y == r.year && m == r.metric) {
        if HasKey(rows, y, m) {
          var j :| 0 <= j < n && rows[j].year == y && rows[j].metric == m;
          if j < n - 1 {
            assert front[j].year == y && front[j].metric == m;
          }
        }
        if HasKey(front, y, m) {
          var j :| 0 <= j < n - 1 && front[j].year == y && front[j].metric == m;
          assert rows[j].year == y && rows[j].metric == m;
          assert HasYear(front, y);
        }
      }
    }
  }

  /** The value under a (year, metric) key is the one of the last row with it. */
  lemma {:induction false} PivotLastWins(rows: seq<FrameRecord>, j: int)
    requires LastWrite(rows, j)
    ensures rows[j].year in Pivot(rows) && rows[j].metric in Pivot(rows)[rows[j].year]
    ensures Pivot(rows)[rows[j].year][rows[j].metric] == rows[j].value
  {
    var n := |rows|;
    if j < n - 1 {
      var front := rows[..n - 1];
      assert front[j] == rows[j];
      assert LastWrite(front, j) by {
        forall l | j < l < n - 1 ensures front[l].year != front[j].year || front[l].metric != front[j].metric {
          assert front[l] == rows[l];
        }
      }
      PivotLastWins(front, j);
    }
  }

  predicate StrictlyIncreasing(s: seq<int>)
  {
    forall a, b :: 0 <= a < b < |s| ==> s[a] < s[b]
  }

  /** Insertion into an ascending list of years. */
  function Insert(x: int, s: seq<int>): (r: seq<int>)
    requires StrictlyIncreasing(s) && x !in s
    ensures StrictlyIncreasing(r) && |r| == |s| + 1
    ensures forall y :: y in r <==> y == x || y in s
  {
    if s == [] then [x]
    else if x < s[0] then [x] + s
    else
      var rest := Insert(x, s[1..]);
      assert forall y :: y in s <==> y == s[0] || y in s[1..];
      assert forall b :: 0 <= b < |rest| ==> s[0] < rest[b] by {
        forall b | 0 <= b < |rest| ensures s[0] < rest[b] {
          assert rest[b] in rest;
        }
      }
      [s[0]] + rest
  }

  /** `sorted(keys)` for distinct keys: the same years, ascending. */
  function SortInts(ks: seq<int>): (r: seq<int>)
    requires Distinct(ks)
    ensures StrictlyIncreasing(r) && |r| == |ks|
    ensures forall y :: y in r <==> y in ks
  {
    if ks == [] then []
    else
      var front := ks[..|ks| - 1];
      var x := ks[|ks| - 1];
      assert forall y :: y in ks <==> y in front || y == x by {
        assert ks == front + [x];
      }
      assert x !in front by {
        forall a | 0 <= a < |front| ensures front[a] != x {
          assert ks[a] != ks[|ks| - 1];
        }
      }
      Insert(x, SortInts(front))
  }

  /**
   * `frames`: the years present, ascending and without repetition, and for
   * each its metric dict, holding every metric some row gives it, with the
   * value of the last such row.
   */
  method Frames(rows: seq<FrameRecord>) returns (years: seq<int>, frames: seq<YearFrame>)
    ensures StrictlyIncreasing(years)
    ensures forall y :: y in years <==> HasYear(rows, y)
    ensures |frames| == |years|
    ensures forall i :: 0 <= i < |frames| ==> frames[i].year == years[i]
    ensures forall i, m :: 0 <= i < |frames| ==> (m in frames[i].metrics <==> HasKey(rows, years[i], m))
    ensures forall i, j :: 0 <= i < |frames| && LastWrite(rows, j) && rows[j].year == years[i] ==>
      rows[j].metric in frames[i].metrics && frames[i].metrics[rows[j].metric] == rows[j].value
  {
    var byYear, keys := PivotLoop(rows);
    PivotYears(rows);
    PivotMetrics(rows);
    years := SortInts(keys);
    assert forall k :: 0 <= k < |years| ==> years[k] in years;
    frames := seq(|years|, k requires 0 <= k < |years| => YearFrame(years[k], byYear[years[k]]));
    forall i, j | 0 <= i < |frames| && LastWrite(rows, j) && rows[j].year == years[i]
      ensures rows[j].metric in frames[i].metrics && frames[i].metrics[rows[j].metric] == rows[j].value
    {
      PivotLastWins(rows, j);
    }
  }

  /**
   * The loop of `frames`: `by_year.setdefault(year, {})[metric] = value`
   * for each row, with the keys also listed in insertion order.
   */
  method PivotLoop(rows: seq<FrameRecord>) returns (byYear: map<int, map<string, Float>>, keys: seq<int>)
    ensures byYear == Pivot(rows)
    ensures Distinct(keys) && forall y :: y in keys <==> y in byYear
  {
    byYear := map[];
    keys := [];
    var i := 0;
    while i < |rows|
      invariant 0 <= i <= |rows|
      invariant byYear == Pivot(rows[..i])
      invariant Distinct(keys) && forall y :: y in keys <==> y in byYear
    {
      var r := rows[i];
      if r.year !in byYear {
        keys := keys + [r.year];
      }
      var metrics := if r.year in byYear then byYear[r.year] else map[];
      byYear := byYear[r.year := metrics[r.metric := r.value]];
      assert rows[..i + 1][..i] == rows[..i];
      i := i + 1;
    }
    assert rows[..|rows|] == rows;
  }

  // ---------------------------------------------------------------------------
  // heat

  /** One GeoJSON point feature: `{"type": "Feature", "geometry": {...}, "properties": {"v": ...}}`. */
  datatype Feature = Feature(kind: string, geometryKind: string, coordinates: seq<real>, v: Float)

  /** The response body: `{"type": "FeatureCollection", "features": [...]}`. */
  datatype FeatureCollection = FeatureCollection(kind: string, features: seq<Feature>)

  /** `select(HeatPoint).where(HeatPoint.year == year)`, in table order. */
  function SelectYear(table: seq<HeatRecord>, year: int): seq<HeatRecord>
  {
    if table == [] then []
    else
      var rest := SelectYear(table[..|table| - 1], year);
      var last := table[|table| - 1];
      if last.year == year then rest + [last] else rest
  }

  /** The selection keeps exactly the records of the year. */
  lemma {:induction false} SelectYearMembers(table: seq<HeatRecord>, year: int)
    ensures forall h :: h in SelectYear(table, year) <==> h in table && h.year == year
  {
    if table != [] {
      var n := |table|;
      SelectYearMembers(table[..n - 1], year);
      assert table == table[..n - 1] + [table[n - 1]];
    }
  }

  lemma {:induction false} SelectYearConcat(a: seq<HeatRecord>, b: seq<HeatRecord>, year: int)
    ensures SelectYear(a + b, year) == SelectYear(a, year) + SelectYear(b, year)
  {
    if b == [] {
      assert a + b == a;
    } else {
      var n := |b|;
      assert (a + b)[..|a + b| - 1] == a + b[..n - 1];
      SelectYearConcat(a, b[..n - 1], year);
    }
  }

  /**
   * `heat`: a feature collection with one point feature per selected
   * record, in order, with coordinates [lon, lat] and property v.
   */
  method Heat(db: Database, year: int) returns (collection: FeatureCollection)
    ensures collection.kind == "FeatureCollection"
    ensures var pts := SelectYear(db.heatPoints, year);
      && |collection.features| == |pts|
      && forall k :: 0 <= k < |pts| ==>
        collection.features[k] == Feature("Feature", "Point", [pts[k].lon, pts[k].lat], pts[k].value)
  {
    var pts := SelectYear(db.heatPoints, year);
    var features := [];
    var k := 0;
    while k < |pts|
      invariant 0 <= k <= |pts|
      invariant |features| == k
      invariant forall t :: 0 <= t < k ==> features[t] == Feature("Feature", "Point", [pts[t].lon, pts[t].lat], pts[t].value)
    {
      var p := pts[k];
      features := features + [Feature("Feature", "Point", [p.lon, p.lat], p.value)];
      k := k + 1;
    }
    collection := FeatureCollection("FeatureCollection", features);
  }

  /** Selecting one of the years from the records of distinct years gives that year's records alone. */
  lemma {:induction false} SelectFromHeatRecords(order: seq<int>, index: map<int, Float>, pts: seq<Point>,
                                                 draws: NormalDraws, exp: ExpFn, t: nat)
    requires forall i :: 0 <= i < |order| ==> order[i] in index
    requires Distinct(order) && t < |order|
    ensures SelectYear(HeatRecordsFor(order, index, pts, draws, exp), order[t]) ==
      YearHeat(order[t], pts, HeatValues(pts, index[order[t]], HeatSeed, draws, exp))
  {
    var n := |order|;
    var front := order[..n - 1];
    var y := order[t];
    if t < n - 1 {
      assert front[t] == y;
      assert Distinct(front) by {
        forall a, b | 0 <= a < b < |front| ensures front[a] != front[b] {
          assert order[a] != order[b];
        }
      }
      assert order[n - 1] != y;
      SelectHeatSnocOther(order, index, pts, draws, exp, y);
      SelectFromHeatRecords(front, index, pts, draws, exp, t);
    } else {
      forall s | 0 <= s < n - 1 ensures front[s] != y {
        assert order[s] != order[n - 1];
      }
      SelectYearAbsent(front, index, pts, draws, exp, y);
      SelectHeatSnocSame(order, index, pts, draws, exp);
    }
  }

  /** Selecting the last year from the records of one more year adds that year's records. */
  lemma SelectHeatSnocSame(order: seq<int>, index: map<int, Float>, pts: seq<Point>, draws: NormalDraws, exp: ExpFn)
    requires forall i :: 0 <= i < |order| ==> order[i] in index
    requires order != []
    requires SelectYear(HeatRecordsFor(order[..|order| - 1], index, pts, draws, exp), order[|order| - 1]) == []
    ensures var last := order[|order| - 1];
      SelectYear(HeatRecordsFor(order, index, pts, draws, exp), last) ==
        YearHeat(last, pts, HeatValues(pts, index[last], HeatSeed, draws, exp))
  {
    var last := order[|order| - 1];
    var head := HeatRecordsFor(order[..|order| - 1], index, pts, draws, exp);
    var tail := YearHeat(last, pts, HeatValues(pts, index[last], HeatSeed, draws, exp));
    SelectYearConcat(head, tail, last);
    SelectYearAll(tail, last);
    assert [] + tail == tail;
  }

  /** Selecting another year from the records of one more year adds nothing. */
  lemma SelectHeatSnocOther(order: seq<int>, index: map<int, Float>, pts: seq<Point>,
                            draws: NormalDraws, exp: ExpFn, year: int)
    requires forall i :: 0 <= i < |order| ==> order[i] in index
    requires order != [] && order[|order| - 1] != year
    ensures SelectYear(HeatRecordsFor(order, index, pts, draws, exp), year) ==
      SelectYear(HeatRecordsFor(order[..|order| - 1], index, pts, draws, exp), year)
  {
    var last := order[|order| - 1];
    var head := HeatRecordsFor(order[..|order| - 1], index, pts, draws, exp);
    var tail := YearHeat(last, pts, HeatValues(pts, index[last], HeatSeed, draws, exp));
    SelectYearConcat(head, tail, year);
    SelectYearNone(tail, year);
    assert SelectYear(head, year) + [] == SelectYear(head, year);
  }

  lemma {:induction false} SelectYearNone(table: seq<HeatRecord>, year: int)
    requires forall k :: 0 <= k < |table| ==> table[k].year != year
    ensures SelectYear(table, year) == []
  {
    if table != [] {
      SelectYearNone(table[..|table| - 1], year);
    }
  }

  lemma {:induction false} SelectYearAll(table: seq<HeatRecord>, year: int)
    requires forall k :: 0 <= k < |table| ==> table[k].year == year
    ensures SelectYear(table, year) == table
  {
    if table != [] {
      var n := |table|;
      SelectYearAll(table[..n - 1], year);
      assert table == table[..n - 1] + [table[n - 1]];
    }
  }

  lemma {:induction false} SelectYearAbsent(order: seq<int>, index: map<int, Float>, pts: seq<Point>,
                                            draws: NormalDraws, exp: ExpFn, year: int)
    requires forall i :: 0 <= i < |order| ==> order[i] in index
    requires forall s :: 0 <= s < |order| ==> order[s] != year
    ensures SelectYear(HeatRecordsFor(order, index, pts, draws, exp), year) == []
  {
    if order != [] {
      var n := |order|;
      SelectYearAbsent(order[..n - 1], index, pts, draws, exp, year);
      SelectHeatSnocOther(order, index, pts, draws, exp, year);
    }
  }

  /**
   * End to end: after a completed rebuild from a history with distinct
   * years, the heat features of a forecast year are the lattice points of
   * the region in row-major order, each carrying that year's heat value.
   */
  lemma HeatAfterRebuild(rows: seq<AdequacyRow>, step: real, draws: NormalDraws, exp: ExpFn, t: nat)
    requires Distinct(YearsOf(rows)) && step != 0.0 && t < |rows|
    ensures var pts := LatticeGrid(RegionBox, step);
      SelectYear(StoreSpec(rows, step, draws, exp).heatPoints, rows[t].year) ==
        YearHeat(rows[t].year, pts, HeatValues(pts, rows[t].adequacyIndex, HeatSeed, draws, exp))
  {
    var pts := LatticeGrid(RegionBox, step);
    StoreHeat(rows, step, draws, exp);
    SelectFromHeatRecords(YearsOf(rows), YearIndex(rows), pts, draws, exp, t);
    forall j | t < j < |rows| ensures rows[j].year != rows[t].year {
      assert YearsOf(rows)[t] != YearsOf(rows)[j];
    }
    YearIndexLastWins(rows, t);
  }

  // ---------------------------------------------------------------------------
  // JSON rendering of the replies

  /**
   * A reply as the client receives it. FastAPI renders the dict a handler
   * returns with Starlette's `JSONResponse`, which serialises with
   * `allow_nan=False`: a NaN or an infinity anywhere in the dict raises, and
   * the request ends in a server error instead of a body.
   */
  datatype Reply<T> = Json(body: T) | ServerError

  /** The body of `GET /frames`. */
  datatype FramesBody = FramesBody(years: seq<int>, frames: seq<YearFrame>)

  /** Every metric value of the `frames` list can be rendered. */
  predicate FramesFinite(frames: seq<YearFrame>)
  {
    forall i, m :: 0 <= i < |frames| && m in frames[i].metrics ==> frames[i].metrics[m].Finite?
  }

  /** Every feature's `v` can be rendered. */
  predicate FeaturesFinite(features: seq<Feature>)
  {
    forall k :: 0 <= k < |features| ==> features[k].v.Finite?
  }

  /** Every (year, metric) key some row carries has a last write. */
  lemma {:induction false} LastWriteExists(rows: seq<FrameRecord>, y: int, m: string)
    requires HasKey(rows, y, m)
    ensures exists j :: LastWrite(rows, j) && rows[j].year == y && rows[j].metric == m
  {
    var n := |rows|;
    var front := rows[..n - 1];
    if rows[n - 1].year == y && rows[n - 1].metric == m {
      assert LastWrite(rows, n - 1);
    } else {
      var j0 :| 0 <= j0 < n && rows[j0].year == y && rows[j0].metric == m;
      assert front[j0] == rows[j0];
      LastWriteExists(front, y, m);
      var j :| LastWrite(front, j) && front[j].year == y && front[j].metric == m;
      LastWriteSnoc(rows, j);
    }
  }

  /** A last write before the final row stays one when the final row has another key. */
  lemma LastWriteSnoc(rows: seq<FrameRecord>, j: int)
    requires rows != [] && LastWrite(rows[..|rows| - 1], j)
    requires rows[|rows| - 1].year != rows[j].year || rows[|rows| - 1].metric != rows[j].metric
    ensures LastWrite(rows, j)
  {
    var front := rows[..|rows| - 1];
    forall l | j < l < |rows| ensures rows[l].year != rows[j].year || rows[l].metric != rows[j].metric {
      if l < |rows| - 1 {
        assert front[l] == rows[l];
      }
    }
  }

  /**
   * `GET /frames` as the client sees it: a server error exactly when the
   * last write of some (year, metric) key in the table is not finite (an
   * overwritten value never reaches the dict); otherwise the pivoted body.
   */
  method FramesReply(db: Database) returns (reply: Reply<FramesBody>)
    ensures reply.ServerError? <==> exists j :: LastWrite(db.frames, j) && !db.frames[j].value.Finite?
    ensures reply.Json? ==> StrictlyIncreasing(reply.body.years) && |reply.body.frames| == |reply.body.years|
    ensures reply.Json? ==> forall y :: y in reply.body.years <==> HasYear(db.frames, y)
    ensures reply.Json? ==> forall i :: 0 <= i < |reply.body.frames| ==> reply.body.frames[i].year == reply.body.years[i]
    ensures reply.Json? ==> forall i, m :: 0 <= i < |reply.body.frames| ==>
      (m in reply.body.frames[i].metrics <==> HasKey(db.frames, reply.body.years[i], m))
    ensures reply.Json? ==> forall i, j :: 0 <= i < |reply.body.frames| && LastWrite(db.frames, j) && db.frames[j].year == reply.body.years[i] ==>
      db.frames[j].metric in reply.body.frames[i].metrics && reply.body.frames[i].metrics[db.frames[j].metric] == db.frames[j].value
  {
    var rows := db.frames;
    var years, frames := Frames(rows);
    if FramesFinite(frames) {
      reply := Json(FramesBody(years, frames));
      forall j | LastWrite(rows, j) ensures rows[j].value.Finite? {
        assert HasYear(rows, rows[j].year);
        var i :| 0 <= i < |years| && years[i] == rows[j].year;
        assert frames[i].metrics[rows[j].metric] == rows[j].value;
      }
    } else {
      reply := ServerError;
      var i, m :| 0 <= i < |frames| && m in frames[i].metrics && !frames[i].metrics[m].Finite?;
      LastWriteExists(rows, years[i], m);
      var j :| LastWrite(rows, j) && rows[j].year == years[i] && rows[j].metric == m;
      assert !rows[j].value.Finite?;
    }
  }

  /**
   * `GET /heat/{year}` as the client sees it: a server error exactly when
   * some selected record's value is not finite; otherwise the feature
   * collection.
   */
  method HeatReply(db: Database, year: int) returns (reply: Reply<FeatureCollection>)
    ensures var pts := SelectYear(db.heatPoints, year);
      reply.ServerError? <==> exists k :: 0 <= k < |pts| && !pts[k].value.Finite?
    ensures reply.Json? ==> reply.body.kind == "FeatureCollection"
    ensures reply.Json? ==> var pts := SelectYear(db.heatPoints, year);
      && |reply.body.features| == |pts|
      && forall k :: 0 <= k < |pts| ==>
        reply.body.features[k] == Feature("Feature", "Point", [pts[k].lon, pts[k].lat], pts[k].value)
  {
    var collection := Heat(db, year);
    var features := collection.features;
    if FeaturesFinite(features) {
      reply := Json(collection);
    } else {
      reply := ServerError;
      var k :| 0 <= k < |features| && !features[k].v.Finite?;
      assert !SelectYear(db.heatPoints, year)[k].value.Finite?;
    }
  }

  /**
   * After a store from a table with distinct years, some stored frame key
   * has a non-finite last write exactly when some row's adequacy index is
   * not finite; the other three metrics are always finite.
   */
  lemma FramesNonFiniteAfterStore(rows: seq<AdequacyRow>, step: real, draws: NormalDraws, exp: ExpFn)
    requires Distinct(YearsOf(rows))
    ensures var fs := StoreSpec(rows, step, draws, exp).frames;
      (exists j :: LastWrite(fs, j) && !fs[j].value.Finite?) <==>
      exists t :: 0 <= t < |rows| && !rows[t].adequacyIndex.Finite?
  {
    StoreOutcomes(rows, step, draws, exp);
    assert StoreSpec(rows, step, draws, exp).frames == FramesOf(rows);
    var fs := FramesOf(rows);
    if j :| LastWrite(fs, j) && !fs[j].value.Finite? {
      NonFiniteFrameIsIndex(rows, j);
    }
    if t :| 0 <= t < |rows| && !rows[t].adequacyIndex.Finite? {
      DistinctYearsUniqueKeys(rows);
      FramesLayout(rows, t, 0);
      assert LastWrite(fs, 4 * t);
    }
  }

  /** Only the adequacy index among a row's four frame values can be non-finite. */
  lemma NonFiniteFrameIsIndex(rows: seq<AdequacyRow>, j: nat)
    requires j < |FramesOf(rows)| && !FramesOf(rows)[j].value.Finite?
    ensures j / 4 < |rows| && !rows[j / 4].adequacyIndex.Finite?
  {
    FrameKeyAt(rows, j);
    FramesLayout(rows, j / 4, j % 4);
    assert j % 4 == 0;
  }

  /**
   * After a store from a table with distinct years and a non-zero step, the
   * heat records of a year hold a non-finite value exactly when the region
   * lattice is not empty and the year's adequacy index is NaN.
   */
  lemma HeatNonFiniteAfterStore(rows: seq<AdequacyRow>, step: real, draws: NormalDraws, exp: ExpFn, t: nat)
    requires Distinct(YearsOf(rows)) && step != 0.0 && t < |rows|
    ensures var sel := SelectYear(StoreSpec(rows, step, draws, exp).heatPoints, rows[t].year);
      (exists k :: 0 <= k < |sel| && !sel[k].value.Finite?) <==>
      LatticeGrid(RegionBox, step) != [] && rows[t].adequacyIndex.NaN?
  {
    var pts := LatticeGrid(RegionBox, step);
    var vals := HeatValues(pts, rows[t].adequacyIndex, HeatSeed, draws, exp);
    HeatAfterRebuild(rows, step, draws, exp, t);
    HeatValuesBounded(pts, rows[t].adequacyIndex, HeatSeed, draws, exp);
    var sel := SelectYear(StoreSpec(rows, step, draws, exp).heatPoints, rows[t].year);
    assert sel == YearHeat(rows[t].year, pts, vals);
    if pts != [] && rows[t].adequacyIndex.NaN? {
      assert !sel[0].value.Finite?;
    }
  }
}
