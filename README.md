# PowerPlex backend core, modelled in Dafny

PowerPlex forecasts Bangladesh's electricity mix and turns it into a supply
adequacy index per year, plus a gridded "heat" field over the country for
each year. This project models the backend's core: the forecasting and
adequacy pipeline, the lattice and heat-value generator, the
database rebuild that stores both, and the three API handlers that trigger
the rebuild and read the stored tables. It proves properties of that model.

Module layout (one module per source file, plus two shared ones):

- `Numerics` (numerics.dfy): doubles as `Float = Finite(real) | PosInf | NegInf | NaN`.
  It also holds the numpy operations whose special-value behaviour matters:
  `np.clip`, element-wise division and adding an offset.
- `Outcomes` (outcomes.dfy): `Option`, and `Result` over the `Failure`s the
  pipeline can raise:
  - an empty history, since `years.max()` raises;
  - `base_total / (1 + m)` with `m = -1`;
  - `np.arange` with a zero step;
  - a failed download;
  - the `(year, metric)` unique constraint failing at the frame commit.
- `Pipeline` (pipeline.dfy): `holt_forecast_yearly`, `forecast_mix` and
  `compute_adequacy`. The projection loop `ForecastMix` is a method proved
  against the function `ProjectMix`.
- `Geo` (geo.dfy): `bd_bbox_polygon`, `grid_points_within` and
  `make_heat_values`.
  - The nested scan `ScanLattice` is proved equal to the function `Grid`.
  - `MakeHeatValues` draws from a `class Rng`, whose draw counter advances
    in place.
- `Seeds` (seeds.dfy): `rebuild`. `class Database` holds the two tables as
  `seq` fields, and its methods follow the source's loops.
  - `Rebuild`, `Store` and `StoreGrid` are proved against the pure
    `RebuildSpec` / `StoreSpec`. The loop methods `AddFrames`,
    `AddRowFrames`, `AddHeat`, `AddYear` and `AddYearHeat` are proved
    against `FramesOf`, `RowFrames`, `HeatRecordsFor` and `YearHeat`.
  - The lemmas about those specs state what the tables hold after each
    failure or success.
- `App` (main.dfy): `admin_rebuild` with its defaults, the `frames` pivot,
  and the `heat` feature collection.
  - It also models the replies as the client sees them: a NaN or infinite
    value makes the JSON rendering fail.
  - A stored adequacy index is NaN when both peak demand and supply are 0
    (`Pipeline.AdequacyIndexBounded`), for example with demand growth -1 and
    a year with no supply. Such an index makes `/frames` fail, and it makes
    `/heat/{year}` fail for that year (`App.FramesNonFiniteAfterStore`,
    `App.HeatNonFiniteAfterStore`).
  - The zero peak that growth -1 produces carries the sign of the base
    peak, as numpy's -0.0 does. With a margin below -1 and a positive base
    total the base peak is negative, so a year with positive supply gets
    index -0.5 rather than 0.5 (`Pipeline.AdequacyIndex`).

The external pieces are parameters:

- the statsmodels fit is `HoltFit`, a function known only to return
  `periods` values;
- numpy's normal stream is `NormalDraws`: the k-th standard draw for a seed;
- `np.exp` is `ExpFn`: values in (0, 1] for arguments at or below 0;
- the OWID download is an `Option<MixTable>`, where `None` stands for a
  failed download.

Arithmetic is exact over the reals.

## Model

| member | source | states |
|---|---|---|
| Numerics.Clip | backend/app/pipeline.py:63 | `np.clip` of a finite value lies in [lo, hi]; it is the value itself inside the range and the nearer bound outside it |
| Numerics.ClipF | backend/app/pipeline.py:63 | clipping a double gives NaN exactly for NaN and a finite value in [lo, hi] for anything else, including the infinities; a finite value is clipped as a real, +inf becomes hi and -inf becomes lo |
| Numerics.Divide | backend/app/pipeline.py:62 | numpy division is finite exactly when the divisor is non-zero, and then the quotient times the divisor is the dividend; it is NaN exactly for 0/0, +inf exactly for a positive dividend over 0 and -inf exactly for a negative one (the divisor is +0.0; AdequacyIndex handles a -0.0 divisor by negating the dividend) |
| Numerics.Plus | backend/app/geo.py:27 | adding a finite offset keeps a finite double finite, shifted by the offset; an infinity or NaN is left as it is |
| Numerics.Max0 | backend/app/pipeline.py:49 | `np.clip(x, 0, None)` is non-negative, at least x, and either x or 0 |
| Numerics.Pow | backend/app/pipeline.py:60 | definition of `(1 + g) ** elapsed` for a natural exponent; PowPositive, PowStrictlyIncreasing and PowMonotoneBase state its order properties |
| Pipeline.CleanSeries | backend/app/pipeline.py:28 | the cleaned series is never longer than the input; its contents are stated by the four lemmas below |
| Pipeline.CleanConcat | backend/app/pipeline.py:28 | dropping non-finite entries commutes with concatenation, since each entry is kept or dropped on its own |
| Pipeline.CleanEmpty | backend/app/pipeline.py:28-30 | nothing is left after cleaning exactly when the series has no finite entry |
| Pipeline.CleanLast | backend/app/pipeline.py:28-30 | the last cleaned value is the value of the last finite entry of the series |
| Pipeline.CleanOfLifted | backend/app/pipeline.py:47-48 | a column of finite values is left unchanged by cleaning |
| Pipeline.HoltForecast | backend/app/pipeline.py:27-37 | the forecast has exactly `periods` values on both branches |
| Pipeline.ShortSeriesFallback | backend/app/pipeline.py:29-31 | with fewer than 4 finite values, every forecast equals the last finite value, or 0.0 when there is none |
| Pipeline.NonFiniteIgnored | backend/app/pipeline.py:28 | inserting an inf, -inf or NaN anywhere in the series does not change the forecast |
| Pipeline.MaxOf | backend/app/pipeline.py:42 | `years.max()` is a member of the years and at least every year |
| Pipeline.MinOf | backend/app/pipeline.py:57 | `years.min()` is a member of the years and at most every year |
| Pipeline.IntRange | backend/app/pipeline.py:43 | definition of the integer `np.arange`; its contents are stated by IntRangeContiguous |
| Pipeline.FutureYears | backend/app/pipeline.py:43 | definition of `future_years`: last_year + 1 up to last_year + horizon; ProjectedYears states the result |
| Pipeline.IntRangeContiguous | backend/app/pipeline.py:43 | `np.arange(lo, hi, dtype=int)` has max(hi - lo, 0) entries and entry k is lo + k |
| Pipeline.Lift | backend/app/pipeline.py:47 | a history column as doubles has one entry per value, entry i being value i as a finite double |
| Pipeline.ClipNonNegative | backend/app/pipeline.py:49 | `np.clip(fc, 0, None)` keeps the length; each entry is Max0 of the forecast, as ProjectedColumns states |
| Pipeline.ProjectColumn | backend/app/pipeline.py:47-49 | a projected column has length history + `periods`, its history prefix is unchanged and every forecast entry is non-negative |
| Pipeline.ProjectMix | backend/app/pipeline.py:39-51 | `forecast_mix` fails exactly when the history has no year (with EmptyHistory); otherwise every output column has one value per output year |
| Pipeline.ForecastMix | backend/app/pipeline.py:39-51 | the column-by-column loop returns exactly `ProjectMix`, the error case included |
| Pipeline.ProjectedYears | backend/app/pipeline.py:41-44 | the year column is the history's years in input order, then max + 1 ... max + horizon (none when horizon <= 0), each later than every historical year |
| Pipeline.ProjectedColumns | backend/app/pipeline.py:45-50 | the sources and the number of columns are kept; each column keeps its history unchanged; each forecast entry is the clipped Holt forecast and never negative |
| Pipeline.ProjectedYearsDistinct | backend/app/pipeline.py:41-44 | distinct historical years stay distinct after the projection |
| Pipeline.FirstIndexOf | backend/app/pipeline.py:58 | `.iloc[0]` of the rows of a year is the first index holding it |
| Pipeline.RowTotal | backend/app/pipeline.py:55-56 | definition of `total_generation`: the sum of the row over the source columns, used by ComputeAdequacy's contract |
| Pipeline.BaseTotal | backend/app/pipeline.py:57-58 | definition of `base_total`: the total of the first row of the minimum year |
| Pipeline.BasePeak | backend/app/pipeline.py:59 | definition of `base_peak`: base_total / (1 + m) for a positive base total, with the division error for m = -1, else 1.0; BasePeakPositive states its sign |
| Pipeline.PeakDemand | backend/app/pipeline.py:60 | definition of `peak_demand`: base_peak * (1 + g) ** (year - base_year); its order is stated by PeakDemandOrder and PeakDemandGrowthOrder |
| Pipeline.AdequacyIndex | backend/app/pipeline.py:62-63 | definition of the index: numpy's division (supply - peak) / peak, clipped to [-0.5, 0.5]; a zero peak that is -0.0 (a negative base peak times 0 ** n) divides as the negated dividend over +0.0; AdequacyIndexBounded and BaseIndexIsMargin state its values |
| Pipeline.AdequacyRowAt | backend/app/pipeline.py:55-63 | definition of one output row from the shared base year and base peak; AdequacyRows ties ComputeAdequacy to it |
| Pipeline.ComputeAdequacy | backend/app/pipeline.py:53-64 | it fails exactly for an empty table, or for a positive base total with m = -1; otherwise there is one output row per input row, and row i has that row's year, its sum over the sources as total generation, and available supply equal to total generation |
| Pipeline.AdequacyRows | backend/app/pipeline.py:55-63 | every output row is computed from the same base year (the minimum year) and the same base peak |
| Pipeline.AdequacyIndexBounded | backend/app/pipeline.py:62-63 | the index is never infinite; it is finite in [-0.5, 0.5] except NaN, which occurs exactly when both peak demand and supply are 0; a zero peak with positive supply gives 0.5 and with negative supply -0.5 when the base peak is positive, and the opposite values when it is negative (margin below -1 with a positive base total, where the zero peak is -0.0) |
| Pipeline.BasePeakPositive | backend/app/pipeline.py:59 | with m > -1 the base peak is computed and positive, whether it is base_total / (1 + m) or the 1.0 floor |
| Pipeline.PeakDemandOrder | backend/app/pipeline.py:60 | for a positive base peak and g > 0, peak demand grows strictly with the elapsed years |
| Pipeline.PeakDemandGrowthOrder | backend/app/pipeline.py:60 | for a positive base peak, a larger growth rate (> -1) never gives a smaller peak demand |
| Pipeline.PeakDemandPositive | backend/app/pipeline.py:59-63 | with g > -1 and m > -1 the table is computed, every peak demand is positive and every index is finite |
| Pipeline.RowPeakPositive | backend/app/pipeline.py:60-63 | one row's peak demand is positive and its index finite when the base peak is positive and g > -1 |
| Pipeline.PeakDemandIncreasing | backend/app/pipeline.py:60 | with g > 0 and m > -1, a later year always has a strictly larger peak demand |
| Pipeline.RowPeakIncreasing | backend/app/pipeline.py:60 | the per-row form: the row of the later year has the larger peak demand |
| Pipeline.PeakDemandConstant | backend/app/pipeline.py:60 | with g = 0 every row's peak demand is the base peak |
| Pipeline.RowPeakConstant | backend/app/pipeline.py:60 | the per-row form of the constant peak with g = 0 |
| Pipeline.PeakDemandMonotoneInGrowth | backend/app/pipeline.py:60 | raising the growth rate never lowers any row's peak demand |
| Pipeline.BaseYearIndex | backend/app/pipeline.py:57-63 | with a positive base total, the base-year row has year min(years), peak base_total / (1 + m) and index clip(m, -0.5, 0.5), whatever the growth |
| Pipeline.BaseIndexIsMargin | backend/app/pipeline.py:59-62 | (t - t/(1+m)) / (t/(1+m)), clipped, is clip(m, -0.5, 0.5) |
| Geo.PolygonBoundsTight | backend/app/geo.py:8 | `poly.bounds` holds every vertex, and each of its four sides touches a vertex |
| Geo.PolygonBounds | backend/app/geo.py:8 | definition of `poly.bounds` as running minima and maxima; PolygonBoundsTight states it is the tight box |
| Geo.PolygonBoundsSnoc | backend/app/geo.py:8 | one more vertex widens the bounds by exactly the min/max with that vertex |
| Geo.BdBboxPolygon | backend/app/geo.py:4-5 | the region's bounds are (88.0, 20.5, 92.8, 26.8) and its vertices are those corners, counter-clockwise from the lower left |
| Geo.RegionVertices | backend/app/geo.py:5 | definition of the four listed vertices; RegionBounds states their bounds |
| Geo.Corners | backend/app/geo.py:5 | definition of a box's four corners, counter-clockwise from the lower left; CornersBounds states their bounds |
| Geo.RegionBounds | backend/app/geo.py:4-8 | the bounds of the four listed vertices are (88.0, 20.5, 92.8, 26.8) |
| Geo.CornersBounds | backend/app/geo.py:8 | the bounds of a rectangle's four corners are the rectangle itself, so the lattice spans the same box that `contains` tests against (used by GridPointsWithin) |
| Geo.ArangeLength | backend/app/geo.py:9-10 | definition of numpy's arange length ceil((stop - start) / step), or 0 |
| Geo.Arange | backend/app/geo.py:9-10 | `np.arange(start, stop, step)` has ceil((stop - start) / step) entries, or 0 when that is not positive, entry i being start + i * step |
| Geo.ArangeExact | backend/app/geo.py:9-10 | for a positive step, index i is in range exactly when start + i * step < stop |
| Geo.ArangeIncreasing | backend/app/geo.py:9-10 | for a positive step the values strictly increase |
| Geo.ArangeNegativeStep | backend/app/geo.py:9-10 | for a negative step every value is at or below the start |
| Geo.RegionLattice | backend/app/seeds.py:28-29 | the rebuild's grid for a non-zero step is the lattice scan of the region's bounds |
| Geo.StrictlyInside | backend/app/geo.py:15 | definition of `poly.contains(Point(x, y))` for a rectangle: the open interior, boundary excluded |
| Geo.Row | backend/app/geo.py:13-16 | definition of one lattice row's kept points; RowMembership and RowSorted state its contents and order |
| Geo.Grid | backend/app/geo.py:12-16 | definition of the kept points row by row; GridMembership and GridSorted state its contents and order |
| Geo.LatticeGrid | backend/app/geo.py:9-16 | definition of the grid over np.arange(minx, maxx + step, step) x np.arange(miny, maxy + step, step); LatticeExact states its contents and order |
| Geo.LatticePointsWithin | backend/app/geo.py:7-17 | definition of `grid_points_within` for a rectangle: ZeroStep for a zero step, else LatticeGrid of its bounds; GridPointsWithin is proved equal to it |
| Geo.GridPointsWithin | backend/app/geo.py:7-17 | for a rectangle, returns ZeroStep for a zero step and otherwise the lattice scan of its bounds |
| Geo.ScanLattice | backend/app/geo.py:11-17 | the nested y-outer, x-inner loop that appends contained points yields exactly `Grid` |
| Geo.RowMembership | backend/app/geo.py:13-16 | a point is in a row's output exactly when it is (xs[i], y) for some i and strictly inside |
| Geo.GridMembership | backend/app/geo.py:12-16 | a point is in the grid exactly when it is (xs[i], ys[j]) for some i, j and strictly inside |
| Geo.RowSorted | backend/app/geo.py:13-16 | for increasing xs, a row's points are in increasing x and all carry that row's y |
| Geo.GridSorted | backend/app/geo.py:12-16 | for increasing xs and ys, the grid is in strictly increasing row-major order |
| Geo.LatticeExact | backend/app/geo.py:7-17 | for a positive step the grid is in row-major order (hence free of duplicates); it holds exactly the points (minx + i*step, miny + j*step) strictly inside the box |
| Geo.LatticeSorted | backend/app/geo.py:12-16 | for a positive step the lattice scan is in strictly increasing row-major order |
| Geo.LatticeMember | backend/app/geo.py:9-16 | membership in the lattice scan, for a positive step, is being a lattice point strictly inside the box |
| Geo.LatticeMemberSound | backend/app/geo.py:9-16 | every kept point is a lattice point strictly inside the box |
| Geo.LatticeMemberComplete | backend/app/geo.py:9-16 | every lattice point strictly inside the box is kept |
| Geo.BoundaryLinesExcluded | backend/app/geo.py:9-15 | the first lattice column (x = minx) and row (y = miny) lie on the boundary, so `contains` keeps none of them |
| Geo.NegativeStepEmpty | backend/app/geo.py:9-17 | a negative step yields no point at all |
| Geo.Rng.constructor | backend/app/geo.py:20 | a fresh generator has the given seed and has handed out no draw |
| Geo.Rng.Normal | backend/app/geo.py:26 | `rng.normal(loc, scale)` is loc + scale times the next standard draw, and advances the counter by one |
| Geo.SquaredDistance | backend/app/geo.py:24-25 | the squared distance from (90.35, 23.8) is non-negative |
| Geo.Spatial | backend/app/geo.py:25 | the bump exp(-d^2 / 1.2) lies in (0, 1] |
| Geo.Noise | backend/app/geo.py:26 | definition of point k's noise: 0 + 0.03 times the k-th standard draw of the seeded stream |
| Geo.HeatValue | backend/app/geo.py:24-27 | a heat value is NaN exactly when the year value is NaN; otherwise it is finite and in [-0.5, 0.5] |
| Geo.HeatValues | backend/app/geo.py:19-29 | one value per point |
| Geo.MakeHeatValues | backend/app/geo.py:19-29 | the loop over the points, drawing from a fresh generator, returns `HeatValues`: point k gets the k-th draw of the seeded stream |
| Geo.HeatValuesBounded | backend/app/geo.py:27 | every value is finite and in [-0.5, 0.5] exactly when the year value is not NaN, and NaN otherwise |
| Geo.HeatValuesPrefix | backend/app/geo.py:20-28 | because the generator is reseeded on every call, point lists that share a prefix get the same values on it |
| Geo.HeatValueCloserIsHotter | backend/app/geo.py:24-27 | without noise, and for an increasing exp, a point nearer the centre gets at least the value of one farther away |
| Seeds.MetricNamesDistinct | backend/app/seeds.py:18-23 | the four metric names are pairwise different |
| Seeds.MetricValues | backend/app/seeds.py:18-23 | definition of the four metric values of a row in dict order: the index, then supply, peak and total as finite doubles |
| Seeds.RowFrames | backend/app/seeds.py:17-25 | definition of what a row adds: four records, record k being (year, metric k, value k) in dict order |
| Seeds.FramesOf | backend/app/seeds.py:16-25 | a table adds four records per row |
| Seeds.FramesLayout | backend/app/seeds.py:16-25 | record 4i + k is metric k of row i |
| Seeds.YearsOf | backend/app/seeds.py:17 | one year per adequacy row: entry i is row i's year |
| Seeds.UniqueKeys | backend/app/models.py:14 | definition of the `uq_year_metric` constraint: no two records share a (year, metric) key |
| Seeds.FrameKeyAt | backend/app/seeds.py:16-25 | record a carries the year of row a / 4 and metric a % 4 |
| Seeds.DistinctKeysAt | backend/app/models.py:14 | records from different rows of distinct years, or different metrics of one row, have different (year, metric) keys |
| Seeds.UniqueKeysIffDistinctYears | backend/app/models.py:14 | the frame records satisfy the unique (year, metric) constraint exactly when no year repeats |
| Seeds.DistinctYearsUniqueKeys | backend/app/models.py:14 | distinct years give unique keys |
| Seeds.RepeatedYearRepeatsKey | backend/app/models.py:14 | a repeated year repeats a key |
| Seeds.YearOrder | backend/app/seeds.py:30-32 | the dict's keys in insertion order have no repeats and are exactly the table's years |
| Seeds.YearIndex | backend/app/seeds.py:30 | the dict has exactly the table's years as keys |
| Seeds.YearIndexLastWins | backend/app/seeds.py:30 | a year's value is the index of its last row |
| Seeds.YearOrderOfDistinct | backend/app/seeds.py:30-32 | with distinct years the keys come in row order |
| Seeds.YearHeat | backend/app/seeds.py:34-35 | definition of a year's heat records: one record per point, record k being (year, lon k, lat k, value k) |
| Seeds.HeatRecordsFor | backend/app/seeds.py:32-35 | definition of the heat loop's records, year by year in dict order, each with freshly seeded values; HeatLayout states where each record lands |
| Seeds.HeatRecordsLength | backend/app/seeds.py:32-35 | the heat loop adds |pts| records per year |
| Seeds.HeatRecordsSnoc | backend/app/seeds.py:32-35 | one more year appends exactly that year's records, with freshly seeded values |
| Seeds.HeatLayout | backend/app/seeds.py:32-35 | record t*|pts| + k is point k of the t-th key; its value comes from that year's index and the k-th seed-7 draw, so every year has the same noise |
| Seeds.RebuildSpec | backend/app/seeds.py:7-36 | definition of what `rebuild` ends with on every path; RebuildFailures and RebuildCompletes state its outcomes and Database.Rebuild is proved equal to it |
| Seeds.AdequacyTable | backend/app/seeds.py:12-14 | definition of `compute_adequacy(forecast_mix(hist, horizon), ...)` with the parameters passed on |
| Seeds.StoreSpec | backend/app/seeds.py:16-36 | definition of the store after the adequacy table; StoreOutcomes and StoreHeat state its results |
| Seeds.StoreOutcomes | backend/app/seeds.py:16-36 | a repeated year fails the frame commit and leaves both tables empty; otherwise the frames stay, a zero step fails with no heat records, and a non-zero step completes |
| Seeds.TableHeatLayout | backend/app/seeds.py:30-35 | with distinct years, heat record t*|pts| + k is point k with row t's year and a value from row t's index and the k-th seed-7 draw |
| Seeds.StoreHeat | backend/app/seeds.py:28-35 | after a completed store, the heat table holds every row's year over the region lattice |
| Seeds.RebuildFailures | backend/app/seeds.py:7-36 | a failed download fails with LoadFailed; every failure other than a zero step leaves both tables empty; no failure leaves heat records |
| Seeds.RebuildCompletes | backend/app/seeds.py:7-36 | a history with distinct years, m > -1 and a non-zero step rebuilds completely |
| Seeds.Database.constructor | backend/app/main.py:19 | a newly created database has both tables empty |
| Seeds.Database.Clear | backend/app/seeds.py:8-10 | both tables are emptied |
| Seeds.Database.AddFrames | backend/app/seeds.py:16-25 | the frame loop appends `FramesOf(rows)` and leaves the heat table alone |
| Seeds.Database.AddRowFrames | backend/app/seeds.py:17-25 | one row's inner loop appends its four records in order |
| Seeds.Database.AddHeat | backend/app/seeds.py:32-35 | the heat loop appends `HeatRecordsFor` the dict's keys and leaves the frames alone |
| Seeds.Database.AddYear | backend/app/seeds.py:33-35 | one year's pass appends its records with freshly drawn values |
| Seeds.Database.AddYearHeat | backend/app/seeds.py:34-35 | the zip loop appends one record per point, in order |
| Seeds.Database.Rebuild | backend/app/seeds.py:7-36 | the outcome and both tables are exactly `RebuildSpec`, on every path |
| Seeds.Database.Store | backend/app/seeds.py:16-36 | from empty tables, the outcome and the tables are exactly `StoreSpec` |
| Seeds.Database.StoreGrid | backend/app/seeds.py:28-36 | after the frame commit, the grid and heat loop give exactly `StoreSpec` |
| App.AdminRebuild | backend/app/main.py:25-34 | the endpoint's result is `RebuildSpec` with each absent parameter replaced by 15, 0.12, 0.045 or 0.15 |
| App.DefaultRebuildCompletes | backend/app/main.py:26-33 | with every parameter left out, a history with distinct years rebuilds completely |
| App.Pivot | backend/app/main.py:39-41 | definition of the `by_year` dict after the rows; PivotYears, PivotMetrics and PivotLastWins state its contents |
| App.PivotYears | backend/app/main.py:39-41 | `by_year` holds a year exactly when some row has it |
| App.PivotMetrics | backend/app/main.py:39-41 | under a year, `by_year` holds a metric exactly when some row has that pair |
| App.PivotLastWins | backend/app/main.py:40-41 | the value under a (year, metric) key is the last row's with that key |
| App.LastWriteExists | backend/app/main.py:40-41 | every (year, metric) key that some row carries has a last write |
| App.PivotLoop | backend/app/main.py:39-41 | the setdefault loop builds exactly `Pivot(rows)` and lists its keys without repeats |
| App.Insert | backend/app/main.py:42 | inserting a new year into an ascending list keeps it ascending and adds exactly that year |
| App.SortInts | backend/app/main.py:42 | `sorted` of distinct keys is strictly ascending, of the same length and with the same members |
| App.Frames | backend/app/main.py:36-43 | the years are strictly ascending and exactly those present; each frame carries its year; its metrics are exactly the pairs present, each with the value of the last row |
| App.SelectYearMembers | backend/app/main.py:47 | the selection holds exactly the records of the year |
| App.SelectYearConcat | backend/app/main.py:47 | selecting from a concatenation concatenates the selections |
| App.SelectYear | backend/app/main.py:47 | definition of `select(HeatPoint).where(year == y)` in table order; SelectYearMembers states its contents |
| App.SelectYearNone | backend/app/main.py:47 | a table without the year selects nothing |
| App.SelectYearAll | backend/app/main.py:47 | a table of only that year is selected whole |
| App.SelectHeatSnocSame | backend/app/main.py:47 | when the selected year is last and absent before, the selection is that year's records |
| App.SelectHeatSnocOther | backend/app/main.py:47 | another year appended adds nothing to the selection |
| App.SelectYearAbsent | backend/app/main.py:47 | a year that is not a key selects nothing from the heat records |
| App.SelectFromHeatRecords | backend/app/main.py:47 | from the heat records of distinct keys, a key selects exactly its own records |
| App.Heat | backend/app/main.py:45-55 | a FeatureCollection holding one Point feature per selected record, in order, with coordinates [lon, lat] and property v |
| App.HeatAfterRebuild | backend/app/main.py:45-55 | after a completed store with distinct years, selecting a year yields exactly that year's records over the region lattice, in lattice order, each with that year's freshly seeded heat value |
| App.FramesFinite | backend/app/main.py:43 | definition of JSON renderability of the `frames` body: every metric value is finite |
| App.FeaturesFinite | backend/app/main.py:55 | definition of JSON renderability of the feature list: every `v` is finite |
| App.FramesReply | backend/app/main.py:36-43 | the rendered `/frames` reply is a server error exactly when the last write of some key in the table is not finite; otherwise its years are ascending and exactly those present, frame i is for year i, its metrics are exactly the metrics some row gives that year, and each holds the value of its last write |
| App.HeatReply | backend/app/main.py:45-55 | the rendered `/heat/{year}` reply is a server error exactly when some selected record's value is not finite; otherwise it is the FeatureCollection of the selected records' features |
| App.FramesNonFiniteAfterStore | backend/app/seeds.py:16-25 | after a store with distinct years, a stored frame key has a non-finite last write exactly when some row's adequacy index is not finite |
| App.NonFiniteFrameIsIndex | backend/app/seeds.py:18-23 | of a row's four frame values only the adequacy index can be non-finite |
| App.HeatNonFiniteAfterStore | backend/app/seeds.py:32-35 | after a completed store with distinct years, a year's heat records hold a non-finite value exactly when the lattice is not empty and that year's index is NaN |

## Left out

- `load_owid_generation_by_source` (backend/app/pipeline.py:9-25): the HTTP
  download and CSV parsing are I/O. The model takes its result as an
  `Option<MixTable>`, where `None` stands for any exception.
- The history's values are finite reals. The `groupby(...).sum()` output has
  no NaN.
- `download_eia_bulk_manifest` and `download_eia_bulk_dataset`
  (backend/app/pipeline.py:66-93): network I/O, not called by the core.
- The statsmodels Holt fit (backend/app/pipeline.py:32-37) is an opaque
  `HoltFit` parameter. Only its output length is known, so the forecast's
  values for four or more points are not modelled. The fit is assumed
  never to raise: `HoltFit` returns exactly `periods` values for every
  series and every `periods`. The yearly `pd.date_range` starting in 2000
  (backend/app/pipeline.py:32-33), by which `fit.forecast` labels its
  predictions, is not modelled.
- Pipeline.ProjectMix: "fails exactly when the history has no year" holds
  only under the never-raising fit. For a column with 4 or more finite
  values, the real fit can raise when `periods` is 0 or when
  2000 + len(y) - 1 + periods lies past the last date pandas can hold
  (2262). `forecast_mix` then raises, and the model returns Ok instead.
- Seeds.RebuildCompletes: assumes the never-raising fit. With a horizon of
  0 or less, or dates past 2262, on a column with 4 or more finite values,
  the real rebuild can fail after the tables are emptied, leaving them
  empty.
- App.DefaultRebuildCompletes: assumes the never-raising fit. With the
  default horizon of 15, a column of more than 248 finite values reaches
  dates past 2262, and the real rebuild can then fail with both tables
  empty.
- App.AdminRebuild: the float parameters are taken to be finite reals.
  The endpoint also accepts "nan", "inf" and "-inf" for `step_deg`,
  `demand_growth` and `reserve_margin`. A NaN margin with a positive base
  total makes every peak demand and every index NaN. The stored frames then
  hold a non-finite `peak_demand`, outside what `App.NonFiniteFrameIsIndex`
  and `Pipeline.AdequacyIndexBounded` cover. A NaN or infinite step makes
  `np.arange` raise after the frame commit, a failure the model cannot
  reach. A horizon of 0 or less also inherits the fit failures above.
- Floating-point rounding: all arithmetic is exact over the reals.
  - `np.arange` is computed as start + i * step, without numpy's accumulated
    rounding.
  - The lattice length is ceil((stop - start) / step), computed exactly.
  - `**` on a natural exponent is exact.
  - `float()` and `int()` casts are identities.
  - `Float` has one zero. The only -0.0 that changes a result is the zero
    peak, and `Pipeline.AdequacyIndex` takes its sign from the base peak.
- `np.exp` and the normal generator are parameters (`ExpFn`,
  `NormalDraws`). Their numerical values are not modelled. The square root
  is not modelled at all: `d ** 2` is taken to be the sum of squares
  itself (`Geo.SquaredDistance`).
- Geo.GridPointsWithin: shapely's `contains` is modelled only for an
  axis-aligned rectangle whose corners are listed counter-clockwise from the
  lower left, which is the only polygon the rebuild passes.
- Geo.SquaredDistance: states only non-negativity. That the distance is 0
  exactly at the centre is not stated.
- The SQLAlchemy session: ids, indexes and the engine are left out.
  - The tables are sequences in insertion order, and `select` is assumed to
    return rows in that order.
  - Each commit is folded into the table state. Every failure point has
    nothing pending except the frame commit, which rolls back to the
    emptied tables.
  - Storing NaN in a Float column is taken as storing the value unchanged.
- Requests are modelled one at a time. The handlers are sync `def`s
  (backend/app/main.py:26, 37, 46) that FastAPI may run concurrently, and
  `rebuild` commits three times (backend/app/seeds.py:10, 26, 36).
  Interleaved requests and the states between commits are not modelled: a
  concurrent `/frames` or `/heat/{year}` may see emptied tables or frames
  without heat, and two interleaved rebuilds may keep the first one's frames
  after the second fails or store every heat record twice. The guarantees of
  `Seeds.StoreOutcomes`, `Seeds.RebuildFailures` and `App.HeatAfterRebuild`
  hold for a rebuild that runs alone.
- FastAPI routing, request parsing, CORS and `/health` (backend/app/main.py:1-23)
  are left out. `admin_rebuild`'s `{"ok": True}` reply is represented by the
  outcome.
- JSON rendering is modelled only as succeeding or failing. `FramesReply`
  and `HeatReply` answer with a server error exactly when a value to render
  is NaN or infinite, as Starlette's `allow_nan=False` serialisation does.
  The serialised text is not modelled. Key order inside each metric dict is
  not modelled either; the dict is a `map`.
- backend/app/settings.py, the database module and the frontend are not
  part of this model.
