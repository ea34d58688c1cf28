# flood-web: the GloFAS raster-to-GeoJSON pipeline in Dafny

This project models the core of `glofas.py`: the conversion of a decoded
GloFAS river-discharge forecast into the GeoJSON FeatureCollection of
classified grid cells that the map front end draws. The pipeline has these
stages:

- **Variable choice.** `choose_variable` picks the discharge variable from a
  priority list, or falls back to the first declared variable.
- **Lead time.** The 24-hour lead time is selected with `sel(step=24)`.
  Failing that, step index 0 is used.
- **Squeeze.** Every non-spatial dimension of size 1 is dropped.
- **Coordinates and shape.** The latitude and longitude coordinate arrays are
  looked up, and the field must be two-dimensional.
- **Thresholds.** `compute_thresholds` takes the 0.55, 0.85 and 0.98 quantiles
  of the positive finite values, with numpy's default linear interpolation.
  It returns the defaults (1.0, 5.0, 10.0) when there are no such values.
- **Classification.** `classify_point` maps a value to the tiers "1", "2", "5"
  or "20" and the colours "gray", "orange", "red" or "purple".
- **Polygons.** A row-major nested loop emits one rectangular Polygon per
  classified cell. A cell can be clipped by a boundary test at its
  bounding-box centre.

Modules, in pipeline order:

- `Wrappers`: `Option` and `Result`.
- `Discharge`: a grid value is `Finite(r)` or `NonFinite` (NaN and the
  infinities). `Round2` is `round(x, 2)`, half to even, on the exact real.
- `VariableSelector`: `choose_variable`, as a recursive search over the
  candidate list.
- `Thresholds`: the positive-value filter, a sort, numpy's linear quantile and
  `compute_thresholds`.
- `RiskClassifier`: the `>=` ladder of `classify_point`.
- `DataCube`: a decoded variable, given by these parts:
  - its ordered dimension names;
  - their sizes;
  - an optional integer step coordinate;
  - its data, as a function from index tuples to values.

  It also holds `isel` and a dataset of ordered variable names with coordinate
  arrays.
- `DimensionReducer`: the lead-time selection and the squeeze loop. Squeeze is
  a method with a loop, specified by a function that drops at most one
  dimension per turn. Lemmas give the squeezed shape and say which original
  index each squeezed index reads.
- `GeoJson`: Position, Polygon, Feature and FeatureCollection, and the linear
  ring rule of section 3.1.6 of RFC 7946.
- `Polygonizer`: the cell loop. `RowFeatures` and `BuildFeatures` are the
  nested `while` loops, proved against `GridCells` and `FeaturesOf`. A cell
  is emitted when `GridCells` selects it:
  - the loop visits it;
  - its top-left node is classified;
  - its centre passes the boundary test, when there is one.
- `Glofas`: `grib_to_geojson` on a decoded dataset. `Reduce` and
  `GribToGeoJson` are the methods, and `ReduceToRaster` and `Convert` the
  functions that specify them. Every exception `grib_to_geojson` can raise
  is an `Error` value.
- `WorkedExample`: the whole conversion of a 3 x 3 field, evaluated down to
  the two features it yields.

Decisions where `glofas.py` leaves room for reading:

- **The clip boundary.** `glofas.py` reads it at import time from a file.
  Here it is the explicit parameter `Boundary = Option<Point -> bool>`: a
  containment test on (lon, lat), or none. Shapely's `contains` excludes
  points on the boundary; the test is an abstract predicate, so either
  reading can be supplied.
- **Failures.** The conversion fails in five ways, each an `Error` value:
  - no data variable at all (`NoDataVariable`);
  - `isel(step=0)` on an empty step dimension (`EmptyLeadTime`);
  - a missing `lat`/`lon` coordinate (`MissingCoordinate`);
  - a value read outside the array, when the coordinate arrays are longer
    than the field (`CellOutsideField`);
  - a field that is not 2-D after the squeeze (`NotTwoDimensional`).
- **`sel(step=24)`.** It succeeds exactly when the variable has a step
  coordinate whose values contain 24. It then selects the first such index.

## Model

| member | source | states |
|---|---|---|
| Discharge.IsPositive | glofas.py:120 | definition: the mask `np.isfinite(v) & (v > 0)`, also the test at glofas.py:137 |
| Discharge.Round2 | glofas.py:253 | definition: `round(x, 2)` as the nearest hundredth, ties to the even hundredth; its meaning is stated by Round2Nearest and Round2Exact |
| Discharge.Round2Nearest | glofas.py:253 | the rounded discharge is within 0.005 of the value and has at most two decimals |
| Discharge.Round2Exact | glofas.py:253 | a value with at most two decimals is unchanged by rounding |
| VariableSelector.FirstPresent | glofas.py:101-105 | finds nothing exactly when no candidate is declared; otherwise returns the earliest declared candidate |
| VariableSelector.ChooseVariable | glofas.py:94-108 | fails exactly on an empty variable list; the result is a declared variable; it falls back exactly when no candidate is declared, and then takes the first declared name; the first declared candidate is chosen without fallback; the priority list is `CANDIDATES`, "river_discharge_in_the_last_24_hours", "dis24", "dis" (glofas.py:95-99) |
| Thresholds.RowPositives | glofas.py:120 | every kept value of a row is a finite value above 0 of the row, and every such value is kept |
| Thresholds.Positives | glofas.py:120 | every kept value is positive and comes from the grid; every finite positive node value is kept |
| Thresholds.Flatten | glofas.py:120 | definition: the field in row-major order, the order numpy's boolean mask reads it in |
| Thresholds.RowPositivesAppend | glofas.py:120 | the filter distributes over concatenation |
| Thresholds.PositivesFlatten | glofas.py:120 | the kept values are exactly the filter of the row-major flattening, in that order |
| Thresholds.RowPositivesCount | glofas.py:120 | each finite positive value of a row is kept exactly as often as it occurs, and no other value is kept |
| Thresholds.PositivesCount | glofas.py:120 | each finite positive value of the field is kept exactly as often as it occurs in it, and no other value is kept |
| Thresholds.Insert | glofas.py:124-126 | inserting into a sorted sequence keeps it sorted and adds exactly one copy of the value |
| Thresholds.Sort | glofas.py:124-126 | the result is sorted and a permutation of the input |
| Thresholds.SortedUnique | glofas.py:124-126 | two sorted sequences with the same multiset are equal, so the order statistics are well defined |
| Thresholds.SortSorted | glofas.py:124-126 | sorting a sequence already in order leaves it unchanged |
| Thresholds.VirtualIndex | glofas.py:124-126 | definition: numpy's linear position h = (n-1)p in the sorted data |
| Thresholds.Lerp | glofas.py:124-126 | definition: numpy's interpolation a + g(b - a) between neighbouring order statistics |
| Thresholds.Quantile | glofas.py:124-126 | numpy's linear quantile lies between the minimum and the maximum |
| Thresholds.QuantileBracket | glofas.py:124-126 | the quantile lies between the order statistics at floor((n-1)p) and the next one |
| Thresholds.QuantileMonotone | glofas.py:124-126 | a larger fraction never gives a smaller quantile |
| Thresholds.QuantileOrderStatistic | glofas.py:124-126 | at the fraction k/(n-1) the quantile is exactly the k-th order statistic |
| Thresholds.ComputeThresholds | glofas.py:114-128 | the defaults when there are no positive values; otherwise q2 <= q5 <= q20 and the triple lies between the smallest and the largest positive value; q2 is always positive; the defaults are `DEFAULTS`, (1.0, 5.0, 10.0) (glofas.py:122) |
| Thresholds.ThresholdsIgnorePlacement | glofas.py:120-126 | fields with the same multiset of positive values get the same thresholds |
| Thresholds.ThresholdsOfRearrangement | glofas.py:120-126 | two fields holding the same values the same number of times, in any arrangement, get the same thresholds |
| RiskClassifier.Tier.Level | glofas.py:141-147 | definition: the level strings "1", "2", "5", "20" of the four tiers |
| RiskClassifier.Tier.Color | glofas.py:141-147 | definition: the colour strings "gray", "orange", "red", "purple" of the four tiers |
| RiskClassifier.TierOf | glofas.py:140-147 | each of the four level strings names the tier that carries it |
| RiskClassifier.LevelNames | glofas.py:140-147 | a tier's level string leads back to the tier |
| RiskClassifier.Classify | glofas.py:131-147 | no tier exactly for non-finite or non-positive values; each tier exactly on its band of the ladder tested from q20 down with >= |
| RiskClassifier.OrderedBands | glofas.py:140-147 | for ordered thresholds, a value equal to a threshold gets the higher tier, and each half-open band maps to its tier |
| RiskClassifier.ClassifyMonotone | glofas.py:140-147 | a larger positive value never gets a lower tier |
| DataCube.IndexOf | glofas.py:189 | the position of the first occurrence of a dimension name |
| DataCube.RemoveAtDistinct | glofas.py:189 | removing a dimension keeps the names distinct and removes exactly that name |
| DataCube.RemoveAtSizes | glofas.py:189 | every remaining dimension keeps its size |
| DataCube.Isel | glofas.py:176-189 | isel removes the dimension and its size; each remaining index reads the original at that index with the chosen position put back |
| DataCube.IselNames | glofas.py:189 | after isel the dimensions are exactly the others |
| DataCube.IselSizes | glofas.py:189 | after isel every remaining dimension keeps its size |
| DimensionReducer.HasLeadTime | glofas.py:171-176 | definition: `var.sel(step=24)` succeeds: there is a step coordinate and it holds 24 |
| DimensionReducer.SelectLeadTime | glofas.py:170-180 | no step dimension: unchanged; step 24 present: that slice; otherwise index 0, or the error when the step dimension is empty; the result has no step dimension |
| DimensionReducer.IsSpatial | glofas.py:186 | definition: the names "latitude", "lat", "longitude", "lon" the squeeze never drops |
| DimensionReducer.KeepMask | glofas.py:185-188 | definition: dimension i is kept when it is spatial or its size is not 1 |
| DimensionReducer.CountMonotone | glofas.py:184-189 | a longer prefix of the mask keeps at least as many dimensions |
| DimensionReducer.DropIfSingleton | glofas.py:185-189 | definition: one turn of the loop, `isel({dim: 0})` of a non-spatial dimension of size 1, otherwise no change; the result is well formed |
| DimensionReducer.SqueezeTurns | glofas.py:184-189 | definition: the field the first m turns leave; its meaning is stated by SqueezeShape and SqueezeData |
| DimensionReducer.Squeeze | glofas.py:184-189 | the loop over the dimensions ends in the state its specification function gives |
| DimensionReducer.DropStep | glofas.py:185-189 | one turn keeps a spatial or non-singleton dimension and removes a singleton non-spatial one with its size |
| DimensionReducer.DropStepAt | glofas.py:189 | dropping a singleton dimension reads the original at index 0 of it |
| DimensionReducer.SqueezePrefixShape | glofas.py:184-189 | after m turns the dimensions are the kept ones of the first m followed by the untouched rest, and likewise the sizes |
| DimensionReducer.SqueezeShape | glofas.py:184-189 | the squeezed field has exactly the kept dimensions, in their original order, with their sizes |
| DimensionReducer.ExpandStep | glofas.py:184-189 | the index map of m turns equals that of m-1 turns after the m-th turn's own index map |
| DimensionReducer.SqueezePrefixData | glofas.py:184-189 | after m turns, each index reads the original at the index with 0 put back for every dropped dimension |
| DimensionReducer.SqueezeData | glofas.py:184-189 | each index of the squeezed field reads the original at that index with 0 in every dropped dimension |
| Polygonizer.Raster.CellRows | glofas.py:215-218 | definition: the length of `range(n_lat - 1)`, 0 when there are no latitudes |
| Polygonizer.Raster.CellCols | glofas.py:216-219 | definition: the length of `range(n_lon - 1)`, 0 when there are no longitudes |
| Polygonizer.Raster.Readable | glofas.py:220 | definition: `values[i, j]` does not raise IndexError |
| Polygonizer.Raster.RowsReadable | glofas.py:218-220 | definition: no read of the first n rows of cells raises IndexError |
| Polygonizer.Raster.InBounds | glofas.py:218-220 | definition: no read of the whole loop raises IndexError |
| Polygonizer.InBoundsIff | glofas.py:218-220 | the loop reads inside the array exactly when every visited cell's top-left node is inside it |
| Polygonizer.Centre | glofas.py:233-234 | definition: the midpoint of the cell's bounding box, as (lon, lat) |
| Polygonizer.CellRing | glofas.py:226-244 | definition: the five positions of `polygon` |
| Polygonizer.Node | glofas.py:226-229 | definition: the [lon, lat] position of a grid node |
| Polygonizer.CellRingShape | glofas.py:226-244 | the ring is a closed linear ring of 5 positions: the nodes (i, j), (i, j+1), (i+1, j+1), (i+1, j) in [lon, lat] order, then (i, j) again; every vertex uses the cell's own longitudes and latitudes, and every edge is parallel to an axis |
| Polygonizer.CentreOfRing | glofas.py:231-235 | the clip point is the mean of the ring's four corners |
| Polygonizer.Classified | glofas.py:220-224 | definition: the cell is visited, its node is read, and `risk_level` is not None |
| Polygonizer.Drawn | glofas.py:222-236 | definition: the cell is visited, its top-left node has a tier, and its centre passes the boundary test when there is one |
| Polygonizer.CellFeature | glofas.py:238-257 | definition: the `feature` dictionary built for a classified cell |
| Polygonizer.CellFeatureContents | glofas.py:238-257 | a simple Polygon with the cell's ring; the discharge is within 0.005 of the top-left node's value and has two decimals; the level and the colour are those of the node's tier |
| Polygonizer.RowCells | glofas.py:219-236 | the cells listed for row i lie in row i and before column m, and are each drawn |
| Polygonizer.RowCellsComplete | glofas.py:219-236 | at most m cells, and every drawn cell of the row before column m is listed |
| Polygonizer.RowCellsOrdered | glofas.py:219 | a row's cells come in ascending column order |
| Polygonizer.GridCells | glofas.py:218-236 | every listed cell is in the first n rows and is drawn |
| Polygonizer.GridCellsComplete | glofas.py:218-236 | every drawn cell of the first n rows is listed |
| Polygonizer.GridCellsOrdered | glofas.py:218-219 | the listed cells are in strict row-major order |
| Polygonizer.FeaturesOf | glofas.py:246-258 | definition: one feature per listed cell, in the same order |
| Polygonizer.LegendFeature | glofas.py:238-257 | definition: a Polygon with one closed ring of five positions, one of the levels "1", "2", "5", "20", and that level's colour |
| Polygonizer.FeaturesDrawable | glofas.py:238-257 | every feature built for classified cells is one the legend can draw |
| Polygonizer.FeaturesOfAppend | glofas.py:258 | the features of consecutive cell lists concatenate |
| Polygonizer.DrawnIff | glofas.py:222-236 | a readable cell is drawn exactly when its value has a tier and, with a boundary, its centre passes the test |
| Polygonizer.CellStep | glofas.py:220-258 | one turn of the inner loop appends the cell's feature exactly when the cell is drawn |
| Polygonizer.RowStep | glofas.py:218-258 | one turn of the outer loop appends the features of that row |
| Polygonizer.RowFeatures | glofas.py:219-258 | the inner loop fails exactly when it reads outside the array; otherwise it returns the features of the row's drawn cells |
| Polygonizer.BuildFeatures | glofas.py:213-258 | the nested loops fail exactly when some visited cell is outside the array; otherwise they return the features of the drawn cells in row-major order |
| Polygonizer.CellCount | glofas.py:215-219 | at most (n_lat-1)*(n_lon-1) cells are emitted |
| Polygonizer.DrawnFeatureEmitted | glofas.py:218-258 | every drawn cell's feature is in the output |
| Polygonizer.NonPositiveOmitted | glofas.py:222-224 | a cell whose top-left node is non-finite or non-positive is not emitted |
| Polygonizer.KeepInside | glofas.py:232-236 | definition: the cells whose centre passes the test, in order |
| Polygonizer.KeepInsideMembers | glofas.py:232-236 | the clipped list keeps exactly the cells whose centre passes the test |
| Polygonizer.KeepInsideAppend | glofas.py:232-236 | clipping distributes over concatenation |
| Polygonizer.RowClip | glofas.py:219-236 | a row's cells under a boundary are its unclipped cells filtered by the centre test, in order |
| Polygonizer.GridClip | glofas.py:218-236 | the cells under a boundary are the unclipped cells filtered by the centre test, in order |
| Polygonizer.CoversCells | glofas.py:232-236 | definition: the test holds at the centre of every cell, as for a boundary covering the grid |
| Polygonizer.MissesCells | glofas.py:232-236 | definition: the test fails at the centre of every cell |
| Polygonizer.ClipCoveringGrid | glofas.py:232-236 | a test that holds at every cell centre gives the unclipped cells |
| Polygonizer.ClipMissingGrid | glofas.py:232-236 | a test that fails at every cell centre gives no cells |
| Glofas.LatName | glofas.py:191-194 | definition: "latitude" when the reduced field has that dimension, else "lat" |
| Glofas.LonName | glofas.py:196-199 | definition: "longitude" when the reduced field has that dimension, else "lon" |
| Glofas.Grid | glofas.py:203 | definition: `data_max.values` of a 2-D field, row a and column b holding the value at index [a, b] |
| Glofas.LeadField | glofas.py:167-180 | the chosen variable with its lead time fixed is well formed and has no step dimension |
| Glofas.ReduceToRaster | glofas.py:167-208 | the reduced field, when there is one, is a rectangular array |
| Glofas.Convert | glofas.py:163-266 | definition: the FeatureCollection `grib_to_geojson` returns, or the error it raises; its meaning is stated by the Glofas lemmas below |
| Glofas.Reduce | glofas.py:167-208 | the lead time, the squeeze loop, the coordinate lookups and the shape check end in the result its specification function gives |
| Glofas.GribToGeoJson | glofas.py:163-266 | the pipeline returns exactly the collection, or the error, its specification function gives |
| Glofas.Chosen | glofas.py:101-108 | the variable the pipeline reads is well formed |
| Glofas.NoVariableIff | glofas.py:106-108 | the conversion fails for want of a variable exactly when the dataset declares none |
| Glofas.LeadTimeIff | glofas.py:170-178 | the lead-time step fails, and the conversion with it, exactly when there is a step dimension without 24 and it is empty |
| Glofas.ReductionIff | glofas.py:191-208 | the reduction succeeds exactly when both coordinate names are found and the field is 2-D; a missing latitude is reported first; the shape error is raised exactly when the coordinates are found and the field is not 2-D |
| Glofas.RasterShape | glofas.py:184-203 | the reduced field keeps exactly the retained dimensions; it is 2-D with the sizes of those dimensions and the looked-up coordinate arrays |
| Glofas.RasterValues | glofas.py:184-203 | exactly two dimensions are kept, and each value of the 2-D array is the lead-time field at that index with 0 in every dropped dimension |
| Glofas.ConvertFeatures | glofas.py:213-263 | with reads inside the array the conversion succeeds, emits at most (n_lat-1)*(n_lon-1) features and includes the feature of every drawn cell |
| Glofas.CellErrorIff | glofas.py:218-220 | a reduced field fails the cell loop exactly when some cell's top-left node lies outside the array |
| Glofas.ConvertClipCovering | glofas.py:232-236 | a boundary containing the centre of every cell of the reduced field gives the unclipped collection |
| Glofas.ConvertClipMissing | glofas.py:232-236 | a boundary containing no cell centre of the reduced field gives an empty collection |
| Glofas.ConvertDrawable | glofas.py:238-263 | every feature of a successful conversion is a five-position Polygon with one of the four levels and that level's colour |
| WorkedExample.ExampleReduction | glofas.py:167-208 | a dataset with the variable dis24 on latitude/longitude reduces to its 3 x 3 array |
| WorkedExample.ExamplePositives | glofas.py:120 | zero, negative and missing values are dropped; the positive values come in row-major order |
| WorkedExample.ExampleQuantiles | glofas.py:124-126 | for 0.1, 0.5, 3.0, 12.0 the three quantiles are 2.125, 7.95 and 11.46 |
| WorkedExample.ExampleThresholds | glofas.py:114-128 | the thresholds of the example field are 2.125, 7.95 and 11.46 |
| WorkedExample.ExampleCells | glofas.py:218-236 | of the four cells, the one with a zero and the one with a missing value are skipped |
| WorkedExample.ExampleFeatures | glofas.py:238-258 | the two emitted features have the expected rings and the properties (0.1, "1", "gray") and (3.0, "2", "orange") |
| WorkedExample.ExampleConversion | glofas.py:153-266 | the whole conversion of the example dataset without a boundary returns exactly those two features |

## Left out

- `download_glofas_forecast` (glofas.py:50-88) is not modelled. It is a network download through the CDS API, a date key from the wall clock and a file-existence cache.
- Configuration (glofas.py:16-44) is not modelled: the `.env` credentials and the import-time read of the boundary file. The boundary appears as the `Boundary` parameter instead.
- Opening the GRIB file with cfgrib (glofas.py:165) is not modelled, because decoding is foreign code. The dataset is given already decoded, as a `Dataset` value.
- Shapely's `contains` (glofas.py:235) is left abstract: it is a foreign geometry library. It is the predicate inside `Boundary`, so the model fixes neither boundary semantics.
- Floating point is not modelled: values are exact reals. NaN and the infinities share the single tag `NonFinite`. numpy's rounding error in the quantile interpolation is not modelled.
- Discharge.Round2: rounds the exact real half to even. Python's `round` on a binary float can differ where the decimal text is not exactly representable.
- `print` logging throughout is not modelled: it is observability only. The fallback warning of `choose_variable` is the `fallback` flag of `Choice`.
- `app.py` is not part of this model: it is Flask routing.
- `geojsonbuilder.py` is not part of this model: it is a one-off script of file I/O and shapely calls.
- The step coordinate is modelled as whole hours. A timedelta-valued coordinate and xarray's label conversion in `sel(step=24)` are not modelled.
- `sel(step=24)` with a repeated 24 in the step coordinate would keep a step dimension; here the first match is taken.
- The latitude and longitude coordinates are 1-D arrays. `ds[lat_name]` is looked up among the coordinates only, not among the data variables.
- The order of the two remaining dimensions is not checked, the same as in `grib_to_geojson`: the first is read as rows of latitude.
