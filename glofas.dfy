/**
 * `grib_to_geojson`, end to end on a decoded dataset: choose the discharge
 * variable, fix the 24-hour lead time, squeeze the singleton dimensions,
 * look up the latitude and longitude coordinates, insist on a 2-D field,
 * compute the thresholds and emit one Polygon feature per classified cell.
 */
module Glofas {
  import opened Wrappers
  import opened Discharge
  import opened DataCube
  import VariableSelector
  import opened Thresholds
  import DimensionReducer
  import opened GeoJson
  import opened Polygonizer

  /** The ways the conversion fails, one per exception `grib_to_geojson` can raise. */
  datatype Error =
    | NoDataVariable              // `list(ds.data_vars)[0]` on an empty dataset
    | EmptyLeadTime               // `isel(step=0)` on a step dimension of length 0
    | MissingCoordinate(name: string)  // `ds[lat_name]` or `ds[lon_name]` not in the dataset
    | NotTwoDimensional(shape: seq<nat>)  // the RuntimeError on `values.ndim != 2`
    | CellOutsideField            // `values[i, j]` outside the array

  /** `lat_name`: "latitude" when the reduced field has that dimension, else "lat". */
  function LatName(dims: seq<string>): string
  {
    if "latitude" in dims then "latitude" else "lat"
  }

  /** `lon_name`: "longitude" when the reduced field has that dimension, else "lon". */
  function LonName(dims: seq<string>): string
  {
    if "longitude" in dims then "longitude" else "lon"
  }

  /** The chosen variable with its lead time fixed. */
  function LeadField(ds: Dataset): (r: Result<Variable, Error>)
    requires ds.Valid()
    ensures r.Ok? ==> r.value.Valid() && DimensionReducer.STEP !in r.value.dims
  {
    match VariableSelector.ChooseVariable(ds.dataVars)
    case Err(_) => Err(NoDataVariable)
    case Ok(choice) =>
      match DimensionReducer.SelectLeadTime(ds.vars[choice.name])
      case Err(_) => Err(EmptyLeadTime)
      case Ok(v) => Ok(v)
  }

  /** `data_max.values` of a 2-D field: row a, column b holds the value at index [a, b]. */
  function Grid(field: Variable): seq<seq<Val>>
    requires |field.sizes| == 2
  {
    seq(field.sizes[0], a requires 0 <= a < field.sizes[0] =>
      seq(field.sizes[1], b requires 0 <= b < field.sizes[1] => field.at([a, b])))
  }

  /** The squeezed field of a lead-time field. */
  function Reduced(lead: Variable): Variable
    requires lead.Valid()
  {
    DimensionReducer.SqueezeTurns(lead, |lead.dims|)
  }

  /** Everything up to the thresholds: the 2-D field with its coordinate arrays, or the error raised on the way. */
  function ReduceToRaster(ds: Dataset): (r: Result<Raster, Error>)
    requires ds.Valid()
    ensures r.Ok? ==> r.value.Rectangular()
  {
    match LeadField(ds)
    case Err(e) => Err(e)
    case Ok(lead) =>
      var field := Reduced(lead);
      var latName, lonName := LatName(field.dims), LonName(field.dims);
      if latName !in ds.coords then Err(MissingCoordinate(latName))
      else if lonName !in ds.coords then Err(MissingCoordinate(lonName))
      else if |field.dims| != 2 then Err(NotTwoDimensional(field.sizes))
      else Ok(Raster(Grid(field), ds.coords[latName], ds.coords[lonName]))
  }

  /** The FeatureCollection `grib_to_geojson` returns, or the error it raises. */
  function Convert(ds: Dataset, b: Boundary): Result<FeatureCollection, Error>
    requires ds.Valid()
  {
    match ReduceToRaster(ds)
    case Err(e) => Err(e)
    case Ok(rs) =>
      if !rs.InBounds() then Err(CellOutsideField)
      else Ok(FeatureCollection(FeaturesOf(rs, ComputeThresholds(rs.values), GridCells(rs, ComputeThresholds(rs.values), b, rs.CellRows()))))
  }

  /** The reduction as `grib_to_geojson` runs it: lead time, the squeeze loop, the coordinate lookups and the shape check. */
  method Reduce(ds: Dataset) returns (r: Result<Raster, Error>)
    requires ds.Valid()
    ensures r == ReduceToRaster(ds)
  {
    var choice := VariableSelector.ChooseVariable(ds.dataVars);
    if choice.Err? {
      return Err(NoDataVariable);
    }
    var lead := DimensionReducer.SelectLeadTime(ds.vars[choice.value.name]);
    if lead.Err? {
      return Err(EmptyLeadTime);
    }
    var field := DimensionReducer.Squeeze(lead.value);
    var latName, lonName := LatName(field.dims), LonName(field.dims);
    if latName !in ds.coords {
      return Err(MissingCoordinate(latName));
    }
    if lonName !in ds.coords {
      return Err(MissingCoordinate(lonName));
    }
    if |field.dims| != 2 {
      return Err(NotTwoDimensional(field.sizes));
    }
    r := Ok(Raster(Grid(field), ds.coords[latName], ds.coords[lonName]));
  }

  /** The pipeline as `grib_to_geojson` runs it: the reduction, the thresholds and the nested cell loops. */
  method GribToGeoJson(ds: Dataset, b: Boundary) returns (r: Result<FeatureCollection, Error>)
    requires ds.Valid()
    ensures r == Convert(ds, b)
  {
    var reduced := Reduce(ds);
    if reduced.Err? {
      return Err(reduced.error);
    }
    var rs := reduced.value;
    var th := ComputeThresholds(rs.values);
    var features := BuildFeatures(rs, th, b);
    if features.Err? {
      return Err(CellOutsideField);
    }
    r := Ok(FeatureCollection(features.value));
  }

  /** The variable the pipeline reads: the chosen name's variable, before its lead time is fixed. */
  function Chosen(ds: Dataset): (v: Variable)
    requires ds.Valid() && ds.dataVars != []
    ensures v.Valid()
  {
    ds.vars[VariableSelector.ChooseVariable(ds.dataVars).value.name]
  }

  /** `isel(step=0)` is reached and the step dimension is empty. */
  predicate StepUnselectable(v: Variable)
    requires v.Valid()
  {
    DimensionReducer.STEP in v.dims && !DimensionReducer.HasLeadTime(v) && v.SizeOf(DimensionReducer.STEP) == 0
  }

  /** The conversion fails for want of a variable exactly when the dataset declares none. */
  lemma NoVariableIff(ds: Dataset, b: Boundary)
    requires ds.Valid()
    ensures Convert(ds, b) == Err(NoDataVariable) <==> ds.dataVars == []
  {
  }

  /** With a variable declared, fixing the lead time fails exactly when `isel(step=0)` is reached on an empty step dimension. */
  lemma LeadTimeIff(ds: Dataset, b: Boundary)
    requires ds.Valid() && ds.dataVars != []
    ensures LeadField(ds).Err? <==> StepUnselectable(Chosen(ds))
    ensures Convert(ds, b) == Err(EmptyLeadTime) <==> StepUnselectable(Chosen(ds))
  {
  }

  /**
   * After the lead time is fixed, the reduction fails exactly when a
   * coordinate array is missing or the squeezed field is not 2-D, and a
   * missing coordinate is reported before the shape.
   */
  lemma ReductionIff(ds: Dataset, lead: Variable)
    requires ds.Valid() && LeadField(ds) == Ok(lead)
    ensures ReduceToRaster(ds).Ok? <==>
      && LatName(Reduced(lead).dims) in ds.coords
      && LonName(Reduced(lead).dims) in ds.coords
      && |Reduced(lead).dims| == 2
    ensures LatName(Reduced(lead).dims) !in ds.coords ==> ReduceToRaster(ds) == Err(MissingCoordinate(LatName(Reduced(lead).dims)))
    ensures ReduceToRaster(ds) == Err(NotTwoDimensional(Reduced(lead).sizes)) <==>
      && LatName(Reduced(lead).dims) in ds.coords
      && LonName(Reduced(lead).dims) in ds.coords
      && |Reduced(lead).dims| != 2
  {
  }

  /**
   * The raster's two dimensions are the dimensions the squeeze keeps, in
   * order, its rows and columns have their sizes, and its coordinate
   * arrays are the dataset's arrays for the names the field uses.
   */
  lemma RasterShape(ds: Dataset, lead: Variable, rs: Raster)
    requires ds.Valid() && LeadField(ds) == Ok(lead) && ReduceToRaster(ds) == Ok(rs)
    ensures Reduced(lead).dims == DimensionReducer.Select(lead.dims, DimensionReducer.KeepMask(lead.dims, lead.sizes), |lead.dims|)
    ensures |Reduced(lead).dims| == 2
    ensures rs.Rows() == Reduced(lead).sizes[0]
    ensures forall a :: 0 <= a < rs.Rows() ==> |rs.values[a]| == Reduced(lead).sizes[1]
    ensures rs.lat == ds.coords[LatName(Reduced(lead).dims)] && rs.lon == ds.coords[LonName(Reduced(lead).dims)]
  {
    DimensionReducer.SqueezeShape(lead);
  }

  /**
   * Each value of the raster is the lead-time field's value at the full
   * index vector that puts a and b at the two kept dimensions and 0 at every
   * dimension the squeeze dropped.
   */
  lemma RasterValues(ds: Dataset, lead: Variable, rs: Raster, a: nat, b: nat)
    requires ds.Valid() && LeadField(ds) == Ok(lead) && ReduceToRaster(ds) == Ok(rs)
    requires a < rs.Rows() && b < |rs.values[a]|
    ensures DimensionReducer.Count(DimensionReducer.KeepMask(lead.dims, lead.sizes), |lead.dims|) == 2
    ensures rs.values[a][b] == lead.at(DimensionReducer.Expand(DimensionReducer.KeepMask(lead.dims, lead.sizes), |lead.dims|, [a, b]))
  {
    DimensionReducer.SqueezeShape(lead);
    DimensionReducer.SqueezeData(lead, [a, b]);
  }

  /**
   * A successful conversion emits at most one feature per cell, and the
   * feature of every emitted cell is among them.
   */
  lemma ConvertFeatures(ds: Dataset, b: Boundary, rs: Raster, i: int, j: int)
    requires ds.Valid() && ReduceToRaster(ds) == Ok(rs) && rs.InBounds()
    ensures Convert(ds, b).Ok?
    ensures |Convert(ds, b).value.features| <= rs.CellRows() * rs.CellCols()
    ensures rs.IsCell(i, j) && Drawn(rs, ComputeThresholds(rs.values), b, (i, j)) ==>
      CellFeature(rs, ComputeThresholds(rs.values), (i, j)) in Convert(ds, b).value.features
  {
    var th := ComputeThresholds(rs.values);
    assert Convert(ds, b) == Ok(FeatureCollection(FeaturesOf(rs, th, GridCells(rs, th, b, rs.CellRows()))));
    CellCount(rs, th, b, rs.CellRows());
    if rs.IsCell(i, j) && Drawn(rs, th, b, (i, j)) {
      DrawnFeatureEmitted(rs, th, b, i, j);
    }
  }

  /** The conversion raises on a cell outside the field exactly when the field is smaller than the cell grid needs. */
  lemma CellErrorIff(ds: Dataset, b: Boundary, rs: Raster)
    requires ds.Valid() && ReduceToRaster(ds) == Ok(rs)
    ensures Convert(ds, b) == Err(CellOutsideField) <==> exists i, j :: rs.IsCell(i, j) && !rs.Readable(i, j)
  {
    InBoundsIff(rs);
  }

  /** A boundary that contains the centre of every cell of the reduced field gives the unclipped result. */
  lemma ConvertClipCovering(ds: Dataset, p: Point -> bool)
    requires ds.Valid()
    requires ReduceToRaster(ds).Ok? ==> CoversCells(ReduceToRaster(ds).value, p)
    ensures Convert(ds, Some(p)) == Convert(ds, None)
  {
    if ReduceToRaster(ds).Ok? && ReduceToRaster(ds).value.InBounds() {
      ClipCoveringGrid(ReduceToRaster(ds).value, ComputeThresholds(ReduceToRaster(ds).value.values), p);
    }
  }

  /** A boundary that contains no cell centre of the reduced field gives an empty FeatureCollection whenever the conversion succeeds. */
  lemma ConvertClipMissing(ds: Dataset, p: Point -> bool)
    requires ds.Valid()
    requires ReduceToRaster(ds).Ok? ==> MissesCells(ReduceToRaster(ds).value, p)
    ensures Convert(ds, Some(p)).Ok? ==> Convert(ds, Some(p)).value.features == []
  {
    if ReduceToRaster(ds).Ok? && ReduceToRaster(ds).value.InBounds() {
      ClipMissingGrid(ReduceToRaster(ds).value, ComputeThresholds(ReduceToRaster(ds).value.values), p);
    }
  }

  /** Every feature of a successful conversion is a five-position Polygon with a legend level and its colour. */
  lemma ConvertDrawable(ds: Dataset, b: Boundary)
    requires ds.Valid()
    ensures Convert(ds, b).Ok? ==> forall f :: f in Convert(ds, b).value.features ==> LegendFeature(f)
  {
    if ReduceToRaster(ds).Ok? {
      var rs := ReduceToRaster(ds).value;
      if rs.InBounds() {
        var th := ComputeThresholds(rs.values);
        FeaturesDrawable(rs, th, GridCells(rs, th, b, rs.CellRows()));
      }
    }
  }
}
