/**
 * A worked example of the whole conversion on a 3 x 3 field of one variable
 * "dis24" over latitudes 15.0, 14.9, 14.8 and longitudes 107.0, 107.1,
 * 107.2. The positive discharges are 0.1, 0.5, 3.0 and 12.0, so the
 * thresholds are 2.125, 7.95 and 11.46. Of the four cells, (0, 1) has a zero
 * and (1, 1) a missing value at its top-left node; (0, 0) carries 0.1 and
 * becomes gray, (1, 0) carries 3.0 and becomes orange.
 */
module WorkedExample {
  import opened Wrappers
  import opened Discharge
  import opened DataCube
  import VariableSelector
  import opened Thresholds
  import opened RiskClassifier
  import opened GeoJson
  import opened Polygonizer
  import opened Glofas

  const VALUES: seq<seq<Val>> := [
    [Finite(0.1), Finite(0.0), Finite(0.5)],
    [Finite(3.0), NonFinite, Finite(12.0)],
    [Finite(0.0), Finite(-1.0), Finite(0.0)]]

  function Discharges(idx: seq<nat>): Val
  {
    if |idx| == 2 && idx[0] < 3 && idx[1] < 3 then VALUES[idx[0]][idx[1]] else NonFinite
  }

  const FORECAST: Variable := Variable(["latitude", "longitude"], [3, 3], None, Discharges)

  const LAT: seq<real> := [15.0, 14.9, 14.8]

  const LON: seq<real> := [107.0, 107.1, 107.2]

  const DATASET: Dataset := Dataset(["dis24"], map["dis24" := FORECAST], map["latitude" := LAT, "longitude" := LON])

  const RASTER: Raster := Raster(VALUES, LAT, LON)

  const THRESHOLDS: Triple := Triple(2.125, 7.95, 11.46)

  lemma ExampleGrid()
    ensures Grid(FORECAST) == VALUES
  {
    var g := Grid(FORECAST);
    assert FORECAST.at == Discharges;
    forall a | 0 <= a < 3 ensures g[a] == VALUES[a] {
      forall b | 0 <= b < 3 ensures g[a][b] == VALUES[a][b] {
        assert g[a][b] == Discharges([a, b]);
      }
    }
  }

  lemma ExampleChoice()
    ensures LeadField(DATASET) == Ok(FORECAST)
  {
    assert FORECAST.Valid();
    assert VariableSelector.FirstPresent(VariableSelector.CANDIDATES, DATASET.dataVars) == Some("dis24");
  }

  lemma ExampleSqueeze()
    ensures FORECAST.Valid() && Reduced(FORECAST) == FORECAST
  {
    assert FORECAST.Valid();
    assert DimensionReducer.SqueezeTurns(FORECAST, 1) == FORECAST;
  }

  lemma ExampleReduction()
    ensures DATASET.Valid() && ReduceToRaster(DATASET) == Ok(RASTER)
  {
    ExampleChoice();
    ExampleSqueeze();
    ExampleGrid();
  }

  lemma RowOne()
    ensures RowPositives(VALUES[0]) == [0.1, 0.5]
  {
    assert VALUES[0][1..] == [Finite(0.0), Finite(0.5)] && VALUES[0][1..][1..] == [Finite(0.5)];
    assert [Finite(0.5)][1..] == [];
  }

  lemma RowTwo()
    ensures RowPositives(VALUES[1]) == [3.0, 12.0]
  {
    assert VALUES[1][1..] == [NonFinite, Finite(12.0)] && VALUES[1][1..][1..] == [Finite(12.0)];
    assert [Finite(12.0)][1..] == [];
  }

  lemma RowThree()
    ensures RowPositives(VALUES[2]) == []
  {
    assert VALUES[2][1..] == [Finite(-1.0), Finite(0.0)] && VALUES[2][1..][1..] == [Finite(0.0)];
    assert [Finite(0.0)][1..] == [];
  }

  lemma FirstRow(g: seq<seq<Val>>)
    requires g != []
    ensures Positives(g) == RowPositives(g[0]) + Positives(g[1..])
  {}

  lemma ThreeRows(a: seq<Val>, b: seq<Val>, c: seq<Val>)
    ensures Positives([a, b, c]) == RowPositives(a) + RowPositives(b) + RowPositives(c)
  {
    FirstRow([a, b, c]);
    FirstRow([b, c]);
    FirstRow([c]);
    assert [a, b, c][1..] == [b, c] && [b, c][1..] == [c] && [c][1..] == [];
  }

  lemma ExamplePositives()
    ensures Positives(VALUES) == [0.1, 0.5, 3.0, 12.0]
  {
    RowOne();
    RowTwo();
    RowThree();
    ThreeRows(VALUES[0], VALUES[1], VALUES[2]);
  }

  lemma ExampleQuantiles(s: seq<real>)
    requires s == [0.1, 0.5, 3.0, 12.0]
    ensures Sorted(s)
    ensures Quantile(s, 0.55) == 2.125 && Quantile(s, 0.85) == 7.95 && Quantile(s, 0.98) == 11.46
  {
    assert VirtualIndex(4, 0.55) == 1.65 && VirtualIndex(4, 0.85) == 2.55 && VirtualIndex(4, 0.98) == 2.94;
    assert (1.65).Floor == 1 && (2.55).Floor == 2 && (2.94).Floor == 2;
  }

  lemma ExampleThresholds()
    ensures ComputeThresholds(VALUES) == THRESHOLDS
  {
    ExamplePositives();
    ExampleQuantiles([0.1, 0.5, 3.0, 12.0]);
    SortSorted([0.1, 0.5, 3.0, 12.0]);
  }

  lemma ExampleCells()
    ensures RASTER.InBounds() && GridCells(RASTER, THRESHOLDS, None, RASTER.CellRows()) == [(0, 0), (1, 0)]
  {
    assert RASTER.CellRows() == 2 && RASTER.CellCols() == 2;
    assert Drawn(RASTER, THRESHOLDS, None, (0, 0)) && !Drawn(RASTER, THRESHOLDS, None, (0, 1));
    assert Drawn(RASTER, THRESHOLDS, None, (1, 0)) && !Drawn(RASTER, THRESHOLDS, None, (1, 1));
    assert RowCells(RASTER, THRESHOLDS, None, 0, 2) == [(0, 0)];
    assert RowCells(RASTER, THRESHOLDS, None, 1, 2) == [(1, 0)];
    assert GridCells(RASTER, THRESHOLDS, None, 1) == [(0, 0)];
  }

  lemma ExampleFeatures()
    ensures FeaturesOf(RASTER, THRESHOLDS, [(0, 0), (1, 0)]) == [
      Feature(Polygon([[[107.0, 15.0], [107.1, 15.0], [107.1, 14.9], [107.0, 14.9], [107.0, 15.0]]]),
              Properties(0.1, "1", "gray")),
      Feature(Polygon([[[107.0, 14.9], [107.1, 14.9], [107.1, 14.8], [107.0, 14.8], [107.0, 14.9]]]),
              Properties(3.0, "2", "orange"))]
  {
    assert Classify(Finite(0.1), THRESHOLDS) == Some(Gray1);
    assert Classify(Finite(3.0), THRESHOLDS) == Some(Orange2);
    Round2Exact(10);
    Round2Exact(300);
    assert Round2(0.1) == 0.1 && Round2(3.0) == 3.0;
  }

  /** The whole conversion of the example dataset, without a clip boundary. */
  lemma ExampleConversion()
    ensures DATASET.Valid()
    ensures Convert(DATASET, None) == Ok(FeatureCollection([
      Feature(Polygon([[[107.0, 15.0], [107.1, 15.0], [107.1, 14.9], [107.0, 14.9], [107.0, 15.0]]]),
              Properties(0.1, "1", "gray")),
      Feature(Polygon([[[107.0, 14.9], [107.1, 14.9], [107.1, 14.8], [107.0, 14.8], [107.0, 14.9]]]),
              Properties(3.0, "2", "orange"))]))
  {
    ExampleReduction();
    ExampleThresholds();
    ExampleCells();
    ExampleFeatures();
  }
}
