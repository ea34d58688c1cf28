/**
 * The cell loop of `grib_to_geojson`: the grid cell between nodes (i, j) and
 * (i + 1, j + 1) becomes one Polygon feature when the discharge at its
 * top-left node (i, j) is classified and, when a clip boundary is loaded,
 * the boundary contains the cell's centre. Cells are visited row by row.
 */
module Polygonizer {
  import opened Wrappers
  import opened Discharge
  import opened Thresholds
  import opened RiskClassifier
  import opened GeoJson

  /** A shapely `Point(x, y)`; the pipeline passes x = longitude, y = latitude. */
  datatype Point = Point(x: real, y: real)

  /** The optional clip region, given by its `contains` test. */
  type Boundary = Option<Point -> bool>

  /** `values[i, j]` read outside the array (numpy's IndexError). */
  datatype CellError = CellIndexOutOfRange

  /** A cell, as the (row, column) of its top-left node. */
  type Cell = (int, int)

  /**
   * The reduced 2-D field with its coordinate arrays: values[i][j] is the
   * discharge at latitude lat[i] and longitude lon[j].
   */
  datatype Raster = Raster(values: seq<seq<Val>>, lat: seq<real>, lon: seq<real>)
  {
    /** A numpy 2-D array: every row has the same length. */
    predicate Rectangular()
    {
      forall i :: 0 <= i < |values| ==> |values[i]| == Cols()
    }

    function Rows(): nat
    {
      |values|
    }

    function Cols(): nat
    {
      if values == [] then 0 else |values[0]|
    }

    /** `range(n_lat - 1)`: one row of cells between each pair of adjacent latitudes. */
    function CellRows(): nat
    {
      if |lat| == 0 then 0 else |lat| - 1
    }

    /** `range(n_lon - 1)`. */
    function CellCols(): nat
    {
      if |lon| == 0 then 0 else |lon| - 1
    }

    predicate IsCell(i: int, j: int)
    {
      0 <= i < CellRows() && 0 <= j < CellCols()
    }

    /** `values[i, j]` does not raise. */
    predicate Readable(i: int, j: int)
    {
      0 <= i < Rows() && 0 <= j < Cols()
    }

    /** Every read the loop makes in its first n rows of cells is inside the array. */
    predicate RowsReadable(n: nat)
    {
      n == 0 || CellCols() == 0 || (n <= Rows() && CellCols() <= Cols())
    }

    /** The whole loop reads inside the array. */
    predicate InBounds()
    {
      RowsReadable(CellRows())
    }
  }

  /** The loop raises exactly when some cell it visits has its top-left node outside the array. */
  lemma InBoundsIff(rs: Raster)
    ensures rs.InBounds() <==> forall i, j :: rs.IsCell(i, j) ==> rs.Readable(i, j)
  {
    if !rs.InBounds() {
      assert rs.IsCell(rs.CellRows() - 1, rs.CellCols() - 1);
    }
  }

  /** The centroid the clip test uses: the midpoint of the cell's bounding box, as (lon, lat). */
  function Centre(rs: Raster, i: int, j: int): Point
    requires rs.IsCell(i, j)
  {
    Point(0.5 * (rs.lon[j] + rs.lon[j + 1]), 0.5 * (rs.lat[i] + rs.lat[i + 1]))
  }

  /** The exterior ring of cell (i, j), as [lon, lat] positions of the nodes (i, j), (i, j + 1), (i + 1, j + 1), (i + 1, j), (i, j). */
  function CellRing(rs: Raster, i: int, j: int): seq<Position>
    requires rs.IsCell(i, j)
  {
    var left, right, top, bottom := rs.lon[j], rs.lon[j + 1], rs.lat[i], rs.lat[i + 1];
    [[left, top], [right, top], [right, bottom], [left, bottom], [left, top]]
  }

  /** The [lon, lat] position of grid node (a, b). */
  function Node(rs: Raster, a: int, b: int): Position
    requires 0 <= a < |rs.lat| && 0 <= b < |rs.lon|
  {
    [rs.lon[b], rs.lat[a]]
  }

  /**
   * The ring of a cell is a closed linear ring of five positions: the nodes
   * (i, j), (i, j + 1), (i + 1, j + 1), (i + 1, j), then (i, j) again.
   * Every vertex is a [lon, lat] pair of the cell's coordinates and every edge
   * is parallel to an axis.
   */
  lemma CellRingShape(rs: Raster, i: int, j: int)
    requires rs.IsCell(i, j)
    ensures IsLinearRing(CellRing(rs, i, j)) && |CellRing(rs, i, j)| == 5
    ensures CellRing(rs, i, j)[..4] == [Node(rs, i, j), Node(rs, i, j + 1), Node(rs, i + 1, j + 1), Node(rs, i + 1, j)]
    ensures forall k :: 0 <= k < 5 ==>
      && (CellRing(rs, i, j)[k][0] == rs.lon[j] || CellRing(rs, i, j)[k][0] == rs.lon[j + 1])
      && (CellRing(rs, i, j)[k][1] == rs.lat[i] || CellRing(rs, i, j)[k][1] == rs.lat[i + 1])
    ensures forall k :: 0 <= k < 4 ==>
      CellRing(rs, i, j)[k][0] == CellRing(rs, i, j)[k + 1][0] || CellRing(rs, i, j)[k][1] == CellRing(rs, i, j)[k + 1][1]
  {
  }

  /** The clip point is the mean of the ring's four corners. */
  lemma CentreOfRing(rs: Raster, i: int, j: int)
    requires rs.IsCell(i, j)
    ensures var ring := CellRing(rs, i, j);
      && Centre(rs, i, j).x == (ring[0][0] + ring[1][0] + ring[2][0] + ring[3][0]) / 4.0
      && Centre(rs, i, j).y == (ring[0][1] + ring[1][1] + ring[2][1] + ring[3][1]) / 4.0
  {
  }

  /**
   * The loop reaches cell c and its top-left node has a finite, positive
   * discharge: the values Classify gives a tier.
   */
  predicate Classified(rs: Raster, c: Cell)
    requires rs.Rectangular()
  {
    rs.IsCell(c.0, c.1) && rs.Readable(c.0, c.1) && IsPositive(rs.values[c.0][c.1])
  }

  /** Cell c is emitted: classified, and inside the boundary when there is one. */
  predicate Drawn(rs: Raster, th: Triple, b: Boundary, c: Cell)
    requires rs.Rectangular()
  {
    Classified(rs, c) && (b.None? || b.value(Centre(rs, c.0, c.1)))
  }

  /** The feature the loop builds for a classified cell. */
  function CellFeature(rs: Raster, th: Triple, c: Cell): Feature
    requires rs.Rectangular() && Classified(rs, c)
  {
    var v := rs.values[c.0][c.1];
    var tier := Classify(v, th).value;
    Feature(Polygon([CellRing(rs, c.0, c.1)]), Properties(Round2(v.r), tier.Level(), tier.Color()))
  }

  /**
   * The feature of a classified cell has the cell's ring as the only ring of
   * its polygon, the node's discharge rounded to two decimals, and the level
   * and colour of the node's tier.
   */
  lemma CellFeatureContents(rs: Raster, th: Triple, c: Cell)
    requires rs.Rectangular() && Classified(rs, c)
    ensures var f := CellFeature(rs, th, c);
      && IsSimplePolygon(f.geometry) && f.geometry.coordinates[0] == CellRing(rs, c.0, c.1)
      && -0.005 <= f.properties.discharge - rs.values[c.0][c.1].r <= 0.005
      && (f.properties.discharge * 100.0).Floor as real == f.properties.discharge * 100.0
      && f.properties.riskLevel == Classify(rs.values[c.0][c.1], th).value.Level()
      && f.properties.riskColor == Classify(rs.values[c.0][c.1], th).value.Color()
  {
    CellRingShape(rs, c.0, c.1);
    Round2Nearest(rs.values[c.0][c.1].r);
  }

  /** Cell a comes before cell b in row-major order. */
  predicate Before(a: Cell, b: Cell)
  {
    a.0 < b.0 || (a.0 == b.0 && a.1 < b.1)
  }

  /** The emitted cells of row i among its first m columns, left to right. */
  function RowCells(rs: Raster, th: Triple, b: Boundary, i: int, m: nat): (cells: seq<Cell>)
    requires rs.Rectangular() && 0 <= i < rs.CellRows() && m <= rs.CellCols()
    requires m == 0 || (i < rs.Rows() && m <= rs.Cols())
    ensures forall k :: 0 <= k < |cells| ==> cells[k].0 == i && cells[k].1 < m && Drawn(rs, th, b, cells[k])
  {
    if m == 0 then []
    else
      var pre := RowCells(rs, th, b, i, m - 1);
      if Drawn(rs, th, b, (i, m - 1)) then pre + [(i, m - 1)] else pre
  }

  /** Row i yields every emitted cell among its first m columns, so at most m of them. */
  lemma {:induction false} RowCellsComplete(rs: Raster, th: Triple, b: Boundary, i: int, m: nat)
    requires rs.Rectangular() && 0 <= i < rs.CellRows() && m <= rs.CellCols()
    requires m == 0 || (i < rs.Rows() && m <= rs.Cols())
    ensures |RowCells(rs, th, b, i, m)| <= m
    ensures forall j :: 0 <= j < m && Drawn(rs, th, b, (i, j)) ==> (i, j) in RowCells(rs, th, b, i, m)
  {
    if m > 0 {
      RowCellsComplete(rs, th, b, i, m - 1);
      var pre := RowCells(rs, th, b, i, m - 1);
      if Drawn(rs, th, b, (i, m - 1)) {
        assert RowCells(rs, th, b, i, m) == pre + [(i, m - 1)];
      } else {
        assert RowCells(rs, th, b, i, m) == pre;
      }
    }
  }

  /** Row i yields its emitted cells left to right, each once. */
  lemma {:induction false} RowCellsOrdered(rs: Raster, th: Triple, b: Boundary, i: int, m: nat)
    requires rs.Rectangular() && 0 <= i < rs.CellRows() && m <= rs.CellCols()
    requires m == 0 || (i < rs.Rows() && m <= rs.Cols())
    ensures forall k, l :: 0 <= k < l < |RowCells(rs, th, b, i, m)| ==>
      RowCells(rs, th, b, i, m)[k].1 < RowCells(rs, th, b, i, m)[l].1
  {
    if m > 0 && Drawn(rs, th, b, (i, m - 1)) {
      RowCellsOrdered(rs, th, b, i, m - 1);
      var pre := RowCells(rs, th, b, i, m - 1);
      var cells := pre + [(i, m - 1)];
      assert RowCells(rs, th, b, i, m) == cells;
      forall k, l | 0 <= k < l < |cells| ensures cells[k].1 < cells[l].1 {
        if l < |pre| {
          assert cells[k] == pre[k] && cells[l] == pre[l];
        } else {
          assert cells[k] == pre[k] && pre[k].1 < m - 1;
        }
      }
    } else if m > 0 {
      RowCellsOrdered(rs, th, b, i, m - 1);
    }
  }

  /** The emitted cells of the first n rows of cells, in the order the loop appends them. */
  function GridCells(rs: Raster, th: Triple, b: Boundary, n: nat): (cells: seq<Cell>)
    requires rs.Rectangular() && n <= rs.CellRows() && rs.RowsReadable(n)
    ensures forall k :: 0 <= k < |cells| ==> cells[k].0 < n && Drawn(rs, th, b, cells[k])
  {
    if n == 0 then []
    else
      assert rs.RowsReadable(n - 1);
      GridCells(rs, th, b, n - 1) + RowCells(rs, th, b, n - 1, rs.CellCols())
  }

  /** The first n rows yield every emitted cell in them. */
  lemma {:induction false} GridCellsComplete(rs: Raster, th: Triple, b: Boundary, n: nat, i: int, j: int)
    requires rs.Rectangular() && n <= rs.CellRows() && rs.RowsReadable(n)
    requires 0 <= i < n && Drawn(rs, th, b, (i, j))
    ensures (i, j) in GridCells(rs, th, b, n)
  {
    assert rs.RowsReadable(n - 1);
    if i == n - 1 {
      RowCellsComplete(rs, th, b, n - 1, rs.CellCols());
      assert (i, j) in RowCells(rs, th, b, n - 1, rs.CellCols());
    } else {
      GridCellsComplete(rs, th, b, n - 1, i, j);
      assert (i, j) in GridCells(rs, th, b, n - 1);
    }
  }

  /** The first n rows yield their emitted cells in strictly increasing row-major order. */
  lemma {:induction false} GridCellsOrdered(rs: Raster, th: Triple, b: Boundary, n: nat)
    requires rs.Rectangular() && n <= rs.CellRows() && rs.RowsReadable(n)
    ensures forall k, l :: 0 <= k < l < |GridCells(rs, th, b, n)| ==>
      Before(GridCells(rs, th, b, n)[k], GridCells(rs, th, b, n)[l])
  {
    if n > 0 {
      assert rs.RowsReadable(n - 1);
      var pre, row := GridCells(rs, th, b, n - 1), RowCells(rs, th, b, n - 1, rs.CellCols());
      GridCellsOrdered(rs, th, b, n - 1);
      RowCellsOrdered(rs, th, b, n - 1, rs.CellCols());
      var cells := pre + row;
      forall k, l | 0 <= k < l < |cells| ensures Before(cells[k], cells[l]) {
        if l < |pre| {
          assert cells[k] == pre[k] && cells[l] == pre[l];
          assert Before(pre[k], pre[l]);
        } else if k >= |pre| {
          assert cells[k] == row[k - |pre|] && cells[l] == row[l - |pre|];
          assert row[k - |pre|].0 == row[l - |pre|].0;
          assert row[k - |pre|].1 < row[l - |pre|].1;
        } else {
          assert cells[k] == pre[k] && cells[l] == row[l - |pre|];
          assert pre[k].0 < n - 1 && row[l - |pre|].0 == n - 1;
        }
      }
    }
  }

  /** The features of the given cells, one per cell, in the same order. */
  function FeaturesOf(rs: Raster, th: Triple, cells: seq<Cell>): seq<Feature>
    requires rs.Rectangular() && forall k :: 0 <= k < |cells| ==> Classified(rs, cells[k])
  {
    seq(|cells|, k requires 0 <= k < |cells| => CellFeature(rs, th, cells[k]))
  }

  /**
   * A feature the map legend can draw: a Polygon with one closed ring of five
   * positions, one of the four level strings, and the colour of that level.
   */
  predicate LegendFeature(f: Feature)
  {
    && IsSimplePolygon(f.geometry)
    && |f.geometry.coordinates[0]| == 5
    && f.properties.riskLevel in ["1", "2", "5", "20"]
    && f.properties.riskColor == TierOf(f.properties.riskLevel).Color()
  }

  /** Every feature built for classified cells is one the legend can draw. */
  lemma FeaturesDrawable(rs: Raster, th: Triple, cells: seq<Cell>)
    requires rs.Rectangular() && forall k :: 0 <= k < |cells| ==> Classified(rs, cells[k])
    ensures forall f :: f in FeaturesOf(rs, th, cells) ==> LegendFeature(f)
  {
    forall f | f in FeaturesOf(rs, th, cells) ensures LegendFeature(f) {
      var k :| 0 <= k < |cells| && f == CellFeature(rs, th, cells[k]);
      CellFeatureContents(rs, th, cells[k]);
      LevelNames(Classify(rs.values[cells[k].0][cells[k].1], th).value);
    }
  }

  lemma FeaturesOfSnoc(rs: Raster, th: Triple, cells: seq<Cell>, c: Cell)
    requires rs.Rectangular() && Classified(rs, c)
    requires forall k :: 0 <= k < |cells| ==> Classified(rs, cells[k])
    ensures FeaturesOf(rs, th, cells + [c]) == FeaturesOf(rs, th, cells) + [CellFeature(rs, th, c)]
  {
    assert (cells + [c])[..|cells|] == cells;
  }

  lemma FeaturesOfAppend(rs: Raster, th: Triple, xs: seq<Cell>, ys: seq<Cell>)
    requires rs.Rectangular()
    requires forall k :: 0 <= k < |xs| ==> Classified(rs, xs[k])
    requires forall k :: 0 <= k < |ys| ==> Classified(rs, ys[k])
    ensures FeaturesOf(rs, th, xs + ys) == FeaturesOf(rs, th, xs) + FeaturesOf(rs, th, ys)
  {
    var lhs, rhs := FeaturesOf(rs, th, xs + ys), FeaturesOf(rs, th, xs) + FeaturesOf(rs, th, ys);
    assert |lhs| == |rhs|;
    forall k | 0 <= k < |lhs| ensures lhs[k] == rhs[k] {
      if k < |xs| {
        assert (xs + ys)[k] == xs[k];
      } else {
        assert (xs + ys)[k] == ys[k - |xs|];
      }
    }
  }

  /** The loop's two tests, in the order `grib_to_geojson` applies them, decide exactly whether a cell is emitted. */
  lemma DrawnIff(rs: Raster, th: Triple, b: Boundary, i: int, j: int)
    requires rs.Rectangular() && rs.IsCell(i, j) && rs.Readable(i, j)
    ensures Drawn(rs, th, b, (i, j)) <==>
      Classify(rs.values[i][j], th).Some? && (b.None? || b.value(Centre(rs, i, j)))
  {
  }

  /** One turn of the inner loop appends the feature of cell (i, j) exactly when that cell is emitted. */
  lemma CellStep(rs: Raster, th: Triple, b: Boundary, i: int, j: int)
    requires rs.Rectangular() && 0 <= i < rs.CellRows()
    requires 0 <= j < rs.CellCols() && rs.Readable(i, j)
    ensures FeaturesOf(rs, th, RowCells(rs, th, b, i, j + 1)) ==
      FeaturesOf(rs, th, RowCells(rs, th, b, i, j))
        + (if Drawn(rs, th, b, (i, j)) then [CellFeature(rs, th, (i, j))] else [])
  {
    if Drawn(rs, th, b, (i, j)) {
      FeaturesOfSnoc(rs, th, RowCells(rs, th, b, i, j), (i, j));
    }
  }

  /** One turn of the outer loop appends the features of row i. */
  lemma RowStep(rs: Raster, th: Triple, b: Boundary, i: int)
    requires rs.Rectangular() && 0 <= i < rs.CellRows() && rs.RowsReadable(i + 1)
    ensures rs.RowsReadable(i)
    ensures FeaturesOf(rs, th, GridCells(rs, th, b, i + 1)) ==
      FeaturesOf(rs, th, GridCells(rs, th, b, i)) + FeaturesOf(rs, th, RowCells(rs, th, b, i, rs.CellCols()))
  {
    FeaturesOfAppend(rs, th, GridCells(rs, th, b, i), RowCells(rs, th, b, i, rs.CellCols()));
  }

  /**
   * The inner loop, over the cells of row i: it raises on the first read
   * outside the array, and otherwise yields the features of the row's
   * emitted cells, left to right.
   */
  method RowFeatures(rs: Raster, th: Triple, b: Boundary, i: int) returns (r: Result<seq<Feature>, CellError>)
    requires rs.Rectangular() && 0 <= i < rs.CellRows()
    ensures r.Err? <==> rs.CellCols() > 0 && !(i < rs.Rows() && rs.CellCols() <= rs.Cols())
    ensures r.Ok? ==> r.value == FeaturesOf(rs, th, RowCells(rs, th, b, i, rs.CellCols()))
  {
    var features: seq<Feature> := [];
    var j := 0;
    while j < rs.CellCols()
      invariant 0 <= j <= rs.CellCols()
      invariant j == 0 || (i < rs.Rows() && j <= rs.Cols())
      invariant features == FeaturesOf(rs, th, RowCells(rs, th, b, i, j))
    {
      if i >= |rs.values| || j >= |rs.values[i]| {
        return Err(CellIndexOutOfRange);
      }
      CellStep(rs, th, b, i, j);
      DrawnIff(rs, th, b, i, j);
      var discharge := rs.values[i][j];
      var tier := Classify(discharge, th);
      if tier.Some? {
        var centre := Centre(rs, i, j);
        if b.None? || b.value(centre) {
          features := features + [CellFeature(rs, th, (i, j))];
        }
      }
      j := j + 1;
    }
    r := Ok(features);
  }

  /**
   * The two nested loops over the cells. A read outside the array raises,
   * and nothing is returned then; otherwise the result is the feature of
   * every emitted cell, in row-major order.
   */
  method BuildFeatures(rs: Raster, th: Triple, b: Boundary) returns (r: Result<seq<Feature>, CellError>)
    requires rs.Rectangular()
    ensures r.Err? <==> !rs.InBounds()
    ensures r.Ok? ==> r.value == FeaturesOf(rs, th, GridCells(rs, th, b, rs.CellRows()))
  {
    var features: seq<Feature> := [];
    var i := 0;
    while i < rs.CellRows()
      invariant 0 <= i <= rs.CellRows() && rs.RowsReadable(i)
      invariant features == FeaturesOf(rs, th, GridCells(rs, th, b, i))
    {
      var row := RowFeatures(rs, th, b, i);
      if row.Err? {
        return Err(row.error);
      }
      RowStep(rs, th, b, i);
      features := features + row.value;
      i := i + 1;
    }
    r := Ok(features);
  }

  /** At most one feature per cell. */
  lemma {:induction false} CellCount(rs: Raster, th: Triple, b: Boundary, n: nat)
    requires rs.Rectangular() && n <= rs.CellRows() && rs.RowsReadable(n)
    ensures |GridCells(rs, th, b, n)| <= n * rs.CellCols()
  {
    if n > 0 {
      assert rs.RowsReadable(n - 1);
      CellCount(rs, th, b, n - 1);
      RowCellsComplete(rs, th, b, n - 1, rs.CellCols());
      assert (n - 1) * rs.CellCols() + rs.CellCols() == n * rs.CellCols();
    }
  }

  /** Every emitted cell's feature is among the loop's features. */
  lemma DrawnFeatureEmitted(rs: Raster, th: Triple, b: Boundary, i: int, j: int)
    requires rs.Rectangular() && rs.InBounds() && rs.IsCell(i, j) && Drawn(rs, th, b, (i, j))
    ensures CellFeature(rs, th, (i, j)) in FeaturesOf(rs, th, GridCells(rs, th, b, rs.CellRows()))
  {
    var cells := GridCells(rs, th, b, rs.CellRows());
    GridCellsComplete(rs, th, b, rs.CellRows(), i, j);
    var k :| 0 <= k < |cells| && cells[k] == (i, j);
    assert FeaturesOf(rs, th, cells)[k] == CellFeature(rs, th, (i, j));
  }

  /** A cell whose top-left node is not finite and positive never becomes a feature. */
  lemma NonPositiveOmitted(rs: Raster, th: Triple, b: Boundary, i: int, j: int)
    requires rs.Rectangular() && rs.InBounds() && rs.IsCell(i, j)
    requires rs.Readable(i, j) && !IsPositive(rs.values[i][j])
    ensures (i, j) !in GridCells(rs, th, b, rs.CellRows())
  {
  }

  /** Cell c is a cell of the raster whose centre p contains. */
  predicate Inside(rs: Raster, p: Point -> bool, c: Cell)
  {
    rs.IsCell(c.0, c.1) && p(Centre(rs, c.0, c.1))
  }

  /** The cells among `cells` whose centre p contains, in order. */
  function KeepInside(rs: Raster, p: Point -> bool, cells: seq<Cell>): seq<Cell>
  {
    if cells == [] then []
    else
      var c := cells[|cells| - 1];
      KeepInside(rs, p, cells[..|cells| - 1]) + (if Inside(rs, p, c) then [c] else [])
  }

  lemma KeepInsideSnoc(rs: Raster, p: Point -> bool, cells: seq<Cell>, c: Cell)
    ensures KeepInside(rs, p, cells + [c]) == KeepInside(rs, p, cells) + (if Inside(rs, p, c) then [c] else [])
  {
    assert (cells + [c])[..|cells|] == cells;
  }

  lemma {:induction false} KeepInsideAppend(rs: Raster, p: Point -> bool, xs: seq<Cell>, ys: seq<Cell>)
    ensures KeepInside(rs, p, xs + ys) == KeepInside(rs, p, xs) + KeepInside(rs, p, ys)
  {
    if ys != [] {
      var ys', c := ys[..|ys| - 1], ys[|ys| - 1];
      assert ys == ys' + [c];
      assert xs + ys == (xs + ys') + [c];
      KeepInsideAppend(rs, p, xs, ys');
      KeepInsideSnoc(rs, p, xs + ys', c);
      KeepInsideSnoc(rs, p, ys', c);
    } else {
      assert xs + ys == xs;
    }
  }

  lemma ClipChain(rs: Raster, p: Point -> bool, xs: seq<Cell>, ys: seq<Cell>, xs': seq<Cell>, ys': seq<Cell>)
    requires xs' == KeepInside(rs, p, xs) && ys' == KeepInside(rs, p, ys)
    ensures xs' + ys' == KeepInside(rs, p, xs + ys)
  {
    KeepInsideAppend(rs, p, xs, ys);
  }

  lemma SnocClip(rs: Raster, p: Point -> bool, cells: seq<Cell>, clipped: seq<Cell>, c: Cell, keep: bool, keepClipped: bool)
    requires clipped == KeepInside(rs, p, cells) && keepClipped == (keep && Inside(rs, p, c))
    ensures clipped + (if keepClipped then [c] else []) == KeepInside(rs, p, cells + (if keep then [c] else []))
  {
    if keep {
      KeepInsideSnoc(rs, p, cells, c);
    } else {
      assert cells + [] == cells && clipped + [] == clipped;
    }
  }

  /** The m-th column of row i is appended exactly when it is emitted. */
  lemma RowCellsStep(rs: Raster, th: Triple, b: Boundary, i: int, m: nat)
    requires rs.Rectangular() && 0 <= i < rs.CellRows() && 0 < m <= rs.CellCols()
    requires i < rs.Rows() && m <= rs.Cols()
    ensures RowCells(rs, th, b, i, m) ==
      RowCells(rs, th, b, i, m - 1) + (if Drawn(rs, th, b, (i, m - 1)) then [(i, m - 1)] else [])
  {
    if !Drawn(rs, th, b, (i, m - 1)) {
      assert RowCells(rs, th, b, i, m - 1) + [] == RowCells(rs, th, b, i, m - 1);
    }
  }

  /** Clipping a row keeps exactly the unclipped row's cells whose centre the boundary contains, in order. */
  lemma {:induction false} RowClip(rs: Raster, th: Triple, p: Point -> bool, i: int, m: nat)
    requires rs.Rectangular() && 0 <= i < rs.CellRows() && m <= rs.CellCols()
    requires m == 0 || (i < rs.Rows() && m <= rs.Cols())
    ensures RowCells(rs, th, Some(p), i, m) == KeepInside(rs, p, RowCells(rs, th, None, i, m))
  {
    if m > 0 {
      var c := (i, m - 1);
      RowClip(rs, th, p, i, m - 1);
      RowCellsStep(rs, th, None, i, m);
      RowCellsStep(rs, th, Some(p), i, m);
      SnocClip(rs, p, RowCells(rs, th, None, i, m - 1), RowCells(rs, th, Some(p), i, m - 1), c,
               Drawn(rs, th, None, c), Drawn(rs, th, Some(p), c));
    }
  }

  /** The n-th row of cells is appended after the first n - 1. */
  lemma GridCellsStep(rs: Raster, th: Triple, b: Boundary, n: nat)
    requires rs.Rectangular() && 0 < n <= rs.CellRows() && rs.RowsReadable(n)
    ensures rs.RowsReadable(n - 1)
    ensures GridCells(rs, th, b, n) == GridCells(rs, th, b, n - 1) + RowCells(rs, th, b, n - 1, rs.CellCols())
  {
  }

  /**
   * With a boundary loaded, the loop emits exactly the cells it would emit
   * without one whose centre the boundary contains, in the same order.
   */
  lemma {:induction false} GridClip(rs: Raster, th: Triple, p: Point -> bool, n: nat)
    requires rs.Rectangular() && n <= rs.CellRows() && rs.RowsReadable(n)
    ensures GridCells(rs, th, Some(p), n) == KeepInside(rs, p, GridCells(rs, th, None, n))
  {
    if n > 0 {
      GridCellsStep(rs, th, None, n);
      GridCellsStep(rs, th, Some(p), n);
      GridClip(rs, th, p, n - 1);
      RowClip(rs, th, p, n - 1, rs.CellCols());
      ClipChain(rs, p, GridCells(rs, th, None, n - 1), RowCells(rs, th, None, n - 1, rs.CellCols()),
                GridCells(rs, th, Some(p), n - 1), RowCells(rs, th, Some(p), n - 1, rs.CellCols()));
    }
  }

  /** The test holds at the centre of every cell: a boundary that covers the grid. */
  predicate CoversCells(rs: Raster, p: Point -> bool)
  {
    forall i, j :: 0 <= i < rs.CellRows() && 0 <= j < rs.CellCols() ==> p(Centre(rs, i, j))
  }

  /** The test fails at the centre of every cell: a boundary that misses the grid. */
  predicate MissesCells(rs: Raster, p: Point -> bool)
  {
    forall i, j :: 0 <= i < rs.CellRows() && 0 <= j < rs.CellCols() ==> !p(Centre(rs, i, j))
  }

  lemma {:induction false} KeepInsideAll(rs: Raster, p: Point -> bool, cells: seq<Cell>)
    requires forall k :: 0 <= k < |cells| ==> rs.IsCell(cells[k].0, cells[k].1)
    requires CoversCells(rs, p)
    ensures KeepInside(rs, p, cells) == cells
  {
    if cells != [] {
      KeepInsideAll(rs, p, cells[..|cells| - 1]);
      assert cells[..|cells| - 1] + [cells[|cells| - 1]] == cells;
    }
  }

  /** A boundary that contains every cell centre clips nothing. */
  lemma ClipCoveringGrid(rs: Raster, th: Triple, p: Point -> bool)
    requires rs.Rectangular() && rs.InBounds()
    requires CoversCells(rs, p)
    ensures GridCells(rs, th, Some(p), rs.CellRows()) == GridCells(rs, th, None, rs.CellRows())
  {
    GridClip(rs, th, p, rs.CellRows());
    KeepInsideAll(rs, p, GridCells(rs, th, None, rs.CellRows()));
  }

  /** KeepInside keeps exactly the cells whose centre p contains. */
  lemma {:induction false} KeepInsideMembers(rs: Raster, p: Point -> bool, cells: seq<Cell>)
    ensures forall c :: c in KeepInside(rs, p, cells) <==> c in cells && Inside(rs, p, c)
  {
    if cells != [] {
      var pre, c := cells[..|cells| - 1], cells[|cells| - 1];
      KeepInsideMembers(rs, p, pre);
      assert cells == pre + [c];
    }
  }

  lemma {:induction false} KeepInsideNone(rs: Raster, p: Point -> bool, cells: seq<Cell>)
    requires MissesCells(rs, p)
    ensures KeepInside(rs, p, cells) == []
  {
    if cells != [] {
      KeepInsideNone(rs, p, cells[..|cells| - 1]);
      assert !Inside(rs, p, cells[|cells| - 1]);
    }
  }

  /** A boundary that contains no cell centre leaves no cell. */
  lemma ClipMissingGrid(rs: Raster, th: Triple, p: Point -> bool)
    requires rs.Rectangular() && rs.InBounds()
    requires MissesCells(rs, p)
    ensures GridCells(rs, th, Some(p), rs.CellRows()) == []
  {
    GridClip(rs, th, p, rs.CellRows());
    KeepInsideNone(rs, p, GridCells(rs, th, None, rs.CellRows()));
  }
}
