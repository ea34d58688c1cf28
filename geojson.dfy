/**
 * The GeoJSON objects the pipeline emits (RFC 7946): a FeatureCollection of
 * Polygon features, each carrying the discharge and its risk tier.
 */
module GeoJson {
  /** A position is [longitude, latitude] (section 3.1.1 of RFC 7946). */
  type Position = seq<real>

  /** The "properties" member of every emitted feature. */
  datatype Properties = Properties(discharge: real, riskLevel: string, riskColor: string)

  /** `{"type": "Polygon", "coordinates": [ring, ...]}`. */
  datatype Geometry = Polygon(coordinates: seq<seq<Position>>)

  /** `{"type": "Feature", "geometry": ..., "properties": ...}`. */
  datatype Feature = Feature(geometry: Geometry, properties: Properties)

  /** `{"type": "FeatureCollection", "features": [...]}`. */
  datatype FeatureCollection = FeatureCollection(features: seq<Feature>)

  predicate IsPosition(p: Position)
  {
    |p| == 2
  }

  /**
   * A linear ring: at least four positions, the last equal to the first
   * (section 3.1.6 of RFC 7946).
   */
  predicate IsLinearRing(ring: seq<Position>)
  {
    && |ring| >= 4
    && (forall k :: 0 <= k < |ring| ==> IsPosition(ring[k]))
    && ring[0] == ring[|ring| - 1]
  }

  /** A Polygon with a single exterior ring and no holes. */
  predicate IsSimplePolygon(g: Geometry)
  {
    |g.coordinates| == 1 && IsLinearRing(g.coordinates[0])
  }
}
