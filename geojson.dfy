/** The in-memory GeoJSON FeatureCollection the converter builds (section 3 of RFC 7946). */
module GeoJson {
  import opened Options

  /** A GeoJSON position: the two-element list `[longitude, latitude]`. */
  type Position<V> = seq<V>

  /** A ring: an ordered list of positions. */
  type Ring<V> = seq<Position<V>>

  /** The `coordinates` member: a list of rings (depth 3), or a list of polygons, each a
      list of rings (depth 4). */
  datatype Coordinates<V> =
    | RingList(rings: seq<Ring<V>>)
    | PolygonList(polygons: seq<seq<Ring<V>>>)

  /** `kind` is the geometry's `type` member. */
  datatype Geometry<V> = Geometry(kind: string, coordinates: Coordinates<V>)

  /** The `properties` member. For the six keys that are always written, `None` is JSON
      `null`; for `alias`, `None` means the key is not written at all. */
  datatype Properties<V> = Properties(
    roomNumber: string,
    kind: Option<V>,
    buildingCode: Option<V>,
    level: Option<V>,
    labelLatitude: Option<V>,
    labelLongitude: Option<V>,
    alias: Option<V>)

  datatype Feature<V> = Feature(kind: string, geometry: Geometry<V>, properties: Properties<V>)

  datatype FeatureCollection<V> = FeatureCollection(kind: string, features: seq<Feature<V>>)
}
