/** The converter's loop as the source runs it: lists built step by step by appending,
    and the properties record completed after the feature is built. Each method is proved
    to compute what the pure functions of `Conversion` specify. */
module Converter {
  import opened Options
  import opened Rooms
  import opened GeoJson
  import opened Conversion

  /** The innermost loop and the closing step: one polygon's points, swapped and closed. */
  method ConvertPolygon<V(==)>(polygon: seq<LatLng<V>>) returns (polygonCoords: Ring<V>)
    ensures polygonCoords == ConvertRing(polygon)
  {
    polygonCoords := [];
    for j := 0 to |polygon|
      invariant polygonCoords == SwapRing(polygon[..j])
    {
      var point := polygon[j];
      assert polygon[..j + 1][..j] == polygon[..j];
      polygonCoords := polygonCoords + [[point.longitude, point.latitude]];
    }
    assert polygon[..|polygon|] == polygon;
    if polygonCoords != [] && polygonCoords[0] != polygonCoords[|polygonCoords| - 1] {
      polygonCoords := polygonCoords + [polygonCoords[0]];
    }
  }

  /** The loop over a room's rings. */
  method ConvertPoints<V(==)>(points: seq<seq<LatLng<V>>>) returns (coordinates: seq<Ring<V>>)
    ensures coordinates == ConvertRings(points)
  {
    coordinates := [];
    for k := 0 to |points|
      invariant coordinates == ConvertRings(points[..k])
    {
      var polygonCoords := ConvertPolygon(points[k]);
      assert points[..k + 1][..k] == points[..k];
      coordinates := coordinates + [polygonCoords];
    }
    assert points[..|points|] == points;
  }

  /** The loop over the document's rooms, in iteration order: rooms without points are
      skipped, every other room appends one feature. */
  method TransformRooms<V(==)>(entries: seq<Entry<V>>) returns (geojson: FeatureCollection<V>)
    ensures geojson == Transform(entries)
  {
    geojson := FeatureCollection("FeatureCollection", []);
    for i := 0 to |entries|
      invariant geojson == Transform(entries[..i])
    {
      var roomNumber, roomData := entries[i].roomNumber, entries[i].room;
      assert entries[..i + 1][..i] == entries[..i];
      if roomData.points.Some? && |roomData.points.value| > 0 {
        var coordinates := ConvertPoints(roomData.points.value);
        var feature := Feature(
          "Feature",
          Geometry(
            if |coordinates| == 1 then "Polygon" else "MultiPolygon",
            if |coordinates| == 1 then RingList(coordinates) else PolygonList([coordinates])),
          Properties(
            roomNumber,
            roomData.kind,
            if roomData.floor.Some? then roomData.floor.value.buildingCode else None,
            if roomData.floor.Some? then roomData.floor.value.level else None,
            if roomData.labelPosition.Some? then roomData.labelPosition.value.latitude else None,
            if roomData.labelPosition.Some? then roomData.labelPosition.value.longitude else None,
            None));
        if roomData.alias.Some? {
          feature := feature.(properties := feature.properties.(alias := roomData.alias));
        }
        geojson := geojson.(features := geojson.features + [feature]);
      }
    }
    assert entries[..|entries|] == entries;
  }
}
