/** The room-to-GeoJSON conversion as pure functions, and what is proved about them. */
module Conversion {
  import opened Options
  import opened Rooms
  import opened GeoJson

  // ---------------------------------------------------------------- points and rings

  /** GeoJSON axis order: `{latitude, longitude}` becomes `[longitude, latitude]`. */
  function SwapPoint<V>(p: LatLng<V>): Position<V>
  {
    [p.longitude, p.latitude]
  }

  /** Reads a GeoJSON position back as a latitude/longitude point. */
  function UnswapPoint<V>(pos: Position<V>): LatLng<V>
    requires |pos| == 2
  {
    LatLng(pos[1], pos[0])
  }

  /** The swap loses nothing: it is inverted by `UnswapPoint`, on points and on positions. */
  lemma SwapRoundTrip<V>(p: LatLng<V>, pos: Position<V>)
    ensures |SwapPoint(p)| == 2 && UnswapPoint(SwapPoint(p)) == p
    ensures |pos| == 2 ==> SwapPoint(UnswapPoint(pos)) == pos
  {
  }

  /** Two points give equal positions exactly when they are equal. */
  lemma SwapPointInjective<V>(p: LatLng<V>, q: LatLng<V>)
    ensures SwapPoint(p) == SwapPoint(q) <==> p == q
  {
  }

  /** The points of one ring swapped one by one, in order. */
  function SwapRing<V>(ring: seq<LatLng<V>>): (r: Ring<V>)
    ensures |r| == |ring|
    ensures forall i :: 0 <= i < |ring| ==> r[i] == SwapPoint(ring[i])
  {
    if ring == [] then [] else SwapRing(ring[..|ring| - 1]) + [SwapPoint(ring[|ring| - 1])]
  }

  /** A ring is closed when it is non-empty and its first and last positions are equal. */
  predicate IsClosed<T(==)>(ring: seq<T>)
  {
    ring != [] && ring[0] == ring[|ring| - 1]
  }

  /** Closes a ring by repeating its first position at the end when the ends differ. */
  function CloseRing<T(==)>(ring: seq<T>): (r: seq<T>)
    ensures ring != [] ==> IsClosed(r)
    ensures ring == [] ==> r == []
    ensures |ring| <= |r| <= |ring| + 1 && r[..|ring|] == ring
    ensures |r| == |ring| + 1 ==> r[|ring|] == ring[0]
    ensures r == ring <==> ring == [] || IsClosed(ring)
  {
    if ring != [] && ring[0] != ring[|ring| - 1] then ring + [ring[0]] else ring
  }

  /** Closing is idempotent, and a closed ring is left as it is. */
  lemma CloseRingIdempotent<T>(ring: seq<T>)
    ensures CloseRing(CloseRing(ring)) == CloseRing(ring)
    ensures IsClosed(ring) ==> CloseRing(ring) == ring
  {
  }

  /** One input ring as it appears in the output: swapped, then closed. */
  function ConvertRing<V(==)>(ring: seq<LatLng<V>>): (r: Ring<V>)
    ensures |ring| <= |r| <= |ring| + 1
    ensures forall i :: 0 <= i < |ring| ==> r[i] == SwapPoint(ring[i])
    ensures ring != [] && |r| == |ring| + 1 ==> r[|ring|] == SwapPoint(ring[0])
    ensures ring == [] <==> r == []
    ensures ring != [] ==> IsClosed(r)
    ensures |r| == |ring| + 1 <==> ring != [] && ring[0] != ring[|ring| - 1]
  {
    CloseRing(SwapRing(ring))
  }

  /** Every ring of a room converted, in order. */
  function ConvertRings<V(==)>(points: seq<seq<LatLng<V>>>): (rs: seq<Ring<V>>)
    ensures |rs| == |points|
    ensures forall i :: 0 <= i < |points| ==> rs[i] == ConvertRing(points[i])
  {
    if points == [] then []
    else ConvertRings(points[..|points| - 1]) + [ConvertRing(points[|points| - 1])]
  }

  // ---------------------------------------------------------------- features

  /** One ring makes a `Polygon` over the list of rings; any other number of rings makes a
      `MultiPolygon` whose only polygon is that list. */
  function MakeGeometry<V>(coordinates: seq<Ring<V>>): Geometry<V>
  {
    if |coordinates| == 1 then Geometry("Polygon", RingList(coordinates))
    else Geometry("MultiPolygon", PolygonList([coordinates]))
  }

  /** The properties record; `alias` is carried over only when the room has one. */
  function MakeProperties<V>(e: Entry<V>): Properties<V>
  {
    var room := e.room;
    Properties(
      e.roomNumber,
      room.kind,
      if room.floor.Some? then room.floor.value.buildingCode else None,
      if room.floor.Some? then room.floor.value.level else None,
      if room.labelPosition.Some? then room.labelPosition.value.latitude else None,
      if room.labelPosition.Some? then room.labelPosition.value.longitude else None,
      room.alias)
  }

  /** The feature built for a room that has points. */
  function FeatureOf<V(==)>(e: Entry<V>): Feature<V>
    requires HasPoints(e.room)
  {
    Feature("Feature", MakeGeometry(ConvertRings(e.room.points.value)), MakeProperties(e))
  }

  /** What one entry contributes to the output: one feature, or none under the skip rule. */
  function Emitted<V(==)>(e: Entry<V>): seq<Feature<V>>
  {
    if HasPoints(e.room) then [FeatureOf(e)] else []
  }

  /** The features of a prefix of the input, in iteration order. */
  function Features<V(==)>(entries: seq<Entry<V>>): seq<Feature<V>>
  {
    if entries == [] then []
    else Features(entries[..|entries| - 1]) + Emitted(entries[|entries| - 1])
  }

  /** The whole conversion of a document given in iteration order. */
  function Transform<V(==)>(entries: seq<Entry<V>>): FeatureCollection<V>
  {
    FeatureCollection("FeatureCollection", Features(entries))
  }

  /** Every ring of a geometry that is non-empty is closed. */
  predicate RingsClosed<V(==)>(g: Geometry<V>)
  {
    match g.coordinates
    case RingList(rings) =>
      forall i :: 0 <= i < |rings| && rings[i] != [] ==> IsClosed(rings[i])
    case PolygonList(polygons) =>
      forall i, j :: 0 <= i < |polygons| && 0 <= j < |polygons[i]| && polygons[i][j] != [] ==>
        IsClosed(polygons[i][j])
  }

  /** The geometry of a room's feature: the shape follows the ring count, the rings are the
      room's rings converted in order, and every non-empty ring is closed. */
  lemma FeatureGeometry<V>(e: Entry<V>)
    requires HasPoints(e.room)
    ensures var g, pts := FeatureOf(e).geometry, e.room.points.value;
      (g.kind == "Polygon" <==> |pts| == 1) &&
      (g.kind == "MultiPolygon" <==> |pts| > 1) &&
      (|pts| == 1 ==> g.coordinates == RingList([ConvertRing(pts[0])])) &&
      (|pts| > 1 ==> g.coordinates.PolygonList? && |g.coordinates.polygons| == 1 &&
                     |g.coordinates.polygons[0]| == |pts| &&
                     forall i :: 0 <= i < |pts| ==> g.coordinates.polygons[0][i] == ConvertRing(pts[i]))
    ensures RingsClosed(FeatureOf(e).geometry)
  {
  }

  /** The properties of a room's feature: the key verbatim, every other field copied when
      present and null when absent, and `alias` present exactly when the room has one. */
  lemma FeatureProperties<V>(e: Entry<V>)
    requires HasPoints(e.room)
    ensures FeatureOf(e).kind == "Feature"
    ensures var p, room := FeatureOf(e).properties, e.room;
      p.roomNumber == e.roomNumber &&
      p.kind == room.kind &&
      (room.floor.None? ==> p.buildingCode == None && p.level == None) &&
      (room.floor.Some? ==> p.buildingCode == room.floor.value.buildingCode &&
                            p.level == room.floor.value.level) &&
      (room.labelPosition.None? ==> p.labelLatitude == None && p.labelLongitude == None) &&
      (room.labelPosition.Some? ==> p.labelLatitude == room.labelPosition.value.latitude &&
                                    p.labelLongitude == room.labelPosition.value.longitude) &&
      (p.alias.Some? <==> room.alias.Some?) &&
      (p.alias.Some? ==> p.alias.value == room.alias.value)
  {
  }

  // ---------------------------------------------------------------- the whole document

  /** The positions, in iteration order, of the entries that pass the skip rule. */
  ghost function Kept<V>(entries: seq<Entry<V>>): seq<nat>
  {
    if entries == [] then []
    else Kept(entries[..|entries| - 1]) +
         (if HasPoints(entries[|entries| - 1].room) then [|entries| - 1] else [])
  }

  /** The output has exactly one feature per room that has points, no other, and in input
      iteration order: the k-th feature is the feature of the k-th such room. */
  lemma {:induction false} FeaturesInOrder<V>(entries: seq<Entry<V>>)
    ensures |Features(entries)| == |Kept(entries)|
    ensures forall k :: 0 <= k < |Kept(entries)| ==>
      Kept(entries)[k] < |entries| && HasPoints(entries[Kept(entries)[k]].room) &&
      Features(entries)[k] == FeatureOf(entries[Kept(entries)[k]])
    ensures forall k, l :: 0 <= k < l < |Kept(entries)| ==> Kept(entries)[k] < Kept(entries)[l]
    ensures forall i :: 0 <= i < |entries| && HasPoints(entries[i].room) ==> i in Kept(entries)
  {
    if entries != [] {
      var n := |entries| - 1;
      var prefix, last := entries[..n], entries[n];
      FeaturesInOrder(prefix);
      var kept, fs := Kept(entries), Features(entries);
      assert kept == Kept(prefix) + (if HasPoints(last.room) then [n] else []);
      assert fs == Features(prefix) + Emitted(last);
      forall k | 0 <= k < |kept|
        ensures kept[k] < |entries| && HasPoints(entries[kept[k]].room) && fs[k] == FeatureOf(entries[kept[k]])
      {
        if k < |Kept(prefix)| {
          assert kept[k] == Kept(prefix)[k] && fs[k] == Features(prefix)[k];
          assert prefix[kept[k]] == entries[kept[k]];
        }
      }
      forall i | 0 <= i < |entries| && HasPoints(entries[i].room)
        ensures i in kept
      {
        if i < n {
          assert prefix[i] == entries[i];
          assert i in Kept(prefix);
        }
      }
    }
  }

  /** The room numbers of the entries with points. */
  ghost function KeysWithPoints<V>(entries: seq<Entry<V>>): set<string>
  {
    set i | 0 <= i < |entries| && HasPoints(entries[i].room) :: entries[i].roomNumber
  }

  /** Appending one entry adds its room number to the keys with points, when it has points. */
  lemma KeysWithPointsSnoc<V>(entries: seq<Entry<V>>)
    requires entries != []
    ensures var n := |entries| - 1;
      KeysWithPoints(entries) ==
        KeysWithPoints(entries[..n]) + (if HasPoints(entries[n].room) then {entries[n].roomNumber} else {})
  {
  }

  /** With distinct room numbers, there is one feature per room number with points. */
  lemma {:induction false} CountKeys<V>(entries: seq<Entry<V>>)
    requires forall i, j :: 0 <= i < j < |entries| ==> entries[i].roomNumber != entries[j].roomNumber
    ensures |Features(entries)| == |KeysWithPoints(entries)|
  {
    if entries != [] {
      var n := |entries| - 1;
      var prefix := entries[..n];
      CountKeys(prefix);
      KeysWithPointsSnoc(entries);
    }
  }

  /** For a document `doc` listed in any iteration order, the feature count is the number of
      rooms with a non-empty `points` list, every feature is the feature of its own room, and
      every room with points has its feature in the output. */
  lemma FeatureCount<V>(entries: seq<Entry<V>>, doc: map<string, Room<V>>)
    requires IsIterationOf(entries, doc)
    ensures |Transform(entries).features| == |set k | k in doc && HasPoints(doc[k])|
    ensures forall f :: f in Transform(entries).features ==>
      var key := f.properties.roomNumber;
      key in doc && HasPoints(doc[key]) && f == FeatureOf(Entry(key, doc[key]))
    ensures forall k :: k in doc && HasPoints(doc[k]) ==>
      FeatureOf(Entry(k, doc[k])) in Transform(entries).features
  {
    CountKeys(entries);
    assert KeysWithPoints(entries) == set k | k in doc && HasPoints(doc[k]);
    FeaturesInOrder(entries);
    var fs := Features(entries);
    forall f | f in fs
      ensures f.properties.roomNumber in doc && HasPoints(doc[f.properties.roomNumber]) &&
              f == FeatureOf(Entry(f.properties.roomNumber, doc[f.properties.roomNumber]))
    {
      var k :| 0 <= k < |fs| && fs[k] == f;
      var e := entries[Kept(entries)[k]];
      FeatureProperties(e);
      assert e == Entry(e.roomNumber, doc[e.roomNumber]);
    }
    EveryRoomWithPointsEmitted(entries, doc);
  }

  /** Every room of the document that has points has its feature in the output. */
  lemma EveryRoomWithPointsEmitted<V>(entries: seq<Entry<V>>, doc: map<string, Room<V>>)
    requires IsIterationOf(entries, doc)
    ensures forall k :: k in doc && HasPoints(doc[k]) ==>
      FeatureOf(Entry(k, doc[k])) in Features(entries)
  {
    FeaturesInOrder(entries);
    var fs := Features(entries);
    forall key | key in doc && HasPoints(doc[key])
      ensures FeatureOf(Entry(key, doc[key])) in fs
    {
      var i :| 0 <= i < |entries| && entries[i].roomNumber == key;
      assert entries[i] == Entry(key, doc[key]);
      var j :| 0 <= j < |Kept(entries)| && Kept(entries)[j] == i;
      assert fs[j] == FeatureOf(entries[i]);
    }
  }

  /** The top level is a `FeatureCollection` and every feature in it is a `Feature`. */
  lemma TransformKinds<V>(entries: seq<Entry<V>>)
    ensures Transform(entries).kind == "FeatureCollection"
    ensures forall f :: f in Transform(entries).features ==> f.kind == "Feature"
  {
    FeaturesInOrder(entries);
    var fs := Features(entries);
    forall f | f in fs
      ensures f.kind == "Feature"
    {
      var k :| 0 <= k < |fs| && fs[k] == f;
      FeatureProperties(entries[Kept(entries)[k]]);
    }
  }
}
