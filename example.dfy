/** The end-to-end example of the converter's contract: room "101" with one open ring,
    a type and a floor, and no label position and no alias. */
module Example {
  import opened Options
  import opened Rooms
  import opened GeoJson
  import opened Conversion

  /** JSON leaf values that occur in the example. */
  datatype Leaf = Num(n: real) | Text(s: string)

  function Room101(): Room<Leaf>
  {
    Room(
      Some([[LatLng(Num(1.0), Num(2.0)), LatLng(Num(1.0), Num(3.0)), LatLng(Num(2.0), Num(3.0))]]),
      Some(Text("office")),
      Some(Floor(Some(Text("B1")), Some(Num(2.0)))),
      None,
      None)
  }

  /** The ring is swapped to `[longitude, latitude]` and closed, one ring gives a `Polygon`,
      and the properties have nulls for the label and no `alias` key. */
  lemma Room101Converts()
    ensures Transform([Entry("101", Room101())]) ==
      FeatureCollection("FeatureCollection", [
        Feature(
          "Feature",
          Geometry("Polygon", RingList([[
            [Num(2.0), Num(1.0)], [Num(3.0), Num(1.0)], [Num(3.0), Num(2.0)], [Num(2.0), Num(1.0)]]])),
          Properties("101", Some(Text("office")), Some(Text("B1")), Some(Num(2.0)), None, None, None))])
  {
    var ring := [LatLng(Num(1.0), Num(2.0)), LatLng(Num(1.0), Num(3.0)), LatLng(Num(2.0), Num(3.0))];
    var swapped := [[Num(2.0), Num(1.0)], [Num(3.0), Num(1.0)], [Num(3.0), Num(2.0)]];
    assert SwapRing(ring) == swapped;
    assert swapped[0] != swapped[2] by { assert swapped[0][0] != swapped[2][0]; }
    assert ConvertRings([ring]) == [swapped + [swapped[0]]];
    assert swapped + [swapped[0]] ==
      [[Num(2.0), Num(1.0)], [Num(3.0), Num(1.0)], [Num(3.0), Num(2.0)], [Num(2.0), Num(1.0)]];
    assert Room101().points.value == [ring];
    var entries := [Entry("101", Room101())];
    assert entries[..0] == [];
    assert Features(entries) == Emitted(entries[0]);
    assert Emitted(entries[0]) == [FeatureOf(entries[0])];
  }

  /** A room whose `points` list is empty, and one without the key, give no feature. */
  lemma RoomsWithoutPointsSkipped(room: Room<Leaf>)
    requires room.points == None || room.points == Some([])
    ensures Transform([Entry("102", room)]).features == []
  {
    var entries := [Entry("102", room)];
    assert entries[..0] == [];
    assert Features(entries) == Emitted(entries[0]);
  }
}
