/** The already-parsed input document: a mapping from room-number strings to room records.
    Every JSON leaf value (a coordinate, a room type, a building code, a level, an alias)
    is an opaque value of type `V`; the converter only copies such values and, for
    coordinates, compares them for equality. */
module Rooms {
  import opened Options

  /** One boundary point of the input, `{latitude, longitude}`. Both keys are required:
      a point without them makes the source fail, and that path is not modelled. */
  datatype LatLng<V> = LatLng(latitude: V, longitude: V)

  /** The optional `floor` object; each of its keys may be missing. */
  datatype Floor<V> = Floor(buildingCode: Option<V>, level: Option<V>)

  /** The optional `labelPosition` object; each of its keys may be missing. */
  datatype LabelPosition<V> = LabelPosition(latitude: Option<V>, longitude: Option<V>)

  /** A room record. `points` is a list of rings, each an ordered list of points;
      `kind` is the record's `type` key (a Dafny keyword). `None` means the key is absent
      (for `points`, also an explicit `null`, which the source treats the same way). */
  datatype Room<V> = Room(
    points: Option<seq<seq<LatLng<V>>>>,
    kind: Option<V>,
    floor: Option<Floor<V>>,
    labelPosition: Option<LabelPosition<V>>,
    alias: Option<V>)

  /** One `(room_number, room_data)` pair of the document, in iteration order. */
  datatype Entry<V> = Entry(roomNumber: string, room: Room<V>)

  /** The skip rule: a room is converted only when it has a non-empty `points` list. */
  predicate HasPoints<V>(room: Room<V>)
  {
    room.points.Some? && |room.points.value| > 0
  }

  /** `entries` lists the document `doc` in some iteration order: every key exactly once,
      each with its record. */
  ghost predicate IsIterationOf<V>(entries: seq<Entry<V>>, doc: map<string, Room<V>>)
  {
    (forall i, j :: 0 <= i < j < |entries| ==> entries[i].roomNumber != entries[j].roomNumber) &&
    (forall i :: 0 <= i < |entries| ==>
       entries[i].roomNumber in doc && doc[entries[i].roomNumber] == entries[i].room) &&
    (forall k :: k in doc ==> exists i :: 0 <= i < |entries| && entries[i].roomNumber == k)
  }
}
