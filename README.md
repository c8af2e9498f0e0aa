# Room records to GeoJSON, modelled in Dafny

This project models the converter of `transform_json_to_geojson.py`. The converter takes a
document that maps room-number strings to room records. It turns every room that has
boundary points into one GeoJSON `Feature` of a `FeatureCollection`. For each room it:

- swaps every `{latitude, longitude}` point to a `[longitude, latitude]` position;
- closes every ring by repeating its first position when the first and last differ;
- picks `Polygon` for one ring and `MultiPolygon` for more;
- copies the room's `type`, `floor.buildingCode`, `floor.level` and `labelPosition` into
  `properties`, as JSON null when missing, and copies `alias` only when the room has one.

The model starts from the parsed document and ends with the in-memory FeatureCollection.

Modules:

- `Options` (options.dfy): the `Option` type. It stands for a missing key in the input, and for
  JSON null or an omitted key in the output.
- `Rooms` (rooms.dfy): the input. `Room`, `LatLng`, `Floor` and `LabelPosition` are records with
  optional fields. `Entry` is one `(room_number, room_data)` pair. `HasPoints` is the skip rule.
  `IsIterationOf` ties a sequence of entries to the map it lists. The sequence is needed because
  Python dictionaries iterate in insertion order.
- `GeoJson` (geojson.dfy): the output. Positions, rings, geometries, properties, features and
  the collection.
- `Conversion` (conversion.dfy): the conversion as pure functions (`SwapPoint`, `SwapRing`,
  `CloseRing`, `ConvertRing`, `ConvertRings`, `MakeGeometry`, `MakeProperties`, `FeatureOf`,
  `Features`, `Transform`), with the lemmas about them.
- `Converter` (converter.dfy): the source's nested loops as methods. The lists are built by
  appending, and `alias` is added to the properties after the feature is built. Each method is
  proved equal to the matching pure function.
- `Example` (example.dfy): the end-to-end example of room "101", and the skip rule on one room.

Every JSON leaf value is an opaque type parameter `V`. This covers coordinates, the type, the
building code, the level and the alias. The converter only copies these values. For
coordinates it also compares them for equality, so `V` needs equality only there.

Three behaviours of the code worth noting:

- A room whose `points` is a non-empty list of empty rings (`[[]]`) still makes a feature, with
  an empty ring that stays empty. So the feature count is the number of rooms with a non-empty
  `points` list, not the number with a non-empty ring.
- The function returns nothing; the count is only printed.
- `points: null` is skipped like a missing key, because `.get` makes both falsy; `Room.points`
  is `None` for both.

## Model

| member | source | states |
|---|---|---|
| `Rooms.HasPoints` | transform_json_to_geojson.py:22 | the skip rule: `points` present and non-empty; see `FeaturesInOrder` and `FeatureCount` |
| `Conversion.SwapPoint` | transform_json_to_geojson.py:30 | the axis swap of one point; see `SwapRoundTrip` and `SwapPointInjective` |
| `Conversion.MakeGeometry` | transform_json_to_geojson.py:40-43 | the shape choice by ring count; see `FeatureGeometry` |
| `Conversion.MakeProperties` | transform_json_to_geojson.py:45-59 | the properties record; see `FeatureProperties` |
| `Conversion.FeatureOf` | transform_json_to_geojson.py:37-55 | the feature of a room with points; see `FeatureGeometry` and `FeatureProperties` |
| `Conversion.Features` | transform_json_to_geojson.py:20-61 | the features in iteration order; see `FeaturesInOrder` and `FeatureCount` |
| `Conversion.Transform` | transform_json_to_geojson.py:17-61 | the whole FeatureCollection; see `TransformKinds`, `FeatureCount` and `Converter.TransformRooms` |
| `Conversion.SwapRoundTrip` | transform_json_to_geojson.py:29-30 | a position is a two-element list, `[longitude, latitude]` of its point; unswapping gives back the point and swapping an unswapped pair gives back the position |
| `Conversion.SwapPointInjective` | transform_json_to_geojson.py:30-32 | two swapped positions are equal exactly when the input points are equal, so the closure test on positions is the test on points |
| `Conversion.SwapRing` | transform_json_to_geojson.py:27-30 | the swapped ring has the input's length, and its i-th position is the swap of the i-th input point (order kept) |
| `Conversion.CloseRing` | transform_json_to_geojson.py:31-33 | a closed non-empty ring has first equal to last; an empty ring stays empty; the ring grows by at most one; the original is an unchanged prefix; an appended position is the first one; the ring is unchanged exactly when it was empty or already closed |
| `Conversion.CloseRingIdempotent` | transform_json_to_geojson.py:32-33 | closing twice is closing once, and an already closed ring is left as it is |
| `Conversion.ConvertRing` | transform_json_to_geojson.py:27-33 | output position i is the swap of input point i; at most one position is appended, and it is the swap of the first point; the output is empty exactly when the input is; a non-empty output is closed; a position is appended exactly when the first and last input points differ |
| `Conversion.ConvertRings` | transform_json_to_geojson.py:25-34 | one converted ring per input ring, in order |
| `Conversion.FeatureGeometry` | transform_json_to_geojson.py:39-44 | `Polygon` exactly when there is one ring, with the list of rings as coordinates; `MultiPolygon` exactly when there are more, with a one-element list wrapping all converted rings; every non-empty ring of the geometry is closed |
| `Conversion.FeatureProperties` | transform_json_to_geojson.py:37-59 | the feature's type is "Feature"; `room_number` is the key verbatim; `type`, `buildingCode`, `level`, `labelLatitude` and `labelLongitude` equal the input field when present and null when it or its parent object is absent; `alias` is present exactly when the room has it, with the same value |
| `Conversion.FeaturesInOrder` | transform_json_to_geojson.py:20-61 | the k-th feature is the feature of the k-th room with points, in iteration order; every room with points has a feature and no other room does |
| `Conversion.KeysWithPointsSnoc` | transform_json_to_geojson.py:20-22 | the next room adds its room number to the set of keys with points exactly when it passes the skip rule |
| `Conversion.CountKeys` | transform_json_to_geojson.py:20-61 | with distinct room numbers, the number of features is the number of room numbers whose rooms have points |
| `Conversion.FeatureCount` | transform_json_to_geojson.py:20-67 | for a document listed in any iteration order, the feature count is the number of rooms with a non-empty `points` list; every feature is the feature of the room its `room_number` names; and every room with points has its feature in the output |
| `Conversion.EveryRoomWithPointsEmitted` | transform_json_to_geojson.py:20-61 | for a document listed in any iteration order, the feature of every room with points is in the output |
| `Conversion.TransformKinds` | transform_json_to_geojson.py:17-38 | the top level has type "FeatureCollection" and every feature has type "Feature" |
| `Converter.ConvertPolygon` | transform_json_to_geojson.py:27-33 | the point loop and the closing append compute `ConvertRing` of the polygon |
| `Converter.ConvertPoints` | transform_json_to_geojson.py:25-34 | the ring loop computes `ConvertRings` of the room's points |
| `Converter.TransformRooms` | transform_json_to_geojson.py:17-61 | the room loop computes `Transform`: one feature appended per room with points, in iteration order, with `alias` added after construction when present |
| `Example.Room101Converts` | transform_json_to_geojson.py:20-61 | room "101" with one open three-point ring gives one `Polygon` feature with the ring swapped and closed, nulls for the label position and no `alias` key |
| `Example.RoomsWithoutPointsSkipped` | transform_json_to_geojson.py:22 | a room whose `points` is missing or empty gives no feature |

## Left out

- Reading and parsing the input file and writing the output as JSON with 2-space indentation
  (transform_json_to_geojson.py:13-14, 64-65): these are I/O and library calls. The model starts
  from the parsed document and ends with the in-memory collection.
- The two status messages (transform_json_to_geojson.py:67-68) and the hard-coded entry point
  (transform_json_to_geojson.py:71-72): console output and invocation only.
- Python's numeric equality across representations: the closure test at
  transform_json_to_geojson.py:32 compares lists of Python numbers. There, `0.0 == -0.0` and
  `1 == 1.0` (JSON `1` against `1.0`), so the source sees such a ring as closed. The model
  compares coordinates with the equality of `V`. An instance of `V` that tells these apart
  would append a closing position where the source does not.
- Crash paths on malformed input are excluded by the types. A point without `latitude` or
  `longitude` raises `KeyError`; `LatLng` always has both. `floor: null` or
  `labelPosition: null` make `.get` fail; `Room` has these fields either absent or objects.
  A `points` value that is neither a list nor null is not modelled either.
