/** The region geometry of the map (`src/map/regions.ts`): the hexagonal
    regions laid out around the map's origin, their borders, the conversion
    of region-relative text positions into map coordinates, and the fixed
    transform applied to the road points.

    Map coordinates are pairs `(first, second)` in the order the source's
    two-element arrays have them. All arithmetic is over `real`; the region
    height, `regionWidth * Math.sqrt(3) / 2`, is a parameter `h` of every
    member that uses it (`IsRegionHeight` says which value the source
    means). The JSON data the module imports are parameters as well. */
module Regions {
  import opened Wrappers

  // ---------------------------------------------------------------------
  // Constants

  /** `mapBounds`: the south-west and north-east corners of the map. */
  const MapBounds: seq<(real, real)> := [(-228.0, 0.0), (-28.0, 256.0)]

  /** `mapWidth`: the east-west extent of the bounds. */
  const MapWidth: real := MapBounds[1].1 - MapBounds[0].1

  /** `mapOrigin`. */
  const MapOriginX: real := 128.0
  const MapOriginY: real := -128.0

  /** `regionWidth`: the width of one hexagonal region. */
  const RegionWidth: real := MapWidth / 6.06

  /** The height of a regular hexagon of width `RegionWidth`, which the
      source computes as `regionWidth * Math.sqrt(3) / 2`: the positive `h`
      with `h * h == 3/4 * RegionWidth * RegionWidth`. */
  ghost predicate IsRegionHeight(h: real) {
    h > 0.0 && 4.0 * (h * h) == 3.0 * (RegionWidth * RegionWidth)
  }

  lemma MapConstants()
    ensures MapWidth == 256.0
    ensures RegionWidth * 6.06 == 256.0
  {
  }

  // ---------------------------------------------------------------------
  // The region table

  /** Where a region sits: its id, and its center as so many region
      heights north of the origin and so many region widths east of it. */
  datatype Placement = Placement(id: int, rows: real, cols: real)

  /** The ids and centers of `regions`, in the source's order. */
  const Layout: seq<Placement> := [
      Placement(3, 0.0, 0.0),
      Placement(4, 1.0, 0.0),
      Placement(5, 0.5, 0.75),
      Placement(6, -1.0, 0.0),
      Placement(7, 1.5, -0.75),
      Placement(8, -1.5, -0.75),
      Placement(9, -0.5, -0.75),
      Placement(10, 0.5, -0.75),
      Placement(11, 2.0, 0.0),
      Placement(12, 1.0, -1.5),
      Placement(13, 0.0, -1.5),
      Placement(14, -1.0, -1.5),
      Placement(15, -0.5, -2.25),
      Placement(16, 0.5, -2.25),
      Placement(17, -2.0, 0.0),
      Placement(18, -0.5, 2.25),
      Placement(19, 0.5, 2.25),
      Placement(20, 0.0, 1.5),
      Placement(21, -1.0, 1.5),
      Placement(22, 1.0, 1.5),
      Placement(23, -0.5, 0.75),
      Placement(24, -1.5, 0.75),
      Placement(25, 1.5, 0.75),
      Placement(29, 1.5, -2.25),
      Placement(30, -2.5, 0.75),
      Placement(31, -2.5, -0.75),
      Placement(32, 2.0, -1.5),
      Placement(33, 2.5, -0.75),
      Placement(34, 3.0, 0.0),
      Placement(35, 2.5, 0.75),
      Placement(36, 2.0, 1.5),
      Placement(37, 1.5, 2.25),
      Placement(38, -1.5, 2.25),
      Placement(39, -2.0, 1.5),
      Placement(40, -3.0, 0.0),
      Placement(41, -2.0, -1.5),
      Placement(42, -1.5, -2.25)
    ]

  /** The name `regions` gives the region with id `id`. */
  function RegionName(id: int): string {
    match id
    case 3 => "Deadlands"
    case 4 => "Callahans Passage"
    case 5 => "Marban Hollow"
    case 6 => "Umbral Wildwood"
    case 7 => "The Moors"
    case 8 => "The Heartlands"
    case 9 => "Loch M\U{C3}\U{B3}r"
    case 10 => "The Linn of Mercy"
    case 11 => "Reaching Trail"
    case 12 => "Stonecradle"
    case 13 => "Farranac Coast"
    case 14 => "Westgate"
    case 15 => "Fisherman's Row"
    case 16 => "The Oarbreaker Isles"
    case 17 => "Great March"
    case 18 => "Tempest Island"
    case 19 => "Godcrofts"
    case 20 => "Endless Shore"
    case 21 => "Allod's Bight"
    case 22 => "Weathered Expanse"
    case 23 => "The Drowned Vale"
    case 24 => "Shackled Chasm"
    case 25 => "Viper Pit"
    case 29 => "Nevish Line"
    case 30 => "Acrithia"
    case 31 => "Red River"
    case 32 => "Callum's Cape"
    case 33 => "Speaking Woods"
    case 34 => "Basin Sionnach"
    case 35 => "Howl County"
    case 36 => "Clanshead Valley"
    case 37 => "Morgens Crossing"
    case 38 => "The Fingers"
    case 39 => "Terminus"
    case 40 => "Kalokai"
    case 41 => "Ash Fields"
    case 42 => "Origin"
    case _ => ""
  }

  /** A region: its id, its name and its center `[lat, lng]`. */
  datatype Region = Region(id: int, name: string, center: (real, real))

  /** The center of a placement for region height `h`. */
  function Center(p: Placement, h: real): (real, real) {
    (MapOriginY + p.rows * h, MapOriginX + p.cols * RegionWidth)
  }

  /** `regions`, for region height `h`. */
  function Regions(h: real): (r: seq<Region>)
    ensures |r| == |Layout|
    ensures forall i :: 0 <= i < |Layout| ==>
      r[i] == Region(Layout[i].id, RegionName(Layout[i].id), Center(Layout[i], h))
  {
    seq(|Layout|, i requires 0 <= i < |Layout| => Region(Layout[i].id, RegionName(Layout[i].id), Center(Layout[i], h)))
  }

  /** The ids run from 3 to 25 and then from 29 to 42. */
  lemma LayoutId(i: nat)
    requires i < |Layout|
    ensures Layout[i].id == if i < 23 then i + 3 else i + 6
  {
  }

  /** The ids of the table are distinct, so the first region with an id is
      the only one. */
  lemma IdsDistinct(h: real)
    ensures forall i, j :: 0 <= i < |Regions(h)| && 0 <= j < |Regions(h)| && i != j ==>
      Regions(h)[i].id != Regions(h)[j].id
  {
    forall i, j | 0 <= i < |Layout| && 0 <= j < |Layout| && i != j
      ensures Layout[i].id != Layout[j].id
    {
      LayoutId(i);
      LayoutId(j);
    }
  }

  // ---------------------------------------------------------------------
  // Region lookup

  /** Index `i` holds the first region of `regions` with id `id`. */
  predicate FirstWithId(regions: seq<Region>, id: int, i: int) {
    && 0 <= i < |regions|
    && regions[i].id == id
    && forall j :: 0 <= j < i ==> regions[j].id != id
  }

  /** `regions.find((x) => x.id === regionId)`: the first region with that
      id, if there is one. */
  function FindRegion(regions: seq<Region>, id: int): (r: Option<Region>)
    ensures r.None? <==> forall i :: 0 <= i < |regions| ==> regions[i].id != id
    ensures r.Some? ==> exists i :: FirstWithId(regions, id, i) && regions[i] == r.value
  {
    if regions == [] then None
    else if regions[0].id == id then
      assert FirstWithId(regions, id, 0);
      Some(regions[0])
    else
      var r := FindRegion(regions[1..], id);
      if r.Some? then
        assert exists i :: FirstWithId(regions, id, i) && regions[i] == r.value by {
          var k :| FirstWithId(regions[1..], id, k) && regions[1..][k] == r.value;
          assert FirstWithId(regions, id, k + 1);
        }
        r
      else r
  }

  /** In the region table the lookup finds exactly the region with that id. */
  lemma FindInTable(h: real, i: nat)
    requires i < |Regions(h)|
    ensures FindRegion(Regions(h), Regions(h)[i].id) == Some(Regions(h)[i])
  {
    IdsDistinct(h);
  }

  // ---------------------------------------------------------------------
  // convertRegionCoords

  /** The ids of the region table: 3 to 25 and 29 to 42. */
  predicate KnownId(id: int) {
    3 <= id <= 25 || 29 <= id <= 42
  }

  /** `KnownId` holds of exactly the ids of the table. */
  lemma KnownIdInTable(h: real, id: int)
    ensures KnownId(id) <==> exists i :: 0 <= i < |Regions(h)| && Regions(h)[i].id == id
  {
    if KnownId(id) {
      var i := if id <= 25 then id - 3 else id - 6;
      LayoutId(i);
      assert Regions(h)[i].id == id;
    }
    if exists i :: 0 <= i < |Regions(h)| && Regions(h)[i].id == id {
      var i :| 0 <= i < |Regions(h)| && Regions(h)[i].id == id;
      LayoutId(i);
    }
  }

  /** "invariant: invalid region id ${regionId}". */
  datatype RegionError = InvalidRegionId(id: int)

  /** `convertRegionCoords(regionId, x, y)` for region height `h`: `x` and
      `y` are fractions of the region's box, measured from one corner. */
  function ConvertRegionCoords(h: real, regionId: int, x: real, y: real): (r: Result<(real, real), RegionError>)
    ensures r.Failure? <==> !KnownId(regionId)
    ensures r.Failure? ==> r.error == InvalidRegionId(regionId)
  {
    KnownIdInTable(h, regionId);
    match FindRegion(Regions(h), regionId)
    case None => Failure(InvalidRegionId(regionId))
    case Some(region) => Success(BoxToMap(h, region.center, x, y))
  }

  /** The map position of the point `(x, y)` of the box around `center`. */
  function BoxToMap(h: real, center: (real, real), x: real, y: real): (real, real) {
    var xC := center.0 - RegionWidth / 2.0 + RegionWidth * x;
    var yC := center.1 + h / 2.0 - h * y;
    (xC, yC)
  }

  /** The middle of the box is the region's center. */
  lemma ConvertCenter(h: real, i: nat)
    requires i < |Regions(h)|
    ensures ConvertRegionCoords(h, Regions(h)[i].id, 0.5, 0.5) == Success(Regions(h)[i].center)
  {
    FindInTable(h, i);
  }

  /** Moving `x` by `d` moves the first coordinate by `RegionWidth * d` and
      leaves the second alone. */
  lemma ConvertShiftX(h: real, regionId: int, x: real, y: real, d: real)
    requires ConvertRegionCoords(h, regionId, x, y).Success?
    ensures ConvertRegionCoords(h, regionId, x + d, y).Success?
    ensures ConvertRegionCoords(h, regionId, x + d, y).value.0 == ConvertRegionCoords(h, regionId, x, y).value.0 + RegionWidth * d
    ensures ConvertRegionCoords(h, regionId, x + d, y).value.1 == ConvertRegionCoords(h, regionId, x, y).value.1
  {
  }

  /** Moving `y` by `d` moves the second coordinate by `-h * d` and leaves
      the first alone. */
  lemma ConvertShiftY(h: real, regionId: int, x: real, y: real, d: real)
    requires ConvertRegionCoords(h, regionId, x, y).Success?
    ensures ConvertRegionCoords(h, regionId, x, y + d).Success?
    ensures ConvertRegionCoords(h, regionId, x, y + d).value.1 == ConvertRegionCoords(h, regionId, x, y).value.1 - h * d
    ensures ConvertRegionCoords(h, regionId, x, y + d).value.0 == ConvertRegionCoords(h, regionId, x, y).value.0
  {
    assert h * (y + d) == h * y + h * d;
  }

  lemma CancelFactor(h: real, a: real, b: real)
    requires h != 0.0 && h * a == h * b
    ensures a == b
  {
    assert h * (a - b) == 0.0;
  }

  /** For a non-zero height, different positions in one box are different
      map positions. */
  lemma BoxToMapInjective(h: real, c: (real, real), x: real, y: real, x': real, y': real)
    requires h != 0.0
    ensures BoxToMap(h, c, x, y) == BoxToMap(h, c, x', y') <==> x == x' && y == y'
  {
    var p := BoxToMap(h, c, x, y);
    var q := BoxToMap(h, c, x', y');
    if p == q {
      MapConstants();
      assert RegionWidth * x == RegionWidth * x' by {
        assert p.0 - (c.0 - RegionWidth / 2.0) == q.0 - (c.0 - RegionWidth / 2.0);
      }
      CancelFactor(RegionWidth, x, x');
      assert h * y == h * y' by {
        assert (c.1 + h / 2.0) - p.1 == (c.1 + h / 2.0) - q.1;
      }
      CancelFactor(h, y, y');
    }
  }

  /** For a non-zero height, different box positions in one region give
      different map positions. */
  lemma ConvertInjective(h: real, regionId: int, x: real, y: real, x': real, y': real)
    requires h != 0.0 && ConvertRegionCoords(h, regionId, x, y).Success?
    ensures ConvertRegionCoords(h, regionId, x, y) == ConvertRegionCoords(h, regionId, x', y') <==> x == x' && y == y'
  {
    var c := FindRegion(Regions(h), regionId).value.center;
    BoxToMapInjective(h, c, x, y, x', y');
  }

  // ---------------------------------------------------------------------
  // regionBorders

  /** The six corners of the hexagon around `center`, starting due west
      and going round through the north. */
  function Border(h: real, center: (real, real)): (r: seq<(real, real)>)
    ensures |r| == 6
  {
    [
      (center.0, center.1 - RegionWidth / 2.0),
      (center.0 + h / 2.0, center.1 - RegionWidth / 4.0),
      (center.0 + h / 2.0, center.1 + RegionWidth / 4.0),
      (center.0, center.1 + RegionWidth / 2.0),
      (center.0 - h / 2.0, center.1 + RegionWidth / 4.0),
      (center.0 - h / 2.0, center.1 - RegionWidth / 4.0)
    ]
  }

  /** `regionBorders`: one hexagon per region, in the table's order. */
  function RegionBorders(h: real): (r: seq<seq<(real, real)>>)
    ensures |r| == |Regions(h)|
    ensures forall i :: 0 <= i < |r| ==> r[i] == Border(h, Regions(h)[i].center)
  {
    seq(|Regions(h)|, i requires 0 <= i < |Regions(h)| => Border(h, Regions(h)[i].center))
  }

  /** Opposite corners of a border are point-symmetric about the region's
      center. */
  lemma BorderSymmetric(h: real, i: nat, k: nat)
    requires i < |RegionBorders(h)| && k < 3
    ensures var b := RegionBorders(h)[i]; var c := Regions(h)[i].center;
      b[k].0 + b[k + 3].0 == 2.0 * c.0 && b[k].1 + b[k + 3].1 == 2.0 * c.1
  {
  }

  /** The squared distance between two map positions. */
  function SquaredDistance(p: (real, real), q: (real, real)): real {
    (p.0 - q.0) * (p.0 - q.0) + (p.1 - q.1) * (p.1 - q.1)
  }

  /** All six corners lie on one circle around the center, that of radius
      `RegionWidth / 2`, exactly when `h` is the height of a regular
      hexagon: the reason for the source's `Math.sqrt(3) / 2`. */
  lemma BorderRegularExactly(h: real, center: (real, real))
    ensures (forall k :: 0 <= k < 6 ==>
               SquaredDistance(Border(h, center)[k], center) == (RegionWidth / 2.0) * (RegionWidth / 2.0))
            <==> 4.0 * (h * h) == 3.0 * (RegionWidth * RegionWidth)
    ensures h > 0.0 ==>
      ((forall k :: 0 <= k < 6 ==> SquaredDistance(Border(h, center)[k], center) == (RegionWidth / 2.0) * (RegionWidth / 2.0))
       <==> IsRegionHeight(h))
  {
    var b := Border(h, center);
    var w := RegionWidth;
    assert SquaredDistance(b[0], center) == (w / 2.0) * (w / 2.0);
    assert SquaredDistance(b[3], center) == (w / 2.0) * (w / 2.0);
    var side := (h / 2.0) * (h / 2.0) + (w / 4.0) * (w / 4.0);
    assert (h / 2.0) * (h / 2.0) == (h * h) / 4.0;
    assert SquaredDistance(b[1], center) == side;
    assert SquaredDistance(b[2], center) == side;
    assert SquaredDistance(b[4], center) == side;
    assert SquaredDistance(b[5], center) == side;
  }

  // ---------------------------------------------------------------------
  // rawRoadData

  /** The transform `rawRoadData` applies to one road point: the axes are
      swapped, scaled by 0.12 (the first one negated) and shifted. */
  function RawRoadPoint(p: (real, real)): (real, real) {
    (-140.0 + p.1 * -0.12, 107.0 + p.0 * 0.12)
  }

  /** The inverse transform. */
  function RoadPointOfRaw(q: (real, real)): (real, real) {
    ((q.1 - 107.0) / 0.12, (q.0 + 140.0) / -0.12)
  }

  lemma RawRoadPointRoundTrip(p: (real, real), q: (real, real))
    ensures RoadPointOfRaw(RawRoadPoint(p)) == p
    ensures RawRoadPoint(RoadPointOfRaw(q)) == q
  {
  }

  /** `rawRoadData`: each point transformed, in order. */
  function RawRoadData(roadData: seq<(real, real)>): (r: seq<(real, real)>)
    ensures |r| == |roadData|
    ensures forall i :: 0 <= i < |r| ==> RoadPointOfRaw(r[i]) == roadData[i]
  {
    seq(|roadData|, i requires 0 <= i < |roadData| => RawRoadPoint(roadData[i]))
  }

  /** Different road data give different transformed data. */
  lemma RawRoadDataInjective(a: seq<(real, real)>, b: seq<(real, real)>)
    ensures RawRoadData(a) == RawRoadData(b) <==> a == b
  {
    if RawRoadData(a) == RawRoadData(b) {
      assert forall i :: 0 <= i < |a| ==> a[i] == RoadPointOfRaw(RawRoadData(a)[i]);
    }
  }

  // ---------------------------------------------------------------------
  // betterMapData

  /** A text label of `mapData.json`, placed in its region's box. */
  datatype MapTextItem = MapTextItem(text: string, mapMarkerType: string, x: real, y: real)

  /** A record of `mapData.json`: a region and its labels. */
  datatype MapRecord = MapRecord(regionId: int, mapTextItems: seq<MapTextItem>)

  /** A label placed on the map: `{title, type, position}`. */
  datatype TextLabel = TextLabel(title: string, markerType: string, position: (real, real))

  /** A record of `betterMapData`: `{id, textItems}`. */
  datatype BetterRecord = BetterRecord(id: int, textItems: seq<TextLabel>)

  /** `md.mapTextItems.map(...)` for one record: every label converted, or
      the error of the first conversion that throws. */
  function ConvertItems(h: real, regionId: int, items: seq<MapTextItem>): (r: Result<seq<TextLabel>, RegionError>)
    ensures r.Failure? <==> items != [] && !KnownId(regionId)
    ensures r.Failure? ==> r.error == InvalidRegionId(regionId)
    ensures r.Success? ==> |r.value| == |items|
    ensures r.Success? ==> forall j :: 0 <= j < |items| ==>
      r.value[j] == TextLabel(items[j].text, items[j].mapMarkerType,
                              ConvertRegionCoords(h, regionId, items[j].x, items[j].y).value)
  {
    if items == [] then Success([])
    else
      var item := items[0];
      match ConvertRegionCoords(h, regionId, item.x, item.y)
      case Failure(e) => Failure(e)
      case Success(position) =>
        match ConvertItems(h, regionId, items[1..])
        case Failure(e) => Failure(e)
        case Success(rest) => Success([TextLabel(item.text, item.mapMarkerType, position)] + rest)
  }

  /** Record `i` is the first one with labels and an unknown region. */
  predicate FirstBadRecord(mapData: seq<MapRecord>, i: int) {
    && 0 <= i < |mapData|
    && mapData[i].mapTextItems != [] && !KnownId(mapData[i].regionId)
    && forall j :: 0 <= j < i ==> mapData[j].mapTextItems == [] || KnownId(mapData[j].regionId)
  }

  /** `betterMapData`: one record per record of `mapData`, in order, with
      its labels converted; the first record with labels and an unknown
      region makes the whole mapping throw. */
  function BetterMapData(h: real, mapData: seq<MapRecord>): (r: Result<seq<BetterRecord>, RegionError>)
    ensures r.Success? ==> |r.value| == |mapData|
    ensures r.Success? ==> forall i :: 0 <= i < |mapData| ==>
      r.value[i].id == mapData[i].regionId
      && ConvertItems(h, mapData[i].regionId, mapData[i].mapTextItems) == Success(r.value[i].textItems)
  {
    if mapData == [] then Success([])
    else
      var md := mapData[0];
      match ConvertItems(h, md.regionId, md.mapTextItems)
      case Failure(e) => Failure(e)
      case Success(textItems) =>
        var rest := BetterMapData(h, mapData[1..]);
        if rest.Failure? then rest
        else Success([BetterRecord(md.regionId, textItems)] + rest.value)
  }

  /** `BetterMapData` fails exactly when some record with labels names an
      unknown region, and then with the id of the first such record. */
  lemma {:induction false} BetterMapDataFailure(h: real, mapData: seq<MapRecord>)
    ensures BetterMapData(h, mapData).Failure? <==>
      exists i :: 0 <= i < |mapData| && mapData[i].mapTextItems != [] && !KnownId(mapData[i].regionId)
    ensures BetterMapData(h, mapData).Failure? ==>
      exists i :: FirstBadRecord(mapData, i) && BetterMapData(h, mapData).error == InvalidRegionId(mapData[i].regionId)
  {
    if mapData != [] {
      var md := mapData[0];
      BetterMapDataFailure(h, mapData[1..]);
      if ConvertItems(h, md.regionId, md.mapTextItems).Failure? {
        assert FirstBadRecord(mapData, 0);
      } else {
        assert md.mapTextItems == [] || KnownId(md.regionId);
        if BetterMapData(h, mapData[1..]).Failure? {
          var k :| FirstBadRecord(mapData[1..], k)
            && BetterMapData(h, mapData[1..]).error == InvalidRegionId(mapData[1..][k].regionId);
          assert FirstBadRecord(mapData, k + 1);
        } else {
          forall i | 0 <= i < |mapData|
            ensures mapData[i].mapTextItems == [] || KnownId(mapData[i].regionId)
          {
            if i > 0 { assert mapData[i] == mapData[1..][i - 1]; }
          }
        }
      }
    }
  }
}
