/** The road data the map loads at run time (`src/map/roads.ts`): two
    module-level slots, filled on first use from the adjacency list the
    builder wrote out, and returned unchanged on every later use.

    The imported `adjacency.json` is a parameter of the cache (its
    constructor argument); the module-level `let`s become the fields of one
    `RoadData` object. */
module Roads {
  import opened Wrappers
  import opened Json
  import opened Dijkstra
  import ProcessRoads

  /** `keys.map(decode)` for a `decode` that may throw: the first key it
      rejects ends the walk, and then nothing is returned. */
  function DecodeAll(keys: seq<string>, decode: string -> Result<seq<Number>, ParseError>): (r: Result<seq<seq<Number>>, ParseError>)
    ensures r.Success? <==> forall i :: 0 <= i < |keys| ==> decode(keys[i]).Success?
    ensures r.Success? ==> |r.value| == |keys|
    ensures r.Success? ==> forall i :: 0 <= i < |keys| ==> r.value[i] == decode(keys[i]).value
  {
    if keys == [] then Success([])
    else
      match DecodeAll(keys[..|keys| - 1], decode)
      case Failure(e) => Failure(e)
      case Success(init) =>
        match decode(keys[|keys| - 1])
        case Failure(e) => Failure(e)
        case Success(coords) => Success(init + [coords])
  }

  /** `Object.keys(roadAdjacencyList).map((ident) => JSON.parse(ident))`. */
  function DecodeKeys(keys: seq<string>): (r: Result<seq<seq<Number>>, ParseError>)
    ensures r.Success? <==> forall i :: 0 <= i < |keys| ==> Parse(keys[i]).Success?
    ensures r.Success? ==> |r.value| == |keys|
    ensures r.Success? ==> forall i :: 0 <= i < |keys| ==> r.value[i] == Parse(keys[i]).value
  {
    DecodeAll(keys, Parse)
  }

  /** The vertex names `toIdent` gives a run of coordinate arrays. */
  function IdentsOf(coords: seq<seq<Number>>): (r: seq<string>)
    ensures |r| == |coords|
    ensures forall i :: 0 <= i < |coords| ==> r[i] == ProcessRoads.ToIdent(coords[i])
  {
    seq(|coords|, i requires 0 <= i < |coords| => ProcessRoads.ToIdent(coords[i]))
  }

  /** Decoding the names `toIdent` produced gives back the coordinates,
      one per name, in order. */
  lemma DecodeIdents(coords: seq<seq<Number>>)
    ensures DecodeKeys(IdentsOf(coords)) == Success(coords)
  {
    var keys := IdentsOf(coords);
    forall i | 0 <= i < |keys|
      ensures Parse(keys[i]) == Success(coords[i])
    {
      ParseStringify(coords[i]);
    }
    assert DecodeKeys(keys).value == coords;
  }

  /** The road points of a graph the builder made: one per vertex, in key
      order, and each is the `[x, y]` of a path point. */
  lemma DecodeBuiltKeys(points: seq<ProcessRoads.Point>)
    requires ProcessRoads.Build(points).Success?
    ensures DecodeKeys(ProcessRoads.Build(points).value.keys).Success?
    ensures var r := DecodeKeys(ProcessRoads.Build(points).value.keys).value;
      && |r| == |ProcessRoads.Build(points).value.keys|
      && forall k :: 0 <= k < |r| ==> exists i :: 0 <= i < |points| && r[k] == [points[i].x, points[i].y]
  {
    var keys := ProcessRoads.Build(points).value.keys;
    forall k | 0 <= k < |keys|
      ensures Parse(keys[k]).Success?
      ensures exists i :: 0 <= i < |points| && Parse(keys[k]).value == [points[i].x, points[i].y]
    {
      assert keys[k] in ProcessRoads.Build(points).value.lists;
      ProcessRoads.BuildVertices(points, keys[k]);
      var i :| 0 <= i < |points| && keys[k] == ProcessRoads.PointIdent(points[i]);
      ParseStringify([points[i].x, points[i].y]);
    }
  }

  /** The two lazily filled slots of `roads.ts`, over the imported
      adjacency list. */
  class RoadData<W> {
    const roadAdjacencyList: AdjacencyList<string, W>
    var graph: Option<DijkstraCalculator<W>>
    var roadPoints: Option<seq<seq<Number>>>

    /** The imported list is well formed (the keys of a JSON object are
        distinct), and a filled point slot holds the decoded keys. */
    predicate Valid()
      reads this
    {
      && roadAdjacencyList.Valid()
      && (roadPoints.Some? ==> DecodeKeys(roadAdjacencyList.keys) == Success(roadPoints.value))
    }

    /** Both slots start empty. */
    constructor (data: AdjacencyList<string, W>)
      requires data.Valid()
      ensures Valid()
      ensures roadAdjacencyList == data && graph == None && roadPoints == None
    {
      roadAdjacencyList := data;
      graph := None;
      roadPoints := None;
    }

    /** `getRoadGraph`: the first call makes a calculator over the imported
        adjacency list; every later call returns that same object. The
        point slot is left alone. */
    method GetRoadGraph() returns (r: DijkstraCalculator<W>)
      requires Valid()
      modifies this
      ensures Valid()
      ensures graph == Some(r) && roadPoints == old(roadPoints)
      ensures old(graph).Some? ==> r == old(graph).value
      ensures old(graph).None? ==> fresh(r) && r.adjacencyList == roadAdjacencyList && r.Valid()
    {
      if graph.None? {
        var newGraph := new DijkstraCalculator<W>();
        newGraph.adjacencyList := roadAdjacencyList;
        graph := Some(newGraph);
      }
      r := graph.value;
    }

    /** `getRoadPoints`: every call answers the decoded keys; the first
        successful one fills the slot, and a key that does not parse leaves
        it empty. The graph slot is left alone. */
    method GetRoadPoints() returns (r: Result<seq<seq<Number>>, ParseError>)
      requires Valid()
      modifies this
      ensures Valid()
      ensures r == DecodeKeys(roadAdjacencyList.keys)
      ensures roadPoints == if r.Success? then Some(r.value) else None
      ensures old(roadPoints).Some? ==> roadPoints == old(roadPoints)
      ensures graph == old(graph)
    {
      if roadPoints.None? {
        var decoded := DecodeKeys(roadAdjacencyList.keys);
        if decoded.Failure? {
          return Failure(decoded.error);
        }
        roadPoints := Some(decoded.value);
      }
      r := Success(roadPoints.value);
    }
  }
}
