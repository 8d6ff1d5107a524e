# Foxhole map road graph, in Dafny

This project models the road-graph and region-geometry core of an
interactive map for the game Foxhole, and proves properties of the model.

- **Road-graph builder** (`src/tools/processRoads.ts`). It walks the points
  of the road artwork's SVG path. Each point becomes a vertex named by the
  JSON text of its `[x, y]`. Each point is joined to its predecessor by an
  edge weighted with their straight-line distance, unless the point starts
  a new subpath. The only curve kind it accepts is cubic.
  - `Build` is the specification: a fold over the points.
  - `PointsArrayToGraph` is the imperative loop over a `DijkstraCalculator`
    object, proved equal to `Build`.
  - `Shaped` states the exact shape of the result:
    - one vertex per distinct point, in order of first appearance;
    - each vertex's list holds exactly the edges that touch it.
- **Lazy road data** (`src/map/roads.ts`). Two slots are filled on first
  use:
  - the calculator over the imported adjacency list;
  - the adjacency list's keys, decoded back into coordinates.
- **Region geometry** (`src/map/regions.ts`):
  - the table of 37 hexagonal regions;
  - their borders;
  - the conversion of region-relative label positions into map
    coordinates;
  - the road-point transform;
  - the mapping of the map labels.

Supporting modules:

- `Wrappers` holds `Option` and `Result`.
- `Json` models `JSON.stringify` and `JSON.parse` on arrays of numbers.
  - Numbers are canonical decimal numerals, the form in which
    `JSON.stringify` prints them.
  - The model proves that decoding undoes encoding.
  - It proves that encoding is injective.
- `Dijkstra` models the part of the `dijkstra-calculator` library the code
  uses: `adjacencyList`, `addVertex` and `addEdge`. The library is not part
  of this model. Its assumed behaviour is stated at the head of
  `Dijkstra.dfy`:
  - key order is insertion order;
  - `addVertex` is a no-op for a known vertex;
  - `addEdge` appends in both directions, and both vertices must exist.

Modelling choices:

- JavaScript numbers are Dafny `real`s.
- A distance is kept as its square: `Length = Root(square)`. `Math.sqrt` is
  monotonic and injective, so comparing squares loses nothing.
- The region height `regionWidth * Math.sqrt(3) / 2` is a parameter `h`.
- The region table is stored as multiples of `h` and of the region width,
  exactly as written in the source. Each region's name comes from
  `RegionName`, which gives the name the table pairs with each id.
- The walk of `pointsArrayToGraph` is stated once, generically, over a
  naming of points. `Build` instantiates it with `toIdent`'s JSON text.
  The adjacency list of `Dijkstra` is likewise generic in its key type;
  the calculator object uses strings.
- Whether an id is known is stated as two id ranges. `KnownIdInTable`
  proves this equal to "some region of the table has that id".

Notes on the source:

- `convertRegionCoords` pairs `regionWidth` with `center[0]` and
  `regionHeight` with `center[1]`. `regionBorders` pairs them the other
  way round. The model keeps both as written.
- The modelled files contain no nearest-node search, no shortest-path
  engine and no path projector, so none is modelled. Shortest paths live
  inside the `dijkstra-calculator` library.

## Model

| member | source | states |
|---|---|---|
| Json.StringifyInjective | src/tools/processRoads.ts:6 | Two number arrays have the same JSON text exactly when they are equal. |
| Json.ParseStringify | src/map/roads.ts:21 | `JSON.parse` of the JSON text of a number array gives that array back. |
| Json.ElementsRoundTrip | src/map/roads.ts:21 | The elements of an array's JSON text, followed by the closing bracket, parse back to the elements. |
| Json.NumberRoundTrip | src/map/roads.ts:21 | A printed number followed by `,` or `]` parses back to that number, and the parser stops at the separator. |
| ProcessRoads.ToIdentInjective | src/tools/processRoads.ts:6 | `toIdent` gives equal names exactly to equal coordinate arrays. |
| ProcessRoads.PointIdentShared | src/tools/processRoads.ts:38-42 | Two points share a vertex exactly when their end `x` and `y` agree. |
| ProcessRoads.DistanceProperties | src/tools/processRoads.ts:8-13 | The squared distance is the Euclidean one despite the swapped local names. It is symmetric in the two points, never negative, and zero for coincident points. |
| ProcessRoads.ProcessPoint | src/tools/processRoads.ts:30-53 | One `forEach` iteration. It needs the predecessor's vertex present before `addEdge` and keeps the adjacency list well formed. |
| ProcessRoads.BuildPrefix | src/tools/processRoads.ts:30-54 | The first `n` iterations succeed exactly when none of those points has a non-cubic curve. Every point they visit is then a vertex. |
| ProcessRoads.BuildPrefixStep | src/tools/processRoads.ts:30-54 | Iteration `i` continues the graph of the first `i` iterations. |
| ProcessRoads.BuildPrefixNext | src/tools/processRoads.ts:30-54 | When the first `i` iterations succeed, the first `i + 1` are iteration `i` applied to their graph. |
| ProcessRoads.Build | src/tools/processRoads.ts:27-57 | The build throws exactly when some point has a curve that is not cubic. Otherwise the graph is well formed. |
| ProcessRoads.FirstNamesMembers | src/tools/processRoads.ts:38-42 | A name is among the distinct names of the first `n` points exactly when one of those points has it. |
| ProcessRoads.FirstNamesDistinct | src/tools/processRoads.ts:38-42 | No name occurs twice among the distinct names of the first `n` points. |
| ProcessRoads.FirstNamesOrder | src/tools/processRoads.ts:30-42 | The distinct names come in order of first appearance: of two of them, the earlier is the name of a point that comes before every point bearing the later. |
| ProcessRoads.FirstNameSource | src/tools/processRoads.ts:38-42 | Every distinct name is the name of one of the first `n` points, and the lemma returns that point's index. |
| ProcessRoads.KeysStep | src/tools/processRoads.ts:40-42 | `addVertex` appends a point's name to the key order exactly when that name is new. |
| ProcessRoads.ProcessPointKeys | src/tools/processRoads.ts:40-53 | One iteration keeps the key order equal to the distinct names visited, in order of first appearance. |
| ProcessRoads.KeysInOrderStep | src/tools/processRoads.ts:30-54 | If the first `n - 1` iterations keep the key order in order of first appearance, so do the first `n`. |
| ProcessRoads.BuildPrefixKeys | src/tools/processRoads.ts:30-54 | After every successful prefix of the walk, the keys are the distinct names of its points, in order of first appearance. |
| ProcessRoads.NeighborsOfAppend | src/tools/processRoads.ts:48-52 | One more edge appends to each endpoint's list the entry naming the other endpoint. |
| ProcessRoads.AddEdgeNeighbors | src/tools/processRoads.ts:48-52 | `addEdge` turns the lists of a graph made of some edges into the lists of those edges plus one. |
| ProcessRoads.AddVertexNeighbors | src/tools/processRoads.ts:42 | `addVertex` gives a new vertex an empty list and keeps every other list. |
| ProcessRoads.NeighborsOfUntouched | src/tools/processRoads.ts:42 | A name that no edge touches has no neighbours. |
| ProcessRoads.EdgeSource | src/tools/processRoads.ts:44-52 | Every edge added so far comes from one earlier point that adds an edge: the edge of that point. |
| ProcessRoads.EdgeIncluded | src/tools/processRoads.ts:44-52 | Every earlier point that adds an edge has its edge among the edges added so far. |
| ProcessRoads.EdgeEndpointsRegistered | src/tools/processRoads.ts:42-49 | Both ends of every edge added so far are vertices of the graph. |
| ProcessRoads.ProcessPointLists | src/tools/processRoads.ts:40-53 | One iteration keeps every vertex's list equal to the entries of the edges added so far that touch it. |
| ProcessRoads.ListsOfEdgesStep | src/tools/processRoads.ts:30-54 | If the first `n - 1` iterations leave every list made of the edges touching its vertex, so do the first `n`. |
| ProcessRoads.BuildPrefixLists | src/tools/processRoads.ts:30-54 | After every successful prefix of the walk, each vertex's list is exactly the entries of the edges that touch it, in insertion order. |
| ProcessRoads.BuildShaped | src/tools/processRoads.ts:27-57 | The built graph has one vertex per distinct point, keyed in order of first appearance. Each vertex's list is exactly the entries of the edges that touch it, in insertion order. |
| ProcessRoads.EdgeIndicesMembers | src/tools/processRoads.ts:44 | An index adds an edge exactly when it is not the first and its point does not start a subpath. |
| ProcessRoads.EdgeIndicesIncreasing | src/tools/processRoads.ts:30-44 | The indices that add an edge come in increasing order. |
| ProcessRoads.EdgesOfIndices | src/tools/processRoads.ts:44-53 | There is one edge per such index, in the same order. The edge joins the previous point to the current one and is weighted by their distance. |
| ProcessRoads.NoEdgeIntoSubpathStart | src/tools/processRoads.ts:44 | The first point, and every point that starts a subpath, adds no edge from its predecessor. |
| ProcessRoads.EdgesExact | src/tools/processRoads.ts:44-53 | An edge is added exactly when some index after the first that does not start a subpath adds it. |
| ProcessRoads.NeighborsOfMember | src/tools/processRoads.ts:48-52 | `b` is listed with weight `w` under `a` exactly when some edge links `a` and `b`, in either direction, with weight `w`. |
| ProcessRoads.EdgesLinkExactly | src/tools/processRoads.ts:44-52 | Some edge of the walk links `a` and `b` with weight `w` exactly when two consecutive points of one subpath sit at `a` and `b` and are `w` apart. |
| ProcessRoads.ShapedList | src/tools/processRoads.ts:48-52 | In a shaped graph, a vertex's list is the entries of the edges that touch it. |
| ProcessRoads.BuildAdjacency | src/tools/processRoads.ts:44-52 | In the built graph, `b` is a neighbour of `a` with weight `w` exactly when two consecutive points of one subpath sit at `a` and `b` and are `w` apart. |
| ProcessRoads.LinkedEndpoints | src/tools/processRoads.ts:48-52 | An edge that links `a` to `b` also links `b` to `a`, and `b` is then a vertex. |
| ProcessRoads.BuildUndirected | src/tools/processRoads.ts:48-52 | Every listed neighbour is a vertex and lists its neighbour back with the same weight. |
| ProcessRoads.BuildVertices | src/tools/processRoads.ts:38-42 | The vertices of a successful build are exactly the names of its points. |
| ProcessRoads.SameEnds | src/tools/processRoads.ts:8-50 | Points with the same end coordinates have the same vertex name and the same distance to corresponding points. |
| ProcessRoads.ProcessPointIgnoresControlPoints | src/tools/processRoads.ts:36-51 | One iteration gives the same result on two runs with the same outline under a naming that agrees on them. |
| ProcessRoads.BuildPrefixIgnoresControlPoints | src/tools/processRoads.ts:30-54 | Every prefix of the walk gives the same result on two runs with the same outline. |
| ProcessRoads.BuildIgnoresControlPoints | src/tools/processRoads.ts:36-51 | Points with the same end coordinates, move flags and curve acceptance build the same graph. Control points play no part. |
| ProcessRoads.OnePointWalk | src/tools/processRoads.ts:30-43 | The first point alone, whatever its `moveTo` flag, yields one vertex with an empty neighbour list and no edge. |
| ProcessRoads.SecondPoint | src/tools/processRoads.ts:40-52 | Joining a second, differently named point to a one-vertex graph adds its vertex after the first and lists each under the other once with their distance. |
| ProcessRoads.TwoPointWalk | src/tools/processRoads.ts:30-53 | A walk over a start point and one joined, differently named point gives two vertices in order, each listing the other once with their distance. |
| ProcessRoads.OneCubicSegment | src/tools/processRoads.ts:27-57 | One cubic segment from (0, 0) to (3, 4) gives vertices `[0,0]` and `[3,4]`, joined both ways by one edge of squared length 25. |
| ProcessRoads.PointsArrayToGraph | src/tools/processRoads.ts:27-57 | The loop over a fresh calculator returns exactly the graph `Build` specifies. It fails exactly when `Build` fails. |
| Dijkstra.AdjacencyList.AddVertex | src/tools/processRoads.ts:42 | `addVertex` registers the vertex with an empty list if it is new, appends it to the key order, and changes nothing else. |
| Dijkstra.AdjacencyList.AddEdge | src/tools/processRoads.ts:48-52 | `addEdge` between two registered vertices keeps the key order and the vertex set. It appends `{id: b, weight}` to the list of `a` and `{id: a, weight}` to the list of `b`, and leaves every other list as it was. |
| Dijkstra.DijkstraCalculator.constructor | src/tools/processRoads.ts:28 | `new DijkstraCalculator()` has an empty adjacency list. |
| Dijkstra.DijkstraCalculator.AddVertex | src/tools/processRoads.ts:42 | The object's adjacency list becomes the old one with the vertex added. |
| Dijkstra.DijkstraCalculator.AddEdge | src/tools/processRoads.ts:48-52 | The object's adjacency list becomes the old one with the edge added. |
| Roads.DecodeAll | src/map/roads.ts:20-22 | Mapping a throwing decoder over the keys succeeds exactly when every key decodes. The result is then one entry per key, in key order. |
| Roads.DecodeKeys | src/map/roads.ts:20-22 | Decoding with `JSON.parse` succeeds exactly when every key parses. The result is then one array per key, in key order, each the parsed key. |
| Roads.DecodeIdents | src/map/roads.ts:21 | Decoding the names `toIdent` produced gives back the coordinate arrays, in order. |
| Roads.DecodeBuiltKeys | src/map/roads.ts:20-22 | The keys of a graph the builder made all decode. Each decodes to the `[x, y]` of some path point. |
| Roads.RoadData.constructor | src/map/roads.ts:4-5 | Both module-level slots start empty, around a well-formed imported adjacency list (the keys of a JSON object are distinct). |
| Roads.RoadData.GetRoadGraph | src/map/roads.ts:7-16 | The first call makes a fresh, well-formed calculator whose adjacency list is the imported one. Every later call returns that same object. The point slot is unchanged. |
| Roads.RoadData.GetRoadPoints | src/map/roads.ts:18-26 | Every call answers the decoded keys. The first successful call fills the slot and later calls keep it. The graph slot is unchanged. |
| Regions.MapConstants | src/map/regions.ts:5-12 | The map is 256 wide and a region is 256/6.06 wide. |
| Regions.Regions | src/map/regions.ts:15-257 | The table has one region per placement, in order, with the name the source gives its id. Each center is the origin plus so many region heights and widths. |
| Regions.LayoutId | src/map/regions.ts:15-257 | The ids run 3 to 25, then 29 to 42. |
| Regions.IdsDistinct | src/map/regions.ts:15-257 | No two regions share an id. |
| Regions.FindRegion | src/map/regions.ts:272 | `find` fails exactly when no region has the id. Otherwise it returns the first region with that id. |
| Regions.FindInTable | src/map/regions.ts:272 | In the table, the lookup of a region's id returns that region. |
| Regions.KnownIdInTable | src/map/regions.ts:15-257 | An id is in the ranges 3 to 25 or 29 to 42 exactly when some region of the table has it. |
| Regions.ConvertRegionCoords | src/map/regions.ts:271-282 | The conversion throws "invalid region id" exactly when no region has the id. |
| Regions.ConvertCenter | src/map/regions.ts:278-281 | Box position (0.5, 0.5) converts to the region's center. |
| Regions.ConvertShiftX | src/map/regions.ts:278 | Moving `x` by `d` moves the first coordinate by `regionWidth * d` and leaves the second unchanged. |
| Regions.ConvertShiftY | src/map/regions.ts:279 | Moving `y` by `d` moves the second coordinate by `-regionHeight * d` and leaves the first unchanged. |
| Regions.BoxToMapInjective | src/map/regions.ts:278-279 | For a non-zero height, the box-to-map formula gives equal map positions exactly for equal box positions. |
| Regions.ConvertInjective | src/map/regions.ts:278-279 | For a non-zero height, distinct box positions in one region convert to distinct map positions. |
| Regions.Border | src/map/regions.ts:260-268 | A border has six corners. |
| Regions.RegionBorders | src/map/regions.ts:259-269 | There is one border per region, in table order, each around that region's center. |
| Regions.BorderSymmetric | src/map/regions.ts:262-267 | Corner `k` and corner `k + 3` are point-symmetric about the center. |
| Regions.BorderRegularExactly | src/map/regions.ts:259-269 | The six corners lie on one circle around the center exactly when `4 h^2 = 3 regionWidth^2`; for a positive `h`, exactly when `h` is the region height of line 13. |
| Regions.RawRoadPointRoundTrip | src/map/regions.ts:295-298 | The road-point transform has an inverse on both sides. |
| Regions.RawRoadData | src/map/regions.ts:295-298 | `rawRoadData` keeps length and order. Undoing the transform on each entry gives the input point. |
| Regions.RawRoadDataInjective | src/map/regions.ts:295-298 | Different road data give different transformed data. |
| Regions.ConvertItems | src/map/regions.ts:287-291 | One record's labels convert exactly when the list is empty or the region is known. Each label keeps its text and marker type and gets the converted position. |
| Regions.BetterMapData | src/map/regions.ts:285-292 | When the mapping succeeds there is one record per input record, in order, with its id and its converted labels. |
| Regions.BetterMapDataFailure | src/map/regions.ts:285-292 | The mapping throws exactly when some record with labels names an unknown region, and then with the id of the first such record. |

## Left out

- `vectorFileToPoints`, `cacheAdjacencyList` and `main`
  (src/tools/processRoads.ts:15-25, 59-71) are left out. They read the SVG
  file, parse it with `svg-parser` and `svg-points`, and write
  `adjacency.json`. The builder takes the decoded path points as its input.
- The internals of `dijkstra-calculator` are left out: its shortest-path
  search and its bookkeeping. Only `adjacencyList`, `addVertex` and
  `addEdge` are modelled, with the behaviour stated in `Dijkstra.dfy`.
- A nearest-node search, a shortest-path engine and a path projector are
  not part of this model: the modelled files contain none of them.
- IEEE-754 rounding is left out. Every number is an exact `real`, and
  nothing here claims bit-exact agreement with JavaScript doubles.
- `Math.sqrt` is left out:
  - edge weights are kept as their squares;
  - the region height is a parameter `h`. `IsRegionHeight` states which
    positive value the source means, and `BorderRegularExactly` proves that
    exactly that value puts the six corners on one circle;
  - the existence of `sqrt(3)` is not proved.
- Number formatting is limited:
  - path coordinates are finite decimal numerals;
  - `JSON.stringify`'s exponent notation (for magnitudes of at least 1e21
    or below 1e-6) is not modelled;
  - neither is `JSON.parse`'s acceptance of whitespace, exponents and
    values that are not arrays of numbers. Such text counts as a parse
    failure.
- The `as number[]` cast in `getRoadPoints` is unchecked in the source. The
  model decodes only arrays of numbers.
- Aliasing is left out. `getRoadGraph` shares the imported JSON object with
  the calculator; the model copies its value, so a later mutation through
  the graph is not reflected in the imported data.
- Concurrent first calls to the caches are left out. JavaScript runs them
  on one thread.
- The `console.log` of `rawRoadData` (src/map/regions.ts:300) is left out.
- The contents of `mapData.json`, `roads.json` and `adjacency.json` are
  parameters, not constants.
- Region ids are integers.
- Road points in `roads.json` are pairs. Arrays of another length are not
  modelled.
- `src/index.tsx` (rendering), `src/map/search.ts` (library calls) and
  `tailwind.config.js` are not part of this model.
- ProcessRoads.DistanceProperties: the distance is proved zero for
  coincident points but not proved positive for distinct ones. The
  non-linear step is beyond the solver as configured here.
