/** The offline road-graph builder (`src/tools/processRoads.ts`): it walks
    the points of the road artwork's SVG path, registers each point as a
    vertex named by the JSON text of its coordinates, and joins each point
    to the one before it unless the point starts a new subpath.

    The points are taken as given: reading the SVG file and decoding the
    path data (`svg-parser`, `svg-points`) are not part of this model. */
module ProcessRoads {
  import opened Wrappers
  import opened Json
  import opened Dijkstra

  /** The segment that ends at a path point, as `svg-points` describes it. */
  datatype Curve =
    | Arc(rx: Number, ry: Number, largeArcFlag: Number, sweepFlag: Number, xAxisRotation: Number)
    | Cubic(x1: Number, y1: Number, x2: Number, y2: Number)
    | Quadratic(x1: Number, y1: Number)

  /** A path point: its end coordinates, whether it starts a subpath
      (`M`), and the curve leading to it, if any. */
  datatype Point = Point(x: Number, y: Number, moveTo: bool, curve: Option<Curve>)

  /** The only failure: "invariant: can only handle cubic curves". */
  datatype BuildError = UnsupportedCurve

  /** A length, kept as its square: `Root(s)` stands for the non-negative
      square root of `s` that `Math.sqrt(s)` computes. Since that root is
      monotonic and injective on non-negative reals, comparing lengths by
      their squares loses nothing. */
  datatype Length = Root(square: real)

  type Graph<K(==)> = AdjacencyList<K, Length>

  // ---------------------------------------------------------------------
  // toIdent and getDistance

  /** `toIdent`: the vertex name of a coordinate array is its JSON text. */
  function ToIdent(coords: seq<Number>): string {
    Stringify(coords)
  }

  /** Equal coordinates give one vertex name, and different coordinates
      give different names. */
  lemma ToIdentInjective(a: seq<Number>, b: seq<Number>)
    ensures ToIdent(a) == ToIdent(b) <==> a == b
  {
    StringifyInjective(a, b);
  }

  /** The vertex name of a path point: `toIdent([point.x, point.y])`. */
  function PointIdent(p: Point): string {
    ToIdent([p.x, p.y])
  }

  /** Two points share a vertex exactly when they have the same end
      coordinates; control points and the move flag play no part. */
  lemma PointIdentShared(p: Point, q: Point)
    ensures PointIdent(p) == PointIdent(q) <==> p.x == q.x && p.y == q.y
  {
    ToIdentInjective([p.x, p.y], [q.x, q.y]);
    if [p.x, p.y] == [q.x, q.y] {
      assert [p.x, p.y][0] == [q.x, q.y][0] && [p.x, p.y][1] == [q.x, q.y][1];
    }
  }

  /** `getDistance`, with its local names as the source has them: the
      horizontal difference is called `y` and the vertical one `x`. */
  function GetDistance(x1: real, y1: real, x2: real, y2: real): Length {
    var y := x2 - x1;
    var x := y2 - y1;
    Root(x * x + y * y)
  }

  lemma SquareNonNegative(a: real)
    ensures a * a >= 0.0
  {
  }

  lemma SquareOfDifference(a: real, b: real)
    ensures (a - b) * (a - b) == (b - a) * (b - a)
  {
  }

  /** `getDistance` is the Euclidean distance whatever its local names: it
      is symmetric in its two points, never negative, and zero for
      coincident points. */
  lemma DistanceProperties(x1: real, y1: real, x2: real, y2: real)
    ensures GetDistance(x1, y1, x2, y2).square == (x2 - x1) * (x2 - x1) + (y2 - y1) * (y2 - y1)
    ensures GetDistance(x1, y1, x2, y2) == GetDistance(x2, y2, x1, y1)
    ensures GetDistance(x1, y1, x2, y2).square >= 0.0
    ensures GetDistance(x1, y1, x1, y1).square == 0.0
  {
    SquareNonNegative(x2 - x1);
    SquareNonNegative(y2 - y1);
    SquareOfDifference(x2, x1);
    SquareOfDifference(y2, y1);
  }

  /** The weight of the edge from `p` to `q`: the straight-line distance
      between their end coordinates. */
  function Weight(p: Point, q: Point): Length {
    GetDistance(Value(p.x), Value(p.y), Value(q.x), Value(q.y))
  }

  // ---------------------------------------------------------------------
  // pointsArrayToGraph, as a specification
  //
  // The walk below takes the vertex naming as a parameter `name`; the
  // builder's own naming is `PointIdent`, fixed by `Build`. The shape of
  // the graph does not depend on which naming is used, and the lemmas about
  // it are proved for any.

  /** Only a point without a curve, or with a cubic one, is accepted. */
  predicate CurveSupported(p: Point) {
    p.curve.None? || p.curve.value.Cubic?
  }

  /** The point at index `i` adds an edge from its predecessor. */
  predicate AddsEdge(points: seq<Point>, i: nat) {
    0 < i < |points| && !points[i].moveTo
  }

  /** One iteration of the `forEach` in `pointsArrayToGraph`. The
      predecessor's vertex is there already (it was added by the previous
      iteration); the current one is added just before the edge. */
  function ProcessPoint<K(==)>(g: Graph<K>, points: seq<Point>, i: nat, name: Point -> K): (r: Result<Graph<K>, BuildError>)
    requires i < |points| && g.Valid()
    requires i > 0 ==> name(points[i - 1]) in g.lists
    ensures r.Success? ==> r.value.Valid()
  {
    var point := points[i];
    if !CurveSupported(point) then Failure(UnsupportedCurve)
    else
      var ident := name(point);
      var withVertex := g.AddVertex(ident);
      if i > 0 && !point.moveTo then
        var previousPoint := points[i - 1];
        Success(withVertex.AddEdge(name(previousPoint), ident, Weight(previousPoint, point)))
      else
        Success(withVertex)
  }

  /** The graph after the first `n` iterations, or the error that stopped
      them. */
  function BuildPrefix<K(==)>(points: seq<Point>, n: nat, name: Point -> K): (r: Result<Graph<K>, BuildError>)
    requires n <= |points|
    ensures r.Success? <==> forall j :: 0 <= j < n ==> CurveSupported(points[j])
    ensures r.Success? ==> r.value.Valid()
    ensures r.Success? ==> forall j :: 0 <= j < n ==> name(points[j]) in r.value.lists
  {
    if n == 0 then Success(EmptyAdjacencyList())
    else
      match BuildPrefix(points, n - 1, name)
      case Failure(e) => Failure(e)
      case Success(g) => ProcessPoint(g, points, n - 1, name)
  }

  lemma BuildPrefixStep<K>(points: seq<Point>, i: nat, g: Graph<K>, name: Point -> K)
    requires i < |points| && BuildPrefix(points, i, name) == Success(g)
    ensures g.Valid() && (i > 0 ==> name(points[i - 1]) in g.lists)
    ensures BuildPrefix(points, i + 1, name) == ProcessPoint(g, points, i, name)
  {
  }

  /** What `pointsArrayToGraph(points)` returns or throws. */
  function Build(points: seq<Point>): (r: Result<Graph<string>, BuildError>)
    ensures r.Failure? <==> exists i :: 0 <= i < |points| && !CurveSupported(points[i])
    ensures r.Success? ==> r.value.Valid()
    ensures r.Success? ==> forall j :: 0 <= j < |points| ==> PointIdent(points[j]) in r.value.lists
  {
    BuildPrefix(points, |points|, PointIdent)
  }

  // ---------------------------------------------------------------------
  // The shape of the graph

  /** The distinct names of the first `n` points, in order of first
      appearance. */
  function FirstNames<K(==)>(points: seq<Point>, n: nat, name: Point -> K): seq<K>
    requires n <= |points|
  {
    if n == 0 then []
    else
      var names := FirstNames(points, n - 1, name);
      var v := name(points[n - 1]);
      if v in names then names else names + [v]
  }

  /** A name is among the first names exactly when one of the first `n`
      points has it. */
  lemma {:induction false} FirstNamesMembers<K>(points: seq<Point>, n: nat, name: Point -> K, v: K)
    requires n <= |points|
    ensures v in FirstNames(points, n, name) <==> exists j :: 0 <= j < n && v == name(points[j])
  {
    if n > 0 {
      FirstNamesMembers(points, n - 1, name, v);
      if v == name(points[n - 1]) {
        assert v in FirstNames(points, n, name);
      }
    }
  }

  /** No name occurs twice among the first names. */
  lemma {:induction false} FirstNamesDistinct<K>(points: seq<Point>, n: nat, name: Point -> K)
    requires n <= |points|
    ensures Distinct(FirstNames(points, n, name))
  {
    if n > 0 {
      FirstNamesDistinct(points, n - 1, name);
    }
  }

  /** The first names come in order of first appearance: of two of them,
      the earlier one is the name of a point that comes before every point
      with the later name. */
  lemma {:induction false} FirstNamesOrder<K>(points: seq<Point>, n: nat, name: Point -> K, i: nat, j: nat) returns (k: nat)
    requires n <= |points| && i < j < |FirstNames(points, n, name)|
    ensures k < n && name(points[k]) == FirstNames(points, n, name)[i]
    ensures forall m :: 0 <= m <= k ==> name(points[m]) != FirstNames(points, n, name)[j]
  {
    var names := FirstNames(points, n - 1, name);
    var v := name(points[n - 1]);
    if v in names || j < |names| {
      assert FirstNames(points, n, name)[i] == names[i] && FirstNames(points, n, name)[j] == names[j];
      k := FirstNamesOrder(points, n - 1, name, i, j);
    } else {
      assert FirstNames(points, n, name)[i] == names[i] && FirstNames(points, n, name)[j] == v;
      k := FirstNameSource(points, n - 1, name, i);
      FirstNamesMembers(points, n - 1, name, v);
    }
  }

  /** Each of the first names is the name of one of the first `n` points. */
  lemma FirstNameSource<K>(points: seq<Point>, n: nat, name: Point -> K, i: nat) returns (k: nat)
    requires n <= |points| && i < |FirstNames(points, n, name)|
    ensures k < n && name(points[k]) == FirstNames(points, n, name)[i]
  {
    FirstNamesMembers(points, n, name, FirstNames(points, n, name)[i]);
    k :| 0 <= k < n && FirstNames(points, n, name)[i] == name(points[k]);
  }

  datatype Edge<K> = Edge(from: K, to: K, weight: Length)

  /** The edge the point at index `i` adds, from its predecessor to it. */
  function EdgeAt<K(==)>(points: seq<Point>, i: nat, name: Point -> K): Edge<K>
    requires 0 < i < |points|
  {
    Edge(name(points[i - 1]), name(points[i]), Weight(points[i - 1], points[i]))
  }

  /** The indices, below `n`, of the points that add an edge, in order. */
  function EdgeIndices(points: seq<Point>, n: nat): seq<nat>
    requires n <= |points|
  {
    if n == 0 then []
    else EdgeIndices(points, n - 1) + (if AddsEdge(points, n - 1) then [n - 1] else [])
  }

  /** The edges added by the first `n` points, in the order they are added. */
  function Edges<K(==)>(points: seq<Point>, n: nat, name: Point -> K): seq<Edge<K>>
    requires n <= |points|
  {
    if n == 0 then []
    else Edges(points, n - 1, name) + (if AddsEdge(points, n - 1) then [EdgeAt(points, n - 1, name)] else [])
  }

  /** The neighbour list `addEdge` builds for vertex `v` out of `edges`. */
  function NeighborsOf<K(==)>(v: K, edges: seq<Edge<K>>): seq<Neighbor<K, Length>> {
    if edges == [] then []
    else
      var e := edges[|edges| - 1];
      NeighborsOf(v, edges[..|edges| - 1])
      + (if e.from == v then [Neighbor(e.to, e.weight)] else [])
      + (if e.to == v then [Neighbor(e.from, e.weight)] else [])
  }

  /** The graph after `n` points: one vertex per distinct point, in order
      of first appearance, and each vertex's list made of exactly the
      edges that touch it. */
  ghost predicate Shaped<K>(g: Graph<K>, points: seq<Point>, n: nat, name: Point -> K)
    requires n <= |points|
  {
    && g.Valid()
    && g.keys == FirstNames(points, n, name)
    && forall v :: v in g.lists ==> g.lists[v] == NeighborsOf(v, Edges(points, n, name))
  }

  lemma {:induction false} NeighborsOfUntouched<K>(v: K, edges: seq<Edge<K>>)
    requires forall k :: 0 <= k < |edges| ==> edges[k].from != v && edges[k].to != v
    ensures NeighborsOf(v, edges) == []
  {
    if edges != [] {
      NeighborsOfUntouched(v, edges[..|edges| - 1]);
    }
  }

  /** Every edge added by the first `n` points is the edge of one of
      those points that adds one: `i` is that point. */
  lemma {:induction false} EdgeSource<K>(points: seq<Point>, n: nat, name: Point -> K, k: nat) returns (i: nat)
    requires n <= |points| && k < |Edges(points, n, name)|
    ensures 0 < i < n && AddsEdge(points, i) && Edges(points, n, name)[k] == EdgeAt(points, i, name)
  {
    var prefix := Edges(points, n - 1, name);
    if k < |prefix| {
      i := EdgeSource(points, n - 1, name, k);
      assert Edges(points, n, name)[k] == prefix[k];
    } else {
      i := n - 1;
    }
  }

  /** Every point below `n` that adds an edge has its edge among the first
      `n` points' edges. */
  lemma {:induction false} EdgeIncluded<K>(points: seq<Point>, n: nat, name: Point -> K, i: nat)
    requires n <= |points| && i < n && AddsEdge(points, i)
    ensures EdgeAt(points, i, name) in Edges(points, n, name)
  {
    if i < n - 1 {
      EdgeIncluded(points, n - 1, name, i);
    }
  }

  /** Naming one more point adds its vertex name to the key order exactly
      when it is new. */
  lemma KeysStep<K>(g: Graph<K>, points: seq<Point>, n: nat, name: Point -> K)
    requires n < |points| && g.Valid()
    requires g.keys == FirstNames(points, n, name)
    ensures g.AddVertex(name(points[n])).keys == FirstNames(points, n + 1, name)
  {
    var ident := name(points[n]);
    assert ident in g.lists <==> ident in g.keys;
  }

  lemma NeighborsOfAppend<K>(v: K, edges: seq<Edge<K>>, e: Edge<K>)
    ensures NeighborsOf(v, edges + [e]) ==
      NeighborsOf(v, edges)
      + (if e.from == v then [Neighbor(e.to, e.weight)] else [])
      + (if e.to == v then [Neighbor(e.from, e.weight)] else [])
  {
    assert (edges + [e])[..|edges|] == edges;
  }

  /** `addEdge` appends to each endpoint's list what `NeighborsOf` appends
      for one more edge. */
  lemma AddEdgeNeighbors<K>(g: Graph<K>, edges: seq<Edge<K>>, e: Edge<K>)
    requires g.Valid() && e.from in g.lists && e.to in g.lists
    requires forall v :: v in g.lists ==> g.lists[v] == NeighborsOf(v, edges)
    ensures forall v :: v in g.lists ==> g.AddEdge(e.from, e.to, e.weight).lists[v] == NeighborsOf(v, edges + [e])
  {
    var r := g.AddEdge(e.from, e.to, e.weight);
    forall v | v in g.lists
      ensures r.lists[v] == NeighborsOf(v, edges + [e])
    {
      NeighborsOfAppend(v, edges, e);
      var fromPart := if e.from == v then [Neighbor(e.to, e.weight)] else [];
      var toPart := if e.to == v then [Neighbor(e.from, e.weight)] else [];
      assert r.lists[v] == g.lists[v] + fromPart + toPart;
    }
  }

  /** Every edge added by the first `n` points joins two registered
      vertices, once those points all are. */
  lemma EdgeEndpointsRegistered<K>(g: Graph<K>, points: seq<Point>, n: nat, name: Point -> K)
    requires n <= |points|
    requires forall j :: 0 <= j < n ==> name(points[j]) in g.lists
    ensures forall k :: 0 <= k < |Edges(points, n, name)| ==>
      Edges(points, n, name)[k].from in g.lists && Edges(points, n, name)[k].to in g.lists
  {
    forall k | 0 <= k < |Edges(points, n, name)|
      ensures Edges(points, n, name)[k].from in g.lists && Edges(points, n, name)[k].to in g.lists
    {
      var i := EdgeSource(points, n, name, k);
      assert name(points[i - 1]) in g.lists && name(points[i]) in g.lists;
    }
  }

  /** A new vertex has no edge yet; an old one keeps its list. */
  lemma AddVertexNeighbors<K>(g: Graph<K>, edges: seq<Edge<K>>, v: K)
    requires g.Valid()
    requires forall u :: u in g.lists ==> g.lists[u] == NeighborsOf(u, edges)
    requires forall k :: 0 <= k < |edges| ==> edges[k].from in g.lists && edges[k].to in g.lists
    ensures forall u :: u in g.AddVertex(v).lists ==> g.AddVertex(v).lists[u] == NeighborsOf(u, edges)
  {
    if v !in g.lists {
      NeighborsOfUntouched(v, edges);
    }
  }

  /** A walk that got through the first `n` points left its keys in order
      of first appearance. */
  ghost predicate KeysInOrder<K>(r: Result<Graph<K>, BuildError>, points: seq<Point>, n: nat, name: Point -> K)
    requires n <= |points|
  {
    r.Success? ==> r.value.keys == FirstNames(points, n, name)
  }

  /** Adding the vertex of point `n` and, where it applies, its edge keeps
      the key order that of first appearance. */
  lemma ProcessPointKeys<K>(g: Graph<K>, points: seq<Point>, n: nat, name: Point -> K)
    requires n < |points| && g.Valid() && (n > 0 ==> name(points[n - 1]) in g.lists)
    requires g.keys == FirstNames(points, n, name)
    ensures KeysInOrder(ProcessPoint(g, points, n, name), points, n + 1, name)
  {
    KeysStep(g, points, n, name);
  }

  /** A walk that got through the first `n` points left each vertex's list
      made of the edges that touch it. */
  ghost predicate ListsOfEdges<K>(r: Result<Graph<K>, BuildError>, points: seq<Point>, n: nat, name: Point -> K)
    requires n <= |points|
  {
    r.Success? ==> forall v :: v in r.value.lists ==> r.value.lists[v] == NeighborsOf(v, Edges(points, n, name))
  }

  /** Adding the vertex of point `n` and, where it applies, its edge keeps
      each vertex's list made of the edges that touch it. */
  lemma ProcessPointLists<K>(r: Result<Graph<K>, BuildError>, points: seq<Point>, n: nat, name: Point -> K)
    requires n < |points| && r.Success? && ListsOfEdges(r, points, n, name)
    requires r.value.Valid() && forall j :: 0 <= j < n ==> name(points[j]) in r.value.lists
    ensures ListsOfEdges(ProcessPoint(r.value, points, n, name), points, n + 1, name)
  {
    var g := r.value;
    var point := points[n];
    var withVertex := g.AddVertex(name(point));
    EdgeEndpointsRegistered(g, points, n, name);
    AddVertexNeighbors(g, Edges(points, n, name), name(point));
    if n > 0 && !point.moveTo {
      var e := EdgeAt(points, n, name);
      assert Edges(points, n + 1, name) == Edges(points, n, name) + [e];
      AddEdgeNeighbors(withVertex, Edges(points, n, name), e);
    } else {
      assert Edges(points, n + 1, name) == Edges(points, n, name);
    }
  }

  /** A walk that got through the first `i` points goes on with point `i`. */
  lemma BuildPrefixNext<K>(points: seq<Point>, i: nat, name: Point -> K)
    requires i < |points| && BuildPrefix(points, i, name).Success?
    ensures BuildPrefix(points, i + 1, name) == ProcessPoint(BuildPrefix(points, i, name).value, points, i, name)
  {
  }

  lemma KeysInOrderStep<K>(points: seq<Point>, n: nat, name: Point -> K)
    requires 0 < n <= |points| && KeysInOrder(BuildPrefix(points, n - 1, name), points, n - 1, name)
    ensures KeysInOrder(BuildPrefix(points, n, name), points, n, name)
  {
    if BuildPrefix(points, n - 1, name).Success? {
      ProcessPointKeys(BuildPrefix(points, n - 1, name).value, points, n - 1, name);
      BuildPrefixNext(points, n - 1, name);
    }
  }

  lemma ListsOfEdgesStep<K>(points: seq<Point>, n: nat, name: Point -> K)
    requires 0 < n <= |points| && ListsOfEdges(BuildPrefix(points, n - 1, name), points, n - 1, name)
    ensures ListsOfEdges(BuildPrefix(points, n, name), points, n, name)
  {
    if BuildPrefix(points, n - 1, name).Success? {
      ProcessPointLists(BuildPrefix(points, n - 1, name), points, n - 1, name);
      BuildPrefixNext(points, n - 1, name);
    }
  }

  /** Every successful prefix of the walk has its keys in order. */
  lemma {:induction false} BuildPrefixKeys<K>(points: seq<Point>, n: nat, name: Point -> K)
    requires n <= |points|
    ensures KeysInOrder(BuildPrefix(points, n, name), points, n, name)
  {
    if n > 0 {
      BuildPrefixKeys(points, n - 1, name);
      KeysInOrderStep(points, n, name);
    }
  }

  /** Every successful prefix of the walk has its lists made of its edges. */
  lemma {:induction false} BuildPrefixLists<K>(points: seq<Point>, n: nat, name: Point -> K)
    requires n <= |points|
    ensures ListsOfEdges(BuildPrefix(points, n, name), points, n, name)
  {
    if n == 0 {
      assert BuildPrefix(points, 0, name).value.lists == map[];
    } else {
      BuildPrefixLists(points, n - 1, name);
      ListsOfEdgesStep(points, n, name);
    }
  }

  /** The built graph has one vertex per distinct point, in order of first
      appearance, and each vertex's list holds exactly the edges that touch
      it. */
  lemma BuildShaped(points: seq<Point>)
    requires Build(points).Success?
    ensures Shaped(Build(points).value, points, |points|, PointIdent)
  {
    BuildPrefixKeys(points, |points|, PointIdent);
    BuildPrefixLists(points, |points|, PointIdent);
  }

  // ---------------------------------------------------------------------
  // Which points add an edge

  /** The indices that add an edge are exactly those after the first whose
      point does not start a subpath. */
  lemma {:induction false} EdgeIndicesMembers(points: seq<Point>, n: nat)
    requires n <= |points|
    ensures forall i: nat :: i in EdgeIndices(points, n) <==> i < n && AddsEdge(points, i)
  {
    if n > 0 {
      EdgeIndicesMembers(points, n - 1);
    }
  }

  /** The indices that add an edge come in increasing order. */
  lemma {:induction false} EdgeIndicesIncreasing(points: seq<Point>, n: nat)
    requires n <= |points|
    ensures forall a, b :: 0 <= a < b < |EdgeIndices(points, n)| ==> EdgeIndices(points, n)[a] < EdgeIndices(points, n)[b]
  {
    if n > 0 {
      EdgeIndicesIncreasing(points, n - 1);
      EdgeIndicesMembers(points, n - 1);
      var idx := EdgeIndices(points, n - 1);
      assert forall k :: 0 <= k < |idx| ==> idx[k] in idx;
      if AddsEdge(points, n - 1) {
        assert EdgeIndices(points, n) == idx + [n - 1];
      }
    }
  }

  /** One edge per index that adds one, in the same order: the number of
      `addEdge` calls is the number of such indices. */
  lemma {:induction false} EdgesOfIndices<K>(points: seq<Point>, n: nat, name: Point -> K)
    requires n <= |points|
    ensures |Edges(points, n, name)| == |EdgeIndices(points, n)|
    ensures forall k :: 0 <= k < |Edges(points, n, name)| ==>
      0 < EdgeIndices(points, n)[k] < |points| && Edges(points, n, name)[k] == EdgeAt(points, EdgeIndices(points, n)[k], name)
  {
    if n > 0 {
      EdgesOfIndices(points, n - 1, name);
      var es := Edges(points, n - 1, name);
      var idx := EdgeIndices(points, n - 1);
      if AddsEdge(points, n - 1) {
        assert Edges(points, n, name) == es + [EdgeAt(points, n - 1, name)];
        assert EdgeIndices(points, n) == idx + [n - 1];
      } else {
        assert Edges(points, n, name) == es;
        assert EdgeIndices(points, n) == idx;
      }
    }
  }

  /** The first point, and every point that starts a subpath, adds no edge
      from its predecessor. */
  lemma NoEdgeIntoSubpathStart(points: seq<Point>, i: nat)
    requires i < |points| && (i == 0 || points[i].moveTo)
    ensures i !in EdgeIndices(points, |points|)
  {
    EdgeIndicesMembers(points, |points|);
  }

  /** The edges of the first `n` points are exactly the edges of the
      indices below `n` that add one. */
  lemma EdgesExact<K>(points: seq<Point>, n: nat, name: Point -> K)
    requires n <= |points|
    ensures forall e :: e in Edges(points, n, name) <==> exists i :: 0 < i < n && AddsEdge(points, i) && e == EdgeAt(points, i, name)
  {
    var es := Edges(points, n, name);
    forall e | e in es
      ensures exists i :: 0 < i < n && AddsEdge(points, i) && e == EdgeAt(points, i, name)
    {
      var k :| 0 <= k < |es| && es[k] == e;
      var i := EdgeSource(points, n, name, k);
    }
    forall i | 0 < i < n && AddsEdge(points, i)
      ensures EdgeAt(points, i, name) in es
    {
      EdgeIncluded(points, n, name, i);
    }
  }

  // ---------------------------------------------------------------------
  // Adjacency

  /** Edge `e` links `a` to `b` with weight `w`, read in either direction. */
  predicate Links<K(==)>(e: Edge<K>, a: K, b: K, w: Length) {
    e.weight == w && ((e.from == a && e.to == b) || (e.from == b && e.to == a))
  }

  /** `b` is listed with weight `w` among the neighbours of `a` exactly when
      some edge links them with that weight. */
  lemma {:induction false} NeighborsOfMember<K>(a: K, b: K, w: Length, edges: seq<Edge<K>>)
    ensures Neighbor(b, w) in NeighborsOf(a, edges) <==> exists e :: e in edges && Links(e, a, b, w)
  {
    if edges != [] {
      var init := edges[..|edges| - 1];
      var last := edges[|edges| - 1];
      NeighborsOfMember(a, b, w, init);
      var fromLast := if last.from == a then [Neighbor(last.to, last.weight)] else [];
      var toLast := if last.to == a then [Neighbor(last.from, last.weight)] else [];
      assert NeighborsOf(a, edges) == NeighborsOf(a, init) + fromLast + toLast;
      assert Neighbor(b, w) in fromLast + toLast <==> Links(last, a, b, w);
      assert edges == init + [last];
      LinksOfSnoc(init, last, a, b, w);
    }
  }

  /** Some edge of `init + [last]` links `a` and `b` exactly when some edge
      of `init` does or `last` does. */
  lemma LinksOfSnoc<K>(init: seq<Edge<K>>, last: Edge<K>, a: K, b: K, w: Length)
    ensures (exists e :: e in init + [last] && Links(e, a, b, w))
      <==> (exists e :: e in init && Links(e, a, b, w)) || Links(last, a, b, w)
  {
    if exists e :: e in init + [last] && Links(e, a, b, w) {
      var e :| e in init + [last] && Links(e, a, b, w);
      assert e in init || e == last;
    }
    if Links(last, a, b, w) {
      assert last in init + [last];
    }
  }

  /** The consecutive points at indices `i - 1` and `i` link `a` and `b`
      with weight `w`: point `i` adds an edge, and its ends are named `a`
      and `b`. */
  predicate Joins<K(==)>(points: seq<Point>, i: nat, name: Point -> K, a: K, b: K, w: Length) {
    AddsEdge(points, i) && Links(EdgeAt(points, i, name), a, b, w)
  }

  /** Some edge of the walk links `a` and `b` with weight `w` exactly when
      two consecutive points of one subpath do. */
  lemma EdgesLinkExactly<K>(points: seq<Point>, name: Point -> K, a: K, b: K, w: Length)
    ensures (exists e :: e in Edges(points, |points|, name) && Links(e, a, b, w))
            <==> exists i :: 0 < i < |points| && Joins(points, i, name, a, b, w)
  {
    var edges := Edges(points, |points|, name);
    if exists i :: 0 < i < |points| && Joins(points, i, name, a, b, w) {
      var i :| 0 < i < |points| && Joins(points, i, name, a, b, w);
      EdgeIncluded(points, |points|, name, i);
      assert EdgeAt(points, i, name) in edges && Links(EdgeAt(points, i, name), a, b, w);
    }
    if exists e :: e in edges && Links(e, a, b, w) {
      var e :| e in edges && Links(e, a, b, w);
      var k :| 0 <= k < |edges| && edges[k] == e;
      var i := EdgeSource(points, |points|, name, k);
      assert Joins(points, i, name, a, b, w);
    }
  }

  /** The list of a vertex of a shaped graph. */
  lemma ShapedList<K>(g: Graph<K>, points: seq<Point>, n: nat, name: Point -> K, a: K)
    requires n <= |points| && Shaped(g, points, n, name) && a in g.lists
    ensures g.lists[a] == NeighborsOf(a, Edges(points, n, name))
  {
  }

  /** In the built graph, `b` is a neighbour of `a` with weight `w` exactly
      when two consecutive points of one subpath sit at `a` and `b` and are
      `w` apart. */
  lemma BuildAdjacency(points: seq<Point>, a: string, b: string, w: Length)
    requires Build(points).Success? && a in Build(points).value.lists
    ensures Neighbor(b, w) in Build(points).value.lists[a] <==> exists i :: 0 < i < |points| && Joins(points, i, PointIdent, a, b, w)
  {
    BuildShaped(points);
    ShapedList(Build(points).value, points, |points|, PointIdent, a);
    NeighborsOfMember(a, b, w, Edges(points, |points|, PointIdent));
    EdgesLinkExactly(points, PointIdent, a, b, w);
  }

  /** An edge that links `a` to `b` links `b` to `a`, and has both among
      the vertices. */
  lemma LinkedEndpoints<K>(g: Graph<K>, points: seq<Point>, name: Point -> K, a: K, b: K, w: Length)
    requires forall j :: 0 <= j < |points| ==> name(points[j]) in g.lists
    requires exists e :: e in Edges(points, |points|, name) && Links(e, a, b, w)
    ensures b in g.lists
    ensures exists e :: e in Edges(points, |points|, name) && Links(e, b, a, w)
  {
    var edges := Edges(points, |points|, name);
    var e :| e in edges && Links(e, a, b, w);
    var k :| 0 <= k < |edges| && edges[k] == e;
    var i := EdgeSource(points, |points|, name, k);
    assert name(points[i - 1]) in g.lists && name(points[i]) in g.lists;
    assert Links(e, b, a, w);
  }

  /** Every listed neighbour is itself a vertex, and lists it back with the
      same weight: the graph is undirected. */
  lemma BuildUndirected(points: seq<Point>, a: string, b: string, w: Length)
    requires Build(points).Success? && a in Build(points).value.lists
    requires Neighbor(b, w) in Build(points).value.lists[a]
    ensures b in Build(points).value.lists
    ensures Neighbor(a, w) in Build(points).value.lists[b]
  {
    var g := Build(points).value;
    var edges := Edges(points, |points|, PointIdent);
    BuildShaped(points);
    ShapedList(g, points, |points|, PointIdent, a);
    NeighborsOfMember(a, b, w, edges);
    LinkedEndpoints(g, points, PointIdent, a, b, w);
    ShapedList(g, points, |points|, PointIdent, b);
    NeighborsOfMember(b, a, w, edges);
  }

  /** The vertex names of a successful build are exactly the names of its
      points. */
  lemma BuildVertices(points: seq<Point>, v: string)
    requires Build(points).Success?
    ensures v in Build(points).value.lists <==> exists i :: 0 <= i < |points| && v == PointIdent(points[i])
  {
    BuildShaped(points);
    assert v in Build(points).value.lists <==> v in Build(points).value.keys;
    FirstNamesMembers(points, |points|, PointIdent, v);
  }

  // ---------------------------------------------------------------------
  // Control points

  /** Two runs of points with the same end coordinates, move flags and curve
      acceptance, whatever their control points. */
  predicate SameOutline(p: seq<Point>, q: seq<Point>) {
    && |p| == |q|
    && forall i :: 0 <= i < |p| ==>
         p[i].x == q[i].x && p[i].y == q[i].y && p[i].moveTo == q[i].moveTo
         && CurveSupported(p[i]) == CurveSupported(q[i])
  }

  /** Points with the same end coordinates have the same name and the same
      distance to any other. */
  lemma SameEnds(p: Point, q: Point, p1: Point, q1: Point)
    requires p.x == q.x && p.y == q.y && p1.x == q1.x && p1.y == q1.y
    ensures PointIdent(p) == PointIdent(q)
    ensures Weight(p, p1) == Weight(q, q1)
  {
    assert [p.x, p.y] == [q.x, q.y];
  }

  /** One step of the walk over two runs with the same outline, each under
      a naming that gives corresponding points the same name. */
  lemma ProcessPointIgnoresControlPoints<K>(g: Graph<K>, p: seq<Point>, q: seq<Point>, i: nat, name: Point -> K)
    requires SameOutline(p, q) && i < |p| && g.Valid()
    requires forall j :: 0 <= j < |p| ==> name(p[j]) == name(q[j])
    requires i > 0 ==> name(p[i - 1]) in g.lists
    requires i > 0 ==> Weight(p[i - 1], p[i]) == Weight(q[i - 1], q[i])
    ensures ProcessPoint(g, p, i, name) == ProcessPoint(g, q, i, name)
  {
  }

  lemma {:induction false} BuildPrefixIgnoresControlPoints(p: seq<Point>, q: seq<Point>, n: nat)
    requires SameOutline(p, q) && n <= |p|
    ensures BuildPrefix(p, n, PointIdent) == BuildPrefix(q, n, PointIdent)
  {
    if n > 0 {
      BuildPrefixIgnoresControlPoints(p, q, n - 1);
      var prefix := BuildPrefix(p, n - 1, PointIdent);
      if prefix.Success? {
        forall j | 0 <= j < |p|
          ensures PointIdent(p[j]) == PointIdent(q[j])
        {
          SameEnds(p[j], q[j], p[j], q[j]);
        }
        if n > 1 {
          SameEnds(p[n - 2], q[n - 2], p[n - 1], q[n - 1]);
        }
        ProcessPointIgnoresControlPoints(prefix.value, p, q, n - 1, PointIdent);
      }
    }
  }

  /** A cubic point contributes only its end point: its control points
      change neither the vertices nor the edges nor their weights. */
  lemma BuildIgnoresControlPoints(p: seq<Point>, q: seq<Point>)
    requires SameOutline(p, q)
    ensures Build(p) == Build(q)
  {
    BuildPrefixIgnoresControlPoints(p, q, |p|);
  }

  /** A walk over one accepted point: one vertex, with an empty list. */
  lemma OnePointWalk<K>(points: seq<Point>, name: Point -> K)
    requires |points| > 0 && CurveSupported(points[0])
    ensures BuildPrefix(points, 1, name).Success?
    ensures var g := BuildPrefix(points, 1, name).value;
      g.keys == [name(points[0])] && g.lists[name(points[0])] == []
  {
    BuildPrefixNext(points, 0, name);
  }

  /** A walk over a start point and one point joined to it: two vertices,
      each listing the other once. */
  lemma TwoPointWalk<K>(points: seq<Point>, name: Point -> K)
    requires |points| == 2 && CurveSupported(points[0]) && CurveSupported(points[1]) && !points[1].moveTo
    requires name(points[0]) != name(points[1])
    ensures BuildPrefix(points, 2, name).Success?
    ensures var g := BuildPrefix(points, 2, name).value;
      var a := name(points[0]);
      var b := name(points[1]);
      && g.keys == [a, b]
      && g.lists[a] == [Neighbor(b, Weight(points[0], points[1]))]
      && g.lists[b] == [Neighbor(a, Weight(points[0], points[1]))]
  {
    OnePointWalk(points, name);
    BuildPrefixNext(points, 1, name);
    SecondPoint(BuildPrefix(points, 1, name).value, points, name);
  }

  /** The second point, joined to the first, on the graph of the first
      alone. */
  lemma SecondPoint<K>(g: Graph<K>, points: seq<Point>, name: Point -> K)
    requires |points| == 2 && CurveSupported(points[1]) && !points[1].moveTo
    requires name(points[0]) != name(points[1])
    requires g.Valid() && g.keys == [name(points[0])] && g.lists[name(points[0])] == []
    ensures ProcessPoint(g, points, 1, name).Success?
    ensures var r := ProcessPoint(g, points, 1, name).value;
      var a := name(points[0]);
      var b := name(points[1]);
      && r.keys == [a, b]
      && r.lists[a] == [Neighbor(b, Weight(points[0], points[1]))]
      && r.lists[b] == [Neighbor(a, Weight(points[0], points[1]))]
  {
    var b := name(points[1]);
    assert b !in g.lists by {
      assert b !in g.keys;
    }
  }

  lemma SmallNames(zero: Number, three: Number, four: Number)
    requires zero == Decimal(false, [0], []) && three == Decimal(false, [3], []) && four == Decimal(false, [4], [])
    ensures ToIdent([zero, zero]) == "[0,0]" && ToIdent([three, four]) == "[3,4]"
  {
    assert NumberToString(zero) == "0";
    assert NumberToString(three) == "3";
    assert NumberToString(four) == "4";
    assert [zero, zero][1..] == [zero] && [three, four][1..] == [four];
    assert JoinNumbers([zero, zero]) == "0,0";
    assert JoinNumbers([three, four]) == "3,4";
  }

  lemma SmallDistance(zero: Number, three: Number, four: Number)
    requires zero == Decimal(false, [0], []) && three == Decimal(false, [3], []) && four == Decimal(false, [4], [])
    ensures GetDistance(Value(zero), Value(zero), Value(three), Value(four)) == Root(25.0)
  {
    assert Value(three) == 3.0 && Value(four) == 4.0 && Value(zero) == 0.0;
  }

  /** A subpath of one cubic segment from (0, 0) to (3, 4): two vertices,
      named by their JSON text, joined by one edge of length 5 in each
      direction; its control points play no part. */
  lemma OneCubicSegment()
    ensures var zero: Number := Decimal(false, [0], []);
      var three: Number := Decimal(false, [3], []);
      var four: Number := Decimal(false, [4], []);
      var points := [Point(zero, zero, true, None), Point(three, four, false, Some(Cubic(zero, four, three, zero)))];
      && Build(points).Success?
      && Build(points).value.keys == ["[0,0]", "[3,4]"]
      && "[0,0]" in Build(points).value.lists && "[3,4]" in Build(points).value.lists
      && Build(points).value.lists["[0,0]"] == [Neighbor("[3,4]", Root(25.0))]
      && Build(points).value.lists["[3,4]"] == [Neighbor("[0,0]", Root(25.0))]
  {
    var zero: Number := Decimal(false, [0], []);
    var three: Number := Decimal(false, [3], []);
    var four: Number := Decimal(false, [4], []);
    var points := [Point(zero, zero, true, None), Point(three, four, false, Some(Cubic(zero, four, three, zero)))];
    SmallNames(zero, three, four);
    assert "[0,0]"[1] != "[3,4]"[1];
    TwoPointWalk(points, PointIdent);
    SmallDistance(zero, three, four);
  }

  // ---------------------------------------------------------------------
  // pointsArrayToGraph

  /** `pointsArrayToGraph`: a fresh calculator, grown point by point; the
      first unsupported curve aborts the walk. */
  method PointsArrayToGraph(points: seq<Point>) returns (r: Result<DijkstraCalculator<Length>, BuildError>)
    ensures r.Success? <==> Build(points).Success?
    ensures r.Success? ==> fresh(r.value) && r.value.Valid() && r.value.adjacencyList == Build(points).value
  {
    var graph := new DijkstraCalculator<Length>();
    for i := 0 to |points|
      invariant graph.Valid()
      invariant BuildPrefix(points, i, PointIdent) == Success(graph.adjacencyList)
    {
      ghost var before := graph.adjacencyList;
      var point := points[i];
      if point.curve.Some? && !point.curve.value.Cubic? {
        assert !CurveSupported(points[i]);
        return Failure(UnsupportedCurve);
      }
      var coords := [point.x, point.y];
      var ident := ToIdent(coords);
      graph.AddVertex(ident);
      if i > 0 && !point.moveTo {
        var previousPoint := points[i - 1];
        var previousIdent := ToIdent([previousPoint.x, previousPoint.y]);
        graph.AddEdge(previousIdent, ident,
          GetDistance(Value(previousPoint.x), Value(previousPoint.y), Value(point.x), Value(point.y)));
      }
      assert ProcessPoint(before, points, i, PointIdent) == Success(graph.adjacencyList);
      BuildPrefixStep(points, i, before, PointIdent);
    }
    return Success(graph);
  }
}
