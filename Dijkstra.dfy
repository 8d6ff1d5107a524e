/** The part of the `dijkstra-calculator` library's `DijkstraCalculator`
    class that the road tools use: its `adjacencyList` and the two
    operations that grow it, `addVertex` and `addEdge`. The library itself
    is not part of this model; its behaviour is taken as follows.

    - The adjacency list is a JavaScript object from vertex identifier to
      the list of `{id, weight}` neighbour entries, whose keys keep their
      insertion order (vertex identifiers are never array-index-like
      strings, so `Object.keys` lists them in the order they were added).
    - `addVertex(v)` creates an empty list for `v` unless `v` is already a
      key, and changes nothing else.
    - `addEdge(a, b, w)` appends `{id: b, weight: w}` to the list of `a`,
      then `{id: a, weight: w}` to the list of `b`: the graph is undirected.
      Both vertices must already be keys; otherwise the push runs on
      `undefined` and throws. */
module Dijkstra {

  datatype Neighbor<K, W> = Neighbor(id: K, weight: W)

  /** No two positions of `s` hold the same key. */
  predicate Distinct<K(==)>(s: seq<K>) {
    forall i, j :: 0 <= i < j < |s| ==> s[i] != s[j]
  }

  /** An adjacency list: `keys` is the key order of the object, `lists`
      its entries. */
  datatype AdjacencyList<K(==), W> = AdjacencyList(keys: seq<K>, lists: map<K, seq<Neighbor<K, W>>>)
  {
    /** The keys are distinct and are exactly the map's keys. */
    predicate Valid() {
      && Distinct(keys)
      && lists.Keys == set v | v in keys
    }

    /** `addVertex(v)`. */
    function AddVertex(v: K): (r: AdjacencyList<K, W>)
      requires Valid()
      ensures r.Valid()
      ensures v in r.lists
      ensures r.keys == if v in lists then keys else keys + [v]
      ensures v !in lists ==> r.lists[v] == []
      ensures forall u :: u in lists ==> u in r.lists && r.lists[u] == lists[u]
    {
      if v in lists then this
      else
        assert (keys + [v])[..|keys|] == keys;
        AdjacencyList(keys + [v], lists[v := []])
    }

    /** `addEdge(a, b, weight)`. */
    function AddEdge(a: K, b: K, weight: W): (r: AdjacencyList<K, W>)
      requires Valid() && a in lists && b in lists
      ensures r.Valid() && r.keys == keys && r.lists.Keys == lists.Keys
      ensures forall v :: v in lists ==>
        r.lists[v] == lists[v] + (if v == a then [Neighbor(b, weight)] else []) + (if v == b then [Neighbor(a, weight)] else [])
    {
      var afterA := lists[a := lists[a] + [Neighbor(b, weight)]];
      AdjacencyList(keys, afterA[b := afterA[b] + [Neighbor(a, weight)]])
    }
  }

  function EmptyAdjacencyList<K(==), W>(): (r: AdjacencyList<K, W>)
    ensures r.Valid() && r.keys == [] && r.lists == map[]
  {
    AdjacencyList([], map[])
  }

  /** A `DijkstraCalculator` object, seen through its adjacency list. */
  class DijkstraCalculator<W> {
    var adjacencyList: AdjacencyList<string, W>

    predicate Valid()
      reads this
    {
      adjacencyList.Valid()
    }

    constructor ()
      ensures Valid() && adjacencyList == EmptyAdjacencyList()
    {
      adjacencyList := EmptyAdjacencyList();
    }

    method AddVertex(v: string)
      requires Valid()
      modifies this
      ensures Valid()
      ensures adjacencyList == old(adjacencyList).AddVertex(v)
    {
      adjacencyList := adjacencyList.AddVertex(v);
    }

    method AddEdge(a: string, b: string, weight: W)
      requires Valid() && a in adjacencyList.lists && b in adjacencyList.lists
      modifies this
      ensures Valid()
      ensures adjacencyList == old(adjacencyList).AddEdge(a, b, weight)
    {
      adjacencyList := adjacencyList.AddEdge(a, b, weight);
    }
  }
}
