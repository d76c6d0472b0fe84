/** The graph container (src/graph/mod.rs): a map from key to vertex, tagged
    once and for all as directed or undirected. Rust's in-place mutation
    through `&mut self` becomes a function returning the new graph together
    with the method's return value. */
module Graphs {
  import opened Results
  import opened Edges
  import Vertices

  /** The `GraphType` marker (src/marker.rs), fixed when the graph is built. */
  datatype Kind = Directed | Undirected

  datatype Graph<V> = Graph(kind: Kind, vertices: map<Key, Vertices.Vertex<V>>)

  /** What every graph built through the public API satisfies: each vertex is
      stored under its own key, owns its edges and has one edge per target. */
  predicate Valid<V>(g: Graph<V>) {
    forall k | k in g.vertices :: g.vertices[k].key == k && Vertices.Valid(g.vertices[k])
  }

  /** `Graph::new` (and `Default`, `with_capacity`): no vertices. */
  function New<V>(kind: Kind): (g: Graph<V>)
    ensures g.kind == kind && |g.vertices| == 0
    ensures Valid(g)
  {
    Graph(kind, map[])
  }

  /** `contains`: whether a vertex is stored under `key`. */
  predicate Contains<V>(g: Graph<V>, key: Key) {
    key in g.vertices
  }

  /** `Graph::get_vertex`. */
  function GetVertex<V>(g: Graph<V>, key: Key): (r: Option<Vertices.Vertex<V>>)
    ensures r.Some? <==> Contains(g, key)
    ensures r.Some? ==> r.value == g.vertices[key]
  {
    if key in g.vertices then Some(g.vertices[key]) else None
  }

  /** `Graph::get`: the value of the vertex under `key`. */
  function Get<V>(g: Graph<V>, key: Key): (r: Option<V>)
    ensures r.Some? <==> Contains(g, key)
    ensures r.Some? ==> r.value == g.vertices[key].value
  {
    match GetVertex(g, key)
    case None => None
    case Some(v) => Some(v.value)
  }

  /** `Graph::insert_vertex`: the map is keyed by the vertex's own key; a vertex
      already stored there is replaced and returned. */
  function InsertVertex<V>(g: Graph<V>, v: Vertices.Vertex<V>): (r: (Graph<V>, Option<Vertices.Vertex<V>>))
    ensures r.1 == GetVertex(g, v.key)
    ensures GetVertex(r.0, v.key) == Some(v)
    ensures forall k :: k != v.key ==> GetVertex(r.0, k) == GetVertex(g, k)
    ensures r.0.vertices.Keys == g.vertices.Keys + {v.key}
    ensures r.0.kind == g.kind
    ensures Valid(g) && Vertices.Valid(v) ==> Valid(r.0)
  {
    (g.(vertices := g.vertices[v.key := v]), GetVertex(g, v.key))
  }

  /** `Graph::insert`: stores a fresh vertex (no edges) and returns the value it displaced. */
  function Insert<V>(g: Graph<V>, key: Key, value: V): (r: (Graph<V>, Option<V>))
    ensures r.1 == Get(g, key)
    ensures GetVertex(r.0, key) == Some(Vertices.Vertex(key, value, []))
    ensures forall k :: k != key ==> GetVertex(r.0, k) == GetVertex(g, k)
    ensures r.0.vertices.Keys == g.vertices.Keys + {key}
    ensures r.0.kind == g.kind
    ensures Valid(g) ==> Valid(r.0)
  {
    var (g', prev) := InsertVertex(g, Vertices.New(key, value));
    (g', match prev case None => None case Some(v) => Some(v.value))
  }

  /** `Graph::remove_vertex`: deletes the entry under `key` only; edges stored in
      other vertices that point at `key` stay where they are. */
  function RemoveVertex<V>(g: Graph<V>, key: Key): (r: (Graph<V>, Option<Vertices.Vertex<V>>))
    ensures r.1 == GetVertex(g, key)
    ensures !Contains(r.0, key)
    ensures forall k :: k != key ==> GetVertex(r.0, k) == GetVertex(g, k)
    ensures r.0.vertices.Keys == g.vertices.Keys - {key}
    ensures r.0.kind == g.kind
    ensures Valid(g) ==> Valid(r.0)
  {
    (g.(vertices := g.vertices - {key}), GetVertex(g, key))
  }

  /** `Graph::remove`: the removed vertex's value. */
  function Remove<V>(g: Graph<V>, key: Key): (r: (Graph<V>, Option<V>))
    ensures r.1 == Get(g, key)
    ensures !Contains(r.0, key)
    ensures forall k :: k != key ==> GetVertex(r.0, k) == GetVertex(g, k)
    ensures r.0.vertices.Keys == g.vertices.Keys - {key}
    ensures r.0.kind == g.kind
    ensures Valid(g) ==> Valid(r.0)
  {
    var (g', prev) := RemoveVertex(g, key);
    (g', match prev case None => None case Some(v) => Some(v.value))
  }

  /** `Graph::get_edge`: looks on `from`'s list only. */
  function GetEdge<V>(g: Graph<V>, from: Key, to: Key): (r: Option<Edge>)
    ensures !Contains(g, from) ==> r.None?
    ensures Contains(g, from) ==> r == Vertices.GetEdge(g.vertices[from], to)
    ensures r.Some? ==> r.value.to == to && r.value in g.vertices[from].adj
  {
    match GetVertex(g, from)
    case None => None
    case Some(v) => Vertices.GetEdge(v, to)
  }

  /** `Graph::len`. */
  function Len<V>(g: Graph<V>): nat {
    |g.vertices|
  }

  /** `Graph::is_empty`. */
  function IsEmpty<V>(g: Graph<V>): (r: bool)
    ensures r <==> Len(g) == 0
    ensures r <==> forall k :: !Contains(g, k)
  {
    if |g.vertices| == 0 then true
    else
      var k :| k in g.vertices;
      assert Contains(g, k);
      false
  }

  /** `Graph::clear`: every vertex goes; the kind stays. */
  function Clear<V>(g: Graph<V>): (r: Graph<V>)
    ensures r.kind == g.kind
    ensures IsEmpty(r) && Valid(r)
  {
    g.(vertices := map[])
  }

  /** `len` counts keys: inserting a new key adds one, replacing adds nothing,
      and removing a present key takes one away. */
  lemma LenCountsKeys<V>(g: Graph<V>, key: Key, value: V)
    ensures Len(Insert(g, key, value).0) == if Contains(g, key) then Len(g) else Len(g) + 1
    ensures Len(Remove(g, key).0) == if Contains(g, key) then Len(g) - 1 else Len(g)
  {
    var ks := g.vertices.Keys;
    assert Insert(g, key, value).0.vertices.Keys == ks + {key};
    assert Remove(g, key).0.vertices.Keys == ks - {key};
    if key in ks {
      assert ks + {key} == ks;
      assert |ks - {key}| == |ks| - 1;
    } else {
      assert ks - {key} == ks;
    }
  }

  /** A second `remove` of the same key finds nothing. */
  lemma RemoveTwice<V>(g: Graph<V>, key: Key)
    ensures Remove(Remove(g, key).0, key).1 == None
    ensures Remove(Remove(g, key).0, key).0 == Remove(g, key).0
  {
  }

  /** `remove` leaves dangling edges: every other vertex's lookup of an edge to
      the removed key answers as before. */
  lemma RemoveKeepsEdgesToKey<V>(g: Graph<V>, key: Key, from: Key)
    requires from != key
    ensures GetEdge(Remove(g, key).0, from, key) == GetEdge(g, from, key)
  {
    assert GetVertex(Remove(g, key).0, from) == GetVertex(g, from);
  }
}
