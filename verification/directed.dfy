/** Edge editing for directed graphs (src/graph/directed.rs): only the source
    vertex's list is written. */
module Directed {
  import opened Results
  import opened Edges
  import Vertices
  import opened Graphs

  /** The error both operations return when an endpoint is missing. */
  const Failure := "failure"

  /** `insert_edge` on a directed graph. */
  function InsertEdge<V>(g: Graph<V>, from: Key, to: Key, weight: i64): (r: (Graph<V>, Result<Option<Edge>>))
    requires g.kind == Graphs.Directed
    ensures r.1.Err? <==> !Contains(g, from) || !Contains(g, to)
    ensures r.1.Err? ==> r.0 == g && r.1.error == Failure
    ensures r.0.kind == g.kind && r.0.vertices.Keys == g.vertices.Keys
    ensures forall k :: k != from ==> GetVertex(r.0, k) == GetVertex(g, k)
    ensures r.1.Ok? ==> (r.0.vertices[from].key == g.vertices[from].key
                         && r.0.vertices[from].value == g.vertices[from].value
                         && Vertices.GetEdge(r.0.vertices[from], to).Some?)
  {
    if !Contains(g, from) || !Contains(g, to) then (g, Err(Failure))
    else
      var (v, prev) := Vertices.InsertEdge(g.vertices[from], to, weight);
      assert v.adj[|v.adj| - 1].to == to;
      (g.(vertices := g.vertices[from := v]), Ok(prev))
  }

  /** `insert_edge_unweighted`: weight zero. */
  function InsertEdgeUnweighted<V>(g: Graph<V>, from: Key, to: Key): (r: (Graph<V>, Result<Option<Edge>>))
    requires g.kind == Graphs.Directed
    ensures r == InsertEdge(g, from, to, 0)
  {
    InsertEdge(g, from, to, 0)
  }

  /** `remove_edge` on a directed graph. */
  function RemoveEdge<V>(g: Graph<V>, from: Key, to: Key): (r: (Graph<V>, Result<Option<Edge>>))
    requires g.kind == Graphs.Directed
    ensures r.1.Err? <==> !Contains(g, from) || !Contains(g, to)
    ensures r.1.Err? ==> r.0 == g && r.1.error == Failure
    ensures r.1.Ok? ==> r.1.value == GetEdge(g, from, to)
    ensures r.1 == Ok(None) ==> r.0 == g
    ensures r.0.kind == g.kind && r.0.vertices.Keys == g.vertices.Keys
    ensures forall k :: k != from ==> GetVertex(r.0, k) == GetVertex(g, k)
    ensures r.1.Ok? ==> (r.0.vertices[from].key == g.vertices[from].key
                         && r.0.vertices[from].value == g.vertices[from].value)
  {
    if !Contains(g, from) || !Contains(g, to) then (g, Err(Failure))
    else
      var (v, removed) := Vertices.RemoveEdge(g.vertices[from], to);
      (g.(vertices := g.vertices[from := v]), Ok(removed))
  }

  /** On a valid graph a successful insertion returns the edge `get_edge` saw
      before (so `None` the first time a pair is inserted), afterwards
      `get_edge` sees the new edge, every other lookup is unchanged, and the
      graph stays valid. */
  lemma InsertEdgeSpec<V>(g: Graph<V>, from: Key, to: Key, w: i64, t: Key)
    requires g.kind == Graphs.Directed && Valid(g)
    requires Contains(g, from) && Contains(g, to)
    ensures InsertEdge(g, from, to, w).1 == Ok(GetEdge(g, from, to))
    ensures GetEdge(InsertEdge(g, from, to, w).0, from, to) == Some(Edge(from, to, w))
    ensures t != to ==> GetEdge(InsertEdge(g, from, to, w).0, from, t) == GetEdge(g, from, t)
    ensures Valid(InsertEdge(g, from, to, w).0)
  {
    var v := g.vertices[from];
    Vertices.InsertReturnsOldEdge(v, to, w);
    Vertices.InsertKeepsValid(v, to, w);
    Vertices.GetAfterInsert(v, to, w, to);
    Vertices.GetAfterInsert(v, to, w, t);
  }

  /** The whole `get_edge` table after a successful insertion: the pair gets
      the new edge and no other lookup, from any vertex, moves. */
  lemma InsertEdgeLookups<V>(g: Graph<V>, from: Key, to: Key, w: i64)
    requires g.kind == Graphs.Directed && Valid(g)
    requires Contains(g, from) && Contains(g, to)
    ensures forall a, b :: GetEdge(InsertEdge(g, from, to, w).0, a, b)
                           == if a == from && b == to then Some(Edge(from, to, w)) else GetEdge(g, a, b)
  {
    var h := InsertEdge(g, from, to, w).0;
    forall a, b
      ensures GetEdge(h, a, b) == if a == from && b == to then Some(Edge(from, to, w)) else GetEdge(g, a, b)
    {
      if a == from {
        InsertEdgeSpec(g, from, to, w, b);
      } else {
        assert GetVertex(h, a) == GetVertex(g, a);
      }
    }
  }

  /** Inserting the same pair twice: the second call returns the first call's edge. */
  lemma InsertTwice<V>(g: Graph<V>, from: Key, to: Key, w1: i64, w2: i64)
    requires g.kind == Graphs.Directed && Valid(g)
    requires Contains(g, from) && Contains(g, to)
    ensures InsertEdge(InsertEdge(g, from, to, w1).0, from, to, w2).1 == Ok(Some(Edge(from, to, w1)))
  {
    InsertEdgeSpec(g, from, to, w1, to);
    var g1 := InsertEdge(g, from, to, w1).0;
    InsertEdgeSpec(g1, from, to, w2, to);
  }

  /** On a valid graph removal leaves no edge `from -> to`, every other lookup
      is unchanged, and the graph stays valid. */
  lemma RemoveEdgeSpec<V>(g: Graph<V>, from: Key, to: Key, t: Key)
    requires g.kind == Graphs.Directed && Valid(g)
    requires Contains(g, from) && Contains(g, to)
    ensures GetEdge(RemoveEdge(g, from, to).0, from, to) == None
    ensures t != to ==> GetEdge(RemoveEdge(g, from, to).0, from, t) == GetEdge(g, from, t)
    ensures Valid(RemoveEdge(g, from, to).0)
  {
    var v := g.vertices[from];
    Vertices.RemoveKeepsValid(v, to);
    Vertices.GetAfterRemove(v, to, to);
    Vertices.GetAfterRemove(v, to, t);
  }

  /** The whole `get_edge` table after a successful removal: the pair is
      gone and no other lookup moves. */
  lemma RemoveEdgeLookups<V>(g: Graph<V>, from: Key, to: Key)
    requires g.kind == Graphs.Directed && Valid(g)
    requires Contains(g, from) && Contains(g, to)
    ensures forall a, b :: GetEdge(RemoveEdge(g, from, to).0, a, b)
                           == if a == from && b == to then None else GetEdge(g, a, b)
  {
    var h := RemoveEdge(g, from, to).0;
    forall a, b
      ensures GetEdge(h, a, b) == if a == from && b == to then None else GetEdge(g, a, b)
    {
      if a == from {
        RemoveEdgeSpec(g, from, to, b);
      } else {
        assert GetVertex(h, a) == GetVertex(g, a);
      }
    }
  }

  /** Removing right after inserting hands back the inserted edge. */
  lemma RemoveAfterInsert<V>(g: Graph<V>, from: Key, to: Key, w: i64)
    requires g.kind == Graphs.Directed && Valid(g)
    requires Contains(g, from) && Contains(g, to)
    ensures RemoveEdge(InsertEdge(g, from, to, w).0, from, to).1 == Ok(Some(Edge(from, to, w)))
  {
    InsertEdgeSpec(g, from, to, w, to);
  }
}
