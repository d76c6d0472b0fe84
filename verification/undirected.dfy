/** Edge editing for undirected graphs (src/graph/undirected.rs): one logical
    edge is stored as two mirrored directed edges, one on each endpoint. */
module Undirected {
  import opened Results
  import opened Edges
  import Vertices
  import opened Graphs

  const Failure := "failure"

  /** The message of the `panic!` raised when only one side reported an old edge. */
  const Unpaired := "undirected graph must contain edges in both directions or contain none"

  /** The weight of the edge `a -> b` as `get_edge` sees it, if there is one. */
  function Weight<V>(g: Graph<V>, a: Key, b: Key): (r: Option<i64>)
    ensures r.Some? <==> GetEdge(g, a, b).Some?
  {
    match GetEdge(g, a, b)
    case None => None
    case Some(e) => Some(e.weight)
  }

  /** The pairing invariant: `a -> b` exists exactly when `b -> a` does, with the same weight. */
  ghost predicate Paired<V>(g: Graph<V>) {
    forall a, b :: Weight(g, a, b) == Weight(g, b, a)
  }

  /** `insert_edge` on an undirected graph: writes `from -> to` into `from`'s
      list, then `to -> from` into `to`'s, and compares what the two writes replaced. */
  function InsertEdge<V>(g: Graph<V>, from: Key, to: Key, weight: i64): (r: Run<(Graph<V>, Result<Option<Edge>>)>)
    requires g.kind == Graphs.Undirected
    ensures !Contains(g, from) || !Contains(g, to) ==> r == Done((g, Err(Failure)))
    ensures r.Panicked? ==> r.reason == Unpaired
    ensures r.Done? ==> r.value.0.kind == g.kind && r.value.0.vertices.Keys == g.vertices.Keys
    ensures r.Done? ==> forall k :: k != from && k != to ==> GetVertex(r.value.0, k) == GetVertex(g, k)
    ensures r.Done? && r.value.1.Ok? ==> GetEdge(r.value.0, from, to).Some? && GetEdge(r.value.0, to, from).Some?
  {
    if !Contains(g, from) || !Contains(g, to) then Done((g, Err(Failure)))
    else
      var (v1, removed1) := Vertices.InsertEdge(g.vertices[from], to, weight);
      var g1 := g.(vertices := g.vertices[from := v1]);
      var (v2, removed2) := Vertices.InsertEdge(g1.vertices[to], from, weight);
      var g2 := g1.(vertices := g1.vertices[to := v2]);
      assert v2.adj[|v2.adj| - 1].to == from;
      assert from != to ==> g2.vertices[from] == v1 && v1.adj[|v1.adj| - 1].to == to;
      if removed1.None? && removed2.None? then Done((g2, Ok(None)))
      else if removed1.Some? && removed2.Some? then Done((g2, Ok(removed1)))
      else Panicked(Unpaired)
  }

  /** `insert_edge_unweighted`: weight zero. */
  function InsertEdgeUnweighted<V>(g: Graph<V>, from: Key, to: Key): (r: Run<(Graph<V>, Result<Option<Edge>>)>)
    requires g.kind == Graphs.Undirected
    ensures r == InsertEdge(g, from, to, 0)
  {
    InsertEdge(g, from, to, 0)
  }

  /** `remove_edge` on an undirected graph: drops `to -> from` from `to`'s list,
      then `from -> to` from `from`'s list, and returns the latter. */
  function RemoveEdge<V>(g: Graph<V>, from: Key, to: Key): (r: (Graph<V>, Result<Option<Edge>>))
    requires g.kind == Graphs.Undirected
    ensures r.1.Err? <==> !Contains(g, from) || !Contains(g, to)
    ensures r.1.Err? ==> r.0 == g && r.1.error == Failure
    ensures from != to && r.1.Ok? ==> r.1.value == GetEdge(g, from, to)
    ensures r.0.kind == g.kind && r.0.vertices.Keys == g.vertices.Keys
    ensures forall k :: k != from && k != to ==> GetVertex(r.0, k) == GetVertex(g, k)
  {
    if !Contains(g, from) || !Contains(g, to) then (g, Err(Failure))
    else
      var (v2, _) := Vertices.RemoveEdge(g.vertices[to], from);
      var g1 := g.(vertices := g.vertices[to := v2]);
      var (v1, removed) := Vertices.RemoveEdge(g1.vertices[from], to);
      (g1.(vertices := g1.vertices[from := v1]), Ok(removed))
  }

  /** The graph both writes produce, for distinct endpoints. */
  function BothWritten<V>(g: Graph<V>, from: Key, to: Key, w: i64): Graph<V>
    requires Contains(g, from) && Contains(g, to)
  {
    g.(vertices := g.vertices[from := Vertices.InsertEdge(g.vertices[from], to, w).0]
                             [to := Vertices.InsertEdge(g.vertices[to], from, w).0])
  }

  lemma InsertWritesBoth<V>(g: Graph<V>, from: Key, to: Key, w: i64)
    requires g.kind == Graphs.Undirected
    requires Contains(g, from) && Contains(g, to) && from != to
    ensures InsertEdge(g, from, to, w).Done? ==> InsertEdge(g, from, to, w).value.0 == BothWritten(g, from, to, w)
  {
  }

  /** The weights after both writes between distinct endpoints of a valid
      graph: the pair gets the new weight both ways, nothing else moves. */
  lemma InsertWeights<V>(g: Graph<V>, from: Key, to: Key, w: i64)
    requires Valid(g)
    requires Contains(g, from) && Contains(g, to) && from != to
    ensures Valid(BothWritten(g, from, to, w))
    ensures forall a, b :: Weight(BothWritten(g, from, to, w), a, b) ==
                           if (a == from && b == to) || (a == to && b == from) then Some(w) else Weight(g, a, b)
  {
    var v := g.vertices[from];
    var u := g.vertices[to];
    var g2 := BothWritten(g, from, to, w);
    Vertices.InsertKeepsValid(v, to, w);
    Vertices.InsertKeepsValid(u, from, w);
    forall a, b
      ensures Weight(g2, a, b) ==
              if (a == from && b == to) || (a == to && b == from) then Some(w) else Weight(g, a, b)
    {
      if a == from {
        Vertices.GetAfterInsert(v, to, w, b);
      } else if a == to {
        Vertices.GetAfterInsert(u, from, w, b);
      } else {
        assert GetVertex(g2, a) == GetVertex(g, a);
      }
    }
  }

  /** On a valid, paired graph, inserting between two distinct present vertices
      never panics, returns the old `from -> to` edge (`None` for a new pair),
      writes the weight both ways, changes no other pair, and keeps the graph
      valid and paired. */
  lemma InsertEdgeSpec<V>(g: Graph<V>, from: Key, to: Key, w: i64)
    requires g.kind == Graphs.Undirected && Valid(g) && Paired(g)
    requires Contains(g, from) && Contains(g, to) && from != to
    ensures InsertEdge(g, from, to, w).Done?
    ensures InsertEdge(g, from, to, w).value.1 == Ok(GetEdge(g, from, to))
    ensures Valid(InsertEdge(g, from, to, w).value.0) && Paired(InsertEdge(g, from, to, w).value.0)
    ensures Weight(InsertEdge(g, from, to, w).value.0, from, to) == Some(w)
    ensures Weight(InsertEdge(g, from, to, w).value.0, to, from) == Some(w)
    ensures forall a, b :: !((a == from && b == to) || (a == to && b == from)) ==>
                           Weight(InsertEdge(g, from, to, w).value.0, a, b) == Weight(g, a, b)
  {
    InsertOutcome(g, from, to, w);
    InsertWeights(g, from, to, w);
  }

  /** On a paired graph both writes report the same old edge, so the call
      completes with both writes and the old `from -> to` edge. */
  lemma InsertOutcome<V>(g: Graph<V>, from: Key, to: Key, w: i64)
    requires g.kind == Graphs.Undirected && Valid(g) && Paired(g)
    requires Contains(g, from) && Contains(g, to) && from != to
    ensures InsertEdge(g, from, to, w) == Done((BothWritten(g, from, to, w), Ok(GetEdge(g, from, to))))
  {
    Vertices.InsertReturnsOldEdge(g.vertices[from], to, w);
    Vertices.InsertReturnsOldEdge(g.vertices[to], from, w);
    assert Weight(g, from, to) == Weight(g, to, from);
    InsertWritesBoth(g, from, to, w);
  }

  /** Between distinct present vertices of a valid graph, `insert_edge` panics
      exactly when one direction is stored without the other. */
  lemma InsertPanicsIffUnpaired<V>(g: Graph<V>, from: Key, to: Key, w: i64)
    requires g.kind == Graphs.Undirected && Valid(g)
    requires Contains(g, from) && Contains(g, to) && from != to
    ensures InsertEdge(g, from, to, w).Panicked? <==> (GetEdge(g, from, to).Some? != GetEdge(g, to, from).Some?)
  {
    Vertices.InsertReturnsOldEdge(g.vertices[from], to, w);
    Vertices.InsertReturnsOldEdge(g.vertices[to], from, w);
  }

  /** On a valid, paired graph, removing between distinct present vertices
      returns the old `from -> to` edge, leaves neither direction, changes no
      other pair, and keeps the graph valid and paired. */
  lemma RemoveEdgeSpec<V>(g: Graph<V>, from: Key, to: Key)
    requires g.kind == Graphs.Undirected && Valid(g) && Paired(g)
    requires Contains(g, from) && Contains(g, to) && from != to
    ensures RemoveEdge(g, from, to).1 == Ok(GetEdge(g, from, to))
    ensures Valid(RemoveEdge(g, from, to).0) && Paired(RemoveEdge(g, from, to).0)
    ensures Weight(RemoveEdge(g, from, to).0, from, to) == None
    ensures Weight(RemoveEdge(g, from, to).0, to, from) == None
    ensures forall a, b :: !((a == from && b == to) || (a == to && b == from)) ==>
                           Weight(RemoveEdge(g, from, to).0, a, b) == Weight(g, a, b)
  {
    var v := g.vertices[from];
    var u := g.vertices[to];
    var g2 := RemoveEdge(g, from, to).0;
    Vertices.RemoveKeepsValid(v, to);
    Vertices.RemoveKeepsValid(u, from);
    assert g2.vertices[from] == Vertices.RemoveEdge(v, to).0;
    assert g2.vertices[to] == Vertices.RemoveEdge(u, from).0;
    forall a, b
      ensures Weight(g2, a, b) ==
              if (a == from && b == to) || (a == to && b == from) then None else Weight(g, a, b)
    {
      if a == from {
        Vertices.GetAfterRemove(v, to, b);
      } else if a == to {
        Vertices.GetAfterRemove(u, from, b);
      } else {
        assert GetVertex(g2, a) == GetVertex(g, a);
      }
    }
  }
}
