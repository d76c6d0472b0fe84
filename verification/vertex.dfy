/** A graph node (src/vertex.rs): a key, a value, and an insertion-ordered
    adjacency list of outgoing edges, searched and edited by target key. */
module Vertices {
  import opened Results
  import opened Edges
  import Seqs

  datatype Vertex<V> = Vertex(key: Key, value: V, adj: seq<Edge>)

  /** Every edge in the list leaves this vertex. */
  predicate Owns<V>(v: Vertex<V>) {
    forall i :: 0 <= i < |v.adj| ==> v.adj[i].from == v.key
  }

  /** At most one edge per target. */
  predicate UniqueTargets(adj: seq<Edge>) {
    forall i, j :: 0 <= i < j < |adj| ==> adj[i].to != adj[j].to
  }

  /** The shape every vertex reachable through the public API has. */
  predicate Valid<V>(v: Vertex<V>) {
    Owns(v) && UniqueTargets(v.adj)
  }

  /** The targets of an adjacency list, in list order. */
  function Targets(adj: seq<Edge>): (ts: seq<Key>)
    ensures |ts| == |adj|
    ensures forall i :: 0 <= i < |adj| ==> ts[i] == adj[i].to
  {
    seq(|adj|, i requires 0 <= i < |adj| => adj[i].to)
  }

  /** `Vertex::new`: no edges yet. */
  function New<V>(key: Key, value: V): (v: Vertex<V>)
    ensures v.key == key && v.value == value && v.adj == []
    ensures Valid(v)
  {
    Vertex(key, value, [])
  }

  /** `Vertex::get_edge`: the first edge whose target is `to`. */
  function GetEdge<V>(v: Vertex<V>, to: Key): (r: Option<Edge>)
    ensures r.None? <==> forall i :: 0 <= i < |v.adj| ==> v.adj[i].to != to
    ensures r.Some? ==> exists i :: 0 <= i < |v.adj| && v.adj[i] == r.value && r.value.to == to
                                    && forall j :: 0 <= j < i ==> v.adj[j].to != to
  {
    match Seqs.First(v.adj, (e: Edge) => e.to == to)
    case None => None
    case Some(i) => Some(v.adj[i])
  }

  /** `Vertex::insert_edge`: a previous edge equal (as `PartialEq` sees it) to the
      new one is taken out with `swap_remove` and returned; the new edge is pushed last. */
  function InsertEdge<V>(v: Vertex<V>, to: Key, weight: i64): (r: (Vertex<V>, Option<Edge>))
    ensures r.0.key == v.key && r.0.value == v.value
    ensures |r.0.adj| > 0 && r.0.adj[|r.0.adj| - 1] == Edge(v.key, to, weight)
    ensures r.1.None? <==> forall i :: 0 <= i < |v.adj| ==> !Eq(v.adj[i], Edges.New(v.key, to, weight))
    ensures r.1.None? ==> r.0.adj == v.adj + [Edge(v.key, to, weight)]
    ensures r.1.Some? ==> exists i :: 0 <= i < |v.adj| && v.adj[i] == r.1.value
                                    && Eq(r.1.value, Edges.New(v.key, to, weight))
                                    && (forall j :: 0 <= j < i ==> !Eq(v.adj[j], Edges.New(v.key, to, weight)))
                                    && r.0.adj == Seqs.SwapRemove(v.adj, i) + [Edge(v.key, to, weight)]
    ensures r.1.Some? ==> |r.0.adj| == |v.adj|
    ensures r.1.Some? ==> multiset(r.0.adj) == multiset(v.adj) - multiset{r.1.value} + multiset{Edge(v.key, to, weight)}
  {
    var e := Edges.New(v.key, to, weight);
    match Seqs.First(v.adj, (x: Edge) => Eq(x, e))
    case None => (v.(adj := v.adj + [e]), None)
    case Some(i) =>
      Seqs.SwapRemoveMultiset(v.adj, i);
      (v.(adj := Seqs.SwapRemove(v.adj, i) + [e]), Some(v.adj[i]))
  }

  /** `Vertex::insert_edge_unweighted`. */
  function InsertEdgeUnweighted<V>(v: Vertex<V>, to: Key): (r: (Vertex<V>, Option<Edge>))
    ensures r == InsertEdge(v, to, 0)
    ensures r.0.adj[|r.0.adj| - 1] == Edge(v.key, to, 0)
  {
    InsertEdge(v, to, 0)
  }

  /** `Vertex::remove_edge`: the edge `get_edge` would find is taken out with `swap_remove`. */
  function RemoveEdge<V>(v: Vertex<V>, to: Key): (r: (Vertex<V>, Option<Edge>))
    ensures r.1 == GetEdge(v, to)
    ensures r.0.key == v.key && r.0.value == v.value
    ensures r.1.None? ==> r.0 == v
    ensures r.1.Some? ==> |r.0.adj| == |v.adj| - 1
    ensures r.1.Some? ==> multiset(r.0.adj) == multiset(v.adj) - multiset{r.1.value}
    ensures r.1.Some? ==> exists i :: 0 <= i < |v.adj| && v.adj[i] == r.1.value
                                    && (forall j :: 0 <= j < i ==> v.adj[j].to != to)
                                    && r.0.adj == Seqs.SwapRemove(v.adj, i)
  {
    match Seqs.First(v.adj, (e: Edge) => e.to == to)
    case None => (v, None)
    case Some(i) =>
      Seqs.SwapRemoveMultiset(v.adj, i);
      (v.(adj := Seqs.SwapRemove(v.adj, i)), Some(v.adj[i]))
  }

  /** With unique targets, `get_edge(t)` finds exactly the listed edge with target `t`. */
  lemma GetEdgeUnique<V>(v: Vertex<V>, t: Key, e: Edge)
    requires UniqueTargets(v.adj)
    ensures GetEdge(v, t) == Some(e) <==> e in v.adj && e.to == t
  {
    if e in v.adj && e.to == t {
      var k :| 0 <= k < |v.adj| && v.adj[k] == e;
      var r := GetEdge(v, t);
      assert r.Some?;
      var i :| 0 <= i < |v.adj| && v.adj[i] == r.value && r.value.to == t
               && forall j :: 0 <= j < i ==> v.adj[j].to != t;
      assert i == k;
    }
  }

  /** The edge `insert_edge` hands back is the one `get_edge` would have found. */
  lemma InsertReturnsOldEdge<V>(v: Vertex<V>, to: Key, w: i64)
    requires Owns(v)
    ensures InsertEdge(v, to, w).1 == GetEdge(v, to)
  {
    var r := InsertEdge(v, to, w);
    var g := GetEdge(v, to);
    assert forall i :: 0 <= i < |v.adj| ==> (Eq(v.adj[i], Edges.New(v.key, to, w)) <==> v.adj[i].to == to);
    if r.1.Some? {
      var i :| 0 <= i < |v.adj| && v.adj[i] == r.1.value && Eq(r.1.value, Edges.New(v.key, to, w))
               && forall j :: 0 <= j < i ==> !Eq(v.adj[j], Edges.New(v.key, to, w));
      var k :| 0 <= k < |v.adj| && v.adj[k] == g.value && g.value.to == to
               && forall j :: 0 <= j < k ==> v.adj[j].to != to;
      assert i == k;
    }
  }

  /** `swap_remove` on a list with unique targets keeps them unique and drops
      the only edge with the removed slot's target. */
  lemma SwapRemoveKeepsUnique(adj: seq<Edge>, i: nat)
    requires UniqueTargets(adj) && i < |adj|
    ensures UniqueTargets(Seqs.SwapRemove(adj, i))
    ensures forall j :: 0 <= j < |adj| - 1 ==> Seqs.SwapRemove(adj, i)[j].to != adj[i].to
  {
    var s := Seqs.SwapRemove(adj, i);
    forall a, b | 0 <= a < b < |s| ensures s[a].to != s[b].to {
      var oa := if a == i then |adj| - 1 else a;
      var ob := if b == i then |adj| - 1 else b;
      assert s[a] == adj[oa] && s[b] == adj[ob];
    }
    forall j | 0 <= j < |s| ensures s[j].to != adj[i].to {
      var o := if j == i then |adj| - 1 else j;
      assert s[j] == adj[o];
    }
  }

  /** Inserting keeps every edge owned by the vertex and leaves exactly one
      edge to `to`, the new last one. */
  lemma InsertKeepsValid<V>(v: Vertex<V>, to: Key, w: i64)
    requires Valid(v)
    ensures Valid(InsertEdge(v, to, w).0)
    ensures forall i :: 0 <= i < |InsertEdge(v, to, w).0.adj| - 1 ==> InsertEdge(v, to, w).0.adj[i].to != to
  {
    var e := Edge(v.key, to, w);
    match Seqs.First(v.adj, (x: Edge) => Eq(x, e))
    case None =>
      assert forall i :: 0 <= i < |v.adj| ==> v.adj[i].to != to by {
        forall i | 0 <= i < |v.adj| ensures v.adj[i].to != to {
          assert !Eq(v.adj[i], e);
        }
      }
    case Some(i) =>
      SwapRemoveKeepsUnique(v.adj, i);
  }

  /** Removing keeps the vertex valid and leaves no edge to `to`. */
  lemma RemoveKeepsValid<V>(v: Vertex<V>, to: Key)
    requires Valid(v)
    ensures Valid(RemoveEdge(v, to).0)
    ensures forall i :: 0 <= i < |RemoveEdge(v, to).0.adj| ==> RemoveEdge(v, to).0.adj[i].to != to
  {
    match Seqs.First(v.adj, (e: Edge) => e.to == to)
    case None =>
    case Some(i) =>
      SwapRemoveKeepsUnique(v.adj, i);
  }

  /** After `insert_edge(to, w)`, `get_edge(to)` finds the new edge and every other lookup is unchanged. */
  lemma GetAfterInsert<V>(v: Vertex<V>, to: Key, w: i64, t: Key)
    requires Valid(v)
    ensures GetEdge(InsertEdge(v, to, w).0, t) == if t == to then Some(Edge(v.key, to, w)) else GetEdge(v, t)
  {
    var r := InsertEdge(v, to, w);
    InsertKeepsValid(v, to, w);
    if t == to {
      GetEdgeUnique(r.0, t, Edge(v.key, to, w));
    } else {
      var g := GetEdge(v, t);
      var g' := GetEdge(r.0, t);
      if g.Some? { GetEdgeUnique(v, t, g.value); }
      if g'.Some? { GetEdgeUnique(r.0, t, g'.value); }
      if r.1.None? {
        assert r.0.adj == v.adj + [Edge(v.key, to, w)];
        if g.Some? { GetEdgeUnique(r.0, t, g.value); }
        if g'.Some? { GetEdgeUnique(v, t, g'.value); }
      } else {
        var i :| 0 <= i < |v.adj| && v.adj[i] == r.1.value && Eq(r.1.value, Edges.New(v.key, to, w));
        var s := Seqs.SwapRemove(v.adj, i);
        assert r.0.adj == s + [Edge(v.key, to, w)];
        if g.Some? {
          var k :| 0 <= k < |v.adj| && v.adj[k] == g.value;
          assert k != i;
          Seqs.SwapRemoveMembers(v.adj, i, g.value);
          GetEdgeUnique(r.0, t, g.value);
        }
        if g'.Some? {
          assert g'.value in s;
          Seqs.SwapRemoveMembers(v.adj, i, g'.value);
          GetEdgeUnique(v, t, g'.value);
        }
      }
    }
  }

  /** After `remove_edge(to)`, `get_edge(to)` finds nothing and every other lookup is unchanged. */
  lemma GetAfterRemove<V>(v: Vertex<V>, to: Key, t: Key)
    requires Valid(v)
    ensures GetEdge(RemoveEdge(v, to).0, t) == if t == to then None else GetEdge(v, t)
  {
    var r := RemoveEdge(v, to);
    RemoveKeepsValid(v, to);
    if t != to && r.1.Some? {
      var i :| 0 <= i < |v.adj| && v.adj[i] == r.1.value && r.1.value.to == to;
      var g := GetEdge(v, t);
      var g' := GetEdge(r.0, t);
      if g.Some? {
        GetEdgeUnique(v, t, g.value);
        var k :| 0 <= k < |v.adj| && v.adj[k] == g.value;
        assert k != i;
        Seqs.SwapRemoveMembers(v.adj, i, g.value);
        GetEdgeUnique(r.0, t, g.value);
      }
      if g'.Some? {
        GetEdgeUnique(r.0, t, g'.value);
        Seqs.SwapRemoveMembers(v.adj, i, g'.value);
        GetEdgeUnique(v, t, g'.value);
      }
    }
  }

  /** Removing right after inserting returns the inserted edge. */
  lemma RemoveAfterInsert<V>(v: Vertex<V>, to: Key, w: i64)
    requires Valid(v)
    ensures RemoveEdge(InsertEdge(v, to, w).0, to).1 == Some(Edge(v.key, to, w))
  {
    GetAfterInsert(v, to, w, to);
  }
}
