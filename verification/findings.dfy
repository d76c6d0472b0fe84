/** Three places where the undirected graph does not keep the promise its
    documentation makes ("edge will be created/removed in both directions",
    "returns the removed edge"): each is shown on the model of the code as it
    stands, next to a corrected operation that keeps the promise. */
module Findings {
  import opened Results
  import opened Edges
  import Vertices
  import opened Graphs
  import Undirected

  // ---------------------------------------------------------------- self-loop insertion

  /** As written, a first self-loop `insert_edge(a, a, w)` panics: the first
      write stores `a -> a`, so the second write finds it and reports an old
      edge that the first did not. */
  lemma SelfLoopInsertPanics<V>(g: Graph<V>, a: Key, w: i64)
    requires g.kind == Graphs.Undirected && Valid(g) && Contains(g, a) && GetEdge(g, a, a).None?
    ensures Undirected.InsertEdge(g, a, a, w) == Panicked(Undirected.Unpaired)
  {
    var v := g.vertices[a];
    Vertices.InsertReturnsOldEdge(v, a, w);
    var v1 := Vertices.InsertEdge(v, a, w).0;
    Vertices.InsertKeepsValid(v, a, w);
    Vertices.InsertReturnsOldEdge(v1, a, w);
    assert v1.adj[|v1.adj| - 1].to == a;
  }

  /** `insert_edge` with a self-loop written once: its two directions are one entry. */
  function InsertEdge<V>(g: Graph<V>, from: Key, to: Key, weight: i64): (r: Run<(Graph<V>, Result<Option<Edge>>)>)
    requires g.kind == Graphs.Undirected
    ensures !Contains(g, from) || !Contains(g, to) ==> r == Done((g, Err(Failure)))
    ensures from != to ==> r == Undirected.InsertEdge(g, from, to, weight)
    ensures from == to && Contains(g, from) ==> r.Done? && r.value.1.Ok? && r.value.0.vertices.Keys == g.vertices.Keys
  {
    if from == to && Contains(g, from) then
      var v := g.vertices[from];
      var (v1, prev) := Vertices.InsertEdge(v, to, weight);
      Done((g.(vertices := g.vertices[from := v1]), Ok(prev)))
    else Undirected.InsertEdge(g, from, to, weight)
  }

  const Failure := Undirected.Failure

  /** The corrected insertion keeps the undirected promise for every pair of
      present keys, self-loops included: no panic, the old edge returned, the
      weight stored both ways, validity and pairing kept. */
  lemma InsertEdgeSpec<V>(g: Graph<V>, from: Key, to: Key, w: i64)
    requires g.kind == Graphs.Undirected && Valid(g) && Undirected.Paired(g)
    requires Contains(g, from) && Contains(g, to)
    ensures InsertEdge(g, from, to, w).Done?
    ensures InsertEdge(g, from, to, w).value.1 == Ok(GetEdge(g, from, to))
    ensures Valid(InsertEdge(g, from, to, w).value.0) && Undirected.Paired(InsertEdge(g, from, to, w).value.0)
    ensures Undirected.Weight(InsertEdge(g, from, to, w).value.0, from, to) == Some(w)
    ensures Undirected.Weight(InsertEdge(g, from, to, w).value.0, to, from) == Some(w)
  {
    if from != to {
      Undirected.InsertEdgeSpec(g, from, to, w);
    } else {
      var v := g.vertices[from];
      var g1 := InsertEdge(g, from, to, w).value.0;
      Vertices.InsertKeepsValid(v, to, w);
      assert g1.vertices == g.vertices[from := Vertices.InsertEdge(v, to, w).0];
      forall a, b
        ensures Undirected.Weight(g1, a, b) == if a == from && b == from then Some(w) else Undirected.Weight(g, a, b)
      {
        if a == from {
          Vertices.GetAfterInsert(v, to, w, b);
        } else {
          assert GetVertex(g1, a) == GetVertex(g, a);
        }
      }
    }
  }

  // ---------------------------------------------------------------- self-loop removal

  /** As written, `remove_edge(a, a)` deletes a stored self-loop with its first
      call and so reports `Ok(None)` from its second: the edge is gone but
      not returned. */
  lemma SelfLoopRemoveReportsNothing<V>(g: Graph<V>, a: Key)
    requires g.kind == Graphs.Undirected && Valid(g) && Contains(g, a) && GetEdge(g, a, a).Some?
    ensures Undirected.RemoveEdge(g, a, a).1 == Ok(None)
    ensures GetEdge(Undirected.RemoveEdge(g, a, a).0, a, a).None?
  {
    var v := g.vertices[a];
    Vertices.RemoveKeepsValid(v, a);
  }

  /** `remove_edge` with a self-loop removed once and returned. */
  function RemoveEdge<V>(g: Graph<V>, from: Key, to: Key): (r: (Graph<V>, Result<Option<Edge>>))
    requires g.kind == Graphs.Undirected
    ensures r.1.Err? <==> !Contains(g, from) || !Contains(g, to)
    ensures r.1.Ok? ==> r.1.value == GetEdge(g, from, to)
    ensures from != to ==> r == Undirected.RemoveEdge(g, from, to)
  {
    if from == to && Contains(g, from) then
      var (v1, removed) := Vertices.RemoveEdge(g.vertices[from], to);
      (g.(vertices := g.vertices[from := v1]), Ok(removed))
    else Undirected.RemoveEdge(g, from, to)
  }

  /** The corrected removal returns the stored edge for every pair of present
      keys, leaves neither direction, and keeps validity and pairing. */
  lemma RemoveEdgeSpec<V>(g: Graph<V>, from: Key, to: Key)
    requires g.kind == Graphs.Undirected && Valid(g) && Undirected.Paired(g)
    requires Contains(g, from) && Contains(g, to)
    ensures RemoveEdge(g, from, to).1 == Ok(GetEdge(g, from, to))
    ensures Valid(RemoveEdge(g, from, to).0) && Undirected.Paired(RemoveEdge(g, from, to).0)
    ensures Undirected.Weight(RemoveEdge(g, from, to).0, from, to) == None
    ensures Undirected.Weight(RemoveEdge(g, from, to).0, to, from) == None
  {
    if from != to {
      Undirected.RemoveEdgeSpec(g, from, to);
    } else {
      var v := g.vertices[from];
      var g1 := RemoveEdge(g, from, to).0;
      Vertices.RemoveKeepsValid(v, to);
      assert g1.vertices == g.vertices[from := Vertices.RemoveEdge(v, to).0];
      forall a, b
        ensures Undirected.Weight(g1, a, b) == if a == from && b == from then None else Undirected.Weight(g, a, b)
      {
        if a == from {
          Vertices.GetAfterRemove(v, to, b);
        } else {
          assert GetVertex(g1, a) == GetVertex(g, a);
        }
      }
    }
  }

  // ---------------------------------------------------------------- vertex removal

  /** Every edge ends at a key that has a vertex. */
  ghost predicate NoDangling<V>(g: Graph<V>) {
    forall k, i | k in g.vertices && 0 <= i < |g.vertices[k].adj| :: g.vertices[k].adj[i].to in g.vertices
  }

  /** As written, `remove(b)` leaves `a -> b` behind in an undirected graph:
      the pairing is broken, and after `b` is inserted again the next
      `insert_edge(a, b)` panics. */
  lemma RemoveLeavesStaleEdge<V>(g: Graph<V>, a: Key, b: Key, x: V, w: i64)
    requires g.kind == Graphs.Undirected && Valid(g) && a != b
    requires Contains(g, a) && Contains(g, b) && GetEdge(g, a, b).Some?
    ensures !NoDangling(Remove(g, b).0)
    ensures !Undirected.Paired(Remove(g, b).0)
    ensures Undirected.InsertEdge(Insert(Remove(g, b).0, b, x).0, a, b, w).Panicked?
  {
    var g1 := Remove(g, b).0;
    var g2 := Insert(g1, b, x).0;
    assert GetVertex(g1, a) == GetVertex(g, a);
    assert Undirected.Weight(g1, a, b).Some? && Undirected.Weight(g1, b, a).None?;
    var e := GetEdge(g, a, b).value;
    var i :| 0 <= i < |g1.vertices[a].adj| && g1.vertices[a].adj[i] == e;
    assert g1.vertices[a].adj[i].to !in g1.vertices;
    assert GetVertex(g2, a) == GetVertex(g, a);
    Undirected.InsertPanicsIffUnpaired(g2, a, b, w);
  }

  /** `remove` that also drops, from every other vertex, its edge to the removed key. */
  function RemoveClean<V>(g: Graph<V>, key: Key): (r: (Graph<V>, Option<V>))
    ensures r.1 == Get(g, key)
    ensures r.0.kind == g.kind && r.0.vertices.Keys == g.vertices.Keys - {key}
    ensures forall k | k in r.0.vertices :: r.0.vertices[k] == Vertices.RemoveEdge(g.vertices[k], key).0
  {
    (g.(vertices := map k | k in g.vertices && k != key :: Vertices.RemoveEdge(g.vertices[k], key).0), Get(g, key))
  }

  lemma RemoveCleanValid<V>(g: Graph<V>, key: Key)
    requires Valid(g)
    ensures Valid(RemoveClean(g, key).0)
  {
    var g1 := RemoveClean(g, key).0;
    forall k | k in g1.vertices ensures g1.vertices[k].key == k && Vertices.Valid(g1.vertices[k]) {
      Vertices.RemoveKeepsValid(g.vertices[k], key);
    }
  }

  lemma RemoveCleanWeights<V>(g: Graph<V>, key: Key)
    requires Valid(g)
    ensures forall a, b :: Undirected.Weight(RemoveClean(g, key).0, a, b) ==
                           if a == key || b == key then None else Undirected.Weight(g, a, b)
  {
    var g1 := RemoveClean(g, key).0;
    forall a, b
      ensures Undirected.Weight(g1, a, b) == if a == key || b == key then None else Undirected.Weight(g, a, b)
    {
      if a in g1.vertices {
        Vertices.GetAfterRemove(g.vertices[a], key, b);
      }
    }
  }

  lemma RemoveCleanNoDangling<V>(g: Graph<V>, key: Key)
    requires Valid(g) && NoDangling(g)
    ensures NoDangling(RemoveClean(g, key).0)
  {
    var g1 := RemoveClean(g, key).0;
    forall k, i | k in g1.vertices && 0 <= i < |g1.vertices[k].adj|
      ensures g1.vertices[k].adj[i].to in g1.vertices
    {
      var v := g.vertices[k];
      Vertices.RemoveKeepsValid(v, key);
      var e := g1.vertices[k].adj[i];
      assert e in multiset(g1.vertices[k].adj);
      assert e in multiset(v.adj);
      var j :| 0 <= j < |v.adj| && v.adj[j] == e;
    }
  }

  /** The corrected removal keeps every invariant: validity, no dangling edge,
      and the undirected pairing; only pairs touching `key` lose their weight. */
  lemma RemoveCleanSpec<V>(g: Graph<V>, key: Key)
    requires Valid(g)
    ensures Valid(RemoveClean(g, key).0)
    ensures forall a, b :: Undirected.Weight(RemoveClean(g, key).0, a, b) ==
                           if a == key || b == key then None else Undirected.Weight(g, a, b)
    ensures Undirected.Paired(g) ==> Undirected.Paired(RemoveClean(g, key).0)
    ensures NoDangling(g) ==> NoDangling(RemoveClean(g, key).0)
  {
    RemoveCleanValid(g, key);
    RemoveCleanWeights(g, key);
    if NoDangling(g) {
      RemoveCleanNoDangling(g, key);
    }
  }

  /** Inserting a key that is not there yet keeps the pairing. */
  lemma InsertFreshKeepsPaired<V>(g: Graph<V>, key: Key, value: V)
    requires Undirected.Paired(g) && !Contains(g, key)
    ensures Undirected.Paired(Insert(g, key, value).0)
  {
    var g1 := Insert(g, key, value).0;
    forall a, b ensures Undirected.Weight(g1, a, b) == Undirected.Weight(g, a, b) {
      if a != key {
        assert GetVertex(g1, a) == GetVertex(g, a);
      }
    }
  }

  /** With the corrected removal, removing and re-inserting `b` and then
      linking it to `a` goes through. */
  lemma ReinsertAfterRemoveClean<V>(g: Graph<V>, a: Key, b: Key, x: V, w: i64)
    requires g.kind == Graphs.Undirected && Valid(g) && Undirected.Paired(g) && a != b
    requires Contains(g, a) && Contains(g, b)
    ensures Undirected.InsertEdge(Insert(RemoveClean(g, b).0, b, x).0, a, b, w).Done?
  {
    var g1 := RemoveClean(g, b).0;
    RemoveCleanSpec(g, b);
    InsertFreshKeepsPaired(g1, b, x);
    var g2 := Insert(g1, b, x).0;
    Undirected.InsertEdgeSpec(g2, a, b, w);
  }
}
