/** `BfsIteratorMut::next` (src/graph/iterators/bfs/iter_mut.rs), frontier and
    visited logic only: `None` on an empty queue or a front key without a
    vertex, otherwise mark the front key visited, append the targets not
    visited at that moment, and yield it, whether or not it had been visited before. */
module BfsMut {
  import opened Results
  import opened Edges
  import Vertices
  import opened Graphs
  import opened Traversal

  function Next<V>(g: Graph<V>, st: Frontier): (r: Step<V>)
    ensures |st.pending| == 0 <==> r == Stop(st, Drained)
    ensures r.Stop? && r.halt.Missing? ==>
              |st.pending| > 0 && r.halt.key == st.pending[0] && r.halt.key !in g.vertices
              && r.state == st.(pending := st.pending[1..])
    ensures r.Yield? ==>
              |st.pending| > 0 && st.pending[0] in g.vertices && r.vertex == g.vertices[st.pending[0]]
              && r.state.visited == st.visited + {r.vertex.key}
              && r.state.pending == st.pending[1..] + Unvisited(Vertices.Targets(r.vertex.adj), r.state.visited)
  {
    if |st.pending| == 0 then Stop(st, Drained)
    else
      var key := st.pending[0];
      var rest := st.pending[1..];
      if key !in g.vertices then Stop(st.(pending := rest), Missing(key))
      else
        var v := g.vertices[key];
        var visited := st.visited + {v.key};
        Yield(Frontier(rest + Unvisited(Vertices.Targets(v.adj), visited), visited), v)
  }

  /** Visiting the queue front keeps the invariant. */
  lemma YieldInv<V>(g: Graph<V>, s: Key, st: Frontier)
    requires Valid(g) && Inv(g, s, st)
    requires |st.pending| > 0 && st.pending[0] in g.vertices
    ensures Next(g, st).Yield? && Inv(g, s, Next(g, st).state)
  {
    var key := st.pending[0];
    var rest := st.pending[1..];
    assert st.pending == [key] + rest;
    var v := g.vertices[key];
    assert v.key == key;
    var visited := st.visited + {key};
    var pushed := Unvisited(Vertices.Targets(v.adj), visited);
    assert Next(g, st) == Yield(Frontier(rest + pushed, visited), v);
    VisitInv(g, s, st, rest, key, pushed);
  }

  lemma NextInv<V>(g: Graph<V>, s: Key, st: Frontier)
    requires Valid(g) && Inv(g, s, st)
    ensures Next(g, st).Yield? || Next(g, st).halt == Drained ==> Inv(g, s, Next(g, st).state)
    ensures Next(g, st).Stop? && Next(g, st).halt.Missing? ==> exists t :: Reachable(g, s, t) && t !in g.vertices
  {
    if |st.pending| > 0 {
      var key := st.pending[0];
      var rest := st.pending[1..];
      assert st.pending == [key] + rest;
      if key !in g.vertices {
        assert Next(g, st) == Stop(st.(pending := rest), Missing(key));
        assert Reachable(g, s, key);
      } else {
        YieldInv(g, s, st);
      }
    }
  }

  /** Each yield either visits a new key or consumes a visited stack entry
      while pushing only unvisited ones, so a walk is finite. */
  lemma Progress<V>(g: Graph<V>, st: Frontier)
    requires Valid(g) && Next(g, st).Yield?
    ensures |g.vertices.Keys - Next(g, st).state.visited| < |g.vertices.Keys - st.visited|
            || (Next(g, st).state.visited == st.visited
                && CountIn(Next(g, st).state.pending, st.visited) < CountIn(st.pending, st.visited))
  {
    var v := Next(g, st).vertex;
    assert st.pending == [v.key] + st.pending[1..];
    if v.key in st.visited {
      assert Next(g, st).state.visited == st.visited;
      CountInAfterVisit(st.pending[1..], v.key, Vertices.Targets(v.adj), st.visited);
    } else {
      Shrinks(g.vertices.Keys, st.visited, v.key);
    }
  }

  function Iterate<V>(g: Graph<V>, st: Frontier): (w: Walk)
    requires Valid(g)
    ensures forall i :: 0 <= i < |w.keys| ==> w.keys[i] in g.vertices
    ensures w.halt == Drained || w.halt.Missing?
    decreases |g.vertices.Keys - st.visited|, CountIn(st.pending, st.visited)
  {
    match Next(g, st)
    case Stop(_, halt) => Walk([], halt)
    case Yield(st', v) =>
      Progress(g, st);
      var rest := Iterate(g, st');
      Walk([v.key] + rest.keys, rest.halt)
  }

  lemma {:induction false} IterateInv<V>(g: Graph<V>, s: Key, st: Frontier)
    requires Valid(g) && Inv(g, s, st)
    ensures forall i :: 0 <= i < |Iterate(g, st).keys| ==> Reachable(g, s, Iterate(g, st).keys[i])
    ensures Iterate(g, st).halt == Drained ==> forall t :: Reachable(g, s, t) ==> t in st.visited || t in Iterate(g, st).keys
    ensures Iterate(g, st).halt.Missing? ==> exists t :: Reachable(g, s, t) && t !in g.vertices
    decreases |g.vertices.Keys - st.visited|, CountIn(st.pending, st.visited)
  {
    NextInv(g, s, st);
    var w := Iterate(g, st);
    match Next(g, st)
    case Stop(st', halt) =>
      assert w == Walk([], halt);
      if halt == Drained { DrainedInvComplete(g, s, st'); }
    case Yield(st', v) =>
      Progress(g, st);
      var rest := Iterate(g, st');
      assert w == Walk([v.key] + rest.keys, rest.halt);
      IterateInv(g, s, st');
      assert Reachable(g, s, v.key);
      ExtendWalk(g, s, v.key, rest.keys, st.visited, st'.visited);
  }

  /** `for v in graph.bfs_mut(&from)`: only keys reachable from `from`
      (repeats possible), all of them when the queue drains; the loop ends
      early exactly when some reachable key has no vertex. */
  function BfsMut<V>(g: Graph<V>, from: Key): (w: Walk)
    requires Valid(g)
    ensures forall i :: 0 <= i < |w.keys| ==> Reachable(g, from, w.keys[i])
    ensures w.halt == Drained ==> forall t :: Reachable(g, from, t) ==> t in w.keys
    ensures w.halt.Missing? <==> exists t :: Reachable(g, from, t) && t !in g.vertices
    ensures !Contains(g, from) ==> w == Walk([], Missing(from))
  {
    StartInv(g, from);
    IterateInv(g, from, Start(from));
    Iterate(g, Start(from))
  }
}
