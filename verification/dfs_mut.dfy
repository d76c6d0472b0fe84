/** `DfsIteratorMut::next` (src/graph/iterators/dfs/iter_mut.rs), frontier and
    visited logic only: pop unconditionally (an empty stack panics), return
    `None` for a key without a vertex, otherwise mark it visited, push the
    targets not visited at that moment, and yield it, whether or not it had
    been visited before. */
module DfsMut {
  import opened Results
  import opened Edges
  import Vertices
  import opened Graphs
  import opened Traversal

  function Next<V>(g: Graph<V>, st: Frontier): (r: Step<V>)
    ensures |st.pending| == 0 <==> r == Stop(st, Panic(UnwrapNone))
    ensures r.Stop? ==> r.halt.Panic? || r.halt.Missing?
    ensures r.Stop? && r.halt.Missing? ==>
              |st.pending| > 0 && r.halt.key == st.pending[|st.pending| - 1] && r.halt.key !in g.vertices
              && r.state == st.(pending := st.pending[..|st.pending| - 1])
    ensures r.Yield? ==>
              |st.pending| > 0 && st.pending[|st.pending| - 1] in g.vertices
              && r.vertex == g.vertices[st.pending[|st.pending| - 1]]
              && r.state.visited == st.visited + {r.vertex.key}
              && r.state.pending == st.pending[..|st.pending| - 1] + Unvisited(Vertices.Targets(r.vertex.adj), r.state.visited)
  {
    if |st.pending| == 0 then Stop(st, Panic(UnwrapNone))
    else
      var top := |st.pending| - 1;
      var key := st.pending[top];
      var rest := st.pending[..top];
      if key !in g.vertices then Stop(st.(pending := rest), Missing(key))
      else
        var v := g.vertices[key];
        var visited := st.visited + {v.key};
        Yield(Frontier(rest + Unvisited(Vertices.Targets(v.adj), visited), visited), v)
  }

  /** Visiting the stack top keeps the invariant. */
  lemma YieldInv<V>(g: Graph<V>, s: Key, st: Frontier)
    requires Valid(g) && Inv(g, s, st)
    requires |st.pending| > 0 && st.pending[|st.pending| - 1] in g.vertices
    ensures Next(g, st).Yield? && Inv(g, s, Next(g, st).state)
  {
    var top := |st.pending| - 1;
    var key := st.pending[top];
    var rest := st.pending[..top];
    assert st.pending == rest + [key];
    var v := g.vertices[key];
    assert v.key == key;
    var visited := st.visited + {key};
    var pushed := Unvisited(Vertices.Targets(v.adj), visited);
    assert Next(g, st) == Yield(Frontier(rest + pushed, visited), v);
    VisitInv(g, s, st, rest, key, pushed);
  }

  lemma NextInv<V>(g: Graph<V>, s: Key, st: Frontier)
    requires Valid(g) && Inv(g, s, st)
    ensures Next(g, st).Yield? || Next(g, st).halt.Panic? ==> Inv(g, s, Next(g, st).state)
    ensures Next(g, st).Stop? && Next(g, st).halt.Missing? ==> exists t :: Reachable(g, s, t) && t !in g.vertices
  {
    if |st.pending| > 0 {
      var top := |st.pending| - 1;
      var key := st.pending[top];
      var rest := st.pending[..top];
      if key !in g.vertices {
        assert Next(g, st) == Stop(st.(pending := rest), Missing(key));
        assert Reachable(g, s, key);
      } else {
        YieldInv(g, s, st);
      }
    }
  }

  /** Each yield either visits a new key or consumes a visited stack entry
      while pushing only unvisited ones, so a walk is finite. */
  lemma Progress<V>(g: Graph<V>, st: Frontier)
    requires Valid(g) && Next(g, st).Yield?
    ensures |g.vertices.Keys - Next(g, st).state.visited| < |g.vertices.Keys - st.visited|
            || (Next(g, st).state.visited == st.visited
                && CountIn(Next(g, st).state.pending, st.visited) < CountIn(st.pending, st.visited))
  {
    var v := Next(g, st).vertex;
    assert st.pending == st.pending[..|st.pending| - 1] + [v.key];
    if v.key in st.visited {
      assert Next(g, st).state.visited == st.visited;
      CountInAfterVisit(st.pending[..|st.pending| - 1], v.key, Vertices.Targets(v.adj), st.visited);
    } else {
      Shrinks(g.vertices.Keys, st.visited, v.key);
    }
  }

  /** The keys a `for` loop collects from the state `st` on. */
  function Iterate<V>(g: Graph<V>, st: Frontier): (w: Walk)
    requires Valid(g)
    ensures forall i :: 0 <= i < |w.keys| ==> w.keys[i] in g.vertices
    ensures w.halt == Panic(UnwrapNone) || w.halt.Missing?
    decreases |g.vertices.Keys - st.visited|, CountIn(st.pending, st.visited)
  {
    match Next(g, st)
    case Stop(_, halt) => Walk([], halt)
    case Yield(st', v) =>
      Progress(g, st);
      var rest := Iterate(g, st');
      Walk([v.key] + rest.keys, rest.halt)
  }

  lemma {:induction false} IterateInv<V>(g: Graph<V>, s: Key, st: Frontier)
    requires Valid(g) && Inv(g, s, st)
    ensures forall i :: 0 <= i < |Iterate(g, st).keys| ==> Reachable(g, s, Iterate(g, st).keys[i])
    ensures Iterate(g, st).halt.Panic? ==> forall t :: Reachable(g, s, t) ==> t in st.visited || t in Iterate(g, st).keys
    ensures Iterate(g, st).halt.Missing? ==> exists t :: Reachable(g, s, t) && t !in g.vertices
    decreases |g.vertices.Keys - st.visited|, CountIn(st.pending, st.visited)
  {
    NextInv(g, s, st);
    var w := Iterate(g, st);
    match Next(g, st)
    case Stop(st', halt) =>
      assert w == Walk([], halt);
      if halt.Panic? {
        assert st' == st && st.pending == [];
        DrainedInvComplete(g, s, st');
      }
    case Yield(st', v) =>
      Progress(g, st);
      var rest := Iterate(g, st');
      assert w == Walk([v.key] + rest.keys, rest.halt);
      IterateInv(g, s, st');
      assert Reachable(g, s, v.key);
      ExtendWalk(g, s, v.key, rest.keys, st.visited, st'.visited);
  }

  /** `for v in graph.dfs_mut(&from)`: only keys reachable from `from`
      (repeats possible); a loop that reaches the end of the stack panics
      there, by which time every reachable key has been yielded; `None`
      comes back exactly when some reachable key has no vertex. */
  function DfsMut<V>(g: Graph<V>, from: Key): (w: Walk)
    requires Valid(g)
    ensures forall i :: 0 <= i < |w.keys| ==> Reachable(g, from, w.keys[i])
    ensures w.halt.Panic? ==> forall t :: Reachable(g, from, t) ==> t in w.keys
    ensures w.halt.Missing? <==> exists t :: Reachable(g, from, t) && t !in g.vertices
    ensures !Contains(g, from) ==> w == Walk([], Missing(from))
  {
    StartInv(g, from);
    IterateInv(g, from, Start(from));
    Iterate(g, Start(from))
  }
}
