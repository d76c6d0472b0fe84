/** `BfsIterator::next` (src/graph/iterators/bfs/iter.rs): take the queue
    front, discard it if already visited, otherwise mark it, append all its
    targets in adjacency order and yield it. A front key without a vertex
    makes `next` return `None` through `?`. */
module Bfs {
  import opened Results
  import opened Edges
  import Vertices
  import opened Graphs
  import opened Traversal

  /** Every queue entry below index `j` was taken and discarded as already visited. */
  ghost predicate SkippedBelow<V>(g: Graph<V>, st: Frontier, j: nat) {
    forall i :: 0 <= i < j && i < |st.pending| ==> st.pending[i] in g.vertices && g.vertices[st.pending[i]].key in st.visited
  }

  /** The queue index of the entry a step took last, counted in the queue
      the step started from: the entries after it are what is left, ahead of
      the pushed targets of a yield. */
  ghost function Taken<V>(st: Frontier, r: Step<V>): int {
    if r.Yield? then |st.pending| - 1 - (|r.state.pending| - |Vertices.Targets(r.vertex.adj)|)
    else |st.pending| - 1 - |r.state.pending|
  }

  /** Taking a visited front entry extends every skipped run by one. */
  lemma SkipFront<V>(g: Graph<V>, st: Frontier)
    requires |st.pending| > 0 && st.pending[0] in g.vertices && g.vertices[st.pending[0]].key in st.visited
    ensures forall j :: 0 <= j && SkippedBelow(g, st.(pending := st.pending[1..]), j) ==> SkippedBelow(g, st, j + 1)
  {
    forall j | 0 <= j && SkippedBelow(g, st.(pending := st.pending[1..]), j) ensures SkippedBelow(g, st, j + 1) {
      forall i | 1 <= i < j + 1 && i < |st.pending| ensures st.pending[i] == st.pending[1..][i - 1] { }
    }
  }

  function Next<V>(g: Graph<V>, st: Frontier): (r: Step<V>)
    ensures r.Stop? ==> r.state.visited == st.visited && (r.halt == Drained || r.halt.Missing?)
    ensures r.Stop? && r.halt == Drained ==> r.state.pending == [] && SkippedBelow(g, st, |st.pending|)
    ensures r.Stop? && r.halt.Missing? ==>
              0 <= Taken(st, r) < |st.pending| && st.pending[Taken(st, r)] == r.halt.key && r.halt.key !in g.vertices
              && SkippedBelow(g, st, Taken(st, r)) && r.state.pending == st.pending[Taken(st, r) + 1..]
    ensures r.Yield? ==> r.vertex.key !in st.visited && r.state.visited == st.visited + {r.vertex.key}
    ensures r.Yield? ==>
              0 <= Taken(st, r) < |st.pending| && st.pending[Taken(st, r)] in g.vertices
              && r.vertex == g.vertices[st.pending[Taken(st, r)]] && SkippedBelow(g, st, Taken(st, r))
              && r.state.pending == st.pending[Taken(st, r) + 1..] + Vertices.Targets(r.vertex.adj)
    decreases |st.pending|
  {
    if |st.pending| == 0 then Stop(st, Drained)
    else
      var key := st.pending[0];
      var rest := st.pending[1..];
      if key !in g.vertices then Stop(st.(pending := rest), Missing(key))
      else
        var v := g.vertices[key];
        if v.key in st.visited then
          SkipFront(g, st);
          Next(g, st.(pending := rest))
        else Yield(Frontier(rest + Vertices.Targets(v.adj), st.visited + {v.key}), v)
  }

  /** Visiting the queue front keeps the invariant. */
  lemma YieldInv<V>(g: Graph<V>, s: Key, st: Frontier)
    requires Valid(g) && Inv(g, s, st)
    requires |st.pending| > 0 && st.pending[0] in g.vertices
    requires g.vertices[st.pending[0]].key !in st.visited
    ensures Next(g, st).Yield? && Inv(g, s, Next(g, st).state)
  {
    var key := st.pending[0];
    var rest := st.pending[1..];
    assert st.pending == [key] + rest;
    VisitInv(g, s, st, rest, key, Vertices.Targets(g.vertices[key].adj));
  }

  lemma {:induction false} NextInv<V>(g: Graph<V>, s: Key, st: Frontier)
    requires Valid(g) && Inv(g, s, st)
    ensures Next(g, st).Yield? || Next(g, st).halt == Drained ==> Inv(g, s, Next(g, st).state)
    ensures Next(g, st).Stop? && Next(g, st).halt.Missing? ==> exists t :: Reachable(g, s, t) && t !in g.vertices
    decreases |st.pending|
  {
    if |st.pending| > 0 {
      var key := st.pending[0];
      var rest := st.pending[1..];
      assert st.pending == [key] + rest;
      if key !in g.vertices {
        assert Reachable(g, s, key);
      } else if g.vertices[key].key in st.visited {
        DropVisitedInv(g, s, st, rest, key);
        NextInv(g, s, st.(pending := rest));
      } else {
        YieldInv(g, s, st);
      }
    }
  }

  function Iterate<V>(g: Graph<V>, st: Frontier): (w: Walk)
    requires Valid(g)
    ensures forall i :: 0 <= i < |w.keys| ==> w.keys[i] in g.vertices && w.keys[i] !in st.visited
    ensures Distinct(w.keys)
    ensures w.halt == Drained || w.halt.Missing?
    decreases |g.vertices.Keys - st.visited|
  {
    match Next(g, st)
    case Stop(_, halt) => Walk([], halt)
    case Yield(st', v) =>
      assert v.key in g.vertices;
      Shrinks(g.vertices.Keys, st.visited, v.key);
      var rest := Iterate(g, st');
      ConsFresh(v.key, rest.keys, st.visited, g.vertices.Keys);
      Walk([v.key] + rest.keys, rest.halt)
  }

  lemma {:induction false} IterateInv<V>(g: Graph<V>, s: Key, st: Frontier)
    requires Valid(g) && Inv(g, s, st)
    ensures forall i :: 0 <= i < |Iterate(g, st).keys| ==> Reachable(g, s, Iterate(g, st).keys[i])
    ensures Iterate(g, st).halt == Drained ==> forall t :: Reachable(g, s, t) ==> t in st.visited || t in Iterate(g, st).keys
    ensures Iterate(g, st).halt.Missing? ==> exists t :: Reachable(g, s, t) && t !in g.vertices
    decreases |g.vertices.Keys - st.visited|
  {
    NextInv(g, s, st);
    var w := Iterate(g, st);
    match Next(g, st)
    case Stop(st', halt) =>
      assert w == Walk([], halt);
      if halt == Drained { DrainedInvComplete(g, s, st'); }
    case Yield(st', v) =>
      assert v.key in g.vertices;
      Shrinks(g.vertices.Keys, st.visited, v.key);
      var rest := Iterate(g, st');
      assert w == Walk([v.key] + rest.keys, rest.halt);
      IterateInv(g, s, st');
      assert Reachable(g, s, v.key);
      ExtendWalk(g, s, v.key, rest.keys, st.visited, st'.visited);
  }

  /** `for v in graph.bfs(&from)`: no key twice, only keys reachable from
      `from`, all of them when the queue drains; the loop ends early exactly
      when some key reachable from `from` has no vertex, and an absent `from`
      gives nothing at all. */
  function Bfs<V>(g: Graph<V>, from: Key): (w: Walk)
    requires Valid(g)
    ensures Distinct(w.keys)
    ensures forall i :: 0 <= i < |w.keys| ==> Reachable(g, from, w.keys[i])
    ensures w.halt == Drained ==> forall t :: Reachable(g, from, t) ==> t in w.keys
    ensures w.halt.Missing? <==> exists t :: Reachable(g, from, t) && t !in g.vertices
    ensures !Contains(g, from) ==> w == Walk([], Missing(from))
  {
    StartInv(g, from);
    IterateInv(g, from, Start(from));
    Iterate(g, Start(from))
  }
}
