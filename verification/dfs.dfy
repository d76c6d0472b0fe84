/** `DfsIterator::next` (src/graph/iterators/dfs/iter.rs): pop the stack top,
    discard it if already visited, otherwise mark it, push all its targets in
    adjacency order and yield it. A popped key without a vertex panics at `unwrap`. */
module Dfs {
  import opened Results
  import opened Edges
  import Vertices
  import opened Graphs
  import opened Traversal

  /** Every stack entry from index `j` up was popped and discarded as already visited. */
  ghost predicate SkippedFrom<V>(g: Graph<V>, st: Frontier, j: nat) {
    forall i :: j <= i < |st.pending| ==> st.pending[i] in g.vertices && g.vertices[st.pending[i]].key in st.visited
  }

  /** The stack length left below the entry a step popped last: for a yield,
      the stack minus the pushed targets; for a stop, the whole stack. */
  ghost function Below<V>(r: Step<V>): int {
    if r.Yield? then |r.state.pending| - |Vertices.Targets(r.vertex.adj)| else |r.state.pending|
  }

  /** Popping a visited top entry extends every skipped run down to the rest. */
  lemma SkipTop<V>(g: Graph<V>, st: Frontier)
    requires |st.pending| > 0
    requires st.pending[|st.pending| - 1] in g.vertices
    requires g.vertices[st.pending[|st.pending| - 1]].key in st.visited
    ensures forall j :: 0 <= j <= |st.pending| - 1 && SkippedFrom(g, st.(pending := st.pending[..|st.pending| - 1]), j)
                        ==> SkippedFrom(g, st, j)
  {
  }

  function Next<V>(g: Graph<V>, st: Frontier): (r: Step<V>)
    ensures r.Stop? ==> r.state.visited == st.visited && (r.halt == Drained || r.halt == Panic(UnwrapNone))
    ensures r.Stop? && r.halt == Drained ==> r.state.pending == [] && SkippedFrom(g, st, 0)
    ensures r.Stop? && r.halt.Panic? ==>
              Below(r) < |st.pending| && st.pending[Below(r)] !in g.vertices && SkippedFrom(g, st, Below(r) + 1)
              && r.state.pending == st.pending[..Below(r)]
    ensures r.Yield? ==> r.vertex.key !in st.visited && r.state.visited == st.visited + {r.vertex.key}
    ensures r.Yield? ==>
              0 <= Below(r) < |st.pending| && st.pending[Below(r)] in g.vertices
              && r.vertex == g.vertices[st.pending[Below(r)]] && SkippedFrom(g, st, Below(r) + 1)
              && r.state.pending == st.pending[..Below(r)] + Vertices.Targets(r.vertex.adj)
    decreases |st.pending|
  {
    if |st.pending| == 0 then Stop(st, Drained)
    else
      var top := |st.pending| - 1;
      var key := st.pending[top];
      var rest := st.pending[..top];
      if key !in g.vertices then Stop(st.(pending := rest), Panic(UnwrapNone))
      else
        var v := g.vertices[key];
        if v.key in st.visited then
          SkipTop(g, st);
          Next(g, st.(pending := rest))
        else Yield(Frontier(rest + Vertices.Targets(v.adj), st.visited + {v.key}), v)
  }

  /** Discarding a visited stack top keeps the invariant and leaves the step to the rest. */
  lemma SkipInv<V>(g: Graph<V>, s: Key, st: Frontier)
    requires Valid(g) && Inv(g, s, st)
    requires |st.pending| > 0 && st.pending[|st.pending| - 1] in g.vertices
    requires g.vertices[st.pending[|st.pending| - 1]].key in st.visited
    ensures Next(g, st) == Next(g, st.(pending := st.pending[..|st.pending| - 1]))
    ensures Inv(g, s, st.(pending := st.pending[..|st.pending| - 1]))
  {
    var top := |st.pending| - 1;
    var key := st.pending[top];
    var rest := st.pending[..top];
    assert st.pending == rest + [key];
    assert g.vertices[key].key == key;
    DropVisitedInv(g, s, st, rest, key);
  }

  /** Visiting the stack top keeps the invariant. */
  lemma YieldInv<V>(g: Graph<V>, s: Key, st: Frontier)
    requires Valid(g) && Inv(g, s, st)
    requires |st.pending| > 0 && st.pending[|st.pending| - 1] in g.vertices
    requires g.vertices[st.pending[|st.pending| - 1]].key !in st.visited
    ensures Next(g, st).Yield? && Inv(g, s, Next(g, st).state)
  {
    var top := |st.pending| - 1;
    var key := st.pending[top];
    var rest := st.pending[..top];
    assert st.pending == rest + [key];
    var ts := Vertices.Targets(g.vertices[key].adj);
    assert g.vertices[key].key == key;
    assert Next(g, st) == Yield(Frontier(rest + ts, st.visited + {key}), g.vertices[key]);
    VisitInv(g, s, st, rest, key, ts);
  }

  /** One call keeps the iterator invariant whenever it does not panic. */
  lemma {:induction false} NextInv<V>(g: Graph<V>, s: Key, st: Frontier)
    requires Valid(g) && Inv(g, s, st)
    ensures Next(g, st).Yield? || Next(g, st).halt == Drained ==> Inv(g, s, Next(g, st).state)
    ensures Next(g, st).Stop? && Next(g, st).halt.Panic? ==> exists t :: Reachable(g, s, t) && t !in g.vertices
    decreases |st.pending|
  {
    if |st.pending| > 0 {
      var top := |st.pending| - 1;
      var key := st.pending[top];
      var rest := st.pending[..top];
      if key !in g.vertices {
        assert Next(g, st) == Stop(st.(pending := rest), Panic(UnwrapNone));
        assert Reachable(g, s, st.pending[top]);
      } else if g.vertices[key].key in st.visited {
        SkipInv(g, s, st);
        NextInv(g, s, st.(pending := rest));
      } else {
        YieldInv(g, s, st);
      }
    }
  }

  /** The keys a `for` loop collects from the state `st` on. */
  function Iterate<V>(g: Graph<V>, st: Frontier): (w: Walk)
    requires Valid(g)
    ensures forall i :: 0 <= i < |w.keys| ==> w.keys[i] in g.vertices && w.keys[i] !in st.visited
    ensures Distinct(w.keys)
    ensures w.halt == Drained || w.halt == Panic(UnwrapNone)
    decreases |g.vertices.Keys - st.visited|
  {
    match Next(g, st)
    case Stop(_, halt) => Walk([], halt)
    case Yield(st', v) =>
      assert v.key in g.vertices;
      Shrinks(g.vertices.Keys, st.visited, v.key);
      var rest := Iterate(g, st');
      ConsFresh(v.key, rest.keys, st.visited, g.vertices.Keys);
      Walk([v.key] + rest.keys, rest.halt)
  }

  lemma {:induction false} IterateInv<V>(g: Graph<V>, s: Key, st: Frontier)
    requires Valid(g) && Inv(g, s, st)
    ensures forall i :: 0 <= i < |Iterate(g, st).keys| ==> Reachable(g, s, Iterate(g, st).keys[i])
    ensures Iterate(g, st).halt == Drained ==> forall t :: Reachable(g, s, t) ==> t in st.visited || t in Iterate(g, st).keys
    ensures Iterate(g, st).halt.Panic? ==> exists t :: Reachable(g, s, t) && t !in g.vertices
    decreases |g.vertices.Keys - st.visited|
  {
    NextInv(g, s, st);
    var w := Iterate(g, st);
    match Next(g, st)
    case Stop(st', halt) =>
      assert w == Walk([], halt);
      if halt == Drained { DrainedInvComplete(g, s, st'); }
    case Yield(st', v) =>
      assert v.key in g.vertices;
      Shrinks(g.vertices.Keys, st.visited, v.key);
      var rest := Iterate(g, st');
      assert w == Walk([v.key] + rest.keys, rest.halt);
      IterateInv(g, s, st');
      assert Reachable(g, s, v.key);
      ExtendWalk(g, s, v.key, rest.keys, st.visited, st'.visited);
  }

  /** `for v in graph.dfs(&from)`: no key twice, only keys reachable from
      `from`, all of them when the stack drains; it panics exactly when some
      key reachable from `from` has no vertex (an absent `from` included). */
  function Dfs<V>(g: Graph<V>, from: Key): (w: Walk)
    requires Valid(g)
    ensures Distinct(w.keys)
    ensures forall i :: 0 <= i < |w.keys| ==> Reachable(g, from, w.keys[i])
    ensures w.halt == Drained ==> forall t :: Reachable(g, from, t) ==> t in w.keys
    ensures w.halt.Panic? <==> exists t :: Reachable(g, from, t) && t !in g.vertices
    ensures !Contains(g, from) ==> w == Walk([], Panic(UnwrapNone))
  {
    StartInv(g, from);
    IterateInv(g, from, Start(from));
    Iterate(g, Start(from))
  }
}
