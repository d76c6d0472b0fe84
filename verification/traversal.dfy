/** What the four traversal iterators (src/graph/iterators) share: the
    iterator state as a frontier of pending keys plus a visited set, the
    result of one `next` call, the key sequence a `for` loop collects before
    the first `None`, and reachability through stored adjacency lists. */
module Traversal {
  import opened Results
  import opened Edges
  import Vertices
  import opened Graphs

  /** `stack`/`queue` (top of the stack and back of the queue are both the
      sequence's end) and `visited`. */
  datatype Frontier = Frontier(pending: seq<Key>, visited: set<Key>)

  /** The state `dfs`, `bfs`, `dfs_mut` and `bfs_mut` construct (src/graph/mod.rs). */
  function Start(from: Key): (st: Frontier)
    ensures st.pending == [from] && st.visited == {}
  {
    Frontier([from], {})
  }

  /** Why a walk stopped: the frontier ran dry, a popped key had no vertex and
      `next` answered `None`, or `next` panicked. */
  datatype Halt = Drained | Missing(key: Key) | Panic(reason: string)

  /** One `next` call: it yields a vertex, or it stops; either way the state it leaves. */
  datatype Step<V> = Yield(state: Frontier, vertex: Vertices.Vertex<V>) | Stop(state: Frontier, halt: Halt)

  /** The keys a `for` loop over the iterator sees, and how the loop ended. */
  datatype Walk = Walk(keys: seq<Key>, halt: Halt)

  predicate Distinct(s: seq<Key>) {
    forall i, j :: 0 <= i < j < |s| ==> s[i] != s[j]
  }

  /** `b` is the target of an edge stored in `a`'s list. */
  ghost predicate Succ<V>(g: Graph<V>, a: Key, b: Key) {
    a in g.vertices && b in Vertices.Targets(g.vertices[a].adj)
  }

  ghost predicate IsPath<V>(g: Graph<V>, p: seq<Key>) {
    |p| > 0 && forall i :: 0 <= i < |p| - 1 ==> Succ(g, p[i], p[i + 1])
  }

  /** A path of stored edges leads from `s` to `t` (possibly of length zero). */
  ghost predicate Reachable<V>(g: Graph<V>, s: Key, t: Key) {
    exists p :: IsPath(g, p) && p[0] == s && p[|p| - 1] == t
  }

  lemma ReachableRefl<V>(g: Graph<V>, s: Key)
    ensures Reachable(g, s, s)
  {
    assert IsPath(g, [s]);
  }

  lemma ReachableStep<V>(g: Graph<V>, s: Key, a: Key, b: Key)
    requires Reachable(g, s, a) && Succ(g, a, b)
    ensures Reachable(g, s, b)
  {
    var p :| IsPath(g, p) && p[0] == s && p[|p| - 1] == a;
    var q := p + [b];
    assert IsPath(g, q);
    assert q[|q| - 1] == b;
  }

  /** Every target of a vertex in `c` is in `c` again. */
  ghost predicate Closed<V>(g: Graph<V>, c: set<Key>) {
    forall u, t :: u in c && Succ(g, u, t) ==> t in c
  }

  lemma {:induction false} ClosedPath<V>(g: Graph<V>, c: set<Key>, p: seq<Key>)
    requires Closed(g, c) && IsPath(g, p) && p[0] in c
    ensures p[|p| - 1] in c
    decreases |p|
  {
    if |p| > 1 {
      var q := p[..|p| - 1];
      assert IsPath(g, q);
      ClosedPath(g, c, q);
      assert Succ(g, p[|p| - 2], p[|p| - 1]);
    }
  }

  /** A closed set holding the start holds everything reachable from it. */
  lemma ClosedHoldsReachable<V>(g: Graph<V>, c: set<Key>, s: Key)
    requires Closed(g, c) && s in c
    ensures forall t :: Reachable(g, s, t) ==> t in c
  {
    forall t | Reachable(g, s, t) ensures t in c {
      var p :| IsPath(g, p) && p[0] == s && p[|p| - 1] == t;
      ClosedPath(g, c, p);
    }
  }

  /** Yielding a reachable `k` ahead of a walk whose keys are reachable keeps
      them all reachable, and the walk still covers what it covered from the
      state that had `k` marked. */
  lemma ExtendWalk<V>(g: Graph<V>, s: Key, k: Key, keys: seq<Key>, before: set<Key>, after: set<Key>)
    requires Reachable(g, s, k) && after == before + {k}
    requires forall i :: 0 <= i < |keys| ==> Reachable(g, s, keys[i])
    ensures forall i :: 0 <= i < |[k] + keys| ==> Reachable(g, s, ([k] + keys)[i])
    ensures (forall t :: Reachable(g, s, t) ==> t in after || t in keys)
            ==> forall t :: Reachable(g, s, t) ==> t in before || t in [k] + keys
  {
    forall i | 0 <= i < |[k] + keys| ensures Reachable(g, s, ([k] + keys)[i]) {
      if i > 0 { assert ([k] + keys)[i] == keys[i - 1]; }
    }
  }

  /** What every reachable state of an iterator started at `s` satisfies:
      everything pending or visited is reachable from `s`, visited keys have
      vertices, `s` itself is pending or visited, and every target of a visited
      vertex is pending or visited. */
  ghost predicate Inv<V>(g: Graph<V>, s: Key, st: Frontier) {
    && (forall i :: 0 <= i < |st.pending| ==> Reachable(g, s, st.pending[i]))
    && (forall k :: k in st.visited ==> Reachable(g, s, k) && k in g.vertices)
    && (s in st.visited || s in st.pending)
    && (forall u, t :: u in st.visited && Succ(g, u, t) ==> t in st.visited || t in st.pending)
  }

  lemma StartInv<V>(g: Graph<V>, s: Key)
    ensures Inv(g, s, Start(s))
  {
    ReachableRefl(g, s);
  }

  /** Once nothing is pending, the visited set holds everything reachable. */
  lemma DrainedInvComplete<V>(g: Graph<V>, s: Key, st: Frontier)
    requires Inv(g, s, st) && st.pending == []
    ensures forall t :: Reachable(g, s, t) ==> t in st.visited
  {
    ClosedHoldsReachable(g, st.visited, s);
  }

  /** Taking a visited key off the frontier keeps the invariant. */
  lemma DropVisitedInv<V>(g: Graph<V>, s: Key, st: Frontier, rest: seq<Key>, k: Key)
    requires Inv(g, s, st) && k in st.visited
    requires multiset(st.pending) == multiset(rest) + multiset{k}
    ensures Inv(g, s, Frontier(rest, st.visited))
  {
    forall i | 0 <= i < |rest| ensures Reachable(g, s, rest[i]) {
      assert rest[i] in multiset(st.pending);
    }
    forall t | t in st.pending && t != k ensures t in rest {
      assert t in multiset(st.pending);
      assert multiset(st.pending)[t] == multiset(rest)[t];
    }
  }

  /** Visiting an unvisited or visited key `k` that has a vertex, and pushing
      `pushed`, which holds every target of `k` not yet visited, keeps the invariant. */
  lemma VisitInv<V>(g: Graph<V>, s: Key, st: Frontier, rest: seq<Key>, k: Key, pushed: seq<Key>)
    requires Inv(g, s, st) && k in g.vertices && g.vertices[k].key == k
    requires multiset(st.pending) == multiset(rest) + multiset{k}
    requires forall t :: t in pushed ==> t in Vertices.Targets(g.vertices[k].adj)
    requires forall t :: t in Vertices.Targets(g.vertices[k].adj) ==> t in pushed || t in st.visited + {k}
    ensures Inv(g, s, Frontier(rest + pushed, st.visited + {k}))
  {
    assert k in st.pending by { assert k in multiset(st.pending); }
    var i :| 0 <= i < |st.pending| && st.pending[i] == k;
    assert Reachable(g, s, k);
    var p := rest + pushed;
    forall j | 0 <= j < |p| ensures Reachable(g, s, p[j]) {
      if j < |rest| {
        assert rest[j] in multiset(st.pending);
      } else {
        assert p[j] in pushed;
        assert Succ(g, k, p[j]);
        ReachableStep(g, s, k, p[j]);
      }
    }
    forall t | t in st.pending && t != k ensures t in rest {
      assert t in multiset(st.pending);
      assert multiset(st.pending)[t] == multiset(rest)[t];
    }
    forall u, t | u in st.visited + {k} && Succ(g, u, t)
      ensures t in st.visited + {k} || t in p
    {
      if u != k && t !in st.visited && t != k {
        assert t in st.pending;
        assert t in rest;
      }
    }
  }

  /** A walk of fresh distinct keys stays fresh and distinct when a key it
      avoids is put in front. */
  lemma ConsFresh(k: Key, keys: seq<Key>, before: set<Key>, dom: set<Key>)
    requires k in dom && k !in before && Distinct(keys)
    requires forall i :: 0 <= i < |keys| ==> keys[i] in dom && keys[i] !in before + {k}
    ensures forall i :: 0 <= i < |[k] + keys| ==> ([k] + keys)[i] in dom && ([k] + keys)[i] !in before
    ensures Distinct([k] + keys)
  {
    forall i | 0 < i < |[k] + keys| ensures ([k] + keys)[i] == keys[i - 1] { }
  }

  lemma Shrinks(a: set<Key>, b: set<Key>, k: Key)
    requires k in a && k !in b
    ensures |a - (b + {k})| < |a - b|
  {
    assert a - (b + {k}) == (a - b) - {k};
  }

  /** The targets a mutable iterator pushes: those not visited, in adjacency order. */
  function Unvisited(ts: seq<Key>, visited: set<Key>): (r: seq<Key>)
    ensures forall t :: t in r <==> t in ts && t !in visited
    ensures |r| <= |ts|
  {
    if |ts| == 0 then []
    else if ts[0] in visited then Unvisited(ts[1..], visited)
    else [ts[0]] + Unvisited(ts[1..], visited)
  }

  /** One step of the filter: a visited head is dropped, an unvisited one kept in front. */
  lemma UnvisitedCons(t: Key, ts: seq<Key>, visited: set<Key>)
    ensures Unvisited([t] + ts, visited) == (if t in visited then [] else [t]) + Unvisited(ts, visited)
  {
    assert ([t] + ts)[1..] == ts;
  }

  /** The filter distributes over concatenation, so it keeps adjacency order. */
  lemma {:induction false} UnvisitedAppend(a: seq<Key>, b: seq<Key>, visited: set<Key>)
    ensures Unvisited(a + b, visited) == Unvisited(a, visited) + Unvisited(b, visited)
    decreases |a|
  {
    if |a| == 0 {
      assert a + b == b;
    } else {
      assert a + b == [a[0]] + (a[1..] + b);
      assert a == [a[0]] + a[1..];
      UnvisitedCons(a[0], a[1..] + b, visited);
      UnvisitedCons(a[0], a[1..], visited);
      UnvisitedAppend(a[1..], b, visited);
    }
  }

  /** How many pending entries are already visited. */
  function CountIn(s: seq<Key>, visited: set<Key>): nat {
    if |s| == 0 then 0 else (if s[0] in visited then 1 else 0) + CountIn(s[1..], visited)
  }

  lemma {:induction false} CountInAppend(a: seq<Key>, b: seq<Key>, visited: set<Key>)
    ensures CountIn(a + b, visited) == CountIn(a, visited) + CountIn(b, visited)
    decreases |a|
  {
    if |a| == 0 {
      assert a + b == b;
    } else {
      assert (a + b)[0] == a[0];
      assert (a + b)[1..] == a[1..] + b;
      CountInAppend(a[1..], b, visited);
    }
  }

  lemma {:induction false} CountInNone(s: seq<Key>, visited: set<Key>)
    requires forall i :: 0 <= i < |s| ==> s[i] !in visited
    ensures CountIn(s, visited) == 0
    decreases |s|
  {
    if |s| > 0 { CountInNone(s[1..], visited); }
  }

  /** Popping a visited entry and pushing only unvisited ones lowers the count. */
  lemma CountInAfterVisit(rest: seq<Key>, k: Key, ts: seq<Key>, visited: set<Key>)
    requires k in visited
    ensures CountIn(rest + Unvisited(ts, visited), visited) < CountIn(rest + [k], visited)
    ensures CountIn(rest + Unvisited(ts, visited), visited) < CountIn([k] + rest, visited)
  {
    var u := Unvisited(ts, visited);
    CountInAppend(rest, u, visited);
    CountInNone(u, visited);
    CountInAppend(rest, [k], visited);
    CountInAppend([k], rest, visited);
  }
}
