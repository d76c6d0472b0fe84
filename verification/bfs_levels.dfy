/** Breadth-first order (src/graph/iterators/bfs/iter.rs): `BfsIterator`
    yields vertices in order of their distance from the start. Each queue
    entry is given the level it was queued at (the start 0, the targets of a
    vertex yielded at level `d` the level `d + 1`); these labels are ghost
    and only carry the proof. */
module BfsLevels {
  import opened Edges
  import Vertices
  import opened Graphs
  import opened Traversal
  import Bfs

  // ---------------------------------------------------------------- distance

  /** `t` can be reached from `s` over at most `n` stored edges. */
  ghost predicate Within<V>(g: Graph<V>, s: Key, t: Key, n: nat)
    decreases n
  {
    if n == 0 then t == s
    else Within(g, s, t, n - 1) || exists u :: Within(g, s, u, n - 1) && Succ(g, u, t)
  }

  lemma {:induction false} WithinMono<V>(g: Graph<V>, s: Key, t: Key, n: nat, m: nat)
    requires n <= m && Within(g, s, t, n)
    ensures Within(g, s, t, m)
    decreases m
  {
    if n < m {
      WithinMono(g, s, t, n, m - 1);
    }
  }

  lemma {:induction false} WithinReachable<V>(g: Graph<V>, s: Key, t: Key, n: nat)
    requires Within(g, s, t, n)
    ensures Reachable(g, s, t)
    decreases n
  {
    if n == 0 {
      ReachableRefl(g, s);
    } else if Within(g, s, t, n - 1) {
      WithinReachable(g, s, t, n - 1);
    } else {
      var u :| Within(g, s, u, n - 1) && Succ(g, u, t);
      WithinReachable(g, s, u, n - 1);
      ReachableStep(g, s, u, t);
    }
  }

  lemma {:induction false} PathWithin<V>(g: Graph<V>, p: seq<Key>)
    requires IsPath(g, p)
    ensures Within(g, p[0], p[|p| - 1], |p| - 1)
    decreases |p|
  {
    if |p| > 1 {
      var q := p[..|p| - 1];
      assert IsPath(g, q);
      PathWithin(g, q);
      assert Succ(g, q[|q| - 1], p[|p| - 1]);
    }
  }

  /** Being within some number of steps is being reachable. */
  lemma ReachableIffWithin<V>(g: Graph<V>, s: Key, t: Key)
    ensures Reachable(g, s, t) <==> exists n: nat :: Within(g, s, t, n)
  {
    if Reachable(g, s, t) {
      var p :| IsPath(g, p) && p[0] == s && p[|p| - 1] == t;
      PathWithin(g, p);
      assert Within(g, s, t, |p| - 1);
    } else {
      forall n: nat ensures !Within(g, s, t, n) {
        if Within(g, s, t, n) {
          WithinReachable(g, s, t, n);
        }
      }
    }
  }

  /** Keys in order of distance from `s`: whatever bound a later key is
      within, every earlier key is within it too. */
  ghost predicate ByDistance<V>(g: Graph<V>, s: Key, keys: seq<Key>) {
    forall i, j, n: nat :: 0 <= i < j < |keys| && Within(g, s, keys[j], n) ==> Within(g, s, keys[i], n)
  }

  // ---------------------------------------------------------------- labelled queue

  /** The queued keys whose label is at most `b`. */
  ghost function Upto(p: seq<Key>, lab: seq<nat>, b: nat): set<Key>
    requires |p| == |lab|
    decreases |p|
  {
    if |p| == 0 then {} else (if lab[0] <= b then {p[0]} else {}) + Upto(p[1..], lab[1..], b)
  }

  ghost function Fill(c: nat, k: nat): (r: seq<nat>)
    ensures |r| == k && forall i :: 0 <= i < k ==> r[i] == c
  {
    seq(k, _ => c)
  }

  lemma {:induction false} UptoAppend(p: seq<Key>, l: seq<nat>, q: seq<Key>, m: seq<nat>, b: nat)
    requires |p| == |l| && |q| == |m|
    ensures Upto(p + q, l + m, b) == Upto(p, l, b) + Upto(q, m, b)
    decreases |p|
  {
    if |p| == 0 {
      assert p + q == q && l + m == m;
    } else {
      assert (p + q)[1..] == p[1..] + q;
      assert (l + m)[1..] == l[1..] + m;
      UptoAppend(p[1..], l[1..], q, m, b);
    }
  }

  lemma {:induction false} UptoAbove(p: seq<Key>, l: seq<nat>, b: nat)
    requires |p| == |l| && forall i :: 0 <= i < |l| ==> b < l[i]
    ensures Upto(p, l, b) == {}
    decreases |p|
  {
    if |p| > 0 {
      UptoAbove(p[1..], l[1..], b);
    }
  }

  lemma {:induction false} UptoAll(q: seq<Key>, c: nat, b: nat)
    requires c <= b
    ensures forall t :: t in q ==> t in Upto(q, Fill(c, |q|), b)
    decreases |q|
  {
    if |q| > 0 {
      assert Fill(c, |q|)[1..] == Fill(c, |q| - 1);
      UptoAll(q[1..], c, b);
      assert forall t :: t in q ==> t == q[0] || t in q[1..];
    }
  }

  /** Labels never decrease along the queue and span at most two levels. */
  ghost predicate Shaped(p: seq<Key>, lab: seq<nat>) {
    && |lab| == |p|
    && (forall i, j :: 0 <= i < j < |lab| ==> lab[i] <= lab[j])
    && (forall i :: 0 <= i < |lab| ==> lab[i] <= lab[0] + 1)
  }

  /** Each entry is within its label's number of steps. */
  ghost predicate Labelled<V>(g: Graph<V>, s: Key, p: seq<Key>, lab: seq<nat>)
    requires |p| == |lab|
  {
    forall i :: 0 <= i < |p| ==> Within(g, s, p[i], lab[i])
  }

  /** Every key nearer than the front's level has been visited. */
  ghost predicate Settled<V>(g: Graph<V>, s: Key, st: Frontier, lab: seq<nat>) {
    |lab| > 0 && lab[0] > 0 ==> forall t :: Within(g, s, t, lab[0] - 1) ==> t in st.visited
  }

  /** The start and the targets of every visited vertex are visited, or
      queued no later than one level past that vertex. */
  ghost predicate Spread<V>(g: Graph<V>, s: Key, st: Frontier, lab: seq<nat>)
    requires |st.pending| == |lab|
  {
    && (forall u, t, n: nat :: u in st.visited && Within(g, s, u, n) && Succ(g, u, t) ==>
          t in st.visited || t in Upto(st.pending, lab, n + 1))
    && (s in st.visited || s in Upto(st.pending, lab, 0))
  }

  ghost predicate LInv<V>(g: Graph<V>, s: Key, st: Frontier, lab: seq<nat>) {
    Shaped(st.pending, lab) && Labelled(g, s, st.pending, lab) && Settled(g, s, st, lab) && Spread(g, s, st, lab)
  }

  lemma StartLevels<V>(g: Graph<V>, s: Key)
    ensures LInv(g, s, Start(s), [0])
  {
    assert Upto([s], [0], 0) == {s};
  }

  /** When the front is the last entry of its level, every key within that
      level is visited or is the front itself. */
  lemma LevelUp<V>(g: Graph<V>, s: Key, st: Frontier, lab: seq<nat>)
    requires LInv(g, s, st, lab) && |lab| > 0
    requires forall i :: 1 <= i < |lab| ==> lab[0] < lab[i]
    ensures forall t :: Within(g, s, t, lab[0]) ==> t in st.visited || t == st.pending[0]
  {
    var p := st.pending;
    var d := lab[0];
    UptoAbove(p[1..], lab[1..], d);
    assert Upto(p, lab, d) == {p[0]};
    forall t | Within(g, s, t, d) ensures t in st.visited || t == p[0] {
      if d == 0 {
        UptoAbove(p[1..], lab[1..], 0);
      } else if !Within(g, s, t, d - 1) {
        var u :| Within(g, s, u, d - 1) && Succ(g, u, t);
        assert u in st.visited;
      }
    }
  }

  // ---------------------------------------------------------------- one step

  /** Discarding a visited front keeps the labelled invariant. */
  lemma PopVisited<V>(g: Graph<V>, s: Key, st: Frontier, lab: seq<nat>)
    requires LInv(g, s, st, lab) && |st.pending| > 0 && st.pending[0] in st.visited
    ensures LInv(g, s, st.(pending := st.pending[1..]), lab[1..])
  {
    var p := st.pending;
    var st' := st.(pending := p[1..]);
    if |lab| > 1 && lab[1] != lab[0] {
      LevelUp(g, s, st, lab);
    }
    assert Settled(g, s, st', lab[1..]);
    forall b: nat ensures Upto(p, lab, b) <= {p[0]} + Upto(p[1..], lab[1..], b) { }
  }

  lemma YieldShaped(p: seq<Key>, lab: seq<nat>, ts: seq<Key>)
    requires Shaped(p, lab) && |p| > 0
    ensures Shaped(p[1..] + ts, lab[1..] + Fill(lab[0] + 1, |ts|))
    ensures |ts| + |p| > 1 ==> lab[0] <= (lab[1..] + Fill(lab[0] + 1, |ts|))[0]
  {
    var lab' := lab[1..] + Fill(lab[0] + 1, |ts|);
    forall i, j | 0 <= i < j < |lab'| ensures lab'[i] <= lab'[j] {
      if j < |lab| - 1 {
        assert lab'[i] == lab[i + 1] && lab'[j] == lab[j + 1];
      }
    }
  }

  lemma YieldLabelled<V>(g: Graph<V>, s: Key, p: seq<Key>, lab: seq<nat>)
    requires |p| == |lab| && |p| > 0 && Labelled(g, s, p, lab) && p[0] in g.vertices
    ensures var ts := Vertices.Targets(g.vertices[p[0]].adj);
      Labelled(g, s, p[1..] + ts, lab[1..] + Fill(lab[0] + 1, |ts|))
  {
    var ts := Vertices.Targets(g.vertices[p[0]].adj);
    var p' := p[1..] + ts;
    var lab' := lab[1..] + Fill(lab[0] + 1, |ts|);
    forall i | 0 <= i < |p'| ensures Within(g, s, p'[i], lab'[i]) {
      if i >= |p| - 1 {
        assert Succ(g, p[0], p'[i]);
      }
    }
  }

  lemma YieldSettled<V>(g: Graph<V>, s: Key, st: Frontier, lab: seq<nat>, ts: seq<Key>)
    requires LInv(g, s, st, lab) && |lab| > 0
    ensures Settled(g, s, Frontier(st.pending[1..] + ts, st.visited + {st.pending[0]}), lab[1..] + Fill(lab[0] + 1, |ts|))
  {
    var lab' := lab[1..] + Fill(lab[0] + 1, |ts|);
    if |lab'| > 0 && lab'[0] != lab[0] {
      LevelUp(g, s, st, lab);
    }
  }

  lemma YieldSpread<V>(g: Graph<V>, s: Key, st: Frontier, lab: seq<nat>)
    requires LInv(g, s, st, lab) && |lab| > 0
    requires st.pending[0] in g.vertices && st.pending[0] !in st.visited
    ensures var key := st.pending[0]; var ts := Vertices.Targets(g.vertices[key].adj);
      Spread(g, s, Frontier(st.pending[1..] + ts, st.visited + {key}), lab[1..] + Fill(lab[0] + 1, |ts|))
  {
    var p := st.pending;
    var key := p[0];
    var d := lab[0];
    var ts := Vertices.Targets(g.vertices[key].adj);
    var st' := Frontier(p[1..] + ts, st.visited + {key});
    var lab' := lab[1..] + Fill(d + 1, |ts|);
    forall b: nat ensures Upto(p, lab, b) <= {key} + Upto(st'.pending, lab', b) {
      UptoAppend(p[1..], lab[1..], ts, Fill(d + 1, |ts|), b);
    }
    forall u, t, n: nat | u in st'.visited && Within(g, s, u, n) && Succ(g, u, t)
      ensures t in st'.visited || t in Upto(st'.pending, lab', n + 1)
    {
      if u == key && u !in st.visited {
        if n < d {
          WithinMono(g, s, key, n, d - 1);
        }
        UptoAll(ts, d + 1, n + 1);
        UptoAppend(p[1..], lab[1..], ts, Fill(d + 1, |ts|), n + 1);
      }
    }
  }

  /** Visiting the front keeps the labelled invariant; the front is at exactly
      its label's distance. */
  lemma YieldStep<V>(g: Graph<V>, s: Key, st: Frontier, lab: seq<nat>)
    requires LInv(g, s, st, lab) && |st.pending| > 0
    requires st.pending[0] in g.vertices && st.pending[0] !in st.visited
    ensures var key := st.pending[0]; var ts := Vertices.Targets(g.vertices[key].adj);
      var lab' := lab[1..] + Fill(lab[0] + 1, |ts|);
      && LInv(g, s, Frontier(st.pending[1..] + ts, st.visited + {key}), lab')
      && Within(g, s, key, lab[0]) && (lab[0] > 0 ==> !Within(g, s, key, lab[0] - 1))
      && (|lab'| > 0 ==> lab[0] <= lab'[0])
  {
    var ts := Vertices.Targets(g.vertices[st.pending[0]].adj);
    YieldShaped(st.pending, lab, ts);
    YieldLabelled(g, s, st.pending, lab);
    YieldSettled(g, s, st, lab, ts);
    YieldSpread(g, s, st, lab);
  }

  /** What one call of `next` leaves behind: a yielded vertex lies at exactly
      level `d`, and the queue left behind, labelled `lab'`, starts at level
      `d` or later. */
  ghost predicate YieldsAt<V>(g: Graph<V>, s: Key, r: Step<V>, lab': seq<nat>, d: nat) {
    r.Yield? ==>
      && LInv(g, s, r.state, lab')
      && Within(g, s, r.vertex.key, d)
      && (d > 0 ==> !Within(g, s, r.vertex.key, d - 1))
      && (|lab'| > 0 ==> d <= lab'[0])
  }

  lemma NextSkips<V>(g: Graph<V>, st: Frontier)
    requires |st.pending| > 0 && st.pending[0] in g.vertices && g.vertices[st.pending[0]].key in st.visited
    ensures Bfs.Next(g, st) == Bfs.Next(g, st.(pending := st.pending[1..]))
  {
  }

  lemma NextYields<V>(g: Graph<V>, st: Frontier)
    requires Valid(g) && |st.pending| > 0 && st.pending[0] in g.vertices && st.pending[0] !in st.visited
    ensures var key := st.pending[0];
      Bfs.Next(g, st) == Yield(Frontier(st.pending[1..] + Vertices.Targets(g.vertices[key].adj), st.visited + {key}), g.vertices[key])
  {
    assert g.vertices[st.pending[0]].key == st.pending[0];
  }

  lemma {:induction false} NextLevels<V>(g: Graph<V>, s: Key, st: Frontier, lab: seq<nat>) returns (lab': seq<nat>, d: nat)
    requires Valid(g) && LInv(g, s, st, lab)
    ensures YieldsAt(g, s, Bfs.Next(g, st), lab', d)
    decreases |st.pending|
  {
    lab', d := lab, 0;
    if |st.pending| > 0 && st.pending[0] in g.vertices {
      var key := st.pending[0];
      assert g.vertices[key].key == key;
      if key in st.visited {
        PopVisited(g, s, st, lab);
        NextSkips(g, st);
        lab', d := NextLevels(g, s, st.(pending := st.pending[1..]), lab[1..]);
      } else {
        YieldStep(g, s, st, lab);
        NextYields(g, st);
        d := lab[0];
        lab' := lab[1..] + Fill(lab[0] + 1, |Vertices.Targets(g.vertices[key].adj)|);
      }
    }
  }

  /** A key no farther than anything after it can go in front. */
  lemma ConsByDistance<V>(g: Graph<V>, s: Key, k: Key, rest: seq<Key>)
    requires ByDistance(g, s, rest)
    requires forall j, n: nat :: 0 <= j < |rest| && Within(g, s, rest[j], n) ==> Within(g, s, k, n)
    ensures ByDistance(g, s, [k] + rest)
  {
    var keys := [k] + rest;
    forall i, j, n: nat | 0 <= i < j < |keys| && Within(g, s, keys[j], n) ensures Within(g, s, keys[i], n) {
      assert keys[j] == rest[j - 1];
      if i > 0 {
        assert keys[i] == rest[i - 1];
      }
    }
  }

  lemma {:induction false} IterateLevels<V>(g: Graph<V>, s: Key, st: Frontier, lab: seq<nat>)
    requires Valid(g) && LInv(g, s, st, lab)
    ensures ByDistance(g, s, Bfs.Iterate(g, st).keys)
    decreases |g.vertices.Keys - st.visited|
  {
    var lab', d := NextLevels(g, s, st, lab);
    match Bfs.Next(g, st)
    case Stop(_, _) =>
    case Yield(st', v) =>
      assert v.key in g.vertices;
      Shrinks(g.vertices.Keys, st.visited, v.key);
      IterateLevels(g, s, st', lab');
      var rest := Bfs.Iterate(g, st').keys;
      forall j, n: nat | 0 <= j < |rest| && Within(g, s, rest[j], n) ensures Within(g, s, v.key, n) {
        FarFromFront(g, s, st', lab', d, rest[j], n);
        WithinMono(g, s, v.key, d, n);
      }
      ConsByDistance(g, s, v.key, rest);
      assert Bfs.Iterate(g, st).keys == [v.key] + rest;
  }

  /** A key still to be yielded after a yield at level `d` is no nearer than `d`. */
  lemma FarFromFront<V>(g: Graph<V>, s: Key, st: Frontier, lab: seq<nat>, d: nat, k: Key, n: nat)
    requires Valid(g) && LInv(g, s, st, lab) && (|lab| > 0 ==> d <= lab[0])
    requires k in Bfs.Iterate(g, st).keys && Within(g, s, k, n)
    ensures d <= n
  {
    var keys := Bfs.Iterate(g, st).keys;
    var j :| 0 <= j < |keys| && keys[j] == k;
    assert Bfs.Next(g, st).Yield?;
    if n < d {
      WithinMono(g, s, k, n, lab[0] - 1);
    }
  }

  /** `bfs(from)` yields its vertices in order of distance from `from`. */
  lemma BfsByDistance<V>(g: Graph<V>, from: Key)
    requires Valid(g)
    ensures ByDistance(g, from, Bfs.Bfs(g, from).keys)
  {
    StartLevels(g, from);
    IterateLevels(g, from, Start(from), [0]);
  }
}
