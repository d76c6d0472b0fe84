# graph-rs in Dafny

A model of the core of `graph-rs`, a small Rust library of graphs. A graph is
a hash map from keys to vertices. Each vertex owns a value and an adjacency
list of weighted edges. The model covers:

- the edge and its weight-blind equality;
- the vertex and its edge list;
- the graph's map operations;
- directed and undirected edge insertion and removal;
- the four traversal iterators (depth- and breadth-first, shared and mutable);
- conversion of a directed graph to and from the Trivial Graph Format (TGF).

How the model is built:

- **Keys and weights.** The library is generic in its key type. The model
  fixes the key to `i32`, the key type the binary uses, as a bounded
  newtype. Weights are `i64`. The vertex value is a type parameter `V`.
- **Mutation.** Every `&mut self` operation is a pure function. It returns
  the new graph together with the Rust return value.
- **Panics.** A call that can panic returns a `Run`: either `Done(value)`
  or `Panicked(reason)`. This covers `unwrap` on `None` and the explicit
  `panic!` of the undirected insert.
- **Errors.** `Result` errors carry the source's message strings
  (`"failure"`, `"couldn't parse vertex"`, `"couldn't parse vertex value"`).
- **Iterators.** An iterator is a `Frontier`: the pending keys (a stack or
  a queue) and the visited set. `next` is a step function on it.
  Collecting an iterator gives a `Walk`: the keys it yields and why it
  stopped. It stops when `next` returns `None`, or when a call panics.
- **Reachability.** `Traversal.Reachable` follows stored edges. An edge may
  point at a key with no vertex, because `remove` does not clean up edges.
  The traversal contracts say what happens when they meet such a key.
- **Breadth-first order.** `BfsLevels.Within(g, s, t, n)` says `t` is at
  most `n` stored edges from `s`. The proof that `bfs` yields keys in
  order of this distance labels each queue entry with a ghost level.
- **TGF.** `to_tgf` walks the vertices in `HashMap` iteration order. That
  order is a parameter: any duplicate-free listing of the keys.
  `Display`/`FromStr` of the value type are parameters `render`/`parse`.
  Keys use a decimal codec that follows Rust's `i32` parsing: an optional
  sign, at least one ASCII digit, and a range check.
- **Text.** `str::lines`, `split_whitespace` (Unicode `White_Space`) and
  `join(" ")` are modelled on `seq<char>`.

Places where the model follows the code rather than the library's own
descriptions:

- `Graph::remove` / `remove_vertex` leave behind edges that point at the
  removed key.
- `from_tgf` drops an edge line whose endpoint has no vertex. The directed
  insert returns `Err`, and `from_tgf` ignores it.
- `from_tgf` ignores tokens after the second one on an edge line.
- `from_tgf` panics on an edge line that is a single token parsing as a
  key, and on a non-empty edge line of whitespace only. A single token that
  is not a key gives `Err("couldn't parse vertex")` instead.
- The mutable DFS panics once its stack is empty. It can yield a vertex
  twice. So can the mutable BFS.
- `directed.rs` and `undirected.rs` call `self.contains`, which none of the
  shown files defines. The model reads it as "the key has a vertex".
- `Graph::bfs` and `bfs_mut` (src/graph/mod.rs:125-139) initialise a field
  named `stack`, but both iterator structs name it `queue`. The model reads
  that field as the queue.

## Model

| member | source | states |
|---|---|---|
| Edges.EqIgnoresWeight | src/edge.rs:38-45 | two edges with the same endpoints are `==` and not `!=`, whatever their weights |
| Edges.EqSeparatesEndpoints | src/edge.rs:62-73 | edges that differ in source or in target are not `==` and are `!=` |
| Edges.NeIsNotEq | src/edge.rs:38-45 | `!=` is exactly the negation of `==`, and `==` holds exactly when the (from, to) pairs agree |
| Edges.EqIsEquivalence | src/edge.rs:38-45 | weight-blind equality is reflexive, symmetric and transitive |
| Edges.NewUnweighted | src/edge.rs:25-27 | an unweighted edge is the edge of weight 0 |
| Vertices.New | src/vertex.rs:23-29 | a new vertex has the given key and value, no edges, and satisfies the vertex invariant (edges owned, targets unique) |
| Seqs.First | src/vertex.rs:37-42 | the index found is the first one whose element satisfies the test; none is found exactly when no element does |
| Seqs.SwapRemove | src/vertex.rs:39 | `Vec::swap_remove(i)`: one element shorter, every other position unchanged, the last element moved into position `i` |
| Seqs.SwapRemoveMultiset | src/vertex.rs:39 | `swap_remove(i)` removes exactly one occurrence of `s[i]` from the multiset of elements |
| Seqs.SwapRemoveMembers | src/vertex.rs:78 | after `swap_remove(i)`, `x` is present exactly when it sits at some other position of the original |
| Vertices.InsertEdge | src/vertex.rs:34-49 | the new edge is appended last. No old edge is returned exactly when no stored edge `==` the new one, and then the list just grows by it. Otherwise the first `==` edge, at index `i`, is returned with its old weight. The new list is `swap_remove(i)` of the old one (the last edge moves into slot `i`) followed by the new edge, so the length is kept and the multiset loses that edge and gains the new one |
| Vertices.InsertEdgeUnweighted | src/vertex.rs:52-54 | the unweighted insert is the insert with weight 0 and ends with the weight-0 edge |
| Vertices.GetEdge | src/vertex.rs:65-72 | `None` exactly when no edge targets `to`; otherwise the first edge with that target |
| Vertices.RemoveEdge | src/vertex.rs:75-82 | returns what `get_edge` returns. When nothing is found the vertex is unchanged. Otherwise the returned edge is the first one with target `to`, at index `i`, and the new list is `swap_remove(i)` of the old one: one shorter, the last edge moved into slot `i`, and exactly the returned edge gone from the multiset |
| Vertices.GetEdgeUnique | src/vertex.rs:65-72 | with unique targets, `get_edge(t)` returns `e` exactly when `e` is in the list and targets `t` |
| Vertices.InsertReturnsOldEdge | src/vertex.rs:34-49 | for a vertex that owns its edges, `insert_edge(to, w)` returns what `get_edge(to)` returned before |
| Vertices.SwapRemoveKeepsUnique | src/vertex.rs:78 | `swap_remove` keeps targets unique, and the removed target appears nowhere in what is left |
| Vertices.InsertKeepsValid | src/vertex.rs:34-49 | insertion keeps the vertex invariant, and the new target appears only in the last edge |
| Vertices.RemoveKeepsValid | src/vertex.rs:75-82 | removal keeps the vertex invariant and leaves no edge to `to` |
| Vertices.GetAfterInsert | src/vertex.rs:34-72 | after `insert_edge(to, w)`, `get_edge(to)` is the new edge and every other target's edge is unchanged |
| Vertices.GetAfterRemove | src/vertex.rs:65-82 | after `remove_edge(to)`, `get_edge(to)` is `None` and every other target's edge is unchanged |
| Vertices.RemoveAfterInsert | src/vertex.rs:34-82 | removing right after inserting hands back exactly the inserted edge |
| Scenarios.VertexInsertEdgeTest | src/vertex.rs:116-184 | the three cases of the vertex `insert_edge_test`: append to an empty list, append after another target, replace an existing edge and return it with weight 69 |
| Scenarios.VertexGetEdgeTest | src/vertex.rs:186-213 | the cases of the vertex `get_edge_test`: no edge to 1, the edges to 2 and 3 |
| Graphs.New | src/graph/mod.rs:39-44 | a new graph of either kind has no vertices and satisfies the graph invariant |
| Graphs.Insert | src/graph/mod.rs:53-55 | returns the value previously stored under the key. The key then holds a fresh vertex with no edges, other keys are untouched, the key set gains the key, and the invariant is kept |
| Graphs.Get | src/graph/mod.rs:57-59 | a value is found exactly when the key has a vertex, and it is that vertex's value |
| Graphs.Remove | src/graph/mod.rs:65-67 | returns the value previously stored. The key is then absent, other keys are untouched, and the invariant is kept |
| Graphs.Clear | src/graph/mod.rs:69-71 | the cleared graph is empty, valid and of the same kind |
| Graphs.IsEmpty | src/graph/mod.rs:77-79 | empty exactly when the length is 0, and exactly when no key is contained |
| Graphs.LenCountsKeys | src/graph/mod.rs:53-75 | `len` grows by one on inserting a new key and is unchanged on replacing one; it shrinks by one on removing a present key and is unchanged otherwise |
| Graphs.InsertVertex | src/graph/mod.rs:81-83 | returns the vertex previously under the vertex's key, stores the new one there, leaves other keys untouched, and keeps the invariant when the vertex is valid |
| Graphs.GetVertex | src/graph/mod.rs:85-87 | a vertex is found exactly when the key is contained, and it is the stored one |
| Graphs.RemoveVertex | src/graph/mod.rs:93-95 | returns the vertex previously stored; the key is then absent, other keys are untouched, and the invariant is kept |
| Graphs.GetEdge | src/graph/mod.rs:97-99 | `None` when `from` has no vertex; otherwise the vertex's `get_edge(to)`, an edge of its list that targets `to` |
| Graphs.RemoveTwice | src/graph/mod.rs:65-67 | a second `remove` of the same key finds nothing and changes nothing |
| Graphs.RemoveKeepsEdgesToKey | src/graph/mod.rs:65-67 | removing a vertex leaves every other vertex's edge to it in place |
| Scenarios.InsertVertexTest | src/graph/tests.rs:23-48 | the results of the four inserts of `insert_vertex_test`: `None`, `None`, then the replaced vertices |
| Scenarios.GetVertexTest | src/graph/tests.rs:50-71 | the three lookups of `get_vertex_test` on the graph holding 1 and 2 |
| Scenarios.RemoveVertexTest | src/graph/tests.rs:79-98 | the removals of `remove_vertex_test`: each key is returned once, and a second removal finds nothing |
| Directed.InsertEdge | src/graph/directed.rs:14-29 | `Err("failure")` exactly when an endpoint is missing, with the graph unchanged. Otherwise only `from`'s vertex changes: it keeps its key and value and then holds an edge to `to` |
| Directed.InsertEdgeUnweighted | src/graph/directed.rs:32-38 | the unweighted insert is the weighted insert with weight 0 |
| Directed.RemoveEdge | src/graph/directed.rs:45-54 | `Err("failure")` exactly when an endpoint is missing. Otherwise returns `from`'s previous edge to `to`, with the graph unchanged if there was none, and only `from`'s vertex changes |
| Directed.InsertEdgeSpec | src/graph/directed.rs:14-29 | on a valid graph with both endpoints: returns the previous `from -> to` edge, stores the new weight, leaves `from`'s other edges alone, and keeps the invariant |
| Directed.InsertEdgeLookups | src/graph/directed.rs:14-29 | after the insert every `get_edge(a, b)` is as before except `(from, to)`, which is the new edge |
| Directed.InsertTwice | src/graph/directed.rs:14-29 | a second insert of the same pair returns the first edge with its weight |
| Directed.RemoveEdgeSpec | src/graph/directed.rs:45-54 | after the removal `from -> to` is gone, `from`'s other edges are unchanged, and the invariant is kept |
| Directed.RemoveEdgeLookups | src/graph/directed.rs:45-54 | after the removal every `get_edge(a, b)` is as before except `(from, to)`, which is `None` |
| Directed.RemoveAfterInsert | src/graph/directed.rs:14-54 | removing right after inserting returns `Ok` of the inserted edge |
| Undirected.InsertEdge | src/graph/undirected.rs:14-42 | `Err("failure")` with the graph unchanged when an endpoint is missing. The only panic is the "both directions" one. The key set is kept, only `from` and `to` change, and on `Ok` both directions are stored |
| Undirected.InsertEdgeUnweighted | src/graph/undirected.rs:45-51 | the unweighted insert is the weighted insert with weight 0 |
| Undirected.RemoveEdge | src/graph/undirected.rs:58-71 | `Err("failure")` exactly when an endpoint is missing, with the graph unchanged. For distinct endpoints returns the `from -> to` edge. Only `from` and `to` change |
| Undirected.InsertWritesBoth | src/graph/undirected.rs:24-33 | when the insert returns, its graph is the one with `from -> to` written into `from`'s list and `to -> from` into `to`'s |
| Undirected.InsertWeights | src/graph/undirected.rs:24-33 | writing both directions stores `w` for the pair both ways, changes no other pair, and keeps the invariant |
| Undirected.InsertEdgeSpec | src/graph/undirected.rs:14-42 | on a valid graph whose edges are paired, with distinct present endpoints: no panic, returns the previous edge, stores `w` both ways, changes no other pair, and keeps validity and pairing |
| Undirected.InsertOutcome | src/graph/undirected.rs:14-42 | on a paired graph with distinct endpoints the result is exactly `Ok(previous edge)` with both directions written |
| Undirected.InsertPanicsIffUnpaired | src/graph/undirected.rs:35-41 | with distinct present endpoints, the insert panics exactly when one direction was stored and the other was not |
| Undirected.RemoveEdgeSpec | src/graph/undirected.rs:58-71 | on a paired graph with distinct endpoints: returns the `from -> to` edge, leaves neither direction, changes no other pair, and keeps validity and pairing |
| Traversal.Start | src/graph/mod.rs:109-139 | every iterator starts with only `from` pending and nothing visited |
| Traversal.Unvisited | src/graph/iterators/dfs/iter_mut.rs:33-38 | the targets the mutable iterators push are exactly the edge targets not yet visited, and no more entries than the list has |
| Traversal.UnvisitedCons | src/graph/iterators/dfs/iter_mut.rs:33-38 | one step of the push loop: a visited target is skipped, an unvisited one is pushed ahead of the targets after it |
| Traversal.UnvisitedAppend | src/graph/iterators/bfs/iter_mut.rs:37-42 | the pushed targets of a concatenated list are those of the first part followed by those of the second, so the push keeps adjacency-list order |
| Dfs.Next | src/graph/iterators/dfs/iter.rs:29-48 | `next` skips popped keys whose vertex is visited. It yields the first unvisited one, marks it visited, and pushes all its targets. It panics at the first popped key with no vertex, and returns `None` only when every entry is skipped |
| Dfs.Iterate | src/graph/iterators/dfs/iter.rs:29-48 | collecting yields distinct keys, each with a vertex and not visited before; it ends drained or with the `unwrap` panic |
| Dfs.NextInv | src/graph/iterators/dfs/iter.rs:29-48 | one `next` keeps the search invariant (pending and visited keys reachable, visited vertices' targets covered); a panic implies a reachable key with no vertex |
| Dfs.IterateInv | src/graph/iterators/dfs/iter.rs:29-48 | from an invariant state every yielded key is reachable; draining covers everything reachable; a panic implies a reachable key with no vertex |
| Dfs.Dfs | src/graph/mod.rs:109-115 | `dfs(from)` yields distinct reachable keys and, when it drains, every reachable key. It panics exactly when some reachable key has no vertex, and at once when `from` has none |
| Bfs.Next | src/graph/iterators/bfs/iter.rs:32-52 | `next` skips front keys whose vertex is visited. It yields the first unvisited one, marks it visited, and queues all its targets. At the first key with no vertex it returns `None` through `?`; it also returns `None` when every entry is skipped |
| Bfs.Iterate | src/graph/iterators/bfs/iter.rs:32-52 | collecting yields distinct keys, each with a vertex and not visited before; it ends drained or at a key without a vertex |
| Bfs.NextInv | src/graph/iterators/bfs/iter.rs:32-52 | one `next` keeps the search invariant; stopping at a missing key implies a reachable key with no vertex |
| Bfs.IterateInv | src/graph/iterators/bfs/iter.rs:32-52 | from an invariant state every yielded key is reachable; draining covers everything reachable |
| Bfs.Bfs | src/graph/mod.rs:125-131 | `bfs(from)` yields distinct reachable keys and, when it drains, every reachable key. It stops early exactly when some reachable key has no vertex, and at once when `from` has none |
| BfsLevels.PopVisited | src/graph/iterators/bfs/iter.rs:32-52 | discarding a visited queue front keeps the level invariant. Queue levels never decrease and span at most two values; every key nearer than the front level is visited; every visited vertex's targets are visited or queued at most one level later |
| BfsLevels.YieldStep | src/graph/iterators/bfs/iter.rs:32-52 | visiting the front keeps the level invariant when its targets are queued one level later; the front lies exactly at its level's distance |
| BfsLevels.NextLevels | src/graph/iterators/bfs/iter.rs:32-52 | a vertex yielded by one `next` lies at exactly some distance `d`, and every queue entry left behind is at level `d` or later |
| BfsLevels.FarFromFront | src/graph/iterators/bfs/iter.rs:32-52 | after a yield at distance `d`, every key still to be yielded is at distance `d` or more |
| BfsLevels.IterateLevels | src/graph/iterators/bfs/iter.rs:32-52 | from a level-invariant state the yielded keys come out in non-decreasing distance from the start |
| BfsLevels.BfsByDistance | src/graph/mod.rs:125-131 | `bfs(from)` yields keys in order of distance from `from`: whatever step bound a later key meets, every earlier key meets it too |
| BfsLevels.ReachableIffWithin | src/graph/mod.rs:125-131 | being within some number of edges of `from` is the same as being reachable from it, so the distance used for the order is the graph's own |
| DfsMut.Next | src/graph/iterators/dfs/iter_mut.rs:23-41 | on an empty stack `next` panics. Otherwise it pops the top: no vertex gives `None`; else it marks the vertex visited, yields it, and pushes its unvisited targets |
| DfsMut.Progress | src/graph/iterators/dfs/iter_mut.rs:23-41 | each yield either visits a new vertex or removes a pending entry that was already visited, so the iteration ends |
| DfsMut.Iterate | src/graph/iterators/dfs/iter_mut.rs:23-41 | collecting yields keys with vertices; it ends with the empty-stack panic or at a key with no vertex |
| DfsMut.IterateInv | src/graph/iterators/dfs/iter_mut.rs:23-41 | from an invariant state every yielded key is reachable; reaching the empty-stack panic means everything reachable was yielded |
| DfsMut.DfsMut | src/graph/mod.rs:117-123 | `dfs_mut(from)` yields only reachable keys, and all of them when it reaches the empty-stack panic. It stops at a missing key exactly when some reachable key has no vertex |
| BfsMut.Next | src/graph/iterators/bfs/iter_mut.rs:26-48 | on an empty queue `next` returns `None`. Otherwise it takes the front: no vertex gives `None`; else it marks the vertex visited, yields it, and queues its unvisited targets |
| BfsMut.Progress | src/graph/iterators/bfs/iter_mut.rs:26-48 | each yield either visits a new vertex or removes a queued entry that was already visited, so the iteration ends |
| BfsMut.Iterate | src/graph/iterators/bfs/iter_mut.rs:26-48 | collecting yields keys with vertices; it ends drained or at a key with no vertex |
| BfsMut.IterateInv | src/graph/iterators/bfs/iter_mut.rs:26-48 | from an invariant state every yielded key is reachable; draining means everything reachable was yielded |
| BfsMut.BfsMut | src/graph/mod.rs:133-139 | `bfs_mut(from)` yields only reachable keys, and all of them when it drains; it stops early exactly when some reachable key has no vertex |
| Scenarios.DfsOrder | src/graph/iterators/dfs/iter.rs:29-48 | on `1 -> 2, 1 -> 3, 3 -> 4` depth-first from 1 yields 1, 3, 4, 2 and drains |
| Scenarios.BfsOrder | src/graph/iterators/bfs/iter.rs:32-52 | on the same graph breadth-first from 1 yields 1, 2, 3, 4 and drains |
| Scenarios.DfsMutRepeats | src/graph/iterators/dfs/iter_mut.rs:23-41 | on `1 -> 2, 1 -> 3, 3 -> 2` the mutable DFS yields 1, 3, 2, 2 and then panics on the empty stack |
| Scenarios.BfsMutRepeats | src/graph/iterators/bfs/iter_mut.rs:26-48 | on `1 -> 2, 1 -> 3, 2 -> 4, 3 -> 4` the mutable BFS yields 1, 2, 3, 4, 4 and drains |
| Decimal.ParseKey | src/graph/mod.rs:181 | a key parses when the token is an optional sign then ASCII digits, and its value fits in 32 bits; otherwise there is no key |
| Decimal.ParseRenderKey | src/graph/mod.rs:228-235 | parsing the decimal text `Display` writes for a key gives the key back |
| Decimal.RenderKeyIsWord | src/graph/mod.rs:228-235 | a written key is one non-empty whitespace-free token that does not start with `#` |
| Decimal.DigitsOfNat | src/graph/mod.rs:228 | the digits written for a natural number read back as that number |
| Text.LinesOfJoinLines | src/graph/mod.rs:166-167 | `lines()` of newline-terminated lines without `'\n'` or a trailing `'\r'` gives those lines back |
| Text.LinesCons | src/graph/mod.rs:167 | a plain line followed by `'\n'` is the first line, and the split carries on after the terminator |
| Text.SplitAroundWhitespace | src/graph/mod.rs:173 | `split_whitespace` of two texts joined by a whitespace character is the concatenation of their tokens |
| Text.SplitWord | src/graph/mod.rs:173 | a non-empty whitespace-free word splits into itself |
| Text.JoinSplitNormalized | src/graph/mod.rs:188-189 | `join(" ")` of the tokens of a text with single inner spaces and no other whitespace gives that text back |
| Tgf.ToTgf | src/graph/mod.rs:224-240 | when every rendered value is a plain line (no `'\n'`, no trailing `'\r'`), the lines of the written text are the vertex lines in iteration order, then `#`, then one `from to` line per stored edge |
| Tgf.ReadOwnLines | src/graph/mod.rs:224-240 | when every value renders without line breaks or stray whitespace, `lines()` of `to_tgf` gives exactly those lines |
| Tgf.VertexPhase | src/graph/mod.rs:166-198 | the vertex section of `from_tgf`: a successful read gives a directed graph that keeps every key already read and stays valid; an error is `"couldn't parse vertex"` or `"couldn't parse vertex value"`; a panic is an `unwrap` on `None` |
| Tgf.EdgePhase | src/graph/mod.rs:200-217 | the edge section of `from_tgf`: a successful read keeps the kind, keys and values and adds edges only, and keeps validity; an error is `"couldn't parse vertex"`; a panic is an `unwrap` on `None` |
| Tgf.FromTgf | src/graph/mod.rs:157-222 | `from_tgf` returns a valid directed graph, or one of the two parse errors, or panics only on an `unwrap` of `None` |
| Tgf.BlankVertexLinesSkipped | src/graph/mod.rs:173-179 | lines without tokens in the vertex section are skipped |
| Tgf.BadKeyRejected | src/graph/mod.rs:181-185 | a vertex line whose first token is not a key gives `Err("couldn't parse vertex")` |
| Tgf.BadValueRejected | src/graph/mod.rs:187-194 | a vertex line whose rest the value parser refuses gives `Err("couldn't parse vertex value")` |
| Tgf.EdgesEndAtEmptyLine | src/graph/mod.rs:201-203 | an empty line ends the edge section; nothing after it is read |
| Tgf.UnknownEndpointDropped | src/graph/mod.rs:216 | an edge line naming a key with no vertex changes nothing |
| Tgf.LoneKeyPanics | src/graph/mod.rs:204-210 | an edge line that is a single token parsing as a key panics on the second `unwrap` |
| Tgf.BlankEdgeLinePanics | src/graph/mod.rs:204-205 | a non-empty edge line of whitespace only panics on the first `unwrap` |
| Tgf.LoneWordRejected | src/graph/mod.rs:204-209 | an edge line that is a single token which is not a key gives `Err("couldn't parse vertex")` before the second `unwrap` |
| Tgf.InsertKeepsValid | src/graph/mod.rs:216 | inserting an unweighted edge keeps keys, values and the graph invariant |
| Tgf.ReadVertexLines | src/graph/mod.rs:166-197 | reading the written vertex lines inserts each vertex with its value and no edges, in order |
| Tgf.ReadEdgeLines | src/graph/mod.rs:200-221 | reading the written edge lines inserts each edge unweighted, in order |
| Tgf.AddAllSpec | src/graph/mod.rs:216 | inserting every listed vertex's edges gives each of them its edges to present keys, in list order, with weight 0 |
| Tgf.ReloadedEdges | src/graph/mod.rs:157-240 | the reloaded graph is valid and directed, with the same keys and values; `get_edge(a, b)` is a weight-0 edge exactly when the original had an `a -> b` edge and `b` has a vertex |
| Tgf.RoundTrip | src/graph/mod.rs:157-240 | for any vertex order and any value codec that reads back what it writes, `from_tgf(to_tgf(g))` succeeds and gives `g` with weights 0 and edges to missing keys dropped |
| Tgf.RoundTripIdentity | src/graph/mod.rs:157-240 | when all weights are 0 and no edge dangles, `from_tgf(to_tgf(g))` is `g` itself |
| Findings.SelfLoopInsertPanics | src/graph/undirected.rs:24-41 | as written, the first undirected `insert_edge(a, a, w)` panics |
| Findings.InsertEdge | src/graph/undirected.rs:14-42 | the corrected insert writes a self-loop once and otherwise agrees with the original; it never panics on present keys |
| Findings.InsertEdgeSpec | src/graph/undirected.rs:9-13 | on a paired graph the corrected insert, self-loops included, returns the previous edge, stores `w` both ways, and keeps validity and pairing |
| Findings.SelfLoopRemoveReportsNothing | src/graph/undirected.rs:58-71 | as written, removing a stored self-loop deletes it but returns `Ok(None)` |
| Findings.RemoveEdge | src/graph/undirected.rs:53-71 | the corrected removal returns the stored `from -> to` edge for every pair, self-loops included, and otherwise agrees with the original |
| Findings.RemoveEdgeSpec | src/graph/undirected.rs:53-71 | on a paired graph the corrected removal returns the previous edge, leaves neither direction, and keeps validity and pairing |
| Findings.RemoveLeavesStaleEdge | src/graph/mod.rs:65-67 | as written, removing `b` from an undirected graph with `a - b` leaves a dangling edge and breaks pairing; after `b` is inserted again, `insert_edge(a, b)` panics |
| Findings.RemoveClean | src/graph/mod.rs:65-67 | the corrected removal returns the value, drops the key, and removes every edge to it |
| Findings.RemoveCleanSpec | src/graph/mod.rs:65-67 | the corrected removal keeps the invariant, pairing and the absence of dangling edges, and changes only the weights of pairs involving the key, which become absent |
| Findings.InsertFreshKeepsPaired | src/graph/mod.rs:53-55 | inserting a new key keeps an undirected graph paired |
| Findings.ReinsertAfterRemoveClean | src/graph/undirected.rs:14-42 | after a clean removal and re-insertion of `b`, `insert_edge(a, b)` no longer panics |

## Left out

- `Graph::get_mut` and `get_vertex_mut` (src/graph/mod.rs:61-63, 89-91): they hand out mutable references. Their use inside the edge operations is modelled as replacing the vertex in the map.
- `vertecies` / `vertecies_mut` (src/graph/mod.rs:101-107): they only expose `HashMap` iteration. Its order is unspecified, so `to_tgf` takes the order as a parameter.
- The `ToString` implementation (src/graph/mod.rs:243-281) and the command-line program in src/bin/main.rs: they are text output only.
- `Graph::with_capacity` and `Default`: they behave like `new`, and capacity is not observable.
- The marker types, the `TrivialGraphFormat` string wrapper and `HashMap` internals: they are not part of the graph's behaviour.
- The `unsafe` raw-pointer aliasing of the mutable iterators: the model yields vertices by value, so mutation through the yielded references is not modelled.
- The generic key type: keys are fixed to `i32`. `FromStr`/`Display` of the value type are parameters.
- The undirected `basic_operations.rs` and the `general/` iterator files: they are older copies that the module tree does not include.
- The `insert_edge_test` and `remove_edge_test` of src/graph/directed.rs and src/graph/undirected.rs are not replayed as concrete chains. Each step they check is an instance of an all-inputs lemma: `Directed.InsertEdgeSpec`, `Directed.InsertTwice`, `Directed.RemoveEdgeSpec`, `Undirected.InsertEdgeSpec`, `Undirected.RemoveEdgeSpec`, and the `Err("failure")` clauses of the edge operations.
- The edge tests of src/edge.rs are not replayed value by value. `Edges.EqIgnoresWeight` and `Edges.EqSeparatesEndpoints` cover every case they check.
- DfsMut.DfsMut, BfsMut.BfsMut: do not say which keys are yielded twice. Only reachability and completeness are stated; the scenarios show a repeat.

## Findings

| source | as written | input that shows it | evidently intended | confidence | as-written member | corrected member |
|---|---|---|---|---|---|---|
| src/graph/undirected.rs:24-41 | the undirected insert writes `from -> to`, then `to -> from`, and panics when exactly one write replaced an edge | `insert_edge(a, a, w)` on a vertex `a` with no self-loop: the second write finds the edge the first one stored | a self-loop is inserted once, returning `Ok(None)` | medium, not executed | Findings.SelfLoopInsertPanics | Findings.InsertEdgeSpec |
| src/graph/undirected.rs:58-71 | the undirected removal deletes `to -> from` first, then returns the removal of `from -> to` | `remove_edge(a, a)` with a stored self-loop: the first removal deletes it, so `Ok(None)` is returned | the removed self-loop is returned | medium, not executed | Findings.SelfLoopRemoveReportsNothing | Findings.RemoveEdgeSpec |
| src/graph/mod.rs:65-67 | `remove` deletes the vertex but not the other vertices' edges to it | undirected `a - b`, then `remove(b)`, `insert(b, x)`, `insert_edge(a, b, w)`: `a -> b` is still stored, `b -> a` is not, and the insert panics | removing a vertex also removes the edges to it, so the graph stays paired | medium, not executed | Findings.RemoveLeavesStaleEdge | Findings.RemoveCleanSpec |
