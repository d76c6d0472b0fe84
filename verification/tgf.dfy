/** The Trivial Graph Format codec of directed graphs (`TgfConvertible` in
    src/graph/mod.rs): one `"key value"` line per vertex, a line starting with
    `#`, then one `"from to"` line per edge. Values go through caller-supplied
    `render`/`parse` functions standing for `Display`/`FromStr`; keys use the
    decimal form of `i32`. */
module Tgf {
  import opened Results
  import opened Edges
  import Vertices
  import opened Graphs
  import Directed
  import Text
  import Decimal

  const BadVertex := "couldn't parse vertex"
  const BadValue := "couldn't parse vertex value"

  /** `order` lists every key of `g` exactly once: the order in which the map's
      iterator happens to visit them. */
  predicate IsOrder<V>(g: Graph<V>, order: seq<Key>) {
    && (forall i, j :: 0 <= i < j < |order| ==> order[i] != order[j])
    && (forall i :: 0 <= i < |order| ==> order[i] in g.vertices)
    && (forall k :: k in g.vertices ==> k in order)
  }

  predicate InGraph<V>(g: Graph<V>, order: seq<Key>) {
    forall i :: 0 <= i < |order| ==> order[i] in g.vertices
  }

  // ---------------------------------------------------------------- writing

  /** `format!("{} {}\n", vertex.key(), vertex.value)` without its `'\n'`. */
  function VertexLine<V>(v: Vertices.Vertex<V>, render: V -> string): string {
    Decimal.RenderKey(v.key) + " " + render(v.value)
  }

  /** `format!("{} {}\n", edge.from(), edge.to())` without its `'\n'`: the weight is not written. */
  function EdgeLine(e: Edge): string {
    Decimal.RenderKey(e.from) + " " + Decimal.RenderKey(e.to)
  }

  function VertexLines<V>(g: Graph<V>, order: seq<Key>, render: V -> string): seq<string>
    requires InGraph(g, order)
  {
    if |order| == 0 then [] else [VertexLine(g.vertices[order[0]], render)] + VertexLines(g, order[1..], render)
  }

  function AdjLines(adj: seq<Edge>): seq<string> {
    if |adj| == 0 then [] else [EdgeLine(adj[0])] + AdjLines(adj[1..])
  }

  function EdgeLines<V>(g: Graph<V>, order: seq<Key>): seq<string>
    requires InGraph(g, order)
  {
    if |order| == 0 then [] else AdjLines(g.vertices[order[0]].adj) + EdgeLines(g, order[1..])
  }

  /** `to_tgf`: the vertex lines, `"#"`, the edge lines of every adjacency list,
      each terminated by `'\n'`. As long as no rendered value breaks its line,
      `lines` reads exactly those lines back. */
  function ToTgf<V>(g: Graph<V>, order: seq<Key>, render: V -> string): (text: string)
    requires g.kind == Graphs.Directed && IsOrder(g, order)
    ensures (forall k | k in g.vertices :: Text.PlainLine(render(g.vertices[k].value))) ==>
              Text.Lines(text) == VertexLines(g, order, render) + ["#"] + EdgeLines(g, order)
  {
    ToTgfLines(g, order, render);
    Text.JoinLines(VertexLines(g, order, render) + ["#"] + EdgeLines(g, order))
  }

  lemma VertexLinePlain<V>(v: Vertices.Vertex<V>, render: V -> string)
    requires Text.PlainLine(render(v.value))
    ensures Text.PlainLine(VertexLine(v, render))
  {
    Decimal.RenderKeyIsWord(v.key);
    var k := Decimal.RenderKey(v.key);
    var line := VertexLine(v, render);
    assert forall i :: 0 <= i < |k| ==> line[i] == k[i];
    assert forall i :: |k| < i < |line| ==> line[i] == render(v.value)[i - |k| - 1];
  }

  lemma EdgeLinePlain(e: Edge)
    ensures Text.PlainLine(EdgeLine(e))
  {
    Decimal.RenderKeyIsWord(e.from);
    Decimal.RenderKeyIsWord(e.to);
    var a := Decimal.RenderKey(e.from);
    var b := Decimal.RenderKey(e.to);
    var line := EdgeLine(e);
    assert forall i :: 0 <= i < |a| ==> line[i] == a[i];
    assert forall i :: |a| < i < |line| ==> line[i] == b[i - |a| - 1];
  }

  lemma {:induction false} AllLinesPlain<V>(g: Graph<V>, order: seq<Key>, render: V -> string)
    requires InGraph(g, order)
    requires forall k | k in g.vertices :: Text.PlainLine(render(g.vertices[k].value))
    ensures forall i :: 0 <= i < |VertexLines(g, order, render)| ==> Text.PlainLine(VertexLines(g, order, render)[i])
    ensures forall i :: 0 <= i < |EdgeLines(g, order)| ==> Text.PlainLine(EdgeLines(g, order)[i])
    decreases |order|
  {
    if |order| > 0 {
      VertexLinePlain(g.vertices[order[0]], render);
      AdjLinesPlain(g.vertices[order[0]].adj);
      AllLinesPlain(g, order[1..], render);
    }
  }

  lemma {:induction false} AdjLinesPlain(adj: seq<Edge>)
    ensures forall i :: 0 <= i < |AdjLines(adj)| ==> Text.PlainLine(AdjLines(adj)[i])
  {
    if |adj| > 0 {
      EdgeLinePlain(adj[0]);
      AdjLinesPlain(adj[1..]);
    }
  }

  lemma ToTgfLines<V>(g: Graph<V>, order: seq<Key>, render: V -> string)
    requires IsOrder(g, order)
    ensures (forall k | k in g.vertices :: Text.PlainLine(render(g.vertices[k].value))) ==>
              Text.Lines(Text.JoinLines(VertexLines(g, order, render) + ["#"] + EdgeLines(g, order)))
                == VertexLines(g, order, render) + ["#"] + EdgeLines(g, order)
  {
    if forall k | k in g.vertices :: Text.PlainLine(render(g.vertices[k].value)) {
      AllLinesPlain(g, order, render);
      var ls := VertexLines(g, order, render) + ["#"] + EdgeLines(g, order);
      assert Text.PlainLine("#");
      Text.LinesOfJoinLines(ls);
    }
  }

  // ---------------------------------------------------------------- reading

  /** A vertex-phase line that switches to edges: it starts with `'#'`. */
  predicate IsSeparator(line: string) {
    |line| > 0 && line[0] == '#'
  }

  /** The vertex phase of `from_tgf`, from the current line on. */
  function VertexPhase<V>(lines: seq<string>, g: Graph<V>, parse: string -> Option<V>): (r: Run<Result<Graph<V>>>)
    requires g.kind == Graphs.Directed
    ensures r.Done? && r.value.Ok? ==> r.value.value.kind == Graphs.Directed
    ensures r.Done? && r.value.Ok? ==> g.vertices.Keys <= r.value.value.vertices.Keys
    ensures r.Done? && r.value.Ok? && Valid(g) ==> Valid(r.value.value)
    ensures r.Done? && r.value.Err? ==> r.value.error == BadVertex || r.value.error == BadValue
    ensures r.Panicked? ==> r.reason == UnwrapNone
    decreases |lines|
  {
    if |lines| == 0 then Done(Ok(g))
    else if IsSeparator(lines[0]) then EdgePhase(lines[1..], g)
    else
      var tokens := Text.SplitWhitespace(lines[0]);
      if |tokens| == 0 then VertexPhase(lines[1..], g, parse)
      else match Decimal.ParseKey(tokens[0])
        case None => Done(Err(BadVertex))
        case Some(key) =>
          match parse(Text.Join(tokens[1..]))
          case None => Done(Err(BadValue))
          case Some(value) => VertexPhase(lines[1..], Insert(g, key, value).0, parse)
  }

  /** The edge phase of `from_tgf`: an empty line ends it, a line with fewer than
      two tokens panics at `unwrap`, and the result of `insert_edge_unweighted`
      is thrown away. */
  function EdgePhase<V>(lines: seq<string>, g: Graph<V>): (r: Run<Result<Graph<V>>>)
    requires g.kind == Graphs.Directed
    ensures r.Done? && r.value.Ok? ==> Unweighted(g, r.value.value)
    ensures r.Done? && r.value.Ok? && Valid(g) ==> Valid(r.value.value)
    ensures r.Done? && r.value.Err? ==> r.value.error == BadVertex
    ensures r.Panicked? ==> r.reason == UnwrapNone
    decreases |lines|
  {
    if |lines| == 0 || |lines[0]| == 0 then Done(Ok(g))
    else
      var tokens := Text.SplitWhitespace(lines[0]);
      if |tokens| == 0 then Panicked(UnwrapNone)
      else match Decimal.ParseKey(tokens[0])
        case None => Done(Err(BadVertex))
        case Some(from) =>
          if |tokens| < 2 then Panicked(UnwrapNone)
          else match Decimal.ParseKey(tokens[1])
            case None => Done(Err(BadVertex))
            case Some(to) =>
              InsertKeepsValid(g, from, to);
              EdgePhase(lines[1..], Directed.InsertEdgeUnweighted(g, from, to).0)
  }

  /** `h` is `g` with edges added at most: same kind, keys and values. */
  ghost predicate Unweighted<V>(g: Graph<V>, h: Graph<V>) {
    && h.kind == g.kind && h.vertices.Keys == g.vertices.Keys
    && forall k | k in g.vertices :: h.vertices[k].key == g.vertices[k].key && h.vertices[k].value == g.vertices[k].value
  }

  lemma InsertKeepsValid<V>(g: Graph<V>, from: Key, to: Key)
    requires g.kind == Graphs.Directed
    ensures Unweighted(g, Directed.InsertEdgeUnweighted(g, from, to).0)
    ensures Valid(g) ==> Valid(Directed.InsertEdgeUnweighted(g, from, to).0)
  {
    if Valid(g) && Contains(g, from) && Contains(g, to) {
      Directed.InsertEdgeSpec(g, from, to, 0, to);
    }
  }

  /** `from_tgf`: the text is cut into lines and read into an empty directed graph. */
  function FromTgf<V>(text: string, parse: string -> Option<V>): (r: Run<Result<Graph<V>>>)
    ensures r.Done? && r.value.Ok? ==> r.value.value.kind == Graphs.Directed && Valid(r.value.value)
    ensures r.Done? && r.value.Err? ==> r.value.error == BadVertex || r.value.error == BadValue
    ensures r.Panicked? ==> r.reason == UnwrapNone
  {
    VertexPhase(Text.Lines(text), Graphs.New(Graphs.Directed), parse)
  }

  // ---------------------------------------------------------------- reading, case by case

  /** Lines without tokens in the vertex section are skipped. */
  lemma {:induction false} BlankVertexLinesSkipped<V>(blanks: seq<string>, rest: seq<string>, g: Graph<V>, parse: string -> Option<V>)
    requires g.kind == Graphs.Directed
    requires forall i :: 0 <= i < |blanks| ==> !IsSeparator(blanks[i]) && Text.SplitWhitespace(blanks[i]) == []
    ensures VertexPhase(blanks + rest, g, parse) == VertexPhase(rest, g, parse)
    decreases |blanks|
  {
    if |blanks| > 0 {
      assert (blanks + rest)[0] == blanks[0];
      assert (blanks + rest)[1..] == blanks[1..] + rest;
      BlankVertexLinesSkipped(blanks[1..], rest, g, parse);
    } else {
      assert blanks + rest == rest;
    }
  }

  /** A vertex line whose first token is not a key ends the parse with an error:
      no graph comes back. */
  lemma BadKeyRejected<V>(line: string, rest: seq<string>, g: Graph<V>, parse: string -> Option<V>)
    requires g.kind == Graphs.Directed && !IsSeparator(line)
    requires var ts := Text.SplitWhitespace(line); |ts| > 0 && Decimal.ParseKey(ts[0]).None?
    ensures VertexPhase([line] + rest, g, parse) == Done(Err(BadVertex))
  {
    assert ([line] + rest)[0] == line;
  }

  /** A vertex line whose value does not parse ends the parse with an error. */
  lemma BadValueRejected<V>(key: Key, value: string, rest: seq<string>, g: Graph<V>, parse: string -> Option<V>)
    requires g.kind == Graphs.Directed && Text.Normalized(value) && parse(value).None?
    ensures VertexPhase([Decimal.RenderKey(key) + " " + value] + rest, g, parse) == Done(Err(BadValue))
  {
    var line := Decimal.RenderKey(key) + " " + value;
    ReadTokens(Decimal.RenderKey(key), value);
    Text.JoinSplitNormalized(value);
    Decimal.ParseRenderKey(key);
    Decimal.RenderKeyIsWord(key);
    assert ([line] + rest)[0] == line;
  }

  /** Everything after the first empty line of the edge section is ignored. */
  lemma {:induction false} EdgesEndAtEmptyLine<V>(lines: seq<string>, junk: seq<string>, g: Graph<V>)
    requires g.kind == Graphs.Directed
    ensures EdgePhase(lines + [""] + junk, g) == EdgePhase(lines, g)
    decreases |lines|
  {
    var all := lines + [""] + junk;
    if |lines| == 0 {
      assert all[0] == "";
    } else {
      assert all[0] == lines[0];
      assert all[1..] == lines[1..] + [""] + junk;
      var tokens := Text.SplitWhitespace(lines[0]);
      if |lines[0]| > 0 && |tokens| >= 2 {
        var from := Decimal.ParseKey(tokens[0]);
        var to := Decimal.ParseKey(tokens[1]);
        if from.Some? && to.Some? {
          EdgesEndAtEmptyLine(lines[1..], junk, Directed.InsertEdgeUnweighted(g, from.value, to.value).0);
        }
      }
    }
  }

  /** An edge line naming a key without a vertex is dropped without an error. */
  lemma UnknownEndpointDropped<V>(e: Edge, rest: seq<string>, g: Graph<V>)
    requires g.kind == Graphs.Directed
    requires !Contains(g, e.from) || !Contains(g, e.to)
    ensures EdgePhase([EdgeLine(e)] + rest, g) == EdgePhase(rest, g)
  {
    ReadEdgeLine(e);
    assert ([EdgeLine(e)] + rest)[0] == EdgeLine(e);
    assert ([EdgeLine(e)] + rest)[1..] == rest;
  }

  /** An edge line holding a single key panics at the second `unwrap`. */
  lemma LoneKeyPanics<V>(key: Key, rest: seq<string>, g: Graph<V>)
    requires g.kind == Graphs.Directed
    ensures EdgePhase([Decimal.RenderKey(key)] + rest, g) == Panicked(UnwrapNone)
  {
    Decimal.RenderKeyIsWord(key);
    Decimal.ParseRenderKey(key);
    Text.SplitWord(Decimal.RenderKey(key));
    assert ([Decimal.RenderKey(key)] + rest)[0] == Decimal.RenderKey(key);
  }

  /** A non-empty edge line of whitespace only panics on the first `unwrap`. */
  lemma BlankEdgeLinePanics<V>(line: string, rest: seq<string>, g: Graph<V>)
    requires g.kind == Graphs.Directed
    requires |line| > 0 && forall i :: 0 <= i < |line| ==> Text.IsWhitespace(line[i])
    ensures EdgePhase([line] + rest, g) == Panicked(UnwrapNone)
  {
    Text.SplitBlank(line);
    assert ([line] + rest)[0] == line;
  }

  /** A single token that is not a key is refused before the second `unwrap`. */
  lemma LoneWordRejected<V>(w: string, rest: seq<string>, g: Graph<V>)
    requires g.kind == Graphs.Directed
    requires |w| > 0 && (forall i :: 0 <= i < |w| ==> !Text.IsWhitespace(w[i])) && Decimal.ParseKey(w).None?
    ensures EdgePhase([w] + rest, g) == Done(Err(BadVertex))
  {
    Text.SplitWord(w);
    assert ([w] + rest)[0] == w;
  }

  // ---------------------------------------------------------------- round trip

  /** Edges of `adj` whose target is in `keys`, in order, with the weight reset to 0. */
  function Kept(adj: seq<Edge>, keys: set<Key>): seq<Edge> {
    if |adj| == 0 then []
    else (if adj[0].to in keys then [Edge(adj[0].from, adj[0].to, 0)] else []) + Kept(adj[1..], keys)
  }

  /** What a directed graph reads back as from its own TGF text: the same keys
      and values, each adjacency list in the same order with weights 0, and
      edges to keys without a vertex gone. */
  function Reloaded<V>(g: Graph<V>): Graph<V> {
    Graph(Graphs.Directed, map k | k in g.vertices ::
      Vertices.Vertex(k, g.vertices[k].value, Kept(g.vertices[k].adj, g.vertices.Keys)))
  }

  /** Every value renders to whitespace-normalized text that `parse` reads back. */
  ghost predicate Readable<V>(g: Graph<V>, render: V -> string, parse: string -> Option<V>) {
    forall k | k in g.vertices :: Text.Normalized(render(g.vertices[k].value))
                                  && parse(render(g.vertices[k].value)) == Some(g.vertices[k].value)
  }

  lemma ReadTokens(key: string, value: string)
    requires |key| > 0 && forall i :: 0 <= i < |key| ==> !Text.IsWhitespace(key[i])
    ensures Text.SplitWhitespace(key + " " + value) == [key] + Text.SplitWhitespace(value)
  {
    Text.SplitWord(key);
    assert key + " " + value == key + [' '] + value;
    Text.SplitAroundWhitespace(key, ' ', value);
  }

  lemma ReadVertexLine<V>(v: Vertices.Vertex<V>, render: V -> string, parse: string -> Option<V>)
    requires Text.Normalized(render(v.value)) && parse(render(v.value)) == Some(v.value)
    ensures var line := VertexLine(v, render); var ts := Text.SplitWhitespace(line);
      && !IsSeparator(line) && |ts| > 0 && Decimal.ParseKey(ts[0]) == Some(v.key)
      && parse(Text.Join(ts[1..])) == Some(v.value)
  {
    var k := Decimal.RenderKey(v.key);
    Decimal.RenderKeyIsWord(v.key);
    Decimal.ParseRenderKey(v.key);
    ReadTokens(k, render(v.value));
    Text.JoinSplitNormalized(render(v.value));
    var ts := Text.SplitWhitespace(VertexLine(v, render));
    assert ts[1..] == Text.SplitWhitespace(render(v.value));
    assert VertexLine(v, render)[0] == k[0];
  }

  lemma ReadEdgeLine(e: Edge)
    ensures var line := EdgeLine(e); var ts := Text.SplitWhitespace(line);
      && |line| > 0 && |ts| >= 2
      && Decimal.ParseKey(ts[0]) == Some(e.from) && Decimal.ParseKey(ts[1]) == Some(e.to)
  {
    var a := Decimal.RenderKey(e.from);
    var b := Decimal.RenderKey(e.to);
    Decimal.RenderKeyIsWord(e.from);
    Decimal.RenderKeyIsWord(e.to);
    Decimal.ParseRenderKey(e.from);
    Decimal.ParseRenderKey(e.to);
    ReadTokens(a, b);
    Text.SplitWord(b);
  }

  /** The graph the vertex phase builds, one `insert` per key of `order`. */
  function InsertAll<V>(h: Graph<V>, g: Graph<V>, order: seq<Key>): (r: Graph<V>)
    requires InGraph(g, order)
    ensures r.kind == h.kind
    decreases |order|
  {
    if |order| == 0 then h else InsertAll(Insert(h, order[0], g.vertices[order[0]].value).0, g, order[1..])
  }

  /** The graph the edge phase builds from one adjacency list. */
  function AddEdges<V>(h: Graph<V>, adj: seq<Edge>): (r: Graph<V>)
    requires h.kind == Graphs.Directed
    ensures r.kind == h.kind
    decreases |adj|
  {
    if |adj| == 0 then h else AddEdges(Directed.InsertEdgeUnweighted(h, adj[0].from, adj[0].to).0, adj[1..])
  }

  /** The graph the edge phase builds from the lists of the keys of `order`. */
  function AddAll<V>(h: Graph<V>, g: Graph<V>, order: seq<Key>): (r: Graph<V>)
    requires h.kind == Graphs.Directed && InGraph(g, order)
    ensures r.kind == h.kind
    decreases |order|
  {
    if |order| == 0 then h else AddAll(AddEdges(h, g.vertices[order[0]].adj), g, order[1..])
  }

  /** The vertex phase reads a vertex's own line back as an `insert` of its key and value. */
  lemma ReadVertexStep<V>(v: Vertices.Vertex<V>, render: V -> string, parse: string -> Option<V>,
                          h: Graph<V>, rest: seq<string>)
    requires h.kind == Graphs.Directed
    requires Text.Normalized(render(v.value)) && parse(render(v.value)) == Some(v.value)
    ensures VertexPhase([VertexLine(v, render)] + rest, h, parse) == VertexPhase(rest, Insert(h, v.key, v.value).0, parse)
  {
    var lines := [VertexLine(v, render)] + rest;
    assert lines[0] == VertexLine(v, render);
    assert lines[1..] == rest;
    ReadVertexLine(v, render, parse);
  }

  lemma {:induction false} ReadVertexLines<V>(g: Graph<V>, order: seq<Key>, render: V -> string,
                                             parse: string -> Option<V>, h: Graph<V>, tail: seq<string>)
    requires h.kind == Graphs.Directed && InGraph(g, order)
    requires forall i :: 0 <= i < |order| ==> g.vertices[order[i]].key == order[i]
    requires Readable(g, render, parse)
    ensures VertexPhase(VertexLines(g, order, render) + tail, h, parse) == VertexPhase(tail, InsertAll(h, g, order), parse)
    decreases |order|
  {
    if |order| > 0 {
      var v := g.vertices[order[0]];
      assert v.key == order[0];
      var h' := Insert(h, order[0], v.value).0;
      var rest := VertexLines(g, order[1..], render) + tail;
      assert VertexLines(g, order, render) + tail == [VertexLine(v, render)] + rest;
      ReadVertexStep(v, render, parse, h, rest);
      assert VertexPhase(VertexLines(g, order, render) + tail, h, parse) == VertexPhase(rest, h', parse);
      ReadVertexLines(g, order[1..], render, parse, h', tail);
      assert InsertAll(h, g, order) == InsertAll(h', g, order[1..]);
    } else {
      assert VertexLines(g, order, render) + tail == tail;
    }
  }

  lemma {:induction false} ReadAdjLines<V>(adj: seq<Edge>, h: Graph<V>, tail: seq<string>)
    requires h.kind == Graphs.Directed
    ensures EdgePhase(AdjLines(adj) + tail, h) == EdgePhase(tail, AddEdges(h, adj))
    decreases |adj|
  {
    if |adj| > 0 {
      var lines := AdjLines(adj) + tail;
      assert lines[0] == EdgeLine(adj[0]);
      assert lines[1..] == AdjLines(adj[1..]) + tail;
      ReadEdgeLine(adj[0]);
      ReadAdjLines(adj[1..], Directed.InsertEdgeUnweighted(h, adj[0].from, adj[0].to).0, tail);
    } else {
      assert AdjLines(adj) + tail == tail;
    }
  }

  lemma {:induction false} ReadEdgeLines<V>(g: Graph<V>, order: seq<Key>, h: Graph<V>, tail: seq<string>)
    requires h.kind == Graphs.Directed && InGraph(g, order)
    ensures EdgePhase(EdgeLines(g, order) + tail, h) == EdgePhase(tail, AddAll(h, g, order))
    decreases |order|
  {
    if |order| > 0 {
      var adj := g.vertices[order[0]].adj;
      assert EdgeLines(g, order) + tail == AdjLines(adj) + (EdgeLines(g, order[1..]) + tail);
      ReadAdjLines(adj, h, EdgeLines(g, order[1..]) + tail);
      ReadEdgeLines(g, order[1..], AddEdges(h, adj), tail);
    } else {
      assert EdgeLines(g, order) + tail == tail;
    }
  }

  /** Fresh vertices for the keys in `ks`. */
  function Skeleton<V>(g: Graph<V>, ks: set<Key>): map<Key, Vertices.Vertex<V>>
    requires ks <= g.vertices.Keys
  {
    map k | k in ks :: Vertices.Vertex(k, g.vertices[k].value, [])
  }

  /** The keys listed in `order`, as a set. */
  function KeysOf(order: seq<Key>): (ks: set<Key>)
    ensures forall k :: k in ks <==> k in order
  {
    if |order| == 0 then {} else {order[0]} + KeysOf(order[1..])
  }

  lemma SkeletonStep<V>(m: map<Key, Vertices.Vertex<V>>, g: Graph<V>, k0: Key, s1: set<Key>)
    requires k0 in g.vertices && s1 <= g.vertices.Keys
    ensures m[k0 := Vertices.Vertex(k0, g.vertices[k0].value, [])] + Skeleton(g, s1) == m + Skeleton(g, {k0} + s1)
  {
    var a := m[k0 := Vertices.Vertex(k0, g.vertices[k0].value, [])] + Skeleton(g, s1);
    var b := m + Skeleton(g, {k0} + s1);
    assert a.Keys == b.Keys;
    forall k | k in a ensures a[k] == b[k] {
      if k in s1 {
      } else if k == k0 {
      } else {
        assert k !in {k0} + s1;
      }
    }
  }

  lemma {:induction false} InsertAllSkeleton<V>(h: Graph<V>, g: Graph<V>, order: seq<Key>)
    requires InGraph(g, order)
    ensures InsertAll(h, g, order) == Graph(h.kind, h.vertices + Skeleton(g, KeysOf(order)))
    decreases |order|
  {
    if |order| > 0 {
      var k0 := order[0];
      var v0 := Vertices.Vertex(k0, g.vertices[k0].value, []);
      var h1 := Insert(h, k0, g.vertices[k0].value).0;
      assert h1 == Graph(h.kind, h.vertices[k0 := v0]);
      InsertAllSkeleton(h1, g, order[1..]);
      SkeletonStep(h.vertices, g, k0, KeysOf(order[1..]));
    } else {
      assert h.vertices + Skeleton(g, KeysOf(order)) == h.vertices;
    }
  }

  /** No edge of `a` shares a target with an edge of `b`. */
  predicate DisjointTargets(a: seq<Edge>, b: seq<Edge>) {
    forall i, j :: 0 <= i < |a| && 0 <= j < |b| ==> a[i].to != b[j].to
  }

  /** Inserting the first listed edge, whose target is present and not yet
      linked, appends it to `k`'s list. */
  lemma AppendFresh<V>(h: Graph<V>, k: Key, adj: seq<Edge>)
    requires h.kind == Graphs.Directed && k in h.vertices && h.vertices[k].key == k
    requires |adj| > 0 && adj[0].to in h.vertices
    requires forall i :: 0 <= i < |adj| ==> adj[i].from == k
    requires Vertices.UniqueTargets(adj) && DisjointTargets(h.vertices[k].adj, adj)
    ensures Directed.InsertEdgeUnweighted(h, k, adj[0].to).0 ==
              h.(vertices := h.vertices[k := h.vertices[k].(adj := h.vertices[k].adj + [Edge(k, adj[0].to, 0)])])
    ensures DisjointTargets(h.vertices[k].adj + [Edge(k, adj[0].to, 0)], adj[1..])
  {
    var v := h.vertices[k];
    var to := adj[0].to;
    assert forall i :: 0 <= i < |v.adj| ==> !Eq(v.adj[i], Edges.New(k, to, 0));
    var (v1, prev) := Vertices.InsertEdge(v, to, 0);
    assert prev.None?;
    assert v1 == v.(adj := v.adj + [Edge(k, to, 0)]);
  }

  lemma {:induction false} AddEdgesSpec<V>(h: Graph<V>, k: Key, adj: seq<Edge>)
    requires h.kind == Graphs.Directed && k in h.vertices && h.vertices[k].key == k
    requires forall i :: 0 <= i < |adj| ==> adj[i].from == k
    requires Vertices.UniqueTargets(adj) && DisjointTargets(h.vertices[k].adj, adj)
    ensures AddEdges(h, adj) ==
      h.(vertices := h.vertices[k := h.vertices[k].(adj := h.vertices[k].adj + Kept(adj, h.vertices.Keys))])
    decreases |adj|
  {
    var v := h.vertices[k];
    if |adj| == 0 {
      assert v.adj + [] == v.adj;
      assert h.vertices[k := v] == h.vertices;
    } else {
      var to := adj[0].to;
      var h1 := Directed.InsertEdgeUnweighted(h, k, to).0;
      if to in h.vertices {
        var e := Edge(k, to, 0);
        var v1 := v.(adj := v.adj + [e]);
        AppendFresh(h, k, adj);
        AddEdgesSpec(h1, k, adj[1..]);
        assert Kept(adj, h.vertices.Keys) == [e] + Kept(adj[1..], h.vertices.Keys);
        assert v1.adj + Kept(adj[1..], h.vertices.Keys) == v.adj + Kept(adj, h.vertices.Keys);
        assert h1.vertices.Keys == h.vertices.Keys;
      } else {
        assert h1 == h;
        AddEdgesSpec(h, k, adj[1..]);
        assert Kept(adj, h.vertices.Keys) == Kept(adj[1..], h.vertices.Keys);
      }
    }
  }

  /** The edge phase writes one vertex's list, still empty, as its kept edges. */
  lemma AddFirst<V>(h: Graph<V>, g: Graph<V>, k0: Key)
    requires h.kind == Graphs.Directed && Valid(g) && h.vertices.Keys == g.vertices.Keys
    requires k0 in h.vertices && h.vertices[k0].key == k0 && h.vertices[k0].adj == []
    ensures AddEdges(h, g.vertices[k0].adj) ==
              h.(vertices := h.vertices[k0 := h.vertices[k0].(adj := Kept(g.vertices[k0].adj, g.vertices.Keys))])
  {
    var adj := g.vertices[k0].adj;
    assert forall i :: 0 <= i < |adj| ==> adj[i].from == k0;
    AddEdgesSpec(h, k0, adj);
    assert [] + Kept(adj, h.vertices.Keys) == Kept(adj, g.vertices.Keys);
  }

  lemma {:induction false} AddAllSpec<V>(h: Graph<V>, g: Graph<V>, order: seq<Key>)
    requires h.kind == Graphs.Directed && Valid(g) && h.vertices.Keys == g.vertices.Keys
    requires forall k | k in h.vertices :: h.vertices[k].key == k
    requires InGraph(g, order) && forall i, j :: 0 <= i < j < |order| ==> order[i] != order[j]
    requires forall i :: 0 <= i < |order| ==> h.vertices[order[i]].adj == []
    ensures AddAll(h, g, order).vertices.Keys == h.vertices.Keys
    ensures forall k | k in h.vertices ::
              AddAll(h, g, order).vertices[k] ==
                (if k in order then h.vertices[k].(adj := Kept(g.vertices[k].adj, g.vertices.Keys)) else h.vertices[k])
    decreases |order|
  {
    if |order| > 0 {
      var k0 := order[0];
      var adj := g.vertices[k0].adj;
      AddFirst(h, g, k0);
      var h1 := AddEdges(h, adj);
      assert forall i :: 0 <= i < |order[1..]| ==> order[1..][i] != k0;
      AddAllSpec(h1, g, order[1..]);
      forall k | k in h.vertices
        ensures AddAll(h, g, order).vertices[k] ==
                (if k in order then h.vertices[k].(adj := Kept(g.vertices[k].adj, g.vertices.Keys)) else h.vertices[k])
      {
        if k != k0 {
          assert k in order <==> k in order[1..];
        }
      }
    }
  }

  lemma SkeletonReloads<V>(g: Graph<V>, order: seq<Key>)
    requires Valid(g) && IsOrder(g, order)
    ensures AddAll(Graph(Graphs.Directed, Skeleton(g, g.vertices.Keys)), g, order) == Reloaded(g)
  {
    var s: Graph<V> := Graph(Graphs.Directed, Skeleton(g, g.vertices.Keys));
    AddAllSpec(s, g, order);
    var r := AddAll(s, g, order);
    assert r.vertices.Keys == Reloaded(g).vertices.Keys;
    forall k | k in r.vertices ensures r.vertices[k] == Reloaded(g).vertices[k] {
      assert k in order;
    }
    assert r.vertices == Reloaded(g).vertices;
  }

  lemma ReadOwnLines<V>(g: Graph<V>, order: seq<Key>, render: V -> string)
    requires g.kind == Graphs.Directed && IsOrder(g, order)
    requires forall k | k in g.vertices :: Text.Normalized(render(g.vertices[k].value))
    ensures Text.Lines(ToTgf(g, order, render)) == VertexLines(g, order, render) + (["#"] + EdgeLines(g, order))
  {
    forall k | k in g.vertices ensures Text.PlainLine(render(g.vertices[k].value)) {
      Text.NormalizedIsPlain(render(g.vertices[k].value));
    }
  }

  lemma KeysOfOrder<V>(g: Graph<V>, order: seq<Key>)
    requires IsOrder(g, order)
    ensures KeysOf(order) == g.vertices.Keys
  {
    var ks := KeysOf(order);
    forall k ensures k in ks <==> k in g.vertices {
      assert k in ks <==> k in order;
    }
  }

  lemma InsertAllFromEmpty<V>(g: Graph<V>, order: seq<Key>)
    requires IsOrder(g, order)
    ensures InsertAll(Graphs.New(Graphs.Directed), g, order) == Graph(Graphs.Directed, Skeleton(g, g.vertices.Keys))
  {
    var empty: Graph<V> := Graphs.New(Graphs.Directed);
    InsertAllSkeleton(empty, g, order);
    KeysOfOrder(g, order);
    var m := Skeleton(g, KeysOf(order));
    assert m == Skeleton(g, g.vertices.Keys);
    assert empty.vertices + m == m by {
      assert empty.vertices == map[];
    }
  }

  lemma ReadOwnGraph<V>(g: Graph<V>, order: seq<Key>)
    requires Valid(g) && IsOrder(g, order)
    ensures EdgePhase(EdgeLines(g, order), InsertAll(Graphs.New(Graphs.Directed), g, order)) == Done(Ok(Reloaded(g)))
  {
    var s := InsertAll(Graphs.New(Graphs.Directed), g, order);
    var el := EdgeLines(g, order);
    assert el + [] == el;
    ReadEdgeLines(g, order, s, []);
    InsertAllFromEmpty(g, order);
    SkeletonReloads(g, order);
  }

  /** Reading back a directed graph's own TGF text gives `Reloaded(g)`, provided
      each value's text parses back to it and is single-space separated. */
  lemma RoundTrip<V>(g: Graph<V>, order: seq<Key>, render: V -> string, parse: string -> Option<V>)
    requires g.kind == Graphs.Directed && Valid(g) && IsOrder(g, order)
    requires Readable(g, render, parse)
    ensures FromTgf(ToTgf(g, order, render), parse) == Done(Ok(Reloaded(g)))
  {
    var vl := VertexLines(g, order, render);
    var el := EdgeLines(g, order);
    var empty: Graph<V> := Graphs.New(Graphs.Directed);
    var s := InsertAll(empty, g, order);
    ReadOwnLines(g, order, render);
    ReadVertexLines(g, order, render, parse, empty, ["#"] + el);
    assert VertexPhase(["#"] + el, s, parse) == EdgePhase(el, s) by {
      assert (["#"] + el)[1..] == el;
    }
    ReadOwnGraph(g, order);
  }

  // ---------------------------------------------------------------- what reloading keeps

  lemma {:induction false} KeptMembers(adj: seq<Edge>, keys: set<Key>, e: Edge)
    ensures e in Kept(adj, keys) <==> exists i :: 0 <= i < |adj| && adj[i].to in keys && e == Edge(adj[i].from, adj[i].to, 0)
    decreases |adj|
  {
    if |adj| > 0 {
      KeptMembers(adj[1..], keys, e);
      if e in Kept(adj[1..], keys) {
        var i :| 0 <= i < |adj[1..]| && adj[1..][i].to in keys && e == Edge(adj[1..][i].from, adj[1..][i].to, 0);
        assert adj[i + 1] == adj[1..][i];
      }
      if exists i :: 0 <= i < |adj| && adj[i].to in keys && e == Edge(adj[i].from, adj[i].to, 0) {
        var i :| 0 <= i < |adj| && adj[i].to in keys && e == Edge(adj[i].from, adj[i].to, 0);
        if i > 0 { assert adj[1..][i - 1] == adj[i]; }
      }
    }
  }

  lemma {:induction false} KeptUnique(adj: seq<Edge>, keys: set<Key>)
    requires Vertices.UniqueTargets(adj)
    ensures Vertices.UniqueTargets(Kept(adj, keys))
    decreases |adj|
  {
    if |adj| > 0 {
      KeptUnique(adj[1..], keys);
      var rest := Kept(adj[1..], keys);
      forall j | 0 <= j < |rest| ensures rest[j].to != adj[0].to {
        KeptMembers(adj[1..], keys, rest[j]);
        var i :| 0 <= i < |adj[1..]| && adj[1..][i].to in keys && rest[j] == Edge(adj[1..][i].from, adj[1..][i].to, 0);
        assert adj[1..][i] == adj[i + 1];
      }
    }
  }

  /** `Reloaded(g)` is a valid directed graph with `g`'s keys and values whose
      edges are exactly `g`'s edges between present keys, unweighted. */
  lemma ReloadedEdges<V>(g: Graph<V>, from: Key, to: Key)
    requires Valid(g)
    ensures Valid(Reloaded(g)) && Reloaded(g).kind == Graphs.Directed
    ensures Reloaded(g).vertices.Keys == g.vertices.Keys
    ensures forall k | k in g.vertices :: Reloaded(g).vertices[k].value == g.vertices[k].value
    ensures GetEdge(Reloaded(g), from, to) ==
      if GetEdge(g, from, to).Some? && to in g.vertices then Some(Edge(from, to, 0)) else None
  {
    var r := Reloaded(g);
    forall k | k in g.vertices ensures Vertices.Valid(r.vertices[k]) {
      var adj := g.vertices[k].adj;
      KeptUnique(adj, g.vertices.Keys);
      var kept := r.vertices[k].adj;
      forall j | 0 <= j < |kept| ensures kept[j].from == k {
        KeptMembers(adj, g.vertices.Keys, kept[j]);
      }
    }
    if from in g.vertices {
      var v := g.vertices[from];
      var w := r.vertices[from];
      var e := Edge(from, to, 0);
      Vertices.GetEdgeUnique(w, to, e);
      KeptMembers(v.adj, g.vertices.Keys, e);
      if GetEdge(g, from, to).Some? && to in g.vertices {
        var i :| 0 <= i < |v.adj| && v.adj[i] == GetEdge(g, from, to).value;
        assert v.adj[i].from == from;
      }
      match Vertices.GetEdge(w, to)
      case None =>
      case Some(f) =>
        Vertices.GetEdgeUnique(w, to, f);
        KeptMembers(v.adj, g.vertices.Keys, f);
    }
  }

  lemma {:induction false} KeptAll(adj: seq<Edge>, keys: set<Key>)
    requires forall i :: 0 <= i < |adj| ==> adj[i].to in keys && adj[i].weight == 0
    ensures Kept(adj, keys) == adj
    decreases |adj|
  {
    if |adj| > 0 {
      KeptAll(adj[1..], keys);
    }
  }

  /** A directed graph whose edges all have weight 0 and end at a present key
      reads back as itself. */
  lemma RoundTripIdentity<V>(g: Graph<V>, order: seq<Key>, render: V -> string, parse: string -> Option<V>)
    requires g.kind == Graphs.Directed && Valid(g) && IsOrder(g, order)
    requires Readable(g, render, parse)
    requires forall k, i | k in g.vertices && 0 <= i < |g.vertices[k].adj| ::
               g.vertices[k].adj[i].to in g.vertices && g.vertices[k].adj[i].weight == 0
    ensures FromTgf(ToTgf(g, order, render), parse) == Done(Ok(g))
  {
    RoundTrip(g, order, render, parse);
    forall k | k in g.vertices ensures Reloaded(g).vertices[k] == g.vertices[k] {
      KeptAll(g.vertices[k].adj, g.vertices.Keys);
    }
    assert Reloaded(g).vertices == g.vertices;
  }
}
