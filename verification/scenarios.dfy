/** Concrete runs of the model on small graphs: the traversal orders each
    iterator produces, and the unit tests of src/vertex.rs and
    src/graph/tests.rs replayed on the model. */
module Scenarios {
  import opened Results
  import opened Edges
  import Vertices
  import opened Graphs
  import opened Traversal
  import Dfs
  import Bfs
  import DfsMut
  import BfsMut

  /** 1 -> 2, 1 -> 3, 3 -> 4: a tree in which depth- and breadth-first
      orders differ. */
  function Fork(): Graph<int> {
    Graph(Graphs.Directed, map[
      1 := Vertices.Vertex(1, 1, [Edge(1, 2, 0), Edge(1, 3, 0)]),
      2 := Vertices.Vertex(2, 2, []),
      3 := Vertices.Vertex(3, 3, [Edge(3, 4, 0)]),
      4 := Vertices.Vertex(4, 4, [])])
  }

  /** 1 -> 2, 1 -> 3, 3 -> 2: vertex 2 is pushed twice by the mutable DFS. */
  function Triangle(): Graph<int> {
    Graph(Graphs.Directed, map[
      1 := Vertices.Vertex(1, 1, [Edge(1, 2, 0), Edge(1, 3, 0)]),
      2 := Vertices.Vertex(2, 2, []),
      3 := Vertices.Vertex(3, 3, [Edge(3, 2, 0)])])
  }

  /** 1 -> 2, 1 -> 3, 2 -> 4, 3 -> 4: vertex 4 is queued twice by the mutable BFS. */
  function Square(): Graph<int> {
    Graph(Graphs.Directed, map[
      1 := Vertices.Vertex(1, 1, [Edge(1, 2, 0), Edge(1, 3, 0)]),
      2 := Vertices.Vertex(2, 2, [Edge(2, 4, 0)]),
      3 := Vertices.Vertex(3, 3, [Edge(3, 4, 0)]),
      4 := Vertices.Vertex(4, 4, [])])
  }

  lemma ForkIsValid()
    ensures Valid(Fork())
  {
    var g := Fork();
    assert g.vertices.Keys == {1, 2, 3, 4};
  }

  lemma TriangleIsValid()
    ensures Valid(Triangle())
  {
    var g := Triangle();
    assert g.vertices.Keys == {1, 2, 3};
  }

  lemma SquareIsValid()
    ensures Valid(Square())
  {
    var g := Square();
    assert g.vertices.Keys == {1, 2, 3, 4};
  }

  lemma DfsOrderStep0()
    ensures Dfs.Next(Fork(), Frontier([1], {})) == Yield(Frontier([2, 3], {1}), Fork().vertices[1])
  {
    var g := Fork();
    assert Vertices.Targets(g.vertices[1].adj) == [2, 3];
    assert [1][..0] == [];
    assert [1][1..] == [];
  }

  lemma DfsOrderStep1()
    ensures Dfs.Next(Fork(), Frontier([2, 3], {1})) == Yield(Frontier([2, 4], {1, 3}), Fork().vertices[3])
  {
    var g := Fork();
    assert Vertices.Targets(g.vertices[3].adj) == [4];
    assert [2, 3][..1] == [2];
    assert [2, 3][1..] == [3];
  }

  lemma DfsOrderStep2()
    ensures Dfs.Next(Fork(), Frontier([2, 4], {1, 3})) == Yield(Frontier([2], {1, 3, 4}), Fork().vertices[4])
  {
    var g := Fork();
    assert Vertices.Targets(g.vertices[4].adj) == [];
    assert [2, 4][..1] == [2];
    assert [2, 4][1..] == [4];
  }

  lemma DfsOrderStep3()
    ensures Dfs.Next(Fork(), Frontier([2], {1, 3, 4})) == Yield(Frontier([], {1, 2, 3, 4}), Fork().vertices[2])
  {
    var g := Fork();
    assert Vertices.Targets(g.vertices[2].adj) == [];
    assert [2][..0] == [];
    assert [2][1..] == [];
  }

  lemma DfsOrderStep4()
    ensures Dfs.Next(Fork(), Frontier([], {1, 2, 3, 4})).Stop?
    ensures Dfs.Next(Fork(), Frontier([], {1, 2, 3, 4})).halt == Drained
  {
    var g := Fork();
  }

  lemma DfsOrderIter4(g: Graph<int>)
    requires g == Fork() && Valid(g)
    ensures Dfs.Iterate(g, Frontier([], {1, 2, 3, 4})) == Walk([], Drained)
  {
    DfsOrderStep4();
  }

  lemma DfsOrderIter3(g: Graph<int>)
    requires g == Fork() && Valid(g)
    ensures Dfs.Iterate(g, Frontier([2], {1, 3, 4})) == Walk([2] + [], Drained)
  {
    DfsOrderStep3();
    DfsOrderIter4(g);
    assert g.vertices[2].key == 2;
  }

  lemma DfsOrderIter2(g: Graph<int>)
    requires g == Fork() && Valid(g)
    ensures Dfs.Iterate(g, Frontier([2, 4], {1, 3})) == Walk([4] + ([2] + []), Drained)
  {
    DfsOrderStep2();
    DfsOrderIter3(g);
    assert g.vertices[4].key == 4;
  }

  lemma DfsOrderIter1(g: Graph<int>)
    requires g == Fork() && Valid(g)
    ensures Dfs.Iterate(g, Frontier([2, 3], {1})) == Walk([3] + ([4] + ([2] + [])), Drained)
  {
    DfsOrderStep1();
    DfsOrderIter2(g);
    assert g.vertices[3].key == 3;
  }

  lemma DfsOrderIter0(g: Graph<int>)
    requires g == Fork() && Valid(g)
    ensures Dfs.Iterate(g, Frontier([1], {})) == Walk([1] + ([3] + ([4] + ([2] + []))), Drained)
  {
    DfsOrderStep0();
    DfsOrderIter1(g);
    assert g.vertices[1].key == 1;
  }

  lemma DfsOrderKeys()
    ensures [1] + ([3] + ([4] + ([2] + []))) == [1, 3, 4, 2]
  {
  }

  /** Depth-first from 1 pops the last-pushed target first. */
  lemma DfsOrder()
    ensures Valid(Fork())
    ensures Dfs.Dfs(Fork(), 1) == Walk([1, 3, 4, 2], Drained)
  {
    ForkIsValid();
    DfsOrderIter0(Fork());
    DfsOrderKeys();
  }

  lemma BfsOrderStep0()
    ensures Bfs.Next(Fork(), Frontier([1], {})) == Yield(Frontier([2, 3], {1}), Fork().vertices[1])
  {
    var g := Fork();
    assert Vertices.Targets(g.vertices[1].adj) == [2, 3];
    assert [1][..0] == [];
    assert [1][1..] == [];
  }

  lemma BfsOrderStep1()
    ensures Bfs.Next(Fork(), Frontier([2, 3], {1})) == Yield(Frontier([3], {1, 2}), Fork().vertices[2])
  {
    var g := Fork();
    assert Vertices.Targets(g.vertices[2].adj) == [];
    assert [2, 3][..1] == [2];
    assert [2, 3][1..] == [3];
  }

  lemma BfsOrderStep2()
    ensures Bfs.Next(Fork(), Frontier([3], {1, 2})) == Yield(Frontier([4], {1, 2, 3}), Fork().vertices[3])
  {
    var g := Fork();
    assert Vertices.Targets(g.vertices[3].adj) == [4];
    assert [3][..0] == [];
    assert [3][1..] == [];
  }

  lemma BfsOrderStep3()
    ensures Bfs.Next(Fork(), Frontier([4], {1, 2, 3})) == Yield(Frontier([], {1, 2, 3, 4}), Fork().vertices[4])
  {
    var g := Fork();
    assert Vertices.Targets(g.vertices[4].adj) == [];
    assert [4][..0] == [];
    assert [4][1..] == [];
  }

  lemma BfsOrderStep4()
    ensures Bfs.Next(Fork(), Frontier([], {1, 2, 3, 4})).Stop?
    ensures Bfs.Next(Fork(), Frontier([], {1, 2, 3, 4})).halt == Drained
  {
    var g := Fork();
  }

  lemma BfsOrderIter4(g: Graph<int>)
    requires g == Fork() && Valid(g)
    ensures Bfs.Iterate(g, Frontier([], {1, 2, 3, 4})) == Walk([], Drained)
  {
    BfsOrderStep4();
  }

  lemma BfsOrderIter3(g: Graph<int>)
    requires g == Fork() && Valid(g)
    ensures Bfs.Iterate(g, Frontier([4], {1, 2, 3})) == Walk([4] + [], Drained)
  {
    BfsOrderStep3();
    BfsOrderIter4(g);
    assert g.vertices[4].key == 4;
  }

  lemma BfsOrderIter2(g: Graph<int>)
    requires g == Fork() && Valid(g)
    ensures Bfs.Iterate(g, Frontier([3], {1, 2})) == Walk([3] + ([4] + []), Drained)
  {
    BfsOrderStep2();
    BfsOrderIter3(g);
    assert g.vertices[3].key == 3;
  }

  lemma BfsOrderIter1(g: Graph<int>)
    requires g == Fork() && Valid(g)
    ensures Bfs.Iterate(g, Frontier([2, 3], {1})) == Walk([2] + ([3] + ([4] + [])), Drained)
  {
    BfsOrderStep1();
    BfsOrderIter2(g);
    assert g.vertices[2].key == 2;
  }

  lemma BfsOrderIter0(g: Graph<int>)
    requires g == Fork() && Valid(g)
    ensures Bfs.Iterate(g, Frontier([1], {})) == Walk([1] + ([2] + ([3] + ([4] + []))), Drained)
  {
    BfsOrderStep0();
    BfsOrderIter1(g);
    assert g.vertices[1].key == 1;
  }

  lemma BfsOrderKeys()
    ensures [1] + ([2] + ([3] + ([4] + []))) == [1, 2, 3, 4]
  {
  }

  /** Breadth-first from 1 visits by distance. */
  lemma BfsOrder()
    ensures Valid(Fork())
    ensures Bfs.Bfs(Fork(), 1) == Walk([1, 2, 3, 4], Drained)
  {
    ForkIsValid();
    BfsOrderIter0(Fork());
    BfsOrderKeys();
  }

  lemma DfsMutRepeatsStep0()
    ensures DfsMut.Next(Triangle(), Frontier([1], {})) == Yield(Frontier([2, 3], {1}), Triangle().vertices[1])
  {
    var g := Triangle();
    assert Vertices.Targets(g.vertices[1].adj) == [2, 3];
    assert {} + {1} == {1};
    UnvisitedCons(2, [3], {1});
    UnvisitedCons(3, [], {1});
    assert Unvisited([2, 3], {1}) == [2, 3];
    assert [1][..0] == [];
    assert [1][1..] == [];
  }

  lemma DfsMutRepeatsStep1()
    ensures DfsMut.Next(Triangle(), Frontier([2, 3], {1})) == Yield(Frontier([2, 2], {1, 3}), Triangle().vertices[3])
  {
    var g := Triangle();
    assert Vertices.Targets(g.vertices[3].adj) == [2];
    assert {1} + {3} == {1, 3};
    UnvisitedCons(2, [], {1, 3});
    assert Unvisited([2], {1, 3}) == [2];
    assert [2, 3][..1] == [2];
    assert [2, 3][1..] == [3];
  }

  lemma DfsMutRepeatsStep2()
    ensures DfsMut.Next(Triangle(), Frontier([2, 2], {1, 3})) == Yield(Frontier([2], {1, 2, 3}), Triangle().vertices[2])
  {
    var g := Triangle();
    assert Vertices.Targets(g.vertices[2].adj) == [];
    assert {1, 3} + {2} == {1, 2, 3};
    assert Unvisited([], {1, 2, 3}) == [];
    assert [2, 2][..1] == [2];
    assert [2, 2][1..] == [2];
  }

  lemma DfsMutRepeatsStep3()
    ensures DfsMut.Next(Triangle(), Frontier([2], {1, 2, 3})) == Yield(Frontier([], {1, 2, 3}), Triangle().vertices[2])
  {
    var g := Triangle();
    assert Vertices.Targets(g.vertices[2].adj) == [];
    assert {1, 2, 3} + {2} == {1, 2, 3};
    assert Unvisited([], {1, 2, 3}) == [];
    assert [2][..0] == [];
    assert [2][1..] == [];
  }

  lemma DfsMutRepeatsStep4()
    ensures DfsMut.Next(Triangle(), Frontier([], {1, 2, 3})).Stop?
    ensures DfsMut.Next(Triangle(), Frontier([], {1, 2, 3})).halt == Panic(UnwrapNone)
  {
    var g := Triangle();
  }

  lemma DfsMutRepeatsIter4(g: Graph<int>)
    requires g == Triangle() && Valid(g)
    ensures DfsMut.Iterate(g, Frontier([], {1, 2, 3})) == Walk([], Panic(UnwrapNone))
  {
    DfsMutRepeatsStep4();
  }

  lemma DfsMutRepeatsIter3(g: Graph<int>)
    requires g == Triangle() && Valid(g)
    ensures DfsMut.Iterate(g, Frontier([2], {1, 2, 3})) == Walk([2] + [], Panic(UnwrapNone))
  {
    DfsMutRepeatsStep3();
    DfsMutRepeatsIter4(g);
    assert g.vertices[2].key == 2;
  }

  lemma DfsMutRepeatsIter2(g: Graph<int>)
    requires g == Triangle() && Valid(g)
    ensures DfsMut.Iterate(g, Frontier([2, 2], {1, 3})) == Walk([2] + ([2] + []), Panic(UnwrapNone))
  {
    DfsMutRepeatsStep2();
    DfsMutRepeatsIter3(g);
    assert g.vertices[2].key == 2;
  }

  lemma DfsMutRepeatsIter1(g: Graph<int>)
    requires g == Triangle() && Valid(g)
    ensures DfsMut.Iterate(g, Frontier([2, 3], {1})) == Walk([3] + ([2] + ([2] + [])), Panic(UnwrapNone))
  {
    DfsMutRepeatsStep1();
    DfsMutRepeatsIter2(g);
    assert g.vertices[3].key == 3;
  }

  lemma DfsMutRepeatsIter0(g: Graph<int>)
    requires g == Triangle() && Valid(g)
    ensures DfsMut.Iterate(g, Frontier([1], {})) == Walk([1] + ([3] + ([2] + ([2] + []))), Panic(UnwrapNone))
  {
    DfsMutRepeatsStep0();
    DfsMutRepeatsIter1(g);
    assert g.vertices[1].key == 1;
  }

  lemma DfsMutRepeatsKeys()
    ensures [1] + ([3] + ([2] + ([2] + []))) == [1, 3, 2, 2]
  {
  }

  /** The mutable DFS yields 2 twice (it was pushed before it was visited) and then panics on the empty stack. */
  lemma DfsMutRepeats()
    ensures Valid(Triangle())
    ensures DfsMut.DfsMut(Triangle(), 1) == Walk([1, 3, 2, 2], Panic(UnwrapNone))
  {
    TriangleIsValid();
    DfsMutRepeatsIter0(Triangle());
    DfsMutRepeatsKeys();
  }

  lemma BfsMutRepeatsStep0()
    ensures BfsMut.Next(Square(), Frontier([1], {})) == Yield(Frontier([2, 3], {1}), Square().vertices[1])
  {
    var g := Square();
    assert Vertices.Targets(g.vertices[1].adj) == [2, 3];
    assert {} + {1} == {1};
    UnvisitedCons(2, [3], {1});
    UnvisitedCons(3, [], {1});
    assert Unvisited([2, 3], {1}) == [2, 3];
    assert [1][..0] == [];
    assert [1][1..] == [];
  }

  lemma BfsMutRepeatsStep1()
    ensures BfsMut.Next(Square(), Frontier([2, 3], {1})) == Yield(Frontier([3, 4], {1, 2}), Square().vertices[2])
  {
    var g := Square();
    assert Vertices.Targets(g.vertices[2].adj) == [4];
    assert {1} + {2} == {1, 2};
    UnvisitedCons(4, [], {1, 2});
    assert Unvisited([4], {1, 2}) == [4];
    assert [2, 3][..1] == [2];
    assert [2, 3][1..] == [3];
  }

  lemma BfsMutRepeatsStep2()
    ensures BfsMut.Next(Square(), Frontier([3, 4], {1, 2})) == Yield(Frontier([4, 4], {1, 2, 3}), Square().vertices[3])
  {
    var g := Square();
    assert Vertices.Targets(g.vertices[3].adj) == [4];
    assert {1, 2} + {3} == {1, 2, 3};
    UnvisitedCons(4, [], {1, 2, 3});
    assert Unvisited([4], {1, 2, 3}) == [4];
    assert [3, 4][..1] == [3];
    assert [3, 4][1..] == [4];
  }

  lemma BfsMutRepeatsStep3()
    ensures BfsMut.Next(Square(), Frontier([4, 4], {1, 2, 3})) == Yield(Frontier([4], {1, 2, 3, 4}), Square().vertices[4])
  {
    var g := Square();
    assert Vertices.Targets(g.vertices[4].adj) == [];
    assert {1, 2, 3} + {4} == {1, 2, 3, 4};
    assert Unvisited([], {1, 2, 3, 4}) == [];
    assert [4, 4][..1] == [4];
    assert [4, 4][1..] == [4];
  }

  lemma BfsMutRepeatsStep4()
    ensures BfsMut.Next(Square(), Frontier([4], {1, 2, 3, 4})) == Yield(Frontier([], {1, 2, 3, 4}), Square().vertices[4])
  {
    var g := Square();
    assert Vertices.Targets(g.vertices[4].adj) == [];
    assert {1, 2, 3, 4} + {4} == {1, 2, 3, 4};
    assert Unvisited([], {1, 2, 3, 4}) == [];
    assert [4][..0] == [];
    assert [4][1..] == [];
  }

  lemma BfsMutRepeatsStep5()
    ensures BfsMut.Next(Square(), Frontier([], {1, 2, 3, 4})).Stop?
    ensures BfsMut.Next(Square(), Frontier([], {1, 2, 3, 4})).halt == Drained
  {
    var g := Square();
  }

  lemma BfsMutRepeatsIter5(g: Graph<int>)
    requires g == Square() && Valid(g)
    ensures BfsMut.Iterate(g, Frontier([], {1, 2, 3, 4})) == Walk([], Drained)
  {
    BfsMutRepeatsStep5();
  }

  lemma BfsMutRepeatsIter4(g: Graph<int>)
    requires g == Square() && Valid(g)
    ensures BfsMut.Iterate(g, Frontier([4], {1, 2, 3, 4})) == Walk([4] + [], Drained)
  {
    BfsMutRepeatsStep4();
    BfsMutRepeatsIter5(g);
    assert g.vertices[4].key == 4;
  }

  lemma BfsMutRepeatsIter3(g: Graph<int>)
    requires g == Square() && Valid(g)
    ensures BfsMut.Iterate(g, Frontier([4, 4], {1, 2, 3})) == Walk([4] + ([4] + []), Drained)
  {
    BfsMutRepeatsStep3();
    BfsMutRepeatsIter4(g);
    assert g.vertices[4].key == 4;
  }

  lemma BfsMutRepeatsIter2(g: Graph<int>)
    requires g == Square() && Valid(g)
    ensures BfsMut.Iterate(g, Frontier([3, 4], {1, 2})) == Walk([3] + ([4] + ([4] + [])), Drained)
  {
    BfsMutRepeatsStep2();
    BfsMutRepeatsIter3(g);
    assert g.vertices[3].key == 3;
  }

  lemma BfsMutRepeatsIter1(g: Graph<int>)
    requires g == Square() && Valid(g)
    ensures BfsMut.Iterate(g, Frontier([2, 3], {1})) == Walk([2] + ([3] + ([4] + ([4] + []))), Drained)
  {
    BfsMutRepeatsStep1();
    BfsMutRepeatsIter2(g);
    assert g.vertices[2].key == 2;
  }

  lemma BfsMutRepeatsIter0(g: Graph<int>)
    requires g == Square() && Valid(g)
    ensures BfsMut.Iterate(g, Frontier([1], {})) == Walk([1] + ([2] + ([3] + ([4] + ([4] + [])))), Drained)
  {
    BfsMutRepeatsStep0();
    BfsMutRepeatsIter1(g);
    assert g.vertices[1].key == 1;
  }

  lemma BfsMutRepeatsKeys()
    ensures [1] + ([2] + ([3] + ([4] + ([4] + [])))) == [1, 2, 3, 4, 4]
  {
  }

  /** The mutable BFS yields 4 twice and then stops on the empty queue. */
  lemma BfsMutRepeats()
    ensures Valid(Square())
    ensures BfsMut.BfsMut(Square(), 1) == Walk([1, 2, 3, 4, 4], Drained)
  {
    SquareIsValid();
    BfsMutRepeatsIter0(Square());
    BfsMutRepeatsKeys();
  }

  /** The `insert_edge_test` of src/vertex.rs: a new target is appended, and a
      present one is swapped out and returned with its old weight. */
  lemma VertexInsertEdgeTest()
    ensures Vertices.InsertEdge(Vertices.New(1, "one"), 2, 0) == (Vertices.Vertex(1, "one", [Edge(1, 2, 0)]), None)
    ensures Vertices.InsertEdge(Vertices.Vertex(2, "two", [NewUnweighted(2, 3)]), 4, 0)
            == (Vertices.Vertex(2, "two", [Edge(2, 3, 0), Edge(2, 4, 0)]), None)
    ensures Vertices.InsertEdge(Vertices.Vertex(3, "three", [Edges.New(3, 4, 69)]), 4, 0)
            == (Vertices.Vertex(3, "three", [Edge(3, 4, 0)]), Some(Edge(3, 4, 69)))
  {
    var v1 := Vertices.New(1, "one");
    var r1 := Vertices.InsertEdge(v1, 2, 0);
    assert r1.1.None?;
    assert r1.0.adj == [] + [Edge(1, 2, 0)];
    assert r1.0.key == 1;
    assert r1.0.value == "one";
    assert r1.0 == Vertices.Vertex(1, "one", [Edge(1, 2, 0)]);
    var v2 := Vertices.Vertex(2, "two", [NewUnweighted(2, 3)]);
    var r2 := Vertices.InsertEdge(v2, 4, 0);
    assert v2.adj == [Edge(2, 3, 0)];
    assert !Eq(v2.adj[0], Edges.New(2, 4, 0));
    assert r2.1.None?;
    assert r2.0.adj == [Edge(2, 3, 0)] + [Edge(2, 4, 0)];
    assert r2.0 == Vertices.Vertex(2, "two", [Edge(2, 3, 0), Edge(2, 4, 0)]);
    var v3 := Vertices.Vertex(3, "three", [Edges.New(3, 4, 69)]);
    var r3 := Vertices.InsertEdge(v3, 4, 0);
    assert v3.adj == [Edge(3, 4, 69)];
    assert Eq(v3.adj[0], Edges.New(3, 4, 0));
    assert r3.1.Some?;
    assert r3.1.value == Edge(3, 4, 69);
    assert |r3.0.adj| == 1 && r3.0.adj[0] == Edge(3, 4, 0);
    assert r3.0.adj == [Edge(3, 4, 0)];
  }

  /** The `get_edge_test` of src/vertex.rs. */
  lemma VertexGetEdgeTest()
    ensures Vertices.GetEdge(Vertices.Vertex(1, "one", [Edge(1, 2, 0), Edge(1, 3, 0)]), 1) == None
    ensures Vertices.GetEdge(Vertices.Vertex(1, "one", [Edge(1, 2, 0), Edge(1, 3, 0)]), 2) == Some(Edge(1, 2, 0))
    ensures Vertices.GetEdge(Vertices.Vertex(1, "one", [Edge(1, 2, 0), Edge(1, 3, 0)]), 3) == Some(Edge(1, 3, 0))
  {
    var v := Vertices.Vertex(1, "one", [Edge(1, 2, 0), Edge(1, 3, 0)]);
    assert v.adj[0].to == 2 && v.adj[1].to == 3;
  }

  /** The graph the tests of src/graph/tests.rs start from: 1 and 2 inserted
      into an empty graph. */
  function TwoVertices(): Graph<int> {
    Insert(Insert(Graphs.New(Graphs.Directed), 1, 1).0, 2, 2).0
  }

  /** The `insert_vertex_test` of src/graph/tests.rs: inserting a vertex hands
      back the one it replaces. */
  lemma InsertVertexTest()
    ensures InsertVertex(Graphs.New<int>(Graphs.Directed), Vertices.New(1, 1)).1 == None
    ensures InsertVertex(InsertVertex(Graphs.New<int>(Graphs.Directed), Vertices.New(1, 1)).0, Vertices.New(2, 2)).1 == None
    ensures InsertVertex(InsertVertex(InsertVertex(Graphs.New<int>(Graphs.Directed), Vertices.New(1, 1)).0,
                                      Vertices.New(2, 2)).0, Vertices.New(1, 3)).1 == Some(Vertices.New(1, 1))
    ensures InsertVertex(InsertVertex(InsertVertex(InsertVertex(Graphs.New<int>(Graphs.Directed), Vertices.New(1, 1)).0,
                                                   Vertices.New(2, 2)).0, Vertices.New(1, 3)).0,
                         Vertices.New(2, 1)).1 == Some(Vertices.New(2, 2))
  {
    var g0 := Graphs.New<int>(Graphs.Directed);
    var g1 := InsertVertex(g0, Vertices.New(1, 1)).0;
    var g2 := InsertVertex(g1, Vertices.New(2, 2)).0;
    var g3 := InsertVertex(g2, Vertices.New(1, 3)).0;
    assert GetVertex(g0, 1) == None;
    assert GetVertex(g1, 2) == GetVertex(g0, 2) == None;
    assert GetVertex(g2, 1) == GetVertex(g1, 1);
    assert GetVertex(g3, 2) == GetVertex(g2, 2);
  }

  /** The `get_vertex_test` of src/graph/tests.rs. */
  lemma GetVertexTest()
    ensures GetVertex(TwoVertices(), 1) == Some(Vertices.New(1, 1))
    ensures GetVertex(TwoVertices(), 2) == Some(Vertices.New(2, 2))
    ensures GetVertex(TwoVertices(), 3) == None
  {
    var g1 := Insert(Graphs.New<int>(Graphs.Directed), 1, 1).0;
    assert GetVertex(TwoVertices(), 1) == GetVertex(g1, 1);
    assert GetVertex(TwoVertices(), 3) == GetVertex(g1, 3) == GetVertex(Graphs.New<int>(Graphs.Directed), 3);
  }

  /** The `remove_vertex_test` of src/graph/tests.rs: the second removal of a
      key finds nothing. */
  lemma RemoveVertexTest()
    ensures RemoveVertex(TwoVertices(), 1).1 == Some(Vertices.New(1, 1))
    ensures RemoveVertex(RemoveVertex(TwoVertices(), 1).0, 2).1 == Some(Vertices.New(2, 2))
    ensures RemoveVertex(RemoveVertex(RemoveVertex(TwoVertices(), 1).0, 2).0, 1).1 == None
  {
    var g := TwoVertices();
    GetVertexTest();
    var g1 := RemoveVertex(g, 1).0;
    var g2 := RemoveVertex(g1, 2).0;
    assert GetVertex(g1, 2) == GetVertex(g, 2);
    assert GetVertex(g2, 1) == GetVertex(g1, 1) == None;
  }

}
