// DiagramGraph: the graph whose nodes are the socket ids written in a
// diagram matrix and whose edges join the two strands that pass straight
// through each crossing cell (a negative cell away from the rim).

module DiagramGraphs {
  import opened Wrappers
  import opened Matrices
  import opened Graphs

  /** The four neighbours of a crossing, in the order the source reads
      them: right, up, left, down. */
  const Dx: seq<int> := [0, -1, 0, 1]
  const Dy: seq<int> := [1, 0, -1, 0]

  /** The value of the d-th neighbour of (i, j); 0 off the matrix. */
  function Neighbour(m: Matrix, i: int, j: int, d: int): int
    requires 0 <= d < 4
  {
    WrapAt(0, m, i + Dx[d], j + Dy[d])
  }

  /** A crossing cell: negative and not on the outermost ring. */
  predicate IsCrossing(m: Matrix, i: int, j: int)
  {
    1 <= i < m.rcnt - 1 && 1 <= j < m.ccnt - 1 && m.cells[i][j] < 0
  }

  /** All four strands at a crossing carry a socket id (a positive value). */
  predicate Good(m: Matrix, i: int, j: int)
  {
    Neighbour(m, i, j, 0) > 0 && Neighbour(m, i, j, 1) > 0 &&
    Neighbour(m, i, j, 2) > 0 && Neighbour(m, i, j, 3) > 0
  }

  /** The crossings visited before (i, j) in row-major order. */
  ghost function CrossingsBefore(m: Matrix, i: int, j: int): set<(int, int)>
  {
    set a, b | 0 <= a < m.rcnt && 0 <= b < m.ccnt && (a < i || (a == i && b < j)) && IsCrossing(m, a, b) :: (a, b)
  }

  ghost function Crossings(m: Matrix): set<(int, int)>
  {
    set a, b | 0 <= a < m.rcnt && 0 <= b < m.ccnt && IsCrossing(m, a, b) :: (a, b)
  }

  /** The edges a crossing contributes: right with left, up with down, each
      stored in both directions. */
  function CrossEdges(m: Matrix, c: (int, int)): set<(int, int)>
  {
    var n0, n1, n2, n3 := Neighbour(m, c.0, c.1, 0), Neighbour(m, c.0, c.1, 1),
                          Neighbour(m, c.0, c.1, 2), Neighbour(m, c.0, c.1, 3);
    {(n0, n2), (n2, n0), (n1, n3), (n3, n1)}
  }

  ghost function EdgesAt(m: Matrix, cs: set<(int, int)>): set<(int, int)>
  {
    set c, e | c in cs && e in CrossEdges(m, c) :: e
  }

  /** The edge set the diagram describes. */
  ghost function DiagramEdges(m: Matrix): set<(int, int)>
  {
    EdgesAt(m, Crossings(m))
  }

  /** Every crossing has four socket ids around it. */
  ghost predicate WellFormed(m: Matrix)
  {
    forall c :: c in Crossings(m) ==> Good(m, c.0, c.1)
  }

  /** The state of the construction after the crossings cs: every one of
      them was good, the graph holds exactly their edges, and its largest
      id is 0 before the first crossing, and otherwise the largest of 3 and
      the edge ends. */
  ghost predicate BuiltOver(m: Matrix, cs: set<(int, int)>, edges: set<(int, int)>, top: int)
  {
    && (forall c :: c in cs ==> Good(m, c.0, c.1))
    && edges == EdgesAt(m, cs)
    && TopOf(cs != {}, edges, top)
  }

  /** What the largest node id is, given whether a crossing was seen. */
  ghost predicate TopOf(seen: bool, edges: set<(int, int)>, top: int)
  {
    && (!seen ==> top == 0)
    && (seen ==> top >= 3)
    && (top == 0 || top == 3 || exists e :: e in edges && e.0 == top)
  }

  /** The construction state after the crossings before (i, j). */
  ghost predicate Built(m: Matrix, edges: set<(int, int)>, top: int, i: int, j: int)
  {
    BuiltOver(m, CrossingsBefore(m, i, j), edges, top)
  }

  lemma CrossingsStep(m: Matrix, i: int, j: int)
    requires 0 <= i < m.rcnt && 0 <= j < m.ccnt
    ensures CrossingsBefore(m, i, j + 1) ==
              CrossingsBefore(m, i, j) + (if IsCrossing(m, i, j) then {(i, j)} else {})
  {
  }

  lemma CrossingsNextRow(m: Matrix, i: int, j: int)
    requires j >= m.ccnt - 1
    ensures CrossingsBefore(m, i, j) == CrossingsBefore(m, i + 1, 1)
  {
    forall c | c in CrossingsBefore(m, i + 1, 1)
      ensures c in CrossingsBefore(m, i, j)
    {
    }
  }

  lemma CrossingsAll(m: Matrix, i: int)
    requires i >= m.rcnt - 1
    ensures CrossingsBefore(m, i, 1) == Crossings(m)
  {
  }

  /** A crossing lacking a socket id makes the diagram ill-formed. */
  lemma BadCrossing(m: Matrix, i: int, j: int)
    requires 0 <= i < m.rcnt && 0 <= j < m.ccnt && IsCrossing(m, i, j) && !Good(m, i, j)
    ensures !WellFormed(m)
  {
    assert (i, j) in Crossings(m);
  }

  /** Past the last interior row, the construction has seen every crossing. */
  lemma BuiltAll(m: Matrix, edges: set<(int, int)>, top: int, i: int)
    requires i >= m.rcnt - 1 && Built(m, edges, top, i, 1)
    ensures WellFormed(m) && BuiltOver(m, Crossings(m), edges, top)
  {
    CrossingsAll(m, i);
  }

  lemma EdgesAtAdd(m: Matrix, cs: set<(int, int)>, c: (int, int))
    ensures EdgesAt(m, cs + {c}) == EdgesAt(m, cs) + CrossEdges(m, c)
  {
    forall e | e in EdgesAt(m, cs + {c})
      ensures e in EdgesAt(m, cs) + CrossEdges(m, c)
    {
      var c', e' :| c' in cs + {c} && e' in CrossEdges(m, c') && e == e';
    }
  }

  /** Reading the neighbours of crossing (i, j): the first non-positive one
      fails the assertion; otherwise node ids 0..3 exist and no edge is
      added yet. */
  method ReadCrossing(aim: IntMatrix2, g: Graph, i: int, j: int) returns (o: Outcome, arr: seq<int>)
    requires aim.Valid() && g.Valid() && IsCrossing(aim.Value(), i, j)
    modifies g
    ensures g.Valid() && g.Edges() == old(g.Edges())
    ensures o == Pass <==> Good(aim.Value(), i, j)
    ensures o.Fail? ==> o.error.AssertionFailed?
    ensures o == Pass ==> g.maxNodeId == Graphs.Max(old(g.maxNodeId), 3)
    ensures o == Pass ==> |arr| == 4 && forall d :: 0 <= d < 4 ==> arr[d] == Neighbour(aim.Value(), i, j, d)
  {
    ghost var m := aim.Value();
    arr := [];
    for d := 0 to 4
      invariant g.Valid() && g.Edges() == old(g.Edges())
      invariant |arr| == d && forall e :: 0 <= e < d ==> arr[e] == Neighbour(m, i, j, e) && arr[e] > 0
      invariant g.maxNodeId == (if d == 0 then old(g.maxNodeId) else Graphs.Max(old(g.maxNodeId), d - 1))
    {
      var v := aim.GetPos(i + Dx[d], j + Dy[d]);
      arr := arr + [v];
      if v <= 0 {
        return Fail(AssertionFailed("DiagramGraph: crossing without four sockets")), arr;
      }
      g.SetMaxNodeId(d);
    }
    o := Pass;
  }

  /** A cell that is not a crossing leaves the construction as it was. */
  lemma BuiltSkip(m: Matrix, edges: set<(int, int)>, top: int, i: int, j: int)
    requires 0 <= i < m.rcnt && 0 <= j < m.ccnt && !IsCrossing(m, i, j)
    requires Built(m, edges, top, i, j)
    ensures Built(m, edges, top, i, j + 1)
  {
    CrossingsStep(m, i, j);
  }

  /** Adding the edges of a crossing with strands n0..n3 keeps TopOf. */
  lemma TopAdd(edges: set<(int, int)>, top: int, seen: bool, n0: int, n1: int, n2: int, n3: int, top': int)
    requires TopOf(seen, edges, top) && n0 > 0 && n1 > 0 && n2 > 0 && n3 > 0
    requires top' == Graphs.Max(Graphs.Max(Graphs.Max(Graphs.Max(Graphs.Max(top, 3), n0), n2), n1), n3)
    ensures TopOf(true, edges + {(n0, n2), (n2, n0), (n1, n3), (n3, n1)}, top')
  {
    var edges' := edges + {(n0, n2), (n2, n0), (n1, n3), (n3, n1)};
    if top' != 3 && top' != top {
      if top' == n0 {
        assert (n0, n2) in edges';
      } else if top' == n1 {
        assert (n1, n3) in edges';
      } else if top' == n2 {
        assert (n2, n0) in edges';
      } else {
        assert (n3, n1) in edges';
      }
    } else if top' == top && top != 0 && top != 3 {
      var e :| e in edges && e.0 == top;
      assert e in edges';
    }
  }

  /** Adding a good crossing c to the crossings seen. */
  lemma BuiltOverAdd(m: Matrix, cs: set<(int, int)>, edges: set<(int, int)>, top: int, c: (int, int), top': int)
    requires BuiltOver(m, cs, edges, top) && Good(m, c.0, c.1)
    requires top' == Graphs.Max(Graphs.Max(Graphs.Max(Graphs.Max(Graphs.Max(top, 3),
                       Neighbour(m, c.0, c.1, 0)), Neighbour(m, c.0, c.1, 2)), Neighbour(m, c.0, c.1, 1)), Neighbour(m, c.0, c.1, 3))
    ensures BuiltOver(m, cs + {c}, edges + CrossEdges(m, c), top')
  {
    EdgesAtAdd(m, cs, c);
    TopAdd(edges, top, cs != {}, Neighbour(m, c.0, c.1, 0), Neighbour(m, c.0, c.1, 1), Neighbour(m, c.0, c.1, 2), Neighbour(m, c.0, c.1, 3), top');
  }

  /** A good crossing adds its four edges and raises the largest id to
      cover 3 and the four strands. */
  lemma BuiltAdd(m: Matrix, edges: set<(int, int)>, top: int, i: int, j: int, top': int)
    requires 0 <= i < m.rcnt && 0 <= j < m.ccnt && IsCrossing(m, i, j) && Good(m, i, j)
    requires Built(m, edges, top, i, j)
    requires top' == Graphs.Max(Graphs.Max(Graphs.Max(Graphs.Max(Graphs.Max(top, 3),
                       Neighbour(m, i, j, 0)), Neighbour(m, i, j, 2)), Neighbour(m, i, j, 1)), Neighbour(m, i, j, 3))
    ensures Built(m, edges + CrossEdges(m, (i, j)), top', i, j + 1)
  {
    CrossingsStep(m, i, j);
    BuiltOverAdd(m, CrossingsBefore(m, i, j), edges, top, (i, j), top');
  }

  /** A crossing: read its four strands, then join right with left and up
      with down. */
  method AddCrossing(aim: IntMatrix2, g: Graph, i: int, j: int) returns (o: Outcome)
    requires aim.Valid() && g.Valid() && IsCrossing(aim.Value(), i, j)
    modifies g
    ensures g.Valid()
    ensures o == Pass <==> Good(aim.Value(), i, j)
    ensures o.Fail? ==> o.error.AssertionFailed?
    ensures o == Pass ==> g.Edges() == old(g.Edges()) + CrossEdges(aim.Value(), (i, j))
    ensures o == Pass ==>
              (g.maxNodeId ==
                 Graphs.Max(Graphs.Max(Graphs.Max(Graphs.Max(Graphs.Max(old(g.maxNodeId), 3),
                   Neighbour(aim.Value(), i, j, 0)), Neighbour(aim.Value(), i, j, 2)),
                   Neighbour(aim.Value(), i, j, 1)), Neighbour(aim.Value(), i, j, 3)))
  {
    var arr;
    o, arr := ReadCrossing(aim, g, i, j);
    if o.Fail? {
      return;
    }
    var o1 := g.AddEdge(arr[0], arr[2]);
    var o2 := g.AddEdge(arr[1], arr[3]);
  }

  /** One step of the scan over the interior. */
  method VisitCell(aim: IntMatrix2, g: Graph, i: int, j: int) returns (o: Outcome)
    requires aim.Valid() && g.Valid()
    requires 1 <= i < aim.rcnt - 1 && 1 <= j < aim.ccnt - 1
    requires Built(aim.Value(), g.Edges(), g.maxNodeId, i, j)
    modifies g
    ensures g.Valid()
    ensures o == Pass <==> !IsCrossing(aim.Value(), i, j) || Good(aim.Value(), i, j)
    ensures o.Fail? ==> o.error.AssertionFailed?
    ensures o == Pass ==> Built(aim.Value(), g.Edges(), g.maxNodeId, i, j + 1)
  {
    ghost var m := aim.Value();
    if aim.GetPos(i, j) >= 0 {
      BuiltSkip(m, g.Edges(), g.maxNodeId, i, j);
      return Pass;
    }
    ghost var e0, t0 := g.Edges(), g.maxNodeId;
    o := AddCrossing(aim, g, i, j);
    if o == Pass {
      BuiltAdd(m, e0, t0, i, j, g.maxNodeId);
    }
  }

  /** The DiagramGraph of an IntMatrix2. */
  class DiagramGraph {
    const graph: Graph
    /** Pass, or the failed assertion the source stops the program with. */
    const status: Outcome

    ghost predicate Valid()
      reads this, graph
    {
      graph.Valid()
    }

    /** Scans the interior row by row; stops at the first crossing that
        lacks a socket id on one of its four sides. */
    constructor(aim: IntMatrix2)
      requires aim.Valid()
      ensures Valid() && fresh(graph)
      ensures status == Pass <==> WellFormed(aim.Value())
      ensures status.Fail? ==> status.error.AssertionFailed?
      ensures status == Pass ==> graph.Edges() == DiagramEdges(aim.Value())
      ensures status == Pass ==> (Crossings(aim.Value()) == {} ==> graph.maxNodeId == 0)
      ensures status == Pass ==> (Crossings(aim.Value()) != {} ==> graph.maxNodeId >= 3)
      ensures status == Pass ==>
                (graph.maxNodeId == 0 || graph.maxNodeId == 3 || exists e :: e in graph.Edges() && e.0 == graph.maxNodeId)
    {
      var g := new Graph();
      var o := Fill(aim, g);
      graph, status := g, o;
    }

    function GetMaxNodeId(): int
      reads this, graph
    {
      graph.maxNodeId
    }

    predicate CheckHasNode(nodeId: int)
      reads this, graph
    {
      graph.CheckHasNode(nodeId)
    }

    function GetNextNode(nodeId: int): (r: seq<int>)
      reads this, graph
      requires Valid() && CheckHasNode(nodeId)
      ensures forall k :: 0 <= k < |r| ==> CheckHasNode(r[k]) && (nodeId, r[k]) in graph.Edges()
      ensures forall t :: (nodeId, t) in graph.Edges() ==> t in r
    {
      graph.GetNextNode(nodeId)
    }
  }

  /** One interior row of the constructor's scan. */
  method FillRow(aim: IntMatrix2, g: Graph, i: int) returns (o: Outcome)
    requires aim.Valid() && g.Valid() && 1 <= i < aim.rcnt - 1
    requires Built(aim.Value(), g.Edges(), g.maxNodeId, i, 1)
    modifies g
    ensures g.Valid()
    ensures o.Fail? ==> o.error.AssertionFailed? && !WellFormed(aim.Value())
    ensures o == Pass ==> Built(aim.Value(), g.Edges(), g.maxNodeId, i + 1, 1)
  {
    ghost var m := aim.Value();
    var j := 1;
    while j < aim.ccnt - 1
      invariant 1 <= j && (j <= aim.ccnt - 1 || j == 1)
      invariant g.Valid() && Built(m, g.Edges(), g.maxNodeId, i, j)
    {
      o := VisitCell(aim, g, i, j);
      if o.Fail? {
        BadCrossing(m, i, j);
        return;
      }
      j := j + 1;
    }
    CrossingsNextRow(m, i, j);
    o := Pass;
  }

  /** The constructor's scan, row by row. */
  method Fill(aim: IntMatrix2, g: Graph) returns (o: Outcome)
    requires aim.Valid() && g.Valid() && g.maxNodeId == 0 && g.Edges() == {}
    modifies g
    ensures g.Valid()
    ensures o == Pass <==> WellFormed(aim.Value())
    ensures o.Fail? ==> o.error.AssertionFailed?
    ensures o == Pass ==> BuiltOver(aim.Value(), Crossings(aim.Value()), g.Edges(), g.maxNodeId)
  {
    ghost var m := aim.Value();
    var i := 1;
    while i < aim.rcnt - 1
      invariant 1 <= i && (i <= aim.rcnt - 1 || i == 1)
      invariant g.Valid() && Built(m, g.Edges(), g.maxNodeId, i, 1)
    {
      o := FillRow(aim, g, i);
      if o.Fail? {
        return;
      }
      i := i + 1;
    }
    BuiltAll(m, g.Edges(), g.maxNodeId, i);
    o := Pass;
  }
}
