// BorderDetect: is the component of the last (or largest) socket id on the
// outer border of a drawn diagram?  The grid is flood-filled from its corner,
// the occupied cells touching the flooded region give the border values, and
// the crossing graph's union-find gives the component of the target id.

module BorderDetection {
  import opened Wrappers
  import opened Matrices
  import Bfs
  import opened Graphs
  import opened DiagramGraphs
  import opened Connectivity

  /** intersect: every element of a that b also holds. */
  method Intersect(a: set<int>, b: set<int>) returns (ans: set<int>)
    ensures ans == a * b
  {
    ans := {};
    var rest := a;
    while rest != {}
      invariant rest <= a
      invariant ans == (a - rest) * b
      decreases |rest|
    {
      SomeMember(rest);
      var item :| item in rest;
      if item in b {
        ans := ans + {item};
      }
      rest := rest - {item};
    }
  }

  /** The id whose component is checked: last_socket_id when positive,
      otherwise the largest cell of the grid. */
  ghost function Target(lastSocketId: int, m: Matrix): int
  {
    if lastSocketId > 0 then lastSocketId else MaxFrom(IntMin, m.cells)
  }

  /** The cells the flood fill from the corner reaches: 1 where the cell is
      reachable over empty cells of the binarised grid z. */
  ghost function Flooded(z: Matrix): (r: Matrix)
    ensures r.rcnt == z.rcnt && r.ccnt == z.ccnt
    ensures forall i, j :: InBounds(z, i, j) ==> (r.cells[i][j] == 1 <==> Bfs.Reachable(z, (0, 0), (i, j)))
  {
    var rows := seq(|z.cells|, i requires 0 <= i < |z.cells| =>
                  seq(|z.cells[i]|, j requires 0 <= j < |z.cells[i]| =>
                    if Bfs.Reachable(z, (0, 0), (i, j)) then 1 else 0));
    Grid(z.rcnt, z.ccnt, rows)
  }

  /** The values of the grid at the border cells of the flooded region: cells
      the fill did not reach with a reached 4-neighbour inside the grid. */
  ghost function BorderValues(m: Matrix): set<int>
  {
    Selected(MaskMatrix(Flooded(Binarised(m)), 0), m)
  }

  /** The nodes joined to v in the graph with the given edges on the nodes
      1..n; empty when v is not a node. */
  ghost function ComponentOf(edges: set<(int, int)>, n: int, v: int): set<int>
  {
    if 1 <= v <= n then set b | 1 <= b <= n && Conn(edges, v, b) else {}
  }

  /** The largest node id DiagramGraph ends with for grid m: 0 without a
      crossing; otherwise at least 3, and 3 or the end of an edge; and every
      edge runs between nodes up to it. */
  ghost predicate NodeTop(m: Matrix, n: int)
  {
    && (Crossings(m) == {} ==> n == 0)
    && (Crossings(m) != {} ==> n >= 3)
    && (n == 0 || n == 3 || exists e :: e in DiagramEdges(m) && e.0 == n)
    && (forall e :: e in DiagramEdges(m) ==> 1 <= e.0 <= n && 1 <= e.1 <= n)
  }

  /** NodeTop fixes the node count: the component of the target does not
      depend on how the graph was built. */
  lemma NodeTopUnique(m: Matrix, n1: int, n2: int)
    requires NodeTop(m, n1) && NodeTop(m, n2)
    ensures n1 == n2
  {
  }

  /** A binarised 0/1 matrix is the matrix itself. */
  lemma BinarisedZeroOne(z: Matrix)
    requires ZeroOne(z)
    ensures Binarised(z) == z
  {
    MatrixExt(Binarised(z), z);
  }

  /** A list of components that holds v at index p holds v's component
      there. */
  lemma PickedComponent(edges: set<(int, int)>, n: int, cc: seq<set<int>>, p: int, v: int)
    requires Components(edges, n, cc) && 0 <= p < |cc| && v in cc[p]
    ensures cc[p] == ComponentOf(edges, n, v)
  {
    assert IsComponent(edges, n, cc[p]);
    forall b | b in cc[p]
      ensures b in ComponentOf(edges, n, v)
    {
    }
  }

  /** A node the components cover lies in one of them. */
  lemma CoveredSomewhere(edges: set<(int, int)>, n: int, cc: seq<set<int>>, v: int)
    requires Components(edges, n, cc) && 1 <= v <= n
    ensures exists p :: 0 <= p < |cc| && v in cc[p]
  {
    assert Covered(cc, v);
  }

  /** Every stored edge runs between nodes 1..maxNodeId. */
  lemma EdgesWithin(g: Graph)
    requires g.Valid()
    ensures forall e :: e in g.Edges() ==> 1 <= e.0 <= g.maxNodeId && 1 <= e.1 <= g.maxNodeId
  {
    forall e | e in g.Edges()
      ensures 1 <= e.0 <= g.maxNodeId && 1 <= e.1 <= g.maxNodeId
    {
      EdgesSymmetric(g.nextNode, e.0, e.1);
    }
  }

  /** The loop that keeps the last component holding v: it is v's component
      when v is a node, and empty otherwise. */
  method LastHolding(cc: seq<set<int>>, v: int, ghost edges: set<(int, int)>, ghost n: int) returns (found: set<int>)
    requires Components(edges, n, cc)
    ensures found == ComponentOf(edges, n, v)
  {
    found := {};
    for k := 0 to |cc|
      invariant found == {} || (v in found && exists p :: 0 <= p < k && cc[p] == found)
      invariant (exists p :: 0 <= p < k && v in cc[p]) ==> v in found
    {
      if v in cc[k] {
        found := cc[k];
      }
    }
    if found != {} {
      var p :| 0 <= p < |cc| && cc[p] == found;
      PickedComponent(edges, n, cc, p, v);
    } else if 1 <= v <= n {
      CoveredSomewhere(edges, n, cc, v);
    }
  }

  /** The border part of checkBorderMaxCC: flood-fill the binarised grid
      from its empty corner, mask the border of the flooded region, and
      select the grid values there. */
  method BorderSet(imx: IntMatrix2) returns (setInt: set<int>)
    requires imx.Valid() && InBounds(imx.Value(), 0, 0) && imx.Value().cells[0][0] == 0
    ensures setInt == BorderValues(imx.Value())
  {
    var m := imx.Value();
    var mmx := new ZeroOneMatrix.FromMatrix(m);
    var vis := Bfs.Search(mmx, 0, 0);
    MatrixExt(vis.Value(), Flooded(Binarised(m)));
    var raw := MaskMatrix(vis.Value(), 0);
    var border := new ZeroOneMatrix.FromMatrix(raw);
    BinarisedZeroOne(raw);
    setInt := border.Select(m);
  }

  /** The graph part of checkBorderMaxCC: build the crossing graph, fail as
      it does on a bad crossing, and otherwise return the component that
      holds v, with the graph's node count as a ghost. */
  method ComponentHolding(imx: IntMatrix2, v: int) returns (o: Outcome, comp: set<int>, ghost nodes: int)
    requires imx.Valid()
    ensures o == Pass <==> WellFormed(imx.Value())
    ensures o.Fail? ==> o.error.AssertionFailed?
    ensures o == Pass ==> NodeTop(imx.Value(), nodes) && comp == ComponentOf(DiagramEdges(imx.Value()), nodes, v)
  {
    comp, nodes := {}, 0;
    var dg := new DiagramGraph(imx);
    o := dg.status;
    if o.Fail? {
      return;
    }
    EdgesWithin(dg.graph);
    nodes := dg.graph.maxNodeId;
    var ccAlg := new ConnectedComponents(dg.graph);
    var allCc := ccAlg.GetConnectedComponents();
    comp := LastHolding(allCc, v, ccAlg.edges, ccAlg.maxNodeId);
  }

  /** checkBorderMaxCC: the largest cell must be positive and the corner
      empty (the flood fill's start), and the diagram graph must accept every
      crossing; then the answer is whether the target's component holds a
      border value.  The graph's node count is returned as a ghost. */
  method CheckBorderMaxCC(lastSocketId: int, imx: IntMatrix2) returns (r: Result<bool>, ghost nodes: int)
    requires imx.Valid()
    ensures r.Err? <==> MaxFrom(IntMin, imx.Value().cells) <= 0 || !InBounds(imx.Value(), 0, 0)
                        || imx.Value().cells[0][0] != 0 || !WellFormed(imx.Value())
    ensures r.Err? ==> r.error.AssertionFailed?
    ensures r.Ok? ==> NodeTop(imx.Value(), nodes)
    ensures r.Ok? ==> (r.value <==> ComponentOf(DiagramEdges(imx.Value()), nodes, Target(lastSocketId, imx.Value()))
                                     * BorderValues(imx.Value()) != {})
  {
    nodes := 0;
    var mxv := imx.GetMax();
    if mxv <= 0 {
      return Err(AssertionFailed("BorderDetect::checkBorderMaxCC")), nodes;
    }
    var lastv := mxv;
    if lastSocketId > 0 {
      lastv := lastSocketId;
    }
    if !(InBounds(imx.Value(), 0, 0) && imx.GetPos(0, 0) == 0) {
      return Err(AssertionFailed("BfsAlgo::search")), nodes;
    }
    var setInt := BorderSet(imx);
    var o, lastCc;
    o, lastCc, nodes := ComponentHolding(imx, lastv);
    if o.Fail? {
      return Err(o.error), nodes;
    }
    var common := Intersect(lastCc, setInt);
    r := Ok(|common| != 0);
  }
}
