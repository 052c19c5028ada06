// GetBorderSet: flood the zero cells of a matrix from its top-left corner
// and collect the values of the non-zero cells the flood touches.

module BorderSets {
  import opened Wrappers
  import opened Matrices
  import opened SafeMatrix
  import opened Bfs

  /** The offsets GetBorderSet tries, as (row, column) steps. */
  const BorderSteps: seq<Pos> := [(0, 1), (0, -1), (1, 0), (-1, 0)]

  /** Some neighbour of (i, j) reads non-zero in vis; cells outside vis
      read 0. */
  predicate Touches(vis: Matrix, i: int, j: int)
  {
    exists d :: 0 <= d < 4 && WrapAt(0, vis, i + BorderSteps[d].0, j + BorderSteps[d].1) != 0
  }

  /** The values collected so far: those of the non-zero cells of aim
      that touch vis, among rows before i and row i before column j. */
  ghost function CollectedBefore(aim: Matrix, vis: Matrix, i: int, j: int): set<int>
  {
    set a, b | 0 <= a < aim.rcnt && 0 <= b < aim.ccnt && (a < i || (a == i && b < j)) &&
               aim.cells[a][b] != 0 && Touches(vis, a, b)
      :: aim.cells[a][b]
  }

  lemma CollectedStep(aim: Matrix, vis: Matrix, i: int, j: int)
    requires InBounds(aim, i, j)
    ensures CollectedBefore(aim, vis, i, j + 1) ==
            CollectedBefore(aim, vis, i, j) + (if aim.cells[i][j] != 0 && Touches(vis, i, j) then {aim.cells[i][j]} else {})
  {
    var a, b := CollectedBefore(aim, vis, i, j + 1), CollectedBefore(aim, vis, i, j);
    var extra := if aim.cells[i][j] != 0 && Touches(vis, i, j) then {aim.cells[i][j]} else {};
    forall v | v in a
      ensures v in b + extra
    {
      var p, q :| 0 <= p < aim.rcnt && 0 <= q < aim.ccnt && (p < i || (p == i && q < j + 1)) &&
                  aim.cells[p][q] != 0 && Touches(vis, p, q) && aim.cells[p][q] == v;
      if p < i || q < j {
        assert aim.cells[p][q] in b;
      }
    }
  }

  lemma CollectedNextRow(aim: Matrix, vis: Matrix, i: int)
    ensures CollectedBefore(aim, vis, i, aim.ccnt) == CollectedBefore(aim, vis, i + 1, 0)
  {
    var a, b := CollectedBefore(aim, vis, i, aim.ccnt), CollectedBefore(aim, vis, i + 1, 0);
    forall v | v in b
      ensures v in a
    {
      var p, q :| 0 <= p < aim.rcnt && 0 <= q < aim.ccnt && (p < i + 1 || (p == i + 1 && q < 0)) &&
                  aim.cells[p][q] != 0 && Touches(vis, p, q) && aim.cells[p][q] == v;
      assert p < i || (p == i && q < aim.ccnt);
      assert aim.cells[p][q] in a;
    }
  }

  /** Some 4-neighbour of (i, j) lies in the zero region around (0, 0). */
  ghost predicate NearFlood(aim: Matrix, i: int, j: int)
  {
    exists d :: 0 <= d < 4 && Reachable(aim, (0, 0), Step((i, j), BorderSteps[d]))
  }

  /** The border values: the values of the non-zero cells next to the zero
      region around (0, 0). */
  ghost function BorderValues(aim: Matrix): set<int>
  {
    set i, j | 0 <= i < aim.rcnt && 0 <= j < aim.ccnt && aim.cells[i][j] != 0 && NearFlood(aim, i, j)
      :: aim.cells[i][j]
  }

  /** A non-zero cell next to a cell of the zero region around (0, 0)
      contributes its value. */
  lemma NeighbourIsBorder(aim: Matrix, c: Pos, d: Pos)
    requires Reachable(aim, (0, 0), c) && Adjacent(d, c)
    requires InBounds(aim, d.0, d.1) && aim.cells[d.0][d.1] != 0
    ensures aim.cells[d.0][d.1] in BorderValues(aim)
  {
    AdjacentStep(BorderSteps, d, c);
    var k :| 0 <= k < 4 && c == Step(d, BorderSteps[k]);
    assert Reachable(aim, (0, 0), Step((d.0, d.1), BorderSteps[k]));
  }

  /** A reachable cell is a free cell. */
  lemma ReachableFree(m: Matrix, s: Pos, c: Pos)
    requires Reachable(m, s, c)
    ensures Free(m, c)
  {
    var w :| IsWalk(m, w) && w[0] == s && w[|w| - 1] == c;
    assert Free(m, w[|w| - 1]);
  }

  /** The flood of aim from (0, 0), as vis records it. */
  ghost predicate Flooded(aim: Matrix, vis: Matrix)
  {
    && vis.rcnt == aim.rcnt && vis.ccnt == aim.ccnt
    && forall i, j {:trigger vis.cells[i][j]} :: InBounds(aim, i, j) ==> (vis.cells[i][j] == 1 <==> Reachable(aim, (0, 0), (i, j)))
  }

  /** Reading vis with 0 outside it tells exactly the reachable cells. */
  lemma WrapReach(aim: Matrix, vis: Matrix, p: Pos)
    requires Flooded(aim, vis) && ZeroOne(vis)
    ensures WrapAt(0, vis, p.0, p.1) != 0 <==> Reachable(aim, (0, 0), p)
  {
    if Reachable(aim, (0, 0), p) {
      ReachableFree(aim, (0, 0), p);
    }
    if InBounds(vis, p.0, p.1) {
      assert vis.cells[p.0][p.1] == 1 <==> Reachable(aim, (0, 0), p);
    }
  }

  /** With vis the flood of aim from (0, 0), a cell touches vis exactly
      when one of its neighbours is reachable. */
  lemma TouchesReach(aim: Matrix, vis: Matrix, i: int, j: int)
    requires Flooded(aim, vis) && ZeroOne(vis)
    ensures Touches(vis, i, j) <==> NearFlood(aim, i, j)
  {
    if Touches(vis, i, j) {
      var d :| 0 <= d < 4 && WrapAt(0, vis, i + BorderSteps[d].0, j + BorderSteps[d].1) != 0;
      WrapReach(aim, vis, Step((i, j), BorderSteps[d]));
    }
    if NearFlood(aim, i, j) {
      var d :| 0 <= d < 4 && Reachable(aim, (0, 0), Step((i, j), BorderSteps[d]));
      WrapReach(aim, vis, Step((i, j), BorderSteps[d]));
    }
  }

  /** With vis the flood of aim from (0, 0), the values collected over the
      whole matrix are exactly the border values. */
  lemma CollectedBorder(aim: Matrix, vis: Matrix)
    requires Flooded(aim, vis) && ZeroOne(vis)
    ensures CollectedBefore(aim, vis, Count(aim.rcnt), 0) == BorderValues(aim)
  {
    forall i, j
      ensures Touches(vis, i, j) <==> NearFlood(aim, i, j)
    {
      TouchesReach(aim, vis, i, j);
    }
    var a := CollectedBefore(aim, vis, Count(aim.rcnt), 0);
    forall v | v in BorderValues(aim)
      ensures v in a
    {
      var p, q :| 0 <= p < aim.rcnt && 0 <= q < aim.ccnt && aim.cells[p][q] != 0 && NearFlood(aim, p, q) && aim.cells[p][q] == v;
      assert p < Count(aim.rcnt);
      assert aim.cells[p][q] in a;
    }
  }

  /** One neighbour d of the cell c being expanded: mark it and queue it
      when it is free and unmarked. */
  method Mark(ghost g: Matrix, vis: IntMatrix, q: seq<Pos>, c: Pos, d: Pos, free: bool)
    returns (q': seq<Pos>)
    requires vis.Valid() && ZeroOne(vis.Value())
    requires Searching(g, (0, 0), vis.Value(), q) && Expanded(g, Marked(vis.Value()), q, Some(c))
    requires c in Marked(vis.Value()) && Adjacent(c, d) && free == Free(g, d)
    modifies vis
    ensures vis.Valid() && ZeroOne(vis.Value())
    ensures Searching(g, (0, 0), vis.Value(), q') && Expanded(g, Marked(vis.Value()), q', Some(c))
    ensures Marked(old(vis.Value())) <= Marked(vis.Value())
    ensures Free(g, d) ==> d in Marked(vis.Value())
    ensures (Marked(vis.Value()) == Marked(old(vis.Value())) && q' == q) ||
            Unmarked(g, Marked(vis.Value())) < Unmarked(g, Marked(old(vis.Value())))
  {
    q' := q;
    if !free || vis.GetPos(d.0, d.1) != 0 {
      if free {
        assert vis.Value().cells[d.0][d.1] == 1;
      }
      return;
    }
    ghost var v0 := vis.Value();
    assert d !in Marked(v0);
    vis.SetPos(d.0, d.1, 1);
    MarkOne(v0, vis.Value(), d);
    ReachableStep(g, (0, 0), c, d);
    q' := q + [d];
    ExpandedGrows(g, Marked(v0), Marked(vis.Value()), q, q', c, d);
    UnmarkedShrinks(g, Marked(v0), d);
  }

  /** Trying the k-th neighbour of c. */
  method Visit(aim: IntMatrix, vis: IntMatrix, q: seq<Pos>, c: Pos, k: int,
               ghost M0: set<Pos>, ghost q0: seq<Pos>)
    returns (q': seq<Pos>)
    requires aim.Valid() && vis.Valid() && ZeroOne(vis.Value()) && 0 <= k < 4
    requires Stage(BorderSteps, aim.Value(), (0, 0), vis.Value(), q, c, k, M0, q0)
    modifies vis
    ensures vis.Valid() && ZeroOne(vis.Value())
    ensures Stage(BorderSteps, aim.Value(), (0, 0), vis.Value(), q', c, k + 1, M0, q0)
  {
    StepAdjacent(BorderSteps, c, k);
    var d := Step(c, BorderSteps[k]);
    ghost var v0 := vis.Value();
    var free := 0 <= d.0 < aim.GetRowCnt() && 0 <= d.1 < aim.GetColCnt() && aim.GetPos(d.0, d.1) == 0;
    q' := Mark(aim.Value(), vis, q, c, d, free);
    StageNext(BorderSteps, aim.Value(), (0, 0), v0, vis.Value(), q, q', c, k, M0, q0);
  }

  /** The body of the flood loop for the cell c just taken off the queue. */
  method Expand(aim: IntMatrix, vis: IntMatrix, c: Pos, q: seq<Pos>) returns (q': seq<Pos>)
    requires aim.Valid() && vis.Valid() && ZeroOne(vis.Value()) && vis != aim
    requires Searching(aim.Value(), (0, 0), vis.Value(), q) && c in Marked(vis.Value())
    requires Expanded(aim.Value(), Marked(vis.Value()), q, Some(c))
    modifies vis
    ensures vis.Valid() && ZeroOne(vis.Value()) && Searching(aim.Value(), (0, 0), vis.Value(), q')
    ensures Expanded(aim.Value(), Marked(vis.Value()), q', None)
    ensures Marked(old(vis.Value())) <= Marked(vis.Value())
    ensures (Marked(vis.Value()) == Marked(old(vis.Value())) && q' == q) ||
            Unmarked(aim.Value(), Marked(vis.Value())) < Unmarked(aim.Value(), Marked(old(vis.Value())))
  {
    ghost var M0 := Marked(vis.Value());
    q' := q;
    var k := 0;
    while k < 4
      invariant 0 <= k <= 4 && vis.Valid() && ZeroOne(vis.Value())
      invariant Stage(BorderSteps, aim.Value(), (0, 0), vis.Value(), q', c, k, M0, q)
    {
      q' := Visit(aim, vis, q', c, k, M0, q);
      k := k + 1;
    }
    ExpandedHead(BorderSteps, aim.Value(), Marked(vis.Value()), q', c);
  }

  /** The first half of the constructor: vis marks exactly the cells the
      zero region around (0, 0) covers. */
  method Flood(aim: IntMatrix) returns (vis: IntMatrix)
    requires aim.Valid() && aim.rows >= 1 && aim.cols >= 1 && aim.GetPos(0, 0) == 0
    ensures fresh(vis) && vis.Valid() && ZeroOne(vis.Value())
    ensures vis.rows == aim.rows && vis.cols == aim.cols
    ensures forall i, j :: InBounds(aim.Value(), i, j) ==>
              (vis.vec[i][j] == 1 <==> Reachable(aim.Value(), (0, 0), (i, j)))
  {
    vis := new IntMatrix(aim.GetRowCnt(), aim.GetColCnt());
    ghost var v0 := vis.Value();
    assert v0 == Zeros(aim.rows, aim.cols) by {
      MatrixExt(v0, Zeros(aim.rows, aim.cols));
    }
    vis.SetPos(0, 0, 1);
    var q := [(0, 0)];
    SearchStart(aim.Value(), (0, 0), v0, vis.Value());
    while q != []
      invariant vis.Valid() && fresh(vis) && ZeroOne(vis.Value())
      invariant vis.rows == aim.rows && vis.cols == aim.cols
      invariant Searching(aim.Value(), (0, 0), vis.Value(), q)
      invariant Expanded(aim.Value(), Marked(vis.Value()), q, None) && (0, 0) in Marked(vis.Value())
      decreases Unmarked(aim.Value(), Marked(vis.Value())), |q|
    {
      var c := q[0];
      q := Expand(aim, vis, c, q[1..]);
    }
    SearchDone(aim.Value(), (0, 0), vis.Value());
  }

  /** How many of the four neighbours of (i, j) read non-zero in vis. */
  method CountTouched(vis: IntMatrix, i: int, j: int) returns (vcnt: int)
    requires vis.Valid()
    ensures 0 <= vcnt <= 4
    ensures vcnt > 0 <==> Touches(vis.Value(), i, j)
  {
    vcnt := 0;
    var d := 0;
    while d < 4
      invariant 0 <= d <= 4 && 0 <= vcnt <= d
      invariant vcnt > 0 <==> exists e :: 0 <= e < d && WrapAt(0, vis.Value(), i + BorderSteps[e].0, j + BorderSteps[e].1) != 0
    {
      if vis.GetPos(i + BorderSteps[d].0, j + BorderSteps[d].1) != 0 {
        vcnt := vcnt + 1;
      }
      d := d + 1;
    }
  }

  /** The second half of the constructor: the values of the non-zero cells
      of aim with a marked neighbour in vis. */
  method Collect(aim: IntMatrix, vis: IntMatrix) returns (border: set<int>)
    requires aim.Valid() && vis.Valid()
    ensures border == CollectedBefore(aim.Value(), vis.Value(), Count(aim.rows), 0)
  {
    border := {};
    var i := 0;
    while i < aim.GetRowCnt()
      invariant 0 <= i <= Count(aim.rows)
      invariant border == CollectedBefore(aim.Value(), vis.Value(), i, 0)
    {
      var j := 0;
      while j < aim.GetColCnt()
        invariant 0 <= j <= Count(aim.cols)
        invariant border == CollectedBefore(aim.Value(), vis.Value(), i, j)
      {
        CollectedStep(aim.Value(), vis.Value(), i, j);
        if aim.GetPos(i, j) != 0 {
          var vcnt := CountTouched(vis, i, j);
          if vcnt > 0 {
            border := border + {aim.GetPos(i, j)};
          }
        }
        j := j + 1;
      }
      CollectedNextRow(aim.Value(), vis.Value(), i);
      i := i + 1;
    }
  }

  /** GetBorderSet: the collected set, fixed at construction. */
  class GetBorderSet {
    const borderSet: set<int>
    ghost const aim: Matrix

    ghost predicate Valid()
    {
      borderSet == BorderValues(aim)
    }

    /** The constructor needs a matrix of at least one cell whose corner
        (0, 0) is 0; it leaves the matrix as it was. */
    constructor(aim: IntMatrix)
      requires aim.Valid() && aim.rows >= 1 && aim.cols >= 1 && aim.GetPos(0, 0) == 0
      ensures Valid() && this.aim == aim.Value()
    {
      var vis := Flood(aim);
      var border := Collect(aim, vis);
      CollectedBorder(aim.Value(), vis.Value());
      this.aim := aim.Value();
      borderSet := border;
    }

    /** getAns: the border values of the matrix; never 0. */
    function GetAns(): (s: set<int>)
      requires Valid()
      ensures s == BorderValues(aim) && 0 !in s
    {
      borderSet
    }
  }
}
