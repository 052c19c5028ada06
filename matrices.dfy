// The dense integer matrices of the border check: IntMatrix2, its 0/1
// refinement ZeroOneMatrix, the read-only wrappers BorderWrap and
// BorderMask, and the cell map NotIntMap.

module Matrices {
  /** The range of a C++ int on the targeted platforms. */
  const IntMin: int := -0x8000_0000
  const IntMax: int := 0x7fff_ffff

  /** The starting value IntMatrix2::getMax is written with, one digit away
      from INT_MIN. */
  const GetMaxStart: int := -2147482648

  /** How many iterations `for (i = 0; i < k; i++)` runs. */
  function Count(k: int): nat
  {
    if k < 0 then 0 else k
  }

  predicate Shaped(cells: seq<seq<int>>, r: int, c: int)
  {
    |cells| == Count(r) && forall i :: 0 <= i < |cells| ==> |cells[i]| == Count(c)
  }

  /** The contents of an IntMatrix2 (a copy of one, as the wrappers hold):
      its row and column counts and its rows. */
  datatype Grid = Grid(rcnt: int, ccnt: int, cells: seq<seq<int>>)

  type Matrix = g: Grid | Shaped(g.cells, g.rcnt, g.ccnt) witness Grid(0, 0, [])

  predicate InBounds(m: Grid, i: int, j: int)
  {
    0 <= i < m.rcnt && 0 <= j < m.ccnt
  }

  ghost predicate Int32Cells(m: Matrix)
  {
    forall i, j :: InBounds(m, i, j) ==> IntMin <= m.cells[i][j] <= IntMax
  }

  ghost predicate ZeroOne(m: Matrix)
  {
    forall i, j :: InBounds(m, i, j) ==> m.cells[i][j] == 0 || m.cells[i][j] == 1
  }

  /** Two matrices of the same shape with the same cells are equal. */
  lemma MatrixExt(a: Matrix, b: Matrix)
    requires a.rcnt == b.rcnt && a.ccnt == b.ccnt
    requires forall i, j :: InBounds(a, i, j) ==> a.cells[i][j] == b.cells[i][j]
    ensures a == b
  {
    forall i | 0 <= i < |a.cells|
      ensures a.cells[i] == b.cells[i]
    {
      forall j | 0 <= j < |a.cells[i]|
        ensures a.cells[i][j] == b.cells[i][j]
      {
        assert InBounds(a, i, j);
      }
    }
  }

  /** A freshly constructed r x c matrix. */
  function Zeros(r: int, c: int): (m: Matrix)
    ensures m.rcnt == r && m.ccnt == c
    ensures forall i, j :: InBounds(m, i, j) ==> m.cells[i][j] == 0
  {
    Grid(r, c, seq(Count(r), _ => seq(Count(c), _ => 0)))
  }

  /** mapAll: every cell replaced by f(i, j, old value). */
  function Mapped(m: Matrix, f: (int, int, int) -> int): (r: Matrix)
    ensures r.rcnt == m.rcnt && r.ccnt == m.ccnt
    ensures forall i, j :: InBounds(m, i, j) ==> r.cells[i][j] == f(i, j, m.cells[i][j])
  {
    var rows := seq(|m.cells|, i requires 0 <= i < |m.cells| =>
                  seq(|m.cells[i]|, j requires 0 <= j < |m.cells[i]| => f(i, j, m.cells[i][j])));
    Grid(m.rcnt, m.ccnt, rows)
  }

  /** combineMatrix: cell (i, j) is f(i, j, a's cell, b's cell). */
  function Combined(a: Matrix, b: Matrix, f: (int, int, int, int) -> int): (r: Matrix)
    requires a.rcnt == b.rcnt && a.ccnt == b.ccnt
    ensures r.rcnt == a.rcnt && r.ccnt == a.ccnt
    ensures forall i, j :: InBounds(a, i, j) ==> r.cells[i][j] == f(i, j, a.cells[i][j], b.cells[i][j])
  {
    var rows := seq(|a.cells|, i requires 0 <= i < |a.cells| =>
                  seq(|a.cells[i]|, j requires 0 <= j < |a.cells[i]| => f(i, j, a.cells[i][j], b.cells[i][j])));
    Grid(a.rcnt, a.ccnt, rows)
  }

  function Max(a: int, b: int): int { if a <= b then b else a }

  /** std::max folded over one row. */
  function RowMax(acc: int, row: seq<int>): int
    decreases |row|
  {
    if row == [] then acc else Max(RowMax(acc, row[..|row| - 1]), row[|row| - 1])
  }

  /** The getMax loop from a starting value, row by row. */
  function MaxFrom(acc: int, rows: seq<seq<int>>): int
    decreases |rows|
  {
    if rows == [] then acc else RowMax(MaxFrom(acc, rows[..|rows| - 1]), rows[|rows| - 1])
  }

  /** The fold over a row is at least the start and every element, and it
      is the start or one of the elements. */
  lemma {:induction false} RowMaxBounds(acc: int, row: seq<int>)
    ensures RowMax(acc, row) >= acc
    ensures forall j :: 0 <= j < |row| ==> row[j] <= RowMax(acc, row)
    ensures RowMax(acc, row) == acc || exists j :: 0 <= j < |row| && row[j] == RowMax(acc, row)
    decreases |row|
  {
    if row != [] {
      var init := row[..|row| - 1];
      RowMaxBounds(acc, init);
      assert forall j :: 0 <= j < |init| ==> row[j] == init[j];
    }
  }

  /** The fold over the rows is at least the start and every cell, and it
      is the start or one of the cells. */
  lemma {:induction false} MaxFromBounds(acc: int, rows: seq<seq<int>>)
    ensures MaxFrom(acc, rows) >= acc
    ensures forall i, j :: 0 <= i < |rows| && 0 <= j < |rows[i]| ==> rows[i][j] <= MaxFrom(acc, rows)
    ensures MaxFrom(acc, rows) == acc ||
            exists i, j :: 0 <= i < |rows| && 0 <= j < |rows[i]| && rows[i][j] == MaxFrom(acc, rows)
    decreases |rows|
  {
    if rows != [] {
      var init, last := rows[..|rows| - 1], rows[|rows| - 1];
      var before := MaxFrom(acc, init);
      MaxFromBounds(acc, init);
      RowMaxBounds(before, last);
      assert forall i :: 0 <= i < |init| ==> rows[i] == init[i];
      if MaxFrom(acc, rows) != acc && MaxFrom(acc, rows) == before {
        var i, j :| 0 <= i < |init| && 0 <= j < |init[i]| && init[i][j] == before;
        assert rows[i][j] == MaxFrom(acc, rows);
      }
      if MaxFrom(acc, rows) != before {
        var j :| 0 <= j < |last| && last[j] == MaxFrom(acc, rows);
        assert rows[|rows| - 1][j] == MaxFrom(acc, rows);
      }
    }
  }

  /** getMax as intended (starting at INT_MIN): the largest cell of a
      non-empty matrix of ints, and INT_MIN for an empty one. */
  lemma GetMaxIsLargestCell(m: Matrix)
    requires Int32Cells(m)
    ensures forall i, j :: InBounds(m, i, j) ==> m.cells[i][j] <= MaxFrom(IntMin, m.cells)
    ensures m.rcnt >= 1 && m.ccnt >= 1 ==>
              exists i, j :: InBounds(m, i, j) && m.cells[i][j] == MaxFrom(IntMin, m.cells)
    ensures m.rcnt <= 0 || m.ccnt <= 0 ==> MaxFrom(IntMin, m.cells) == IntMin
  {
    MaxFromBounds(IntMin, m.cells);
    var mx := MaxFrom(IntMin, m.cells);
    if m.rcnt >= 1 && m.ccnt >= 1 {
      assert InBounds(m, 0, 0);
      if mx == IntMin {
        assert m.cells[0][0] == mx;
      } else {
        var i, j :| 0 <= i < |m.cells| && 0 <= j < |m.cells[i]| && m.cells[i][j] == mx;
        assert InBounds(m, i, j);
      }
    }
    if m.rcnt <= 0 || m.ccnt <= 0 {
      assert forall i :: 0 <= i < |m.cells| ==> |m.cells[i]| == 0;
    }
  }

  /** getMax as written (starting at -2147482648): a matrix whose cells are
      all below that start, such as [[INT_MIN]], reports a value that is in
      no cell. */
  lemma GetMaxAsWrittenMissesLowCells(m: Matrix)
    requires m.rcnt >= 1 && m.ccnt >= 1
    requires forall i, j :: InBounds(m, i, j) ==> m.cells[i][j] < GetMaxStart
    ensures MaxFrom(GetMaxStart, m.cells) == GetMaxStart
    ensures forall i, j :: InBounds(m, i, j) ==> m.cells[i][j] != MaxFrom(GetMaxStart, m.cells)
  {
    MaxFromBounds(GetMaxStart, m.cells);
    if MaxFrom(GetMaxStart, m.cells) != GetMaxStart {
      var i, j :| 0 <= i < |m.cells| && 0 <= j < |m.cells[i]| && m.cells[i][j] == MaxFrom(GetMaxStart, m.cells);
      assert InBounds(m, i, j);
    }
  }

  /** NotIntMap::mapInt: 1 for 0, 0 for anything else; the position is
      ignored. */
  function NotIntMap(x: int, y: int, v: int): (r: int)
    ensures r == 0 || r == 1
    ensures r == 1 <==> v == 0
  {
    if v == 0 then 1 else 0
  }

  /** The cell map of ZeroOneMatrix's converting constructor. */
  function NonZero(x: int, y: int, v: int): (r: int)
    ensures r == 1 - NotIntMap(x, y, v)
  {
    if v != 0 then 1 else 0
  }

  /** A ZeroOneMatrix built from a matrix: 1 exactly at its non-zero cells. */
  function Binarised(m: Matrix): (r: Matrix)
    ensures r.rcnt == m.rcnt && r.ccnt == m.ccnt && ZeroOne(r)
    ensures forall i, j :: InBounds(m, i, j) ==> (r.cells[i][j] == 1 <==> m.cells[i][j] != 0)
  {
    Mapped(m, NonZero)
  }

  /** notAll twice restores a 0/1 matrix. */
  lemma NotAllTwice(m: Matrix)
    requires ZeroOne(m)
    ensures ZeroOne(Mapped(m, NotIntMap))
    ensures Mapped(Mapped(m, NotIntMap), NotIntMap) == m
  {
    MatrixExt(Mapped(Mapped(m, NotIntMap), NotIntMap), m);
  }

  /** BorderWrap::getPos: the wrapped matrix inside, the border value
      everywhere outside. */
  function WrapAt(borderVal: int, m: Matrix, i: int, j: int): (r: int)
    ensures InBounds(m, i, j) ==> r == m.cells[i][j]
    ensures !InBounds(m, i, j) ==> r == borderVal
  {
    if !(0 <= i < m.rcnt && 0 <= j < m.ccnt) then borderVal else m.cells[i][j]
  }

  /** BorderWrap::getMax: the larger of the wrapped matrix's getMax and the
      border value.  The wrapped matrix is an IntMatrix2, whose getMax starts
      from GetMaxStart as written, so that start is a floor of the result. */
  function WrapMax(borderVal: int, m: Matrix): (r: int)
    ensures r >= borderVal && r >= GetMaxStart
    ensures forall i, j :: InBounds(m, i, j) ==> WrapAt(borderVal, m, i, j) <= r
    ensures r == borderVal || r == GetMaxStart || exists i, j :: InBounds(m, i, j) && r == m.cells[i][j]
  {
    MaxFromBounds(GetMaxStart, m.cells);
    var mx := MaxFrom(GetMaxStart, m.cells);
    assert mx == GetMaxStart || exists i, j :: InBounds(m, i, j) && m.cells[i][j] == mx by {
      if mx != GetMaxStart {
        var i, j :| 0 <= i < |m.cells| && 0 <= j < |m.cells[i]| && m.cells[i][j] == mx;
        assert InBounds(m, i, j);
      }
    }
    Max(mx, borderVal)
  }

  /** One neighbour of BorderMask's count: 1 when it is inside the matrix
      and not a body cell. */
  function Differs(m: Matrix, body: int, i: int, j: int): nat
  {
    if 0 <= i < m.rcnt && 0 <= j < m.ccnt && m.cells[i][j] != body then 1 else 0
  }

  /** The neighbour offsets BorderMask scans, as (row, column) steps. */
  const MaskSteps: seq<(int, int)> := [(1, 0), (-1, 0), (0, -1), (0, 1)]

  /** BorderMask::getPos: 1 exactly at a body cell with some neighbour
      inside the matrix that is not body; neighbours outside the matrix are
      ignored. */
  function MaskAt(m: Matrix, body: int, i: int, j: int): (r: int)
    requires InBounds(m, i, j)
    ensures r == 0 || r == 1
    ensures r == 1 <==> m.cells[i][j] == body &&
                        exists d :: 0 <= d < 4 && Differs(m, body, i + MaskSteps[d].0, j + MaskSteps[d].1) == 1
  {
    if m.cells[i][j] != body then 0
    else
      var cnt := Differs(m, body, i + 1, j) + Differs(m, body, i - 1, j)
                 + Differs(m, body, i, j - 1) + Differs(m, body, i, j + 1);
      assert cnt > 0 ==> exists d :: 0 <= d < 4 && Differs(m, body, i + MaskSteps[d].0, j + MaskSteps[d].1) == 1 by {
        if Differs(m, body, i + 1, j) == 1 { assert MaskSteps[0] == (1, 0); }
        else if Differs(m, body, i - 1, j) == 1 { assert MaskSteps[1] == (-1, 0); }
        else if Differs(m, body, i, j - 1) == 1 { assert MaskSteps[2] == (0, -1); }
        else if Differs(m, body, i, j + 1) == 1 { assert MaskSteps[3] == (0, 1); }
      }
      if cnt > 0 then 1 else 0
  }

  /** BorderMask::getMax: the constant 1, a bound on every cell of the
      mask, which is attained as soon as one cell is on the border. */
  function MaskMax(m: Matrix, body: int): (r: int)
    ensures forall i, j :: InBounds(m, i, j) ==> MaskAt(m, body, i, j) <= r
    ensures forall i, j :: InBounds(m, i, j) && MaskAt(m, body, i, j) != 0 ==> MaskAt(m, body, i, j) == r
  {
    1
  }

  /** A BorderMask read in full, as ZeroOneMatrix's converting constructor
      reads it: same dimensions, MaskAt at every cell. */
  function MaskMatrix(m: Matrix, body: int): (r: Matrix)
    ensures r.rcnt == m.rcnt && r.ccnt == m.ccnt && ZeroOne(r)
    ensures forall i, j :: InBounds(m, i, j) ==> r.cells[i][j] == MaskAt(m, body, i, j)
  {
    var rows := seq(|m.cells|, i requires 0 <= i < |m.cells| =>
                  seq(|m.cells[i]|, j requires 0 <= j < |m.cells[i]| => MaskAt(m, body, i, j)));
    Grid(m.rcnt, m.ccnt, rows)
  }

  /** The values a 0/1 matrix selects from another: those at its 1 cells,
      among cells of rows before i, and of row i before column j. */
  ghost function SelectedBefore(z: Matrix, mat: Matrix, i: int, j: int): set<int>
  {
    set a, b | 0 <= a < z.rcnt && 0 <= b < z.ccnt && (a < i || (a == i && b < j)) && z.cells[a][b] == 1 && InBounds(mat, a, b)
      :: mat.cells[a][b]
  }

  /** ZeroOneMatrix::select in full. */
  ghost function Selected(z: Matrix, mat: Matrix): set<int>
  {
    set a, b | 0 <= a < z.rcnt && 0 <= b < z.ccnt && z.cells[a][b] == 1 && InBounds(mat, a, b) :: mat.cells[a][b]
  }

  lemma SelectedStep(z: Matrix, mat: Matrix, i: int, j: int)
    requires InBounds(z, i, j)
    requires z.cells[i][j] == 1 ==> InBounds(mat, i, j)
    ensures SelectedBefore(z, mat, i, j + 1) ==
            SelectedBefore(z, mat, i, j) + (if z.cells[i][j] == 1 then {mat.cells[i][j]} else {})
  {
    var a, b := SelectedBefore(z, mat, i, j + 1), SelectedBefore(z, mat, i, j);
    var extra := if z.cells[i][j] == 1 then {mat.cells[i][j]} else {};
    forall v | v in a
      ensures v in b + extra
    {
      var p, q :| 0 <= p < z.rcnt && 0 <= q < z.ccnt && (p < i || (p == i && q < j + 1)) && z.cells[p][q] == 1
                  && InBounds(mat, p, q) && mat.cells[p][q] == v;
      if p < i || q < j {
        assert mat.cells[p][q] in b;
      }
    }
  }

  lemma SelectedNextRow(z: Matrix, mat: Matrix, i: int)
    ensures SelectedBefore(z, mat, i, z.ccnt) == SelectedBefore(z, mat, i + 1, 0)
  {
    var a, b := SelectedBefore(z, mat, i, z.ccnt), SelectedBefore(z, mat, i + 1, 0);
    forall v | v in b
      ensures v in a
    {
      var p, q :| 0 <= p < z.rcnt && 0 <= q < z.ccnt && (p < i + 1 || (p == i + 1 && q < 0)) && z.cells[p][q] == 1
                  && InBounds(mat, p, q) && mat.cells[p][q] == v;
      assert p < i || (p == i && q < z.ccnt);
      assert mat.cells[p][q] in a;
    }
  }

  lemma SelectedAll(z: Matrix, mat: Matrix)
    ensures SelectedBefore(z, mat, Count(z.rcnt), 0) == Selected(z, mat)
  {
    var a, b := SelectedBefore(z, mat, Count(z.rcnt), 0), Selected(z, mat);
    forall v | v in b
      ensures v in a
    {
      var p, q :| 0 <= p < z.rcnt && 0 <= q < z.ccnt && z.cells[p][q] == 1 && InBounds(mat, p, q) && mat.cells[p][q] == v;
      assert p < Count(z.rcnt);
      assert mat.cells[p][q] in a;
    }
  }

  class IntMatrix2 {
    const rcnt: int
    const ccnt: int
    var cells: seq<seq<int>>

    ghost predicate Valid()
      reads this
    {
      Shaped(cells, rcnt, ccnt)
    }

    /** What a copy of this matrix holds. */
    function Value(): (m: Matrix)
      reads this
      requires Valid()
      ensures m.rcnt == rcnt && m.ccnt == ccnt && m.cells == cells
    {
      Grid(rcnt, ccnt, cells)
    }

    /** A new r x c matrix of zeros: one zero line, copied r times. */
    constructor(r: int, c: int)
      ensures Valid() && Value() == Zeros(r, c)
    {
      rcnt, ccnt := r, c;
      var zeros: seq<int> := [];
      var j := 0;
      while j < c
        invariant 0 <= j == |zeros| <= Count(c)
        invariant forall k :: 0 <= k < |zeros| ==> zeros[k] == 0
      {
        zeros := zeros + [0];
        j := j + 1;
      }
      var rows: seq<seq<int>> := [];
      var i := 0;
      while i < r
        invariant 0 <= i == |rows| <= Count(r)
        invariant forall k :: 0 <= k < |rows| ==> rows[k] == zeros
      {
        rows := rows + [zeros];
        i := i + 1;
      }
      cells := rows;
      new;
      MatrixExt(Value(), Zeros(r, c));
    }

    function GetPos(i: int, j: int): int
      reads this
      requires Valid() && InBounds(Value(), i, j)
    {
      cells[i][j]
    }

    /** setPos: cell (i, j) becomes v, every other cell keeps its value. */
    method SetPos(i: int, j: int, v: int)
      requires Valid() && InBounds(Value(), i, j)
      modifies this
      ensures Valid() && cells[i][j] == v
      ensures forall a, b :: InBounds(Value(), a, b) && (a, b) != (i, j) ==> cells[a][b] == old(cells[a][b])
      ensures cells == old(cells)[i := old(cells)[i][j := v]]
    {
      cells := cells[i := cells[i][j := v]];
    }

    /** mapAll: every cell replaced by f(i, j, its value), row by row. */
    method MapAll(f: (int, int, int) -> int)
      requires Valid()
      modifies this
      ensures Valid() && Value() == Mapped(old(Value()), f)
    {
      ghost var m0 := Value();
      var i := 0;
      while i < rcnt
        invariant Valid() && 0 <= i <= Count(rcnt)
        invariant forall a, b :: InBounds(m0, a, b) ==>
                    cells[a][b] == (if a < i then f(a, b, m0.cells[a][b]) else m0.cells[a][b])
      {
        var j := 0;
        while j < ccnt
          invariant Valid() && 0 <= j <= Count(ccnt)
          invariant forall a, b :: InBounds(m0, a, b) ==>
                      cells[a][b] == (if a < i || (a == i && b < j) then f(a, b, m0.cells[a][b]) else m0.cells[a][b])
        {
          cells := cells[i := cells[i][j := f(i, j, cells[i][j])]];
          j := j + 1;
        }
        i := i + 1;
      }
      MatrixExt(Value(), Mapped(m0, f));
    }

    /** combineMatrix: a new matrix of f applied cell by cell to this one
        and rhs, which must have the same shape; this one is unchanged. */
    method CombineMatrix(rhs: IntMatrix2, f: (int, int, int, int) -> int) returns (ans: IntMatrix2)
      requires Valid() && rhs.Valid()
      requires rcnt == rhs.rcnt && ccnt == rhs.ccnt
      ensures fresh(ans) && ans.Valid()
      ensures ans.Value() == Combined(Value(), rhs.Value(), f)
    {
      ans := new IntMatrix2(rcnt, ccnt);
      var i := 0;
      while i < rcnt
        invariant ans.Valid() && ans.rcnt == rcnt && ans.ccnt == ccnt && 0 <= i <= Count(rcnt)
        invariant forall a, b :: InBounds(Value(), a, b) && a < i ==>
                    ans.cells[a][b] == f(a, b, cells[a][b], rhs.cells[a][b])
      {
        var j := 0;
        while j < ccnt
          invariant ans.Valid() && 0 <= j <= Count(ccnt)
          invariant forall a, b :: InBounds(Value(), a, b) && (a < i || (a == i && b < j)) ==>
                      ans.cells[a][b] == f(a, b, cells[a][b], rhs.cells[a][b])
        {
          ans.SetPos(i, j, f(i, j, GetPos(i, j), rhs.GetPos(i, j)));
          j := j + 1;
        }
        i := i + 1;
      }
      MatrixExt(ans.Value(), Combined(Value(), rhs.Value(), f));
    }

    /** The getMax loop from a given starting value. */
    method MaxStartingAt(start: int) returns (ans: int)
      requires Valid()
      ensures ans == MaxFrom(start, cells)
    {
      ans := start;
      var i := 0;
      while i < rcnt
        invariant 0 <= i <= Count(rcnt)
        invariant ans == MaxFrom(start, cells[..i])
      {
        var j := 0;
        while j < ccnt
          invariant 0 <= j <= Count(ccnt)
          invariant ans == RowMax(MaxFrom(start, cells[..i]), cells[i][..j])
        {
          assert cells[i][..j + 1][..j] == cells[i][..j];
          ans := Max(ans, GetPos(i, j));
          j := j + 1;
        }
        assert cells[i][..Count(ccnt)] == cells[i];
        assert cells[..i + 1][..i] == cells[..i];
        i := i + 1;
      }
      assert cells[..Count(rcnt)] == cells;
    }

    /** getMax as written, starting from -2147482648. */
    method GetMaxAsWritten() returns (ans: int)
      requires Valid()
      ensures ans == MaxFrom(GetMaxStart, Value().cells)
    {
      ans := MaxStartingAt(GetMaxStart);
    }

    /** getMax starting from INT_MIN, as the comment "the maximum of all
        elements" intends; GetMaxIsLargestCell states what it returns. */
    method GetMax() returns (ans: int)
      requires Valid()
      ensures ans == MaxFrom(IntMin, Value().cells)
    {
      ans := MaxStartingAt(IntMin);
    }
  }

  /** A matrix of zeros and ones: IntMatrix2 storage whose setPos accepts
      only 0 and 1. */
  class ZeroOneMatrix {
    const base: IntMatrix2

    ghost predicate Valid()
      reads this, base
    {
      base.Valid() && ZeroOne(base.Value())
    }

    function Value(): (m: Matrix)
      reads this, base
      requires Valid()
      ensures ZeroOne(m) && m == base.Value()
    {
      base.Value()
    }

    constructor(r: int, c: int)
      ensures Valid() && fresh(base) && Value() == Zeros(r, c)
    {
      base := new IntMatrix2(r, c);
    }

    /** The converting constructor: 1 exactly where the given matrix is
        non-zero. */
    constructor FromMatrix(mat: Matrix)
      ensures Valid() && fresh(base) && Value() == Binarised(mat)
    {
      base := new IntMatrix2(mat.rcnt, mat.ccnt);
      new;
      var i := 0;
      while i < mat.rcnt
        invariant base.Valid() && 0 <= i <= Count(mat.rcnt)
        invariant forall a, b :: InBounds(mat, a, b) ==>
                    base.cells[a][b] == (if a < i then NonZero(a, b, mat.cells[a][b]) else 0)
      {
        var j := 0;
        while j < mat.ccnt
          invariant base.Valid() && 0 <= j <= Count(mat.ccnt)
          invariant forall a, b :: InBounds(mat, a, b) ==>
                      base.cells[a][b] == (if a < i || (a == i && b < j) then NonZero(a, b, mat.cells[a][b]) else 0)
        {
          base.SetPos(i, j, if mat.cells[i][j] != 0 then 1 else 0);
          j := j + 1;
        }
        i := i + 1;
      }
      MatrixExt(base.Value(), Binarised(mat));
    }

    /** getPos: the stored cell, always 0 or 1. */
    function GetPos(i: int, j: int): (r: int)
      reads this, base
      requires Valid() && InBounds(Value(), i, j)
      ensures r == 0 || r == 1
      ensures r == Value().cells[i][j]
    {
      if base.GetPos(i, j) != 0 then 1 else 0
    }

    /** setPos accepts only 0 or 1; only cell (i, j) changes. */
    method SetPos(i: int, j: int, v: int)
      requires Valid() && InBounds(Value(), i, j) && (v == 0 || v == 1)
      modifies base
      ensures Valid() && Value().cells[i][j] == v
      ensures forall a, b :: InBounds(Value(), a, b) && (a, b) != (i, j) ==> base.cells[a][b] == old(base.cells[a][b])
    {
      base.SetPos(i, j, v);
    }

    /** notAll: every cell flipped. */
    method NotAll()
      requires Valid()
      modifies base
      ensures Valid() && Value() == Mapped(old(Value()), NotIntMap)
    {
      base.MapAll(NotIntMap);
    }

    /** select: the set of mat's values at the cells where this matrix
        is 1. */
    method Select(mat: Matrix) returns (ans: set<int>)
      requires Valid()
      requires forall i, j :: InBounds(Value(), i, j) && Value().cells[i][j] == 1 ==> InBounds(mat, i, j)
      ensures ans == Selected(Value(), mat)
      ensures forall i, j :: InBounds(Value(), i, j) && GetPos(i, j) == 1 ==> mat.cells[i][j] in ans
    {
      var z := Value();
      ans := {};
      var i := 0;
      while i < base.rcnt
        invariant 0 <= i <= Count(z.rcnt)
        invariant ans == SelectedBefore(z, mat, i, 0)
      {
        var j := 0;
        while j < base.ccnt
          invariant 0 <= j <= Count(z.ccnt)
          invariant ans == SelectedBefore(z, mat, i, j)
        {
          SelectedStep(z, mat, i, j);
          if GetPos(i, j) == 1 {
            ans := ans + {mat.cells[i][j]};
          }
          j := j + 1;
        }
        SelectedNextRow(z, mat, i);
        i := i + 1;
      }
      SelectedAll(z, mat);
    }
  }
}
