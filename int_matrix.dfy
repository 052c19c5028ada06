// The two IntMatrix classes of the path engine: the bounds-safe one the
// border-set search reads (Common/IntMatrix.h), and the heap-allocated
// one with asserted accesses (IntMatrix.h).

module SafeMatrix {
  import opened Matrices

  /** Common/IntMatrix.h: a vector of rows whose out-of-range reads are 0. */
  class IntMatrix {
    var vec: seq<seq<int>>
    const rows: int
    const cols: int

    ghost predicate Valid()
      reads this
    {
      Shaped(vec, rows, cols)
    }

    /** What the matrix holds, as a value. */
    function Value(): (m: Matrix)
      reads this
      requires Valid()
      ensures m.rcnt == rows && m.ccnt == cols && m.cells == vec
    {
      Grid(rows, cols, vec)
    }

    /** A new n x m matrix of zeros; the counts never change afterwards. */
    constructor(n: int, m: int)
      ensures Valid() && rows == n && cols == m
      ensures forall i, j :: 0 <= i < n && 0 <= j < m ==> vec[i][j] == 0
    {
      rows, cols := n, m;
      var line: seq<int> := [];
      var j := 0;
      while j < m
        invariant 0 <= j == |line| <= Count(m)
        invariant forall k :: 0 <= k < |line| ==> line[k] == 0
      {
        line := line + [0];
        j := j + 1;
      }
      var all: seq<seq<int>> := [];
      var i := 0;
      while i < n
        invariant 0 <= i == |all| <= Count(n)
        invariant forall k :: 0 <= k < |all| ==> all[k] == line
      {
        all := all + [line];
        i := i + 1;
      }
      vec := all;
    }

    /** getPos: the cell inside the matrix, 0 outside it. */
    function GetPos(i: int, j: int): (v: int)
      reads this
      requires Valid()
      ensures 0 <= i < rows && 0 <= j < cols ==> v == vec[i][j]
      ensures !(0 <= i < rows && 0 <= j < cols) ==> v == 0
    {
      if 0 <= i < rows && 0 <= j < cols then vec[i][j] else 0
    }

    /** setPos: in range only; cell (i, j) becomes v and no other changes. */
    method SetPos(i: int, j: int, v: int)
      requires Valid() && 0 <= i < rows && 0 <= j < cols
      modifies this
      ensures Valid() && GetPos(i, j) == v
      ensures forall a, b :: (a, b) != (i, j) ==> GetPos(a, b) == old(GetPos(a, b))
    {
      vec := vec[i := vec[i][j := v]];
    }

    function GetRowCnt(): int
      reads this
    {
      rows
    }

    function GetColCnt(): int
      reads this
    {
      cols
    }
  }
}

module HeapMatrix {
  /** IntMatrix.h: a row x col heap array with asserted accesses. */
  class IntMatrix {
    const matrix: array2<int>

    /** Construction needs at least one row and one column and leaves every
        cell 0. */
    constructor(row: int, col: int)
      requires row >= 1 && col >= 1
      ensures fresh(matrix) && matrix.Length0 == row && matrix.Length1 == col
      ensures forall i, j :: 0 <= i < row && 0 <= j < col ==> matrix[i, j] == 0
    {
      matrix := new int[row, col];
      new;
      Clear();
    }

    /** clear: every cell becomes 0. */
    method Clear()
      modifies matrix
      ensures forall i, j :: 0 <= i < matrix.Length0 && 0 <= j < matrix.Length1 ==> matrix[i, j] == 0
    {
      var i := 0;
      while i < matrix.Length0
        invariant 0 <= i <= matrix.Length0
        invariant forall a, b :: 0 <= a < i && 0 <= b < matrix.Length1 ==> matrix[a, b] == 0
      {
        var j := 0;
        while j < matrix.Length1
          invariant 0 <= j <= matrix.Length1
          invariant forall a, b :: 0 <= a < i && 0 <= b < matrix.Length1 ==> matrix[a, b] == 0
          invariant forall b :: 0 <= b < j ==> matrix[i, b] == 0
        {
          matrix[i, j] := 0;
          j := j + 1;
        }
        i := i + 1;
      }
    }

    /** set: in range only; cell (i, j) becomes v and no other changes. */
    method Set(i: int, j: int, v: int)
      requires 0 <= i < matrix.Length0 && 0 <= j < matrix.Length1
      modifies matrix
      ensures matrix[i, j] == v
      ensures forall a, b :: 0 <= a < matrix.Length0 && 0 <= b < matrix.Length1 && (a, b) != (i, j) ==>
                matrix[a, b] == old(matrix[a, b])
    {
      matrix[i, j] := v;
    }

    /** get: in range only. */
    function Get(i: int, j: int): int
      reads matrix
      requires 0 <= i < matrix.Length0 && 0 <= j < matrix.Length1
    {
      matrix[i, j]
    }
  }
}
