// PixelGraphEngine: a sparse grid of integer cell values, and the segment
// painting that AbstractGraphEngine::setLine performs on it.

module PixelGraph {
  import opened LineData
  import opened SortedSets

  /** A grid cell (x, y). */
  type Cell = (int, int)

  /** 0x7fffffff, the starting value of the bounding-box minima. */
  const IntInf: int := 0x7fff_ffff

  /** Reading a sparse grid: a cell never written reads 0 ("air"). */
  function Get(m: map<Cell, int>, c: Cell): int
  {
    if c in m then m[c] else 0
  }

  /** The store keeps no explicit zeros. */
  predicate NoZeros(m: map<Cell, int>)
  {
    forall c :: c in m ==> m[c] != 0
  }

  /** setPos on the map: a non-zero value is stored, zero erases the cell. */
  function Put(m: map<Cell, int>, c: Cell, v: int): map<Cell, int>
  {
    if v != 0 then m[c := v] else m - {c}
  }

  /** After a write, the cell reads the written value, every other cell
      reads as before, and no explicit zero is stored. */
  lemma PutGet(m: map<Cell, int>, c: Cell, v: int, d: Cell)
    ensures Get(Put(m, c, v), c) == v
    ensures d != c ==> Get(Put(m, c, v), d) == Get(m, d)
    ensures NoZeros(m) ==> NoZeros(Put(m, c, v))
  {
  }

  /** The cells of an axis-parallel segment, both end points included. */
  function SegmentCells(l: Line): set<Cell>
  {
    if l.xf == l.xt then
      set y | Min(l.yf, l.yt) <= y <= Max(l.yf, l.yt) :: (l.xf, y)
    else
      set x | Min(l.xf, l.xt) <= x <= Max(l.xf, l.xt) :: (x, l.yf)
  }

  function Min(a: int, b: int): int { if a <= b then a else b }
  function Max(a: int, b: int): int { if a <= b then b else a }

  /** Writing one value into a set of cells. */
  function PaintCells(m: map<Cell, int>, s: set<Cell>, v: int): map<Cell, int>
  {
    if v != 0 then (map c | c in m.Keys + s :: if c in s then v else m[c]) else m - s
  }

  /** Painting a segment: every cell of the segment reads the tag, all other
      cells are untouched. */
  function Paint(m: map<Cell, int>, l: Line): map<Cell, int>
  {
    PaintCells(m, SegmentCells(l), l.v)
  }

  lemma PaintGet(m: map<Cell, int>, l: Line, c: Cell)
    ensures Get(Paint(m, l), c) == if c in SegmentCells(l) then l.v else Get(m, c)
    ensures NoZeros(m) ==> NoZeros(Paint(m, l))
  {
  }

  /** The segment's cells do not depend on its direction, and a zero-length
      segment is the single cell it names. */
  lemma SegmentCellsLaws(l: Line)
    ensures SegmentCells(RawLine(l.xt, l.xf, l.yt, l.yf, l.v)) == SegmentCells(l)
    ensures l.xf == l.xt && l.yf == l.yt ==> SegmentCells(l) == {(l.xf, l.yf)}
    ensures (l.xf, l.yf) in SegmentCells(l) && (l.xt, l.yt) in SegmentCells(l)
  {
    if l.xf == l.xt && l.yf == l.yt {
      assert forall c :: c in SegmentCells(l) ==> c == (l.xf, l.yf);
    }
  }

  /** Painting a sequence of segments in order. */
  function PaintAll(m: map<Cell, int>, ls: seq<Line>): map<Cell, int>
    decreases |ls|
  {
    if ls == [] then m else PaintAll(Paint(m, ls[0]), ls[1..])
  }

  lemma {:induction false} PaintAllAppend(m: map<Cell, int>, ls: seq<Line>, l: Line)
    ensures PaintAll(m, ls + [l]) == Paint(PaintAll(m, ls), l)
    decreases |ls|
  {
    if ls != [] {
      assert (ls + [l])[1..] == ls[1..] + [l];
      PaintAllAppend(Paint(m, ls[0]), ls[1..], l);
    }
  }

  lemma {:induction false} PaintAllNoZeros(m: map<Cell, int>, ls: seq<Line>)
    requires NoZeros(m)
    ensures NoZeros(PaintAll(m, ls))
    decreases |ls|
  {
    if ls != [] {
      PaintGet(m, ls[0], (0, 0));
      PaintAllNoZeros(Paint(m, ls[0]), ls[1..]);
    }
  }

  /** The cells holding a negative value (crossing markers), in the
      ascending order in which a std::map keyed by (x, y) is iterated.
      PixelGraphEngine::getAllNegPos is called by the engines built on this
      grid but its body is not part of this model; this is its contract. */
  function NegativeCells(m: map<Cell, int>): (r: seq<Cell>)
    ensures Elems(r) == set c | c in m && m[c] < 0
    ensures LexSorted(r)
  {
    SortedPairsSpec(set c | c in m && m[c] < 0);
    SortedPairs(set c | c in m && m[c] < 0)
  }

  // ---------------------------------------------------------------------
  // Bounding box of the non-zero cells.

  datatype Box = Box(xmin: int, xmax: int, ymin: int, ymax: int)

  /** The box of an empty grid: (+INF, -INF, +INF, -INF). */
  const EmptyBox: Box := Box(IntInf, -IntInf, IntInf, -IntInf)

  function NonZeroCells(m: map<Cell, int>): set<Cell>
  {
    set c | c in m && m[c] != 0
  }

  /** `b` is what folding min/max over the cells of `s` from the empty box
      yields: each bound is the extreme coordinate of `s`, or stays at
      +/-INF. */
  ghost predicate IsBoxOf(b: Box, s: set<Cell>)
  {
    && b.xmin <= IntInf && (forall c :: c in s ==> b.xmin <= c.0)
    && (b.xmin == IntInf || exists c :: c in s && c.0 == b.xmin)
    && b.xmax >= -IntInf && (forall c :: c in s ==> c.0 <= b.xmax)
    && (b.xmax == -IntInf || exists c :: c in s && c.0 == b.xmax)
    && b.ymin <= IntInf && (forall c :: c in s ==> b.ymin <= c.1)
    && (b.ymin == IntInf || exists c :: c in s && c.1 == b.ymin)
    && b.ymax >= -IntInf && (forall c :: c in s ==> c.1 <= b.ymax)
    && (b.ymax == -IntInf || exists c :: c in s && c.1 == b.ymax)
  }

  /** Widening a box by one more cell. */
  function Extend(b: Box, c: Cell): Box
  {
    Box(Min(b.xmin, c.0), Max(b.xmax, c.0), Min(b.ymin, c.1), Max(b.ymax, c.1))
  }

  lemma ExtendIsBoxOf(b: Box, s: set<Cell>, c: Cell)
    requires IsBoxOf(b, s)
    ensures IsBoxOf(Extend(b, c), s + {c})
  {
  }

  /** The characterisation determines the box. */
  lemma IsBoxOfUnique(b1: Box, b2: Box, s: set<Cell>)
    requires IsBoxOf(b1, s) && IsBoxOf(b2, s)
    ensures b1 == b2
  {
  }

  /** The bounding box of a set of cells. */
  ghost function BoxOf(s: set<Cell>): (b: Box)
    ensures IsBoxOf(b, s)
    decreases s
  {
    if s == {} then EmptyBox else
      var c :| c in s;
      var b := BoxOf(s - {c});
      ExtendIsBoxOf(b, s - {c}, c);
      assert s - {c} + {c} == s;
      Extend(b, c)
  }

  /** getBorderCoord's loop over the stored cells, shared by the pixel grid
      and the views built on it.  The order of the visit does not matter. */
  method ComputeBox(m: map<Cell, int>) returns (b: Box)
    ensures b == BoxOf(NonZeroCells(m))
  {
    b := EmptyBox;
    var rest := m.Keys;
    ghost var done: set<Cell> := {};
    while rest != {}
      invariant rest !! done && rest + done == m.Keys
      invariant IsBoxOf(b, NonZeroCells(m) * done)
      decreases rest
    {
      var c :| c in rest;
      if m[c] != 0 {
        ExtendIsBoxOf(b, NonZeroCells(m) * done, c);
        assert NonZeroCells(m) * (done + {c}) == NonZeroCells(m) * done + {c};
        b := Extend(b, c);
      } else {
        assert NonZeroCells(m) * (done + {c}) == NonZeroCells(m) * done;
      }
      rest := rest - {c};
      done := done + {c};
    }
    assert NonZeroCells(m) * done == NonZeroCells(m);
    IsBoxOfUnique(b, BoxOf(NonZeroCells(m)), NonZeroCells(m));
  }

  // ---------------------------------------------------------------------

  class PixelGraphEngine {
    var pixelValue: map<Cell, int>

    ghost predicate Valid()
      reads this
    {
      NoZeros(pixelValue)
    }

    constructor()
      ensures Valid() && pixelValue == map[]
    {
      pixelValue := map[];
    }

    /** getPos: the stored value, or 0 for a cell never written. */
    function GetPos(x: int, y: int): int
      reads this
    {
      Get(pixelValue, (x, y))
    }

    method SetPos(x: int, y: int, v: int)
      requires Valid()
      modifies this
      ensures Valid()
      ensures pixelValue == Put(old(pixelValue), (x, y), v)
    {
      if v != 0 {
        pixelValue := pixelValue[(x, y) := v];
      } else {
        if (x, y) in pixelValue {
          pixelValue := pixelValue - {(x, y)};
        }
      }
    }

    /** AbstractGraphEngine::setLine: writes the tag into every cell of the
        segment, from the smaller coordinate to the larger. */
    method SetLine(l: Line)
      requires Valid()
      modifies this
      ensures Valid()
      ensures pixelValue == Paint(old(pixelValue), l)
    {
      ghost var m0 := pixelValue;
      if l.xf == l.xt {
        PaintColumn(l.xf, Min(l.yf, l.yt), Max(l.yf, l.yt), l.v);
        PaintIsColumn(m0, l);
      } else {
        PaintRow(l.yf, Min(l.xf, l.xt), Max(l.xf, l.xt), l.v);
        PaintIsRow(m0, l);
      }
    }

    /** The loop of setLine along a vertical segment: y runs from lo to hi. */
    method PaintColumn(x: int, lo: int, hi: int, v: int)
      requires Valid() && lo <= hi
      modifies this
      ensures Valid()
      ensures pixelValue == PaintCells(old(pixelValue), ColumnCells(x, lo, hi + 1), v)
    {
      ghost var m0 := pixelValue;
      var i := lo;
      while i <= hi
        invariant lo <= i <= hi + 1
        invariant Valid()
        invariant pixelValue == PaintCells(m0, ColumnCells(x, lo, i), v)
        decreases hi + 1 - i
      {
        SetPos(x, i, v);
        PaintColumnStep(m0, x, lo, i, v);
        i := i + 1;
      }
    }

    /** The loop of setLine along a horizontal segment: x runs from lo to
        hi. */
    method PaintRow(y: int, lo: int, hi: int, v: int)
      requires Valid() && lo <= hi
      modifies this
      ensures Valid()
      ensures pixelValue == PaintCells(old(pixelValue), RowCells(y, lo, hi + 1), v)
    {
      ghost var m0 := pixelValue;
      var i := lo;
      while i <= hi
        invariant lo <= i <= hi + 1
        invariant Valid()
        invariant pixelValue == PaintCells(m0, RowCells(y, lo, i), v)
        decreases hi + 1 - i
      {
        SetPos(i, y, v);
        PaintRowStep(m0, y, lo, i, v);
        i := i + 1;
      }
    }

    /** getBorderCoord: the bounding box of the non-zero cells, or the empty
        box (+INF, -INF, +INF, -INF). */
    method GetBorderCoord() returns (b: Box)
      ensures b == BoxOf(NonZeroCells(pixelValue))
    {
      b := ComputeBox(pixelValue);
    }
  }

  /** The cells (x, y) of column x with lo <= y < hi. */
  function ColumnCells(x: int, lo: int, hi: int): set<Cell>
  {
    set y | lo <= y < hi :: (x, y)
  }

  /** The cells (x, y) of row y with lo <= x < hi. */
  function RowCells(y: int, lo: int, hi: int): set<Cell>
  {
    set x | lo <= x < hi :: (x, y)
  }

  /** Painting one more cell of a column is one more write. */
  lemma PaintColumnStep(m: map<Cell, int>, x: int, lo: int, i: int, v: int)
    requires lo <= i
    ensures PaintCells(m, ColumnCells(x, lo, i + 1), v) == Put(PaintCells(m, ColumnCells(x, lo, i), v), (x, i), v)
  {
    assert ColumnCells(x, lo, i + 1) == ColumnCells(x, lo, i) + {(x, i)};
    PaintCellsStep(m, ColumnCells(x, lo, i), (x, i), v);
  }

  /** Painting one more cell of a row is one more write. */
  lemma PaintRowStep(m: map<Cell, int>, y: int, lo: int, i: int, v: int)
    requires lo <= i
    ensures PaintCells(m, RowCells(y, lo, i + 1), v) == Put(PaintCells(m, RowCells(y, lo, i), v), (i, y), v)
  {
    assert RowCells(y, lo, i + 1) == RowCells(y, lo, i) + {(i, y)};
    PaintCellsStep(m, RowCells(y, lo, i), (i, y), v);
  }

  /** A vertical segment paints a column from its lower to its upper end. */
  lemma PaintIsColumn(m: map<Cell, int>, l: Line)
    requires l.xf == l.xt
    ensures Paint(m, l) == PaintCells(m, ColumnCells(l.xf, Min(l.yf, l.yt), Max(l.yf, l.yt) + 1), l.v)
  {
    assert SegmentCells(l) == ColumnCells(l.xf, Min(l.yf, l.yt), Max(l.yf, l.yt) + 1);
  }

  /** Any other segment paints a row from its left to its right end. */
  lemma PaintIsRow(m: map<Cell, int>, l: Line)
    requires l.xf != l.xt
    ensures Paint(m, l) == PaintCells(m, RowCells(l.yf, Min(l.xf, l.xt), Max(l.xf, l.xt) + 1), l.v)
  {
    assert SegmentCells(l) == RowCells(l.yf, Min(l.xf, l.xt), Max(l.xf, l.xt) + 1);
  }

  lemma PaintCellsStep(m: map<Cell, int>, s: set<Cell>, c: Cell, v: int)
    ensures PaintCells(m, s + {c}, v) == Put(PaintCells(m, s, v), c, v)
  {
  }

  /** A grid painted only by segments holds no explicit zero. */
  lemma PaintCellsNoZeros(m: map<Cell, int>, s: set<Cell>, v: int)
    requires NoZeros(m)
    ensures NoZeros(PaintCells(m, s, v))
  {
  }
}
