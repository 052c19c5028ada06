// The read-only graph-engine wrappers: Merge, Span, ErasePoint and Margin.
// Each wrapper holds a const reference to the engine it wraps and never
// changes it, so a wrapper stack is modelled as a value (a `View`) over a
// snapshot of the pixel grid underneath; reading a view is a function.

module GraphViews {
  import opened SortedSets
  import opened PixelGraph

  datatype View =
    | Pixels(cells: map<Cell, int>)
      /** MergeGraphEngineWrap: the front value where it is non-zero, else the back one. */
    | Merge(front: View, back: View)
      /** SpanGraphEngineWrap: every non-zero cell also claims its four neighbours. */
    | Span(base: View)
      /** ErasePointGraphEngineWrap: the forced cells read as air. */
    | ErasePoint(base: View, forced: set<Cell>)
      /** MarginGraphEngineWrap: a wall outside a rectangle, with start and end kept open. */
    | Margin(base: View, xmin: int, xmax: int, ymin: int, ymax: int, wall: int,
             xf: int, yf: int, xt: int, yt: int)

  /** What reading a view demands: the Margin constructor's assertions
      (a non-empty rectangle, a non-zero wall) and ErasePoint's check, made
      on every read, that 3 or 4 cells are forced open. */
  predicate Readable(v: View)
  {
    match v
    case Pixels(_) => true
    case Merge(f, b) => Readable(f) && Readable(b)
    case Span(b) => Readable(b)
    case ErasePoint(b, forced) => (|forced| == 3 || |forced| == 4) && Readable(b)
    case Margin(b, xmin, xmax, ymin, ymax, wall, _, _, _, _) =>
      xmin <= xmax && ymin <= ymax && wall != 0 && Readable(b)
  }

  function Shift(c: Cell, o: Cell): Cell
  {
    (c.0 + o.0, c.1 + o.1)
  }

  /** The cell itself and its four neighbours. */
  const SpanOffsets: seq<Cell> := [(0, 0), (0, 1), (1, 0), (0, -1), (-1, 0)]

  /** The largest non-zero entry, or 0 when every entry is 0
      (std::max_element over the list of non-zero values). */
  function NonZeroMax(s: seq<int>): (r: int)
    ensures r == 0 <==> forall i :: 0 <= i < |s| ==> s[i] == 0
    ensures r != 0 ==> r in s
    ensures forall i :: 0 <= i < |s| && s[i] != 0 ==> s[i] <= r
  {
    if s == [] then 0 else
      var t := NonZeroMax(s[1..]);
      assert forall i :: 1 <= i < |s| ==> s[i] == s[1..][i - 1];
      if s[0] == 0 then t
      else if t == 0 || t <= s[0] then s[0]
      else t
  }

  /** The value a view shows at a cell. */
  function GetPos(v: View, c: Cell): int
    requires Readable(v)
  {
    match v
    case Pixels(m) => Get(m, c)
    case Merge(f, b) =>
      var fv := GetPos(f, c);
      if fv == 0 then GetPos(b, c) else fv
    case Span(b) =>
      NonZeroMax([GetPos(b, Shift(c, SpanOffsets[0])), GetPos(b, Shift(c, SpanOffsets[1])),
                  GetPos(b, Shift(c, SpanOffsets[2])), GetPos(b, Shift(c, SpanOffsets[3])),
                  GetPos(b, Shift(c, SpanOffsets[4]))])
    case ErasePoint(b, forced) => if c in forced then 0 else GetPos(b, c)
    case Margin(b, xmin, xmax, ymin, ymax, wall, xf, yf, xt, yt) =>
      if c == (xf, yf) then 0
      else if c == (xt, yt) then 0
      else if c.0 < xmin || c.0 > xmax || c.1 < ymin || c.1 > ymax then wall
      else GetPos(b, c)
  }

  // ---------------------------------------------------------------------
  // Reading the wrappers.

  /** Merge: a cell is air iff it is air in both inputs; a non-zero front
      value hides the back one. */
  lemma MergeGetPos(f: View, b: View, c: Cell)
    requires Readable(f) && Readable(b)
    ensures GetPos(Merge(f, b), c) == 0 <==> GetPos(f, c) == 0 && GetPos(b, c) == 0
    ensures GetPos(f, c) != 0 ==> GetPos(Merge(f, b), c) == GetPos(f, c)
    ensures GetPos(f, c) == 0 ==> GetPos(Merge(f, b), c) == GetPos(b, c)
  {
  }

  /** Span: a cell is air iff the base is air at it and at its four
      neighbours; otherwise it shows the largest of those non-zero values. */
  lemma SpanGetPos(b: View, c: Cell)
    requires Readable(b)
    ensures GetPos(Span(b), c) == 0 <==> forall i :: 0 <= i < 5 ==> GetPos(b, Shift(c, SpanOffsets[i])) == 0
    ensures forall i :: 0 <= i < 5 && GetPos(b, Shift(c, SpanOffsets[i])) != 0 ==>
              GetPos(b, Shift(c, SpanOffsets[i])) <= GetPos(Span(b), c)
    ensures GetPos(Span(b), c) != 0 ==>
              exists i :: 0 <= i < 5 && GetPos(b, Shift(c, SpanOffsets[i])) == GetPos(Span(b), c)
  {
    var s := [GetPos(b, Shift(c, SpanOffsets[0])), GetPos(b, Shift(c, SpanOffsets[1])),
              GetPos(b, Shift(c, SpanOffsets[2])), GetPos(b, Shift(c, SpanOffsets[3])),
              GetPos(b, Shift(c, SpanOffsets[4]))];
    assert forall i :: 0 <= i < 5 ==> s[i] == GetPos(b, Shift(c, SpanOffsets[i]));
    if GetPos(Span(b), c) != 0 {
      var r := NonZeroMax(s);
      assert r in s;
      var i :| 0 <= i < 5 && s[i] == r;
    }
  }

  /** Span: a non-zero base cell makes itself and its four neighbours
      non-zero. */
  lemma SpanSpreads(b: View, c: Cell, i: int)
    requires Readable(b) && GetPos(b, c) != 0 && 0 <= i < 5
    ensures GetPos(Span(b), Shift(c, SpanOffsets[i])) != 0
  {
    var d := Shift(c, SpanOffsets[i]);
    var back := [0, 3, 4, 1, 2][i];
    assert Shift(d, SpanOffsets[back]) == c;
    SpanGetPos(b, d);
  }

  /** ErasePoint: the forced cells read 0, every other cell the base value. */
  lemma ErasePointGetPos(b: View, forced: set<Cell>, c: Cell)
    requires Readable(b) && (|forced| == 3 || |forced| == 4)
    ensures c in forced ==> GetPos(ErasePoint(b, forced), c) == 0
    ensures c !in forced ==> GetPos(ErasePoint(b, forced), c) == GetPos(b, c)
  {
  }

  /** Margin: start and end read 0; outside the rectangle the wall; inside
      the base value. */
  lemma MarginGetPos(v: View, c: Cell)
    requires v.Margin? && Readable(v)
    ensures c == (v.xf, v.yf) || c == (v.xt, v.yt) ==> GetPos(v, c) == 0
    ensures c != (v.xf, v.yf) && c != (v.xt, v.yt) ==>
              GetPos(v, c) == if InBox(Box(v.xmin, v.xmax, v.ymin, v.ymax), c) then GetPos(v.base, c) else v.wall
  {
  }

  // ---------------------------------------------------------------------
  // getBorderCoord.

  predicate InBox(b: Box, c: Cell)
  {
    b.xmin <= c.0 <= b.xmax && b.ymin <= c.1 <= b.ymax
  }

  /** The box each wrapper reports: Merge the union box, Span the base box
      grown by one on every side, ErasePoint and Margin the base box. */
  ghost function Border(v: View): Box
  {
    match v
    case Pixels(m) => BoxOf(NonZeroCells(m))
    case Merge(f, b) =>
      var bf := Border(f);
      var bb := Border(b);
      Box(Min(bf.xmin, bb.xmin), Max(bf.xmax, bb.xmax), Min(bf.ymin, bb.ymin), Max(bf.ymax, bb.ymax))
    case Span(b) =>
      var bb := Border(b);
      Box(bb.xmin - 1, bb.xmax + 1, bb.ymin - 1, bb.ymax + 1)
    case ErasePoint(b, _) => Border(b)
    case Margin(b, _, _, _, _, _, _, _, _, _) => Border(b)
  }

  method GetBorderCoord(v: View) returns (r: Box)
    ensures r == Border(v)
  {
    match v
    case Pixels(m) =>
      r := ComputeBox(m);
    case Merge(f, b) =>
      var bf := GetBorderCoord(f);
      var bb := GetBorderCoord(b);
      r := Box(Min(bf.xmin, bb.xmin), Max(bf.xmax, bb.xmax), Min(bf.ymin, bb.ymin), Max(bf.ymax, bb.ymax));
    case Span(b) =>
      var bb := GetBorderCoord(b);
      r := Box(bb.xmin - 1, bb.xmax + 1, bb.ymin - 1, bb.ymax + 1);
    case ErasePoint(b, _) =>
      r := GetBorderCoord(b);
    case Margin(b, _, _, _, _, _, _, _, _, _) =>
      r := GetBorderCoord(b);
  }

  /** No Margin wrapper anywhere in the stack (a Margin shows its wall on
      infinitely many cells, outside any box). */
  predicate MarginFree(v: View)
  {
    match v
    case Pixels(_) => true
    case Merge(f, b) => MarginFree(f) && MarginFree(b)
    case Span(b) => MarginFree(b)
    case ErasePoint(b, _) => MarginFree(b)
    case Margin(_, _, _, _, _, _, _, _, _, _) => false
  }

  /** Every non-zero cell of a Margin-free view lies inside its reported
      box; in particular the one-cell growth of Span is enough. */
  lemma {:induction false} BorderEncloses(v: View, c: Cell)
    requires Readable(v) && MarginFree(v) && GetPos(v, c) != 0
    ensures InBox(Border(v), c)
  {
    match v
    case Pixels(m) =>
      assert c in NonZeroCells(m);
    case Merge(f, b) =>
      if GetPos(f, c) != 0 {
        BorderEncloses(f, c);
      } else {
        BorderEncloses(b, c);
      }
    case Span(b) =>
      SpanGetPos(b, c);
      var i :| 0 <= i < 5 && GetPos(b, Shift(c, SpanOffsets[i])) == GetPos(Span(b), c);
      BorderEncloses(b, Shift(c, SpanOffsets[i]));
    case ErasePoint(b, _) =>
      BorderEncloses(b, c);
  }

  // ---------------------------------------------------------------------
  // getAllNegPos.

  /** Listing the negative cells of a Margin is only allowed with a
      non-negative wall (a negative wall would be negative on infinitely
      many cells). */
  predicate NegReady(v: View)
  {
    match v
    case Pixels(_) => true
    case Merge(f, b) => NegReady(f) && NegReady(b)
    case Span(b) => NegReady(b)
    case ErasePoint(b, _) => NegReady(b)
    case Margin(b, _, _, _, _, wall, _, _, _, _) => wall >= 0 && NegReady(b)
  }

  /** The candidate cells of Span's listing: every base negative cell and
      its four neighbours that read negative in the span. */
  function SpanCandidates(v: View, src: set<Cell>): set<Cell>
    requires v.Span? && Readable(v)
  {
    set p, o | p in src && o in Elems(SpanOffsets) && GetPos(v, Shift(p, o)) < 0 :: Shift(p, o)
  }

  /** The listing of negative (crossing) cells each wrapper reports. */
  function NegPos(v: View): seq<Cell>
    requires Readable(v) && NegReady(v)
  {
    match v
    case Pixels(m) => NegativeCells(m)
    case Merge(f, b) =>
      SortedPairs(set c | c in Elems(NegPos(f)) + Elems(NegPos(b)) && GetPos(v, c) < 0)
    case Span(b) =>
      SortedPairs(SpanCandidates(v, Elems(NegPos(b))))
    case ErasePoint(b, forced) =>
      Filter(NegPos(b), c => c !in forced)
    case Margin(b, xmin, xmax, ymin, ymax, _, _, _, _, _) =>
      Filter(NegPos(b), (c: Cell) => xmin <= c.0 <= xmax && ymin <= c.1 <= ymax)
  }

  /** Every cell a view shows as negative is listed. */
  lemma {:induction false} NegPosComplete(v: View, c: Cell)
    requires Readable(v) && NegReady(v) && GetPos(v, c) < 0
    ensures c in Elems(NegPos(v))
  {
    match v
    case Pixels(m) =>
    case Merge(f, b) =>
      if GetPos(f, c) != 0 {
        NegPosComplete(f, c);
      } else {
        NegPosComplete(b, c);
      }
      SortedPairsSpec(set c | c in Elems(NegPos(f)) + Elems(NegPos(b)) && GetPos(v, c) < 0);
    case Span(b) =>
      SpanGetPos(b, c);
      var i :| 0 <= i < 5 && GetPos(b, Shift(c, SpanOffsets[i])) == GetPos(Span(b), c);
      NegPosComplete(b, Shift(c, SpanOffsets[i]));
      SpanCandidateFrom(b, c, i);
    case ErasePoint(b, forced) =>
      NegPosComplete(b, c);
      FilterElems(NegPos(b), c => c !in forced);
    case Margin(b, xmin, xmax, ymin, ymax, _, _, _, _, _) =>
      NegPosComplete(b, c);
      FilterElems(NegPos(b), (c: Cell) => xmin <= c.0 <= xmax && ymin <= c.1 <= ymax);
  }

  /** A span-negative cell next to a listed base cell is a Span candidate. */
  lemma SpanCandidateFrom(b: View, c: Cell, i: int)
    requires Readable(b) && NegReady(b) && 0 <= i < 5 && GetPos(Span(b), c) < 0
    requires Shift(c, SpanOffsets[i]) in Elems(NegPos(b))
    ensures c in Elems(NegPos(Span(b)))
  {
    var n := Shift(c, SpanOffsets[i]);
    var back := [0, 3, 4, 1, 2][i];
    assert Shift(n, SpanOffsets[back]) == c;
    assert SpanOffsets[back] in Elems(SpanOffsets);
    assert c in SpanCandidates(Span(b), Elems(NegPos(b)));
    SortedPairsSpec(SpanCandidates(Span(b), Elems(NegPos(b))));
  }

  /** Every cell a Margin-free view lists reads negative in it: the list is
      exactly the view's negative cells. */
  lemma {:induction false} NegPosSound(v: View, c: Cell)
    requires Readable(v) && NegReady(v) && MarginFree(v) && c in Elems(NegPos(v))
    ensures GetPos(v, c) < 0
  {
    match v
    case Pixels(m) =>
    case Merge(f, b) =>
      SortedPairsSpec(set c | c in Elems(NegPos(f)) + Elems(NegPos(b)) && GetPos(v, c) < 0);
    case Span(b) =>
      SortedPairsSpec(SpanCandidates(v, Elems(NegPos(b))));
    case ErasePoint(b, forced) =>
      FilterElems(NegPos(b), c => c !in forced);
      NegPosSound(b, c);
  }

  /** A Margin lists the base's negative cells inside its rectangle; its
      start and end cells, which read 0, are kept if the base lists them. */
  lemma MarginNegPos(v: View, c: Cell)
    requires v.Margin? && Readable(v) && NegReady(v)
    ensures c in Elems(NegPos(v)) <==> c in Elems(NegPos(v.base)) && InBox(Box(v.xmin, v.xmax, v.ymin, v.ymax), c)
  {
    FilterElems(NegPos(v.base), (c: Cell) => v.xmin <= c.0 <= v.xmax && v.ymin <= c.1 <= v.ymax);
  }

  /** Merge and Span report their listing deduplicated and in (x, y) order. */
  lemma NegPosOrdered(v: View)
    requires Readable(v) && NegReady(v) && (v.Merge? || v.Span?)
    ensures LexSorted(NegPos(v))
  {
    match v
    case Merge(f, b) =>
      SortedPairsSpec(set c | c in Elems(NegPos(f)) + Elems(NegPos(b)) && GetPos(v, c) < 0);
    case Span(b) =>
      SortedPairsSpec(SpanCandidates(v, Elems(NegPos(b))));
  }

  /** A negative back cell under a non-zero front value is dropped by Merge. */
  lemma MergeHidesBack(f: View, b: View, c: Cell)
    requires Readable(f) && Readable(b) && NegReady(f) && NegReady(b)
    requires GetPos(f, c) > 0 && GetPos(b, c) < 0
    ensures c !in Elems(NegPos(Merge(f, b)))
  {
    var v := Merge(f, b);
    SortedPairsSpec(set c | c in Elems(NegPos(f)) + Elems(NegPos(b)) && GetPos(v, c) < 0);
  }

  /** Span never lists a cell whose five-cell neighbourhood holds a positive
      base value, because the maximum there is positive. */
  lemma SpanHidesNearPositive(b: View, c: Cell, i: int)
    requires Readable(b) && NegReady(b) && 0 <= i < 5 && GetPos(b, Shift(c, SpanOffsets[i])) > 0
    ensures c !in Elems(NegPos(Span(b)))
  {
    SpanGetPos(b, c);
    SortedPairsSpec(SpanCandidates(Span(b), Elems(NegPos(b))));
  }

  // ---------------------------------------------------------------------

  /** ErasePointGraphEngineWrap: the set of forced-open cells is the only
      state that changes; the wrapped engine is fixed. */
  class ErasePointWrap {
    const base: View
    var forceEmptyPos: set<Cell>

    constructor(base: View)
      ensures this.base == base && forceEmptyPos == {}
    {
      this.base := base;
      forceEmptyPos := {};
    }

    method Clear()
      modifies this
      ensures forceEmptyPos == {}
    {
      forceEmptyPos := {};
    }

    /** A set insert: adding a cell already present changes nothing. */
    method AddEmptyPos(x: int, y: int)
      modifies this
      ensures forceEmptyPos == old(forceEmptyPos) + {(x, y)}
      ensures (x, y) in old(forceEmptyPos) ==> forceEmptyPos == old(forceEmptyPos)
    {
      forceEmptyPos := forceEmptyPos + {(x, y)};
    }

    /** The view this wrapper currently presents. */
    function AsView(): (v: View)
      reads this
      ensures v.ErasePoint? && v.base == base && v.forced == forceEmptyPos
    {
      ErasePoint(base, forceEmptyPos)
    }
  }
}
