// VectorGraphEngine: a grid that also remembers the list of segments that
// were painted into it, so that the layout can be re-spaced (coordinate
// compression) by relabelling the segments and repainting.

module VectorGraph {
  import opened Wrappers
  import opened LineData
  import opened SortedSets
  import opened PixelGraph
  import opened Coord2dSets

  /** The x coordinates of all segment end points. */
  function XCoords(ls: seq<Line>): set<int>
  {
    if ls == [] then {} else XCoords(ls[..|ls| - 1]) + {ls[|ls| - 1].xf, ls[|ls| - 1].xt}
  }

  /** The y coordinates of all segment end points. */
  function YCoords(ls: seq<Line>): set<int>
  {
    if ls == [] then {} else YCoords(ls[..|ls| - 1]) + {ls[|ls| - 1].yf, ls[|ls| - 1].yt}
  }

  /** Every end-point coordinate is collected, and nothing else. */
  lemma {:induction false} CoordsCollected(ls: seq<Line>)
    ensures forall i :: 0 <= i < |ls| ==> ls[i].xf in XCoords(ls) && ls[i].xt in XCoords(ls)
    ensures forall i :: 0 <= i < |ls| ==> ls[i].yf in YCoords(ls) && ls[i].yt in YCoords(ls)
    ensures forall x :: x in XCoords(ls) ==> exists i :: 0 <= i < |ls| && (x == ls[i].xf || x == ls[i].xt)
    ensures forall y :: y in YCoords(ls) ==> exists i :: 0 <= i < |ls| && (y == ls[i].yf || y == ls[i].yt)
    decreases |ls|
  {
    if ls != [] {
      var init := ls[..|ls| - 1];
      CoordsCollected(init);
      forall x | x in XCoords(ls)
        ensures exists i :: 0 <= i < |ls| && (x == ls[i].xf || x == ls[i].xt)
      {
        if x in XCoords(init) {
          var i :| 0 <= i < |init| && (x == init[i].xf || x == init[i].xt);
          assert ls[i] == init[i];
        }
      }
      forall y | y in YCoords(ls)
        ensures exists i :: 0 <= i < |ls| && (y == ls[i].yf || y == ls[i].yt)
      {
        if y in YCoords(init) {
          var i :| 0 <= i < |init| && (y == init[i].yf || y == init[i].yt);
          assert ls[i] == init[i];
        }
      }
      forall i | 0 <= i < |ls| - 1
        ensures ls[i].xf in XCoords(ls) && ls[i].xt in XCoords(ls)
        ensures ls[i].yf in YCoords(ls) && ls[i].yt in YCoords(ls)
      {
        assert ls[i] == init[i];
      }
    }
  }

  predicate CoordsIn(l: Line, mx: map<int, int>, my: map<int, int>)
  {
    l.xf in mx && l.xt in mx && l.yf in my && l.yt in my
  }

  /** Relabels the end points of a segment; the tag is kept.  A segment
      parallel to an axis stays so, since equal coordinates map equally. */
  function MapLine(l: Line, mx: map<int, int>, my: map<int, int>): Line
    requires CoordsIn(l, mx, my)
  {
    RawLine(mx[l.xf], mx[l.xt], my[l.yf], my[l.yt], l.v)
  }

  function MapLines(ls: seq<Line>, mx: map<int, int>, my: map<int, int>): (r: seq<Line>)
    requires forall i :: 0 <= i < |ls| ==> CoordsIn(ls[i], mx, my)
    ensures |r| == |ls|
    ensures forall i :: 0 <= i < |ls| ==> r[i] == MapLine(ls[i], mx, my)
  {
    seq(|ls|, i requires 0 <= i < |ls| => MapLine(ls[i], mx, my))
  }

  /** Re-spacing by scaled ranks keeps each segment's tag, its orientation
      and the direction it runs in, and the relabelled coordinates are
      multiples of k that keep the order of the original ones. */
  lemma CompactionKeepsShape(ls: seq<Line>, k: int, i: int, j: int)
    requires k >= 1 && 0 <= i < |ls| && 0 <= j < |ls|
    ensures forall n :: 0 <= n < |ls| ==> CoordsIn(ls[n], KRankMap(XCoords(ls), k), KRankMap(YCoords(ls), k))
    ensures var r := MapLines(ls, KRankMap(XCoords(ls), k), KRankMap(YCoords(ls), k));
      && r[i].v == ls[i].v
      && (r[i].xf == r[i].xt <==> ls[i].xf == ls[i].xt)
      && (r[i].yf == r[i].yt <==> ls[i].yf == ls[i].yt)
      && (ls[i].xf < ls[j].xt ==> r[i].xf + k <= r[j].xt)
      && (ls[i].yf < ls[j].yt ==> r[i].yf + k <= r[j].yt)
  {
    CoordsCollected(ls);
    var xs, ys := XCoords(ls), YCoords(ls);
    KRankMapSpacing(xs, k, ls[i].xf, ls[i].xt);
    KRankMapSpacing(ys, k, ls[i].yf, ls[i].yt);
    KRankMapSpacing(xs, k, ls[i].xf, ls[j].xt);
    KRankMapSpacing(ys, k, ls[i].yf, ls[j].yt);
  }

  class VectorGraphEngine {
    var lineDataSet: seq<Line>
    const pge: PixelGraphEngine

    /** The grid is exactly the list of segments painted in order. */
    ghost predicate Valid()
      reads this, pge
    {
      pge.Valid() && pge.pixelValue == PaintAll(map[], lineDataSet)
    }

    constructor()
      ensures Valid() && lineDataSet == [] && fresh(pge)
    {
      lineDataSet := [];
      pge := new PixelGraphEngine();
    }

    predicate Empty()
      reads this
    {
      lineDataSet == []
    }

    function GetPos(x: int, y: int): int
      reads this, pge
    {
      pge.GetPos(x, y)
    }

    /** setLine: records the segment and paints it. */
    method SetLine(l: Line)
      requires Valid()
      modifies this, pge
      ensures Valid()
      ensures lineDataSet == old(lineDataSet) + [l]
    {
      PaintAllAppend(map[], lineDataSet, l);
      lineDataSet := lineDataSet + [l];
      pge.SetLine(l);
    }

    /** setPos: a one-cell segment. */
    method SetPos(x: int, y: int, v: int)
      requires Valid()
      modifies this, pge
      ensures Valid()
      ensures lineDataSet == old(lineDataSet) + [RawLine(x, x, y, y, v)]
    {
      SetLine(RawLine(x, x, y, y, v));
    }

    method GetBorderCoord() returns (b: Box)
      ensures b == BoxOf(NonZeroCells(pge.pixelValue))
    {
      b := pge.GetBorderCoord();
    }

    /** getCoord2dSet: a fresh coordinate set holding both end points of
        every recorded segment. */
    method GetCoord2dSet() returns (ans: Coord2dSet)
      ensures fresh(ans) && ans.Valid()
      ensures ans.xIntSet == XCoords(lineDataSet) && ans.yIntSet == YCoords(lineDataSet)
    {
      ans := new Coord2dSet();
      var i := 0;
      while i < |lineDataSet|
        invariant 0 <= i <= |lineDataSet|
        invariant fresh(ans) && ans.Valid()
        invariant ans.xIntSet == XCoords(lineDataSet[..i]) && ans.yIntSet == YCoords(lineDataSet[..i])
        decreases |lineDataSet| - i
      {
        var l := lineDataSet[i];
        assert lineDataSet[..i + 1][..i] == lineDataSet[..i];
        ans.AddPos(l.xf, l.yf);
        ans.AddPos(l.xt, l.yt);
        i := i + 1;
      }
      assert lineDataSet[..i] == lineDataSet;
    }

    /** commitCoordMap(coord2d_set, k): relabels every segment's coordinates
        by their scaled rank in the given coordinate set and repaints the
        grid from the relabelled list. */
    method CommitCoordSet(cs: Coord2dSet, k: int)
      requires Valid() && cs.Valid() && k >= 1
      requires forall i :: 0 <= i < |lineDataSet| ==>
        CoordsIn(lineDataSet[i], KRankMap(cs.xIntSet, k), KRankMap(cs.yIntSet, k))
      modifies this, pge, cs
      ensures Valid() && cs.Valid()
      ensures cs.xIntSet == old(cs.xIntSet) && cs.yIntSet == old(cs.yIntSet)
      ensures lineDataSet == MapLines(old(lineDataSet), KRankMap(cs.xIntSet, k), KRankMap(cs.yIntSet, k))
    {
      ghost var mx, my := KRankMap(cs.xIntSet, k), KRankMap(cs.yIntSet, k);
      var lines := lineDataSet;
      var newLines: seq<Line> := [];
      var i := 0;
      while i < |lines|
        invariant 0 <= i <= |lines| && |newLines| == i
        invariant cs.Valid()
        invariant cs.xIntSet == old(cs.xIntSet) && cs.yIntSet == old(cs.yIntSet)
        invariant forall j :: 0 <= j < i ==> newLines[j] == MapLine(lines[j], mx, my)
        decreases |lines| - i
      {
        var l := lines[i];
        var xf := cs.XkRank(l.xf, k);
        var xt := cs.XkRank(l.xt, k);
        var yf := cs.YkRank(l.yf, k);
        var yt := cs.YkRank(l.yt, k);
        newLines := newLines + [RawLine(xf, xt, yf, yt, l.v)];
        i := i + 1;
      }
      var newPge := PaintLines(newLines);
      lineDataSet := newLines;
      pge.pixelValue := newPge.pixelValue;
    }

    /** parsifyDryRun(k), as rawParsify calls it.  The header defines no such
        member; this one is rebuilt from the comment on getCoord2dSet (a
        plan is returned, the relabelling is left to commitCoordMap) and
        from commitCoordMap(coord2d_set, k): the scaled-rank maps of this
        list's own coordinate sets, without changing anything. */
    method ParsifyDryRun(k: int) returns (mapX: map<int, int>, mapY: map<int, int>)
      requires k >= 1
      ensures mapX == KRankMap(XCoords(lineDataSet), k)
      ensures mapY == KRankMap(YCoords(lineDataSet), k)
    {
      mapX := KRankMap(XCoords(lineDataSet), k);
      mapY := KRankMap(YCoords(lineDataSet), k);
    }

    /** commitCoordMap(mapX, mapY), as rawParsify calls it.  The header
        defines only commitCoordMap(coord2d_set, k); this map form is rebuilt
        from it and from SocketInfo's commitCoordMap(mapX, mapY): relabels
        every segment through the two maps and repaints; fails, changing
        nothing, if a coordinate has no image. */
    method CommitCoordMap(mapX: map<int, int>, mapY: map<int, int>) returns (o: Outcome)
      requires Valid()
      modifies this, pge
      ensures Valid()
      ensures o.Pass? <==> forall i :: 0 <= i < |old(lineDataSet)| ==> CoordsIn(old(lineDataSet)[i], mapX, mapY)
      ensures o.Pass? ==> lineDataSet == MapLines(old(lineDataSet), mapX, mapY)
      ensures o.Fail? ==> lineDataSet == old(lineDataSet) && pge.pixelValue == old(pge.pixelValue)
      ensures o.Fail? ==> o.error.AssertionFailed?
    {
      var lines := lineDataSet;
      var newLines: seq<Line> := [];
      var i := 0;
      while i < |lines|
        invariant 0 <= i <= |lines| && |newLines| == i
        invariant forall j :: 0 <= j < i ==> CoordsIn(lines[j], mapX, mapY)
        invariant forall j :: 0 <= j < i ==> newLines[j] == MapLine(lines[j], mapX, mapY)
        decreases |lines| - i
      {
        var l := lines[i];
        if !CoordsIn(l, mapX, mapY) {
          return Fail(AssertionFailed("commitCoordMap: coordinate without image"));
        }
        newLines := newLines + [MapLine(l, mapX, mapY)];
        i := i + 1;
      }
      var newPge := PaintLines(newLines);
      lineDataSet := newLines;
      pge.pixelValue := newPge.pixelValue;
      o := Pass;
    }

    /** Copy assignment: this engine takes the other's segments and grid. */
    method CopyFrom(other: VectorGraphEngine)
      requires other.Valid()
      modifies this, pge
      ensures Valid() && lineDataSet == old(other.lineDataSet)
    {
      var ls, cells := other.lineDataSet, other.pge.pixelValue;
      lineDataSet := ls;
      pge.pixelValue := cells;
    }

    /** getAllEdges: the recorded segments. */
    function GetAllEdges(): seq<Line>
      reads this
    {
      lineDataSet
    }

    /** getAllNegPos: the negative cells of the grid. */
    function GetAllNegPos(): seq<Cell>
      reads this, pge
    {
      NegativeCells(pge.pixelValue)
    }
  }

  /** A fresh grid with the segments painted in order. */
  method PaintLines(ls: seq<Line>) returns (p: PixelGraphEngine)
    ensures fresh(p) && p.Valid()
    ensures p.pixelValue == PaintAll(map[], ls)
  {
    p := new PixelGraphEngine();
    var i := 0;
    while i < |ls|
      invariant 0 <= i <= |ls| && fresh(p) && p.Valid()
      invariant p.pixelValue == PaintAll(map[], ls[..i])
      decreases |ls| - i
    {
      PaintAllAppend(map[], ls[..i], ls[i]);
      assert ls[..i + 1] == ls[..i] + [ls[i]];
      p.SetLine(ls[i]);
      i := i + 1;
    }
    assert ls[..i] == ls;
  }

  /** The dry-run maps have an image for every end of every segment of the
      list they were taken from, so committing them to that list never
      fails. */
  lemma DryRunCoversEnds(ls: seq<Line>, k: int)
    requires k >= 1
    ensures forall i :: 0 <= i < |ls| ==> CoordsIn(ls[i], KRankMap(XCoords(ls), k), KRankMap(YCoords(ls), k))
  {
    CoordsCollected(ls);
  }
}
