// GenNodeSetAlgo: the 3-D skeleton of a finished diagram. Every segment
// contributes links between consecutive cells that still read the
// segment's tag (level z = 0); every crossing cell becomes a short bridge
// at level z = 1 over the strand it crosses, with both ends dropped back
// to level 0.

module GenNodeSets {
  import opened Wrappers
  import opened PixelGraph
  import opened GraphViews
  import opened LineData
  import opened NodeSets

  // ---------------------------------------------------------------------
  // What the build links, stated on coordinates.

  /** The same cell one level down. */
  function Below(p: Coord3): Coord3
  {
    (p.0, p.1, p.2 - 1)
  }

  /** A cell of the drawing at level 0. */
  function Ground(c: Cell): Coord3
  {
    (c.0, c.1, 0)
  }

  /** The running coordinate of a segment: y for a vertical one (xf == xt),
      x otherwise. */
  function Lo(l: Line): int
  {
    if l.xf == l.xt then Min(l.yf, l.yt) else Min(l.xf, l.xt)
  }

  function Hi(l: Line): int
  {
    if l.xf == l.xt then Max(l.yf, l.yt) else Max(l.xf, l.xt)
  }

  /** The cell of the segment's line at running coordinate t. */
  function At(l: Line, t: int): Cell
  {
    if l.xf == l.xt then (l.xf, t) else (t, l.yf)
  }

  /** Both the cell at t and the next one read the segment's tag. */
  predicate Hit(v: View, l: Line, t: int)
    requires Readable(v)
  {
    GetPos(v, At(l, t)) == l.v && GetPos(v, At(l, t + 1)) == l.v
  }

  /** The level-0 link between the cell at t and the next one. */
  function Step(l: Line, t: int): set<Coord3>
  {
    {Ground(At(l, t)), Ground(At(l, t + 1))}
  }

  /** The links found along the segment for running coordinates below
      `upTo`. */
  function AlongLinks(v: View, l: Line, upTo: int): set<set<Coord3>>
    requires Readable(v)
    decreases upTo - Lo(l)
  {
    if upTo <= Lo(l) then {}
    else AlongLinks(v, l, upTo - 1) + (if Hit(v, l, upTo - 1) then {Step(l, upTo - 1)} else {})
  }

  /** linkEdge's links: none for a tag of 0 or less. */
  function SegmentLinks(v: View, l: Line): set<set<Coord3>>
    requires Readable(v)
  {
    if l.v <= 0 then {} else AlongLinks(v, l, Hi(l))
  }

  /** The links of a list of segments. */
  function LinesLinks(v: View, ls: seq<Line>): set<set<Coord3>>
    requires Readable(v)
    decreases |ls|
  {
    if ls == [] then {} else LinesLinks(v, ls[..|ls| - 1]) + SegmentLinks(v, ls[|ls| - 1])
  }

  /** The three level-1 cells of a crossing: a -1 crossing runs along x,
      any other along y. */
  function Bridge(mid: Cell, val: int): (Coord3, Coord3, Coord3)
  {
    var dx := if val == -1 then 1 else 0;
    var dy := 1 - dx;
    ((mid.0 - dx, mid.1 - dy, 1), (mid.0, mid.1, 1), (mid.0 + dx, mid.1 + dy, 1))
  }

  /** A crossing's links: both bridge ends down to level 0, and the bridge
      itself. */
  function CrossingLinks(mid: Cell, val: int): set<set<Coord3>>
  {
    var (p1, p2, p3) := Bridge(mid, val);
    {{p1, Below(p1)}, {p3, Below(p3)}, {p1, p2}, {p2, p3}}
  }

  /** The links of a list of crossing cells, each read in the view. */
  function CrossingsLinks(v: View, cs: seq<Cell>): set<set<Coord3>>
    requires Readable(v)
    decreases |cs|
  {
    if cs == [] then {}
    else CrossingsLinks(v, cs[..|cs| - 1]) + CrossingLinks(cs[|cs| - 1], GetPos(v, cs[|cs| - 1]))
  }

  /** Every listed crossing cell holds -1 or -2. */
  predicate CrossingsOk(v: View, cs: seq<Cell>)
    requires Readable(v)
  {
    forall k :: 0 <= k < |cs| ==> GetPos(v, cs[k]) == -1 || GetPos(v, cs[k]) == -2
  }

  /** Everything buildNodeSet3D links for a view and its segments. */
  function Expected(v: View, ls: seq<Line>): set<set<Coord3>>
    requires Readable(v) && NegReady(v)
  {
    LinesLinks(v, ls) + CrossingsLinks(v, NegPos(v))
  }

  /** Two cells at level z that are horizontal or vertical neighbours. */
  predicate Flat(a: Coord3, b: Coord3, z: int)
  {
    a.2 == z && b.2 == z &&
    ((a.0 == b.0 && (a.1 - b.1 == 1 || b.1 - a.1 == 1)) || (a.1 == b.1 && (a.0 - b.0 == 1 || b.0 - a.0 == 1)))
  }

  /** The three kinds of link the skeleton has: along a strand at level 0,
      along a bridge at level 1, or from a bridge end down to level 0. */
  ghost predicate LinkShape(p: set<Coord3>)
  {
    exists a, b :: p == {a, b} && (Flat(a, b, 0) || Flat(a, b, 1) || (a.2 == 1 && b == Below(a)))
  }

  /** The segment's links are exactly the steps between consecutive cells
      that both read its tag, for a positive tag. */
  lemma SegmentLinksExact(v: View, l: Line, p: set<Coord3>)
    requires Readable(v)
    ensures p in SegmentLinks(v, l) <==>
              l.v > 0 && exists t :: Lo(l) <= t < Hi(l) && Hit(v, l, t) && p == Step(l, t)
  {
    AlongLinksExact(v, l, Hi(l), p);
  }

  lemma {:induction false} AlongLinksExact(v: View, l: Line, upTo: int, p: set<Coord3>)
    requires Readable(v)
    ensures p in AlongLinks(v, l, upTo) <==> exists t :: Lo(l) <= t < upTo && Hit(v, l, t) && p == Step(l, t)
    decreases upTo - Lo(l)
  {
    if upTo > Lo(l) {
      AlongLinksExact(v, l, upTo - 1, p);
      var t := upTo - 1;
      if Hit(v, l, t) && p == Step(l, t) {
        assert Lo(l) <= t < upTo && Hit(v, l, t) && p == Step(l, t);
      }
    }
  }

  /** A step along a segment joins two level-0 neighbours. */
  lemma StepShape(l: Line, t: int)
    ensures LinkShape(Step(l, t))
  {
    var a, b := Ground(At(l, t)), Ground(At(l, t + 1));
    assert Flat(a, b, 0);
  }

  /** Each of a crossing's four links has one of the three shapes. */
  lemma CrossingShape(mid: Cell, val: int, p: set<Coord3>)
    requires p in CrossingLinks(mid, val)
    ensures LinkShape(p)
  {
    var (p1, p2, p3) := Bridge(mid, val);
    if p == {p1, Below(p1)} {
      assert p1.2 == 1;
    } else if p == {p3, Below(p3)} {
      assert p3.2 == 1;
    } else if p == {p1, p2} {
      assert Flat(p1, p2, 1);
    } else {
      assert Flat(p2, p3, 1);
    }
  }

  lemma {:induction false} LinesShape(v: View, ls: seq<Line>, p: set<Coord3>)
    requires Readable(v) && p in LinesLinks(v, ls)
    ensures LinkShape(p)
    decreases |ls|
  {
    if p in LinesLinks(v, ls[..|ls| - 1]) {
      LinesShape(v, ls[..|ls| - 1], p);
    } else {
      var l := ls[|ls| - 1];
      SegmentLinksExact(v, l, p);
      var t :| Lo(l) <= t < Hi(l) && Hit(v, l, t) && p == Step(l, t);
      StepShape(l, t);
    }
  }

  lemma {:induction false} CrossingsShape(v: View, cs: seq<Cell>, p: set<Coord3>)
    requires Readable(v) && p in CrossingsLinks(v, cs)
    ensures LinkShape(p)
    decreases |cs|
  {
    if p in CrossingsLinks(v, cs[..|cs| - 1]) {
      CrossingsShape(v, cs[..|cs| - 1], p);
    } else {
      CrossingShape(cs[|cs| - 1], GetPos(v, cs[|cs| - 1]), p);
    }
  }

  /** Every link the build makes has one of the three shapes; in
      particular it joins two different coordinates, so link never trips
      its assertion. */
  lemma ExpectedShape(v: View, ls: seq<Line>, p: set<Coord3>)
    requires Readable(v) && NegReady(v) && p in Expected(v, ls)
    ensures LinkShape(p) && |p| == 2
  {
    if p in LinesLinks(v, ls) {
      LinesShape(v, ls, p);
    } else {
      CrossingsShape(v, NegPos(v), p);
    }
    var a, b :| p == {a, b} && (Flat(a, b, 0) || Flat(a, b, 1) || (a.2 == 1 && b == Below(a)));
    assert a != b;
    assert |{a, b}| == 2;
  }

  /** Some stored link has id i at one of its ends. */
  ghost predicate Linked(links: set<(int, int)>, i: int)
  {
    exists e :: e in links && (e.0 == i || e.1 == i)
  }

  // ---------------------------------------------------------------------
  // The build.

  class GenNodeSetAlgo {
    const age: View
    const lineDataList: seq<Line>
    const nodeSet: NodeSet3D
    /** Pass, or the assertion buildNodeSet3D tripped. */
    var status: Outcome

    /** The view can be read and listed, and every node of the node set is
        an end of some link: nodes are only ever added to be linked. */
    ghost predicate Valid()
      reads nodeSet
    {
      && Readable(age) && NegReady(age)
      && nodeSet.Valid()
      && (forall i :: 1 <= i <= nodeSet.nodeCnt ==> Linked(nodeSet.linkSet, i))
    }

    /** The constructor builds the node set right away. */
    constructor(view: View, lines: seq<Line>)
      requires Readable(view) && NegReady(view)
      ensures Valid() && age == view && lineDataList == lines && fresh(nodeSet)
      ensures status == Pass <==> CrossingsOk(view, NegPos(view))
      ensures status == Pass ==> nodeSet.CoordLinks() == Expected(view, lines)
      ensures status.Fail? ==> status.error.AssertionFailed?
    {
      age := view;
      lineDataList := lines;
      nodeSet := new NodeSet3D();
      status := Pass;
      new;
      BuildNodeSet3D();
    }

    /** link: registers both coordinates and links them. */
    method LinkCoords(p1: Coord3, p2: Coord3)
      requires Valid() && p1 != p2
      modifies nodeSet
      ensures Valid() && nodeSet.CoordLinks() == old(nodeSet.CoordLinks()) + {{p1, p2}}
    {
      ghost var n0, links := nodeSet.nodeCnt, nodeSet.linkSet;
      var id1 := nodeSet.AddOrGetNodeId(p1.0, p1.1, p1.2);
      var id2 := nodeSet.AddOrGetNodeId(p2.0, p2.1, p2.2);
      assert nodeSet.idToCoord[id1] == p1 && nodeSet.idToCoord[id2] == p2;
      var o := nodeSet.Link(id1, id2);
      if o.Fail? {
        assert false;
      }
      LinkedAfter(links, nodeSet.linkSet, n0, nodeSet.nodeCnt, id1, id2);
    }

    /** linkDown: links a position to the one below it. */
    method LinkDown(p: Coord3)
      requires Valid()
      modifies nodeSet
      ensures Valid() && nodeSet.CoordLinks() == old(nodeSet.CoordLinks()) + {{p, Below(p)}}
    {
      LinkCoords(p, Below(p));
    }

    /** linkEdge: walks the segment and links each pair of consecutive cells
        that both still read its tag; tags of 0 or less are skipped. */
    method LinkEdge(l: Line)
      requires Valid()
      modifies nodeSet
      ensures Valid() && nodeSet.CoordLinks() == old(nodeSet.CoordLinks()) + SegmentLinks(age, l)
    {
      if l.v <= 0 {
        return;
      }
      if l.xf == l.xt {
        var xpos := l.xf;
        for ypos := Min(l.yf, l.yt) to Max(l.yf, l.yt)
          invariant Valid() && nodeSet.CoordLinks() == old(nodeSet.CoordLinks()) + AlongLinks(age, l, ypos)
        {
          if GetPos(age, (xpos, ypos)) == l.v && GetPos(age, (xpos, ypos + 1)) == l.v {
            LinkCoords((xpos, ypos, 0), (xpos, ypos + 1, 0));
          }
        }
      } else {
        var ypos := l.yf;
        for xpos := Min(l.xf, l.xt) to Max(l.xf, l.xt)
          invariant Valid() && nodeSet.CoordLinks() == old(nodeSet.CoordLinks()) + AlongLinks(age, l, xpos)
        {
          if GetPos(age, (xpos, ypos)) == l.v && GetPos(age, (xpos + 1, ypos)) == l.v {
            LinkCoords((xpos, ypos, 0), (xpos + 1, ypos, 0));
          }
        }
      }
    }

    /** buildNodeSet3D: every segment, then every listed crossing cell; a
        crossing cell holding anything but -1 or -2 trips the assertion and
        ends the build. */
    method BuildNodeSet3D()
      requires Valid() && nodeSet.CoordLinks() == {} && status == Pass
      modifies this, nodeSet
      ensures Valid()
      ensures status == Pass <==> CrossingsOk(age, NegPos(age))
      ensures status == Pass ==> nodeSet.CoordLinks() == Expected(age, lineDataList)
      ensures status.Fail? ==> status.error.AssertionFailed?
    {
      LinkSegments();
      LinkCrossings(NegPos(age));
    }

    /** buildNodeSet3D's first loop: linkEdge on every segment in turn. */
    method LinkSegments()
      requires Valid()
      modifies nodeSet
      ensures Valid() && nodeSet.CoordLinks() == old(nodeSet.CoordLinks()) + LinesLinks(age, lineDataList)
    {
      for i := 0 to |lineDataList|
        invariant Valid()
        invariant nodeSet.CoordLinks() == old(nodeSet.CoordLinks()) + LinesLinks(age, lineDataList[..i])
      {
        assert lineDataList[..i + 1][..i] == lineDataList[..i];
        LinkEdge(lineDataList[i]);
      }
      assert lineDataList[..|lineDataList|] == lineDataList;
    }

    /** buildNodeSet3D's second loop, over the view's list of crossing
        cells: a bridge over every cell, stopping at the first cell that
        holds neither -1 nor -2. */
    method LinkCrossings(cs: seq<Cell>)
      requires Valid() && status == Pass
      modifies this, nodeSet
      ensures Valid()
      ensures status == Pass <==> CrossingsOk(age, cs)
      ensures status == Pass ==> nodeSet.CoordLinks() == old(nodeSet.CoordLinks()) + CrossingsLinks(age, cs)
      ensures status.Fail? ==> status.error.AssertionFailed?
    {
      for k := 0 to |cs|
        invariant Valid() && status == Pass
        invariant CrossingsOk(age, cs[..k])
        invariant nodeSet.CoordLinks() == old(nodeSet.CoordLinks()) + CrossingsLinks(age, cs[..k])
      {
        var val := GetPos(age, cs[k]);
        if val != -1 && val != -2 {
          NotOk(age, cs, k);
          status := Fail(AssertionFailed("GenNodeSetAlgo::buildNodeSet3D"));
          return;
        }
        LinkBridge(cs[k], val);
        CrossingsStep(age, cs, k);
      }
      assert cs[..|cs|] == cs;
    }

    /** The body of buildNodeSet3D's second loop for one crossing cell:
        both bridge ends linked down, then the bridge itself. */
    method LinkBridge(mid: Cell, val: int)
      requires Valid()
      modifies nodeSet
      ensures Valid() && nodeSet.CoordLinks() == old(nodeSet.CoordLinks()) + CrossingLinks(mid, val)
    {
      ghost var before := nodeSet.CoordLinks();
      var (pos1, pos2, pos3) := Bridge(mid, val);
      LinkDown(pos1);
      LinkDown(pos3);
      LinkCoords(pos1, pos2);
      LinkCoords(pos2, pos3);
      BridgeLinks(before, mid, val);
    }

    /** outputGraph: the node set's text. */
    method OutputGraph() returns (out: string)
      requires Valid()
      ensures out == GraphText(nodeSet.nodeCnt, nodeSet.idToCoord, SortedSets.SortedPairs(nodeSet.linkSet))
    {
      out := nodeSet.OutputGraph();
    }
  }

  /** The four links of a crossing, added one by one. */
  lemma BridgeLinks(before: set<set<Coord3>>, mid: Cell, val: int)
    ensures var (p1, p2, p3) := Bridge(mid, val);
            before + {{p1, Below(p1)}} + {{p3, Below(p3)}} + {{p1, p2}} + {{p2, p3}} == before + CrossingLinks(mid, val)
  {
  }

  /** One more crossing cell: its links are added, and it must hold -1 or
      -2. */
  lemma CrossingsStep(v: View, cs: seq<Cell>, k: int)
    requires Readable(v) && 0 <= k < |cs|
    ensures CrossingsLinks(v, cs[..k + 1]) == CrossingsLinks(v, cs[..k]) + CrossingLinks(cs[k], GetPos(v, cs[k]))
    ensures CrossingsOk(v, cs[..k + 1]) <==> CrossingsOk(v, cs[..k]) && (GetPos(v, cs[k]) == -1 || GetPos(v, cs[k]) == -2)
  {
    var pre, next := cs[..k], cs[..k + 1];
    assert next[..k] == pre;
    assert next[k] == cs[k];
    OkSnoc(v, pre, next, cs[k]);
  }

  /** One cell holding neither -1 nor -2 fails the whole list. */
  lemma NotOk(v: View, cs: seq<Cell>, k: int)
    requires Readable(v) && 0 <= k < |cs| && GetPos(v, cs[k]) != -1 && GetPos(v, cs[k]) != -2
    ensures !CrossingsOk(v, cs)
  {
  }

  /** CrossingsOk of a list one cell longer. */
  lemma OkSnoc(v: View, pre: seq<Cell>, next: seq<Cell>, c: Cell)
    requires Readable(v) && next == pre + [c]
    ensures CrossingsOk(v, next) <==> CrossingsOk(v, pre) && (GetPos(v, c) == -1 || GetPos(v, c) == -2)
  {
    assert forall k :: 0 <= k < |pre| ==> next[k] == pre[k];
    assert next[|pre|] == c;
  }

  /** Linking id1 and id2 keeps every old id linked and links both; the
      ids above n0 are new ones among id1 and id2. */
  lemma LinkedAfter(before: set<(int, int)>, after: set<(int, int)>, n0: int, n: int, id1: int, id2: int)
    requires forall i :: 1 <= i <= n0 ==> Linked(before, i)
    requires after == before + {Ordered(id1, id2)}
    requires n0 <= n <= n0 + 2
    requires n >= n0 + 1 ==> id1 == n0 + 1 || id2 == n0 + 1
    requires n == n0 + 2 ==> id1 == n0 + 2 || id2 == n0 + 2
    ensures forall i :: 1 <= i <= n ==> Linked(after, i)
  {
    forall i | 1 <= i <= n
      ensures Linked(after, i)
    {
      if i <= n0 {
        LinkedMono(before, after, i);
      } else {
        assert Ordered(id1, id2) in after;
      }
    }
  }

  /** More links keep an id linked. */
  lemma LinkedMono(before: set<(int, int)>, after: set<(int, int)>, i: int)
    requires before <= after && Linked(before, i)
    ensures Linked(after, i)
  {
  }
}
