// LinkAlgo: wires the plugs of the crossings together.  The spanning tree
// of crossings already joins n - 1 socket ids with straight tree edges;
// every other id is routed, one at a time and smallest first, by a
// shortest-path search on the drawing so far.  Before each search the
// drawing is spread out (coordinates relabelled by rank times 6) so that a
// free corridor exists, and afterwards it is compacted again (rank times 2).

module Linking {
  import opened Wrappers
  import opened Coord2dPosition
  import opened LineData
  import opened SortedSets
  import opened PixelGraph
  import opened Coord2dSets
  import opened VectorGraph
  import opened GraphViews
  import opened SpfaPath
  import opened Sockets

  /** parseArrange spreads by this factor before a route is searched. */
  const SpreadK: int := 6
  /** compactArrange compacts by this factor afterwards. */
  const CompactK: int := 2
  /** How far the search rectangle reaches beyond the drawing. */
  const SearchMargin: int := 5

  /** Every id flagged used lies in 1..2n. */
  ghost predicate UsedInRange(used: map<int, bool>, n: int)
  {
    forall id :: Used(used, id) ==> 1 <= id <= 2 * n
  }

  /** Some id has at least one record. */
  ghost predicate HasPlug(info: map<int, seq<Plug>>)
  {
    exists id :: id in info && info[id] != []
  }

  /** The smallest id of 1..2n whose flag is not set. */
  predicate SmallestUnused(used: map<int, bool>, n: int, id: int)
  {
    && 1 <= id <= 2 * n && !Used(used, id)
    && forall j :: 1 <= j < id ==> Used(used, j)
  }

  predicate LinesIn(ls: seq<Line>, mx: map<int, int>, my: map<int, int>)
  {
    forall i :: 0 <= i < |ls| ==> CoordsIn(ls[i], mx, my)
  }

  // ---------------------------------------------------------------------
  // Counting used ids.

  lemma {:induction false} UsedUpToBound(used: map<int, bool>, m: int)
    requires m >= 0
    ensures UsedUpTo(used, m) <= m
    decreases m
  {
    if m > 0 {
      UsedUpToBound(used, m - 1);
    }
  }

  /** Flagging one more id of 1..m raises the count by exactly one. */
  lemma {:induction false} UsedUpToMark(used: map<int, bool>, m: int, id: int)
    requires 1 <= id <= m && !Used(used, id)
    ensures UsedUpTo(used[id := true], m) == UsedUpTo(used, m) + 1
    decreases m
  {
    if id < m {
      UsedUpToMark(used, m - 1, id);
    } else {
      UsedUpToSame(used, used[id := true], m - 1);
    }
  }

  /** The count only looks at the flags of 1..m. */
  lemma {:induction false} UsedUpToSame(a: map<int, bool>, b: map<int, bool>, m: int)
    requires forall j :: 1 <= j <= m ==> Used(a, j) == Used(b, j)
    ensures UsedUpTo(a, m) == UsedUpTo(b, m)
    decreases m
  {
    if m > 0 {
      UsedUpToSame(a, b, m - 1);
    }
  }

  /** An unused id of 1..m keeps the count below m. */
  lemma {:induction false} UsedUpToMissing(used: map<int, bool>, m: int, j: int)
    requires 1 <= j <= m && !Used(used, j)
    ensures UsedUpTo(used, m) < m
    decreases m
  {
    if j < m {
      UsedUpToMissing(used, m - 1, j);
    } else {
      UsedUpToBound(used, m - 1);
    }
  }

  /** When every used id lies in 1..2n and at least 2n ids are used, all
      of 1..2n are used: the condition buildAll stops on means that every
      socket is wired. */
  lemma FullWhenCounted(used: map<int, bool>, n: int)
    requires UsedInRange(used, n) && |UsedIds(used)| >= 2 * n
    ensures forall id :: 1 <= id <= 2 * n ==> Used(used, id)
  {
    UsedUpToIsCard(used, 2 * n);
    var inRange := set i | 1 <= i <= 2 * n && Used(used, i);
    forall x
      ensures x in UsedIds(used) <==> x in inRange
    {
      assert x in UsedIds(used) <==> Used(used, x);
    }
    assert UsedIds(used) == inRange;
    forall id | 1 <= id <= 2 * n
      ensures Used(used, id)
    {
      if !Used(used, id) {
        UsedUpToMissing(used, 2 * n, id);
      }
    }
  }

  /** Flagging an id of 1..2n keeps every used id in 1..2n. */
  lemma MarkKeepsRange(used: map<int, bool>, n: int, id: int)
    requires UsedInRange(used, n) && 1 <= id <= 2 * n
    ensures UsedInRange(used[id := true], n)
  {
    var marked := used[id := true];
    forall x | Used(marked, x)
      ensures 1 <= x <= 2 * n
    {
      if x != id {
        assert Used(used, x);
      }
    }
  }

  /** The head of getAllUnusedId's list is the smallest unused id. */
  lemma HeadIsSmallestUnused(used: map<int, bool>, n: int, list: seq<int>)
    requires list != [] && StrictlySorted(list)
    requires forall id :: id in list <==> 1 <= id <= 2 * n && !Used(used, id)
    ensures SmallestUnused(used, n, list[0])
  {
    assert list[0] in list;
    assert forall k :: 0 <= k < |list| ==> list[0] <= list[k];
    forall j | 1 <= j < list[0]
      ensures Used(used, j)
    {
      assert j !in list;
    }
  }

  // ---------------------------------------------------------------------
  // A code of one crossing.

  /** With no used id, no tree edge is drawn. */
  lemma {:induction false} NoUsedNoEdges(ids: seq<int>, used: map<int, bool>, info: map<int, seq<Plug>>)
    requires forall id :: !Used(used, id)
    ensures TreeEdgeRaws(ids, used, info) == []
    decreases |ids|
  {
    if ids != [] {
      NoUsedNoEdges(ids[..|ids| - 1], used, info);
    }
  }

  /** A one-crossing code that passes check has no tree edge: its two ids
      are both unused, since a one-node tree has no edge. */
  lemma SingleCrossingHasNoTreeEdge(used: map<int, bool>, info: map<int, seq<Plug>>, ids: seq<int>)
    requires CheckPasses(used, info, 1) && UsedInRange(used, 1)
    ensures forall id :: !Used(used, id)
    ensures TreeEdgeRaws(ids, used, info) == [] && HasPlug(info)
  {
    assert UsedUpTo(used, 2) == UsedUpTo(used, 0) + (if Used(used, 1) then 1 else 0) + (if Used(used, 2) then 1 else 0);
    NoUsedNoEdges(ids, used, info);
    assert |Records(info, 1)| == 2;
  }

  /** Without tree edges the rank maps are empty, so no registry holding a
      record can be relabelled: the first spread pass fails. */
  lemma NoEdgesNoSpread(info: map<int, seq<Plug>>, k: int)
    requires HasPlug(info)
    ensures !InfoIn(info, KRankMap(XCoords([]), k), KRankMap(YCoords([]), k))
  {
    var none: seq<Line> := [];
    var id :| id in info && info[id] != [];
    assert XCoords(none) == {};
    assert info[id][0].x !in KRankMap(XCoords(none), k);
  }

  // ---------------------------------------------------------------------
  // saveOne's search.

  /** The cell one step from a plug's crossing along the plug's heading. */
  function Ahead(p: Plug): Cell
  {
    (p.x + DeltaByDirection(p.d).x, p.y + DeltaByDirection(p.d).y)
  }

  /** The cells saveOne forces open, plug by plug: the crossing's own cell
      and the cell one step along the plug's heading. */
  function OpenedCells(ps: seq<Plug>): set<Cell>
    decreases |ps|
  {
    if ps == [] then {}
    else OpenedCells(ps[..|ps| - 1]) + {(ps[|ps| - 1].x, ps[|ps| - 1].y), Ahead(ps[|ps| - 1])}
  }

  /** A cell is forced open exactly when it is some plug's crossing cell or
      the cell ahead of some plug. */
  lemma {:induction false} OpenedCellsAre(ps: seq<Plug>, c: Cell)
    ensures c in OpenedCells(ps) <==>
      exists j :: 0 <= j < |ps| && (c == (ps[j].x, ps[j].y) || c == Ahead(ps[j]))
    decreases |ps|
  {
    if ps != [] {
      var init := ps[..|ps| - 1];
      OpenedCellsAre(init, c);
      if c in OpenedCells(init) {
        var j :| 0 <= j < |init| && (c == (init[j].x, init[j].y) || c == Ahead(init[j]));
        assert ps[j] == init[j];
      }
      if exists j :: 0 <= j < |ps| && (c == (ps[j].x, ps[j].y) || c == Ahead(ps[j])) {
        var j :| 0 <= j < |ps| && (c == (ps[j].x, ps[j].y) || c == Ahead(ps[j]));
        if j < |ps| - 1 {
          assert ps[j] == init[j];
        }
      }
    }
  }

  /** The view saveOne searches: crossings spread to their four
      neighbours, laid over the wires, with the plugs' cells forced open. */
  function RouteView(cross: map<Cell, int>, edges: map<Cell, int>, ps: seq<Plug>): View
  {
    ErasePoint(Merge(Span(Pixels(cross)), Pixels(edges)), OpenedCells(ps))
  }

  /** The search rectangle: the view's box widened on every side. */
  ghost function SearchBox(v: View): (b: Box)
    ensures b.xmin == Border(v).xmin - SearchMargin && b.xmax == Border(v).xmax + SearchMargin
    ensures b.ymin == Border(v).ymin - SearchMargin && b.ymax == Border(v).ymax + SearchMargin
  {
    var r := Border(v);
    Box(r.xmin - SearchMargin, r.xmax + SearchMargin, r.ymin - SearchMargin, r.ymax + SearchMargin)
  }

  /** What saveOne's search returned for the two plugs `ps` of an id:
      a cheapest route between the two crossing cells in the route view,
      inside the search rectangle. */
  ghost predicate Routed(cross: map<Cell, int>, edges: map<Cell, int>, ps: seq<Plug>,
                         cost: nat, path: seq<Line>, route: seq<State>)
    requires |ps| == 2
  {
    var v := RouteView(cross, edges, ps);
    var b := SearchBox(v);
    && ((ps[0].x == ps[1].x && ps[0].y == ps[1].y) || (Readable(v) && b.xmin <= b.xmax && b.ymin <= b.ymax))
    && RouteSpec(v, b.xmin, b.xmax, b.ymin, b.ymax, ps[0].x, ps[0].y, ps[1].x, ps[1].y, cost, path, route)
  }

  /** A search over the plugs' view and its widened box is what Routed
      asks of saveOne's search. */
  lemma RoutedIntro(cross: map<Cell, int>, edges: map<Cell, int>, ps: seq<Plug>, view: View,
                    xmin: int, xmax: int, ymin: int, ymax: int,
                    cost: nat, path: seq<Line>, route: seq<State>)
    requires |ps| == 2 && view == RouteView(cross, edges, ps)
    requires SearchBox(view) == Box(xmin, xmax, ymin, ymax)
    requires (ps[0].x == ps[1].x && ps[0].y == ps[1].y) || (Readable(view) && xmin <= xmax && ymin <= ymax)
    requires RouteSpec(view, xmin, xmax, ymin, ymax, ps[0].x, ps[0].y, ps[1].x, ps[1].y, cost, path, route)
    ensures Routed(cross, edges, ps, cost, path, route)
  {
  }

  /** The route's segments, each tagged with the socket id (setV). */
  function Retag(ls: seq<Line>, id: int): (r: seq<Line>)
    ensures |r| == |ls|
    ensures forall i :: 0 <= i < |ls| ==> r[i] == RawLine(ls[i].xf, ls[i].xt, ls[i].yf, ls[i].yt, id)
  {
    seq(|ls|, i requires 0 <= i < |ls| => SetV(ls[i], id))
  }

  /** Tagging a route with an id moves none of its cells. */
  lemma {:induction false} RetagCells(ls: seq<Line>, id: int)
    ensures LinesCells(Retag(ls, id)) == LinesCells(ls)
  {
    if ls != [] {
      var init := ls[..|ls| - 1];
      assert Retag(ls, id)[..|ls| - 1] == Retag(init, id);
      RetagCells(init, id);
      assert SegmentCells(Retag(ls, id)[|ls| - 1]) == SegmentCells(ls[|ls| - 1]);
    }
  }

  /** Writes a route into a grid, every segment tagged with the id. */
  method PaintRoute(vge: VectorGraphEngine, path: seq<Line>, id: int)
    requires vge.Valid()
    modifies vge, vge.pge
    ensures vge.Valid()
    ensures vge.lineDataSet == old(vge.lineDataSet) + Retag(path, id)
  {
    for i := 0 to |path|
      invariant vge.Valid()
      invariant vge.lineDataSet == old(vge.lineDataSet) + Retag(path[..i], id)
    {
      assert Retag(path[..i + 1], id) == Retag(path[..i], id) + [SetV(path[i], id)];
      vge.SetLine(SetV(path[i], id));
    }
    assert path[..|path|] == path;
  }

  /** The first half of saveOne's search: wrap the merged grids and force
      every plug's crossing cell and the cell ahead of it open. */
  method ForceOpen(cross: map<Cell, int>, edges: map<Cell, int>, ps: seq<Plug>) returns (view: View)
    ensures view == RouteView(cross, edges, ps)
  {
    var epgew := new ErasePointWrap(Merge(Span(Pixels(cross)), Pixels(edges)));
    for j := 0 to |ps|
      invariant epgew.base == Merge(Span(Pixels(cross)), Pixels(edges))
      invariant epgew.forceEmptyPos == OpenedCells(ps[..j])
    {
      assert ps[..j + 1][..j] == ps[..j];
      var delta := DeltaByDirection(ps[j].d);
      epgew.AddEmptyPos(ps[j].x, ps[j].y);
      epgew.AddEmptyPos(ps[j].x + delta.x, ps[j].y + delta.y);
    }
    assert ps[..|ps|] == ps;
    view := epgew.AsView();
  }

  /** The search of saveOne on the current grids: force the plugs' cells
      open, widen the box, run the shortest-path search.  Fails where the
      source asserts: a search the Margin or ErasePoint wrapper refuses, or
      no route at all (the diagram is not planar). */
  method SearchRoute(cross: map<Cell, int>, edges: map<Cell, int>, ps: seq<Plug>)
    returns (o: Outcome, lines: seq<Line>, ghost cost: nat, ghost route: seq<State>)
    requires |ps| == 2
    ensures o.Pass? ==> lines != [] && Routed(cross, edges, ps, cost, lines, route)
    ensures o.Fail? ==> o.error.AssertionFailed?
  {
    cost, lines, route := 0, [], [];
    var view := ForceOpen(cross, edges, ps);
    var x1, y1, x2, y2 := ps[0].x, ps[0].y, ps[1].x, ps[1].y;
    var b := GetBorderCoord(view);
    var xmin, xmax := b.xmin - SearchMargin, b.xmax + SearchMargin;
    var ymin, ymax := b.ymin - SearchMargin, b.ymax + SearchMargin;
    if !(x1 == x2 && y1 == y2) && !(Readable(view) && xmin <= xmax && ymin <= ymax) {
      return Fail(AssertionFailed("LinkAlgo::saveOne: search refused by the wrappers")), lines, cost, route;
    }
    var c;
    c, lines, route := FreshSearch(view, xmin, xmax, ymin, ymax, x1, y1, x2, y2);
    cost := c;
    RoutedIntro(cross, edges, ps, view, xmin, xmax, ymin, ymax, cost, lines, route);
    if |lines| == 0 {
      return Fail(AssertionFailed("LinkAlgo::saveOne: no route, the diagram is not planar")), lines, cost, route;
    }
    o := Pass;
  }

  /** One search on a newly built engine, as saveOne runs it. */
  method FreshSearch(view: View, xmin: int, xmax: int, ymin: int, ymax: int,
                     xf: int, yf: int, xt: int, yt: int)
    returns (cost: nat, lines: seq<Line>, ghost route: seq<State>)
    requires (xf == xt && yf == yt) || (Readable(view) && xmin <= xmax && ymin <= ymax)
    ensures RouteSpec(view, xmin, xmax, ymin, ymax, xf, yf, xt, yt, cost, lines, route)
  {
    var engine := new SpfaPathEngine();
    cost, lines, route := engine.RunAlgo(view, xmin, xmax, ymin, ymax, xf, yf, xt, yt);
  }

  class LinkAlgo {
    const socketInfo: SocketInfo
    const treeEdgeVGE: VectorGraphEngine
    const crossingVGE: VectorGraphEngine
    const crossingCnt: int

    ghost function Parts(): set<object>
    {
      {socketInfo, treeEdgeVGE, treeEdgeVGE.pge, crossingVGE, crossingVGE.pge}
    }

    /** Two independent grids, each equal to its segment list painted. */
    ghost predicate Ready()
      reads Parts()
    {
      && treeEdgeVGE != crossingVGE && treeEdgeVGE.pge != crossingVGE.pge
      && treeEdgeVGE.Valid() && crossingVGE.Valid()
    }

    ghost predicate Valid()
      reads Parts()
    {
      Ready() && socketInfo.checked
    }

    /** The member initialisers: a copy of the registry and two empty
        grids; the constructor body is Build. */
    constructor(crossingCnt: int, si: SocketInfo)
      ensures this.crossingCnt == crossingCnt && Ready()
      ensures fresh(socketInfo) && fresh(treeEdgeVGE) && fresh(treeEdgeVGE.pge)
      ensures fresh(crossingVGE) && fresh(crossingVGE.pge)
      ensures socketInfo.socketUsed == si.socketUsed && socketInfo.socketInfo == si.socketInfo
      ensures socketInfo.checked == si.checked
      ensures treeEdgeVGE.lineDataSet == [] && crossingVGE.lineDataSet == []
    {
      this.crossingCnt := crossingCnt;
      socketInfo := new SocketInfo.Copy(si);
      treeEdgeVGE := new VectorGraphEngine();
      crossingVGE := new VectorGraphEngine();
    }

    /** rawParsify(k): the scaled-rank maps of the tree-edge grid's own
        coordinates relabel the registry, the tree edges and the crossing
        markers alike.  Fails (an assertion in commitCoordMap) when a
        record or a marker has a coordinate no tree edge has. */
    method RawParsify(k: int) returns (o: Outcome)
      requires Valid() && k >= 1
      modifies Parts()
      ensures socketInfo.socketUsed == old(socketInfo.socketUsed)
      ensures var mx := KRankMap(XCoords(old(treeEdgeVGE.lineDataSet)), k);
              var my := KRankMap(YCoords(old(treeEdgeVGE.lineDataSet)), k);
              && (o.Pass? <==> (InfoIn(old(socketInfo.socketInfo), mx, my)
                                && LinesIn(old(crossingVGE.lineDataSet), mx, my)))
              && (o.Pass? ==> && Valid() && LinesIn(old(treeEdgeVGE.lineDataSet), mx, my)
                              && socketInfo.socketInfo == MapInfo(old(socketInfo.socketInfo), mx, my)
                              && treeEdgeVGE.lineDataSet == MapLines(old(treeEdgeVGE.lineDataSet), mx, my)
                              && crossingVGE.lineDataSet == MapLines(old(crossingVGE.lineDataSet), mx, my))
      ensures o.Fail? ==> o.error.AssertionFailed?
    {
      var mapX, mapY := treeEdgeVGE.ParsifyDryRun(k);
      o := socketInfo.CommitCoordMap(mapX, mapY);
      if o.Fail? {
        return;
      }
      DryRunCoversEnds(treeEdgeVGE.lineDataSet, k);
      var t := treeEdgeVGE.CommitCoordMap(mapX, mapY);
      if t.Fail? {
        assert false;
      }
      o := crossingVGE.CommitCoordMap(mapX, mapY);
    }

    /** saveOne: routes the smallest unused id between its two plugs and
        writes the route into the tree-edge grid, tagged with the id, then
        flags the id used.  Fails where the source asserts: the id without
        two records, or a failed search. */
    method SaveOne(unusedList: seq<int>) returns (o: Outcome, ghost cost: nat, ghost path: seq<Line>, ghost route: seq<State>)
      requires Valid() && unusedList != []
      modifies Parts()
      ensures o.Pass? ==> Valid()
      ensures o.Pass? ==>
        var id := unusedList[0];
        var ps := Records(old(socketInfo.socketInfo), id);
        && |ps| == 2 && path != []
        && Routed(old(crossingVGE.pge.pixelValue), old(treeEdgeVGE.pge.pixelValue), ps, cost, path, route)
        && treeEdgeVGE.lineDataSet == old(treeEdgeVGE.lineDataSet) + Retag(path, id)
        && LinesCells(Retag(path, id)) == LinesCells(path)
        && socketInfo.socketUsed == old(socketInfo.socketUsed)[id := true]
        && socketInfo.socketInfo == old(socketInfo.socketInfo)
        && crossingVGE.lineDataSet == old(crossingVGE.lineDataSet)
      ensures o.Fail? ==> o.error.AssertionFailed?
    {
      cost, path, route := 0, [], [];
      var id := unusedList[0];
      var info := socketInfo.GetInfo(id);
      if info.Err? {
        return Fail(info.error), cost, path, route;
      }
      var lines;
      o, lines, cost, route := SearchRoute(crossingVGE.pge.pixelValue, treeEdgeVGE.pge.pixelValue, info.value);
      path := lines;
      if o.Fail? {
        return;
      }
      PaintRoute(treeEdgeVGE, lines, id);
      RetagCells(lines, id);
      socketInfo.SetUsed(id, true);
    }

    /** buildOne: spread, route the smallest unused id, compact.  On
        success exactly that id has become used. */
    method BuildOne() returns (o: Outcome, ghost id: int)
      requires Valid()
      modifies Parts()
      ensures o.Pass? ==> Valid()
      ensures o.Pass? ==> SmallestUnused(old(socketInfo.socketUsed), crossingCnt, id)
                          && socketInfo.socketUsed == old(socketInfo.socketUsed)[id := true]
      ensures old(treeEdgeVGE.lineDataSet) == [] && HasPlug(old(socketInfo.socketInfo)) ==> o.Fail?
      ensures o.Fail? ==> o.error.AssertionFailed?
    {
      id := 0;
      var list := socketInfo.GetAllUnusedId(crossingCnt);
      if list == [] {
        return Fail(AssertionFailed("LinkAlgo::buildOne: no unused socket")), id;
      }
      HeadIsSmallestUnused(socketInfo.socketUsed, crossingCnt, list);
      id := list[0];
      if treeEdgeVGE.lineDataSet == [] && HasPlug(socketInfo.socketInfo) {
        NoEdgesNoSpread(socketInfo.socketInfo, SpreadK);
      }
      o := RawParsify(SpreadK);
      if o.Fail? {
        return;
      }
      ghost var c, p, r;
      o, c, p, r := SaveOne(list);
      if o.Fail? {
        return;
      }
      o := RawParsify(CompactK);
    }

    /** buildAll: buildOne until 2n ids are used.  Each round flags one more
        id of 1..2n, so the loop ends; when every used id lies in 1..2n,
        success means every socket is wired.  With no tree edge and some
        record, the first round already fails. */
    method BuildAll() returns (o: Outcome)
      requires Valid()
      modifies Parts()
      ensures o.Pass? ==> Valid() && |UsedIds(socketInfo.socketUsed)| >= 2 * crossingCnt
      ensures o.Pass? ==> UsedIds(old(socketInfo.socketUsed)) <= UsedIds(socketInfo.socketUsed)
      ensures o.Pass? && UsedInRange(old(socketInfo.socketUsed), crossingCnt) ==>
                (forall id :: 1 <= id <= 2 * crossingCnt ==> Used(socketInfo.socketUsed, id))
      ensures (&& old(treeEdgeVGE.lineDataSet) == [] && HasPlug(old(socketInfo.socketInfo))
               && |UsedIds(old(socketInfo.socketUsed))| < 2 * crossingCnt) ==> o.Fail?
      ensures o.Fail? ==> o.error.AssertionFailed?
    {
      ghost var starved := && treeEdgeVGE.lineDataSet == [] && HasPlug(socketInfo.socketInfo)
                           && |UsedIds(socketInfo.socketUsed)| < 2 * crossingCnt;
      var cnt := socketInfo.GetUsedCnt();
      while cnt < 2 * crossingCnt
        invariant Valid()
        invariant cnt == |UsedIds(socketInfo.socketUsed)|
        invariant UsedIds(old(socketInfo.socketUsed)) <= UsedIds(socketInfo.socketUsed)
        invariant UsedInRange(old(socketInfo.socketUsed), crossingCnt) ==> UsedInRange(socketInfo.socketUsed, crossingCnt)
        invariant starved ==> && treeEdgeVGE.lineDataSet == old(treeEdgeVGE.lineDataSet)
                              && socketInfo.socketInfo == old(socketInfo.socketInfo)
                              && socketInfo.socketUsed == old(socketInfo.socketUsed)
        decreases 2 * crossingCnt - UsedUpTo(socketInfo.socketUsed, 2 * crossingCnt)
      {
        UsedUpToBound(socketInfo.socketUsed, 2 * crossingCnt);
        ghost var used0 := socketInfo.socketUsed;
        ghost var id;
        o, id := BuildOne();
        if o.Fail? {
          return;
        }
        UsedUpToMark(used0, 2 * crossingCnt, id);
        if UsedInRange(old(socketInfo.socketUsed), crossingCnt) {
          MarkKeepsRange(used0, crossingCnt, id);
        }
        cnt := socketInfo.GetUsedCnt();
      }
      if UsedInRange(old(socketInfo.socketUsed), crossingCnt) {
        FullWhenCounted(socketInfo.socketUsed, crossingCnt);
      }
      o := Pass;
    }

    /** The constructor body: check the registry, draw the tree edges and
        the crossing markers, then wire every remaining socket.  A code of
        one crossing cannot be wired: it has no tree edge to rank
        coordinates by. */
    method Build() returns (o: Outcome)
      requires Ready()
      modifies Parts()
      ensures o.Pass? ==> Valid() && |UsedIds(socketInfo.socketUsed)| >= 2 * crossingCnt
      ensures o.Pass? && UsedInRange(old(socketInfo.socketUsed), crossingCnt) ==>
                (forall id :: 1 <= id <= 2 * crossingCnt ==> Used(socketInfo.socketUsed, id))
      ensures (!old(socketInfo.checked) && crossingCnt == 1 && UsedInRange(old(socketInfo.socketUsed), 1)) ==> o.Fail?
      ensures o.Fail? ==> o.error.AssertionFailed?
    {
      ghost var used0, info0 := socketInfo.socketUsed, socketInfo.socketInfo;
      o := socketInfo.Check(crossingCnt);
      if o.Fail? {
        return;
      }
      // getTreeEdgeVGE indexes the first two records of every used id
      // unchecked; with fewer the source reads out of range, which is
      // undefined behaviour.  The model stops here with a failure instead.
      if !(forall id | id in socketInfo.socketUsed :: socketInfo.socketUsed[id] ==> |Records(socketInfo.socketInfo, id)| >= 2) {
        return Fail(AssertionFailed("SocketInfo::getTreeEdgeVGE: used id without two records"));
      }
      var tree, t := socketInfo.GetTreeEdgeVGE();
      if t.Fail? {
        return t;
      }
      var crossing := socketInfo.GetCrossingVGE();
      treeEdgeVGE.CopyFrom(tree);
      crossingVGE.CopyFrom(crossing);
      if !old(socketInfo.checked) && crossingCnt == 1 && UsedInRange(used0, 1) {
        SingleCrossingHasNoTreeEdge(used0, info0, SortedInts(used0.Keys));
        forall x | x in UsedIds(used0)
          ensures false
        {
          assert Used(used0, x);
        }
        assert UsedIds(used0) == {};
      }
      o := BuildAll();
    }

    /** getFinalGraph: the crossing markers laid over the wires; a marker
        hides the wire beneath it. */
    function GetFinalGraph(): (v: View)
      reads crossingVGE.pge, treeEdgeVGE.pge
      ensures Readable(v)
      ensures forall c :: Get(crossingVGE.pge.pixelValue, c) != 0 ==> GetPos(v, c) == Get(crossingVGE.pge.pixelValue, c)
      ensures forall c :: Get(crossingVGE.pge.pixelValue, c) == 0 ==> GetPos(v, c) == Get(treeEdgeVGE.pge.pixelValue, c)
    {
      Merge(Pixels(crossingVGE.pge.pixelValue), Pixels(treeEdgeVGE.pge.pixelValue))
    }

    /** getAllEdges: the tree edges and routes, in the order drawn. */
    function GetAllEdges(): seq<Line>
      reads treeEdgeVGE
    {
      treeEdgeVGE.lineDataSet
    }
  }
}
