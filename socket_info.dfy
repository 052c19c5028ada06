// SocketInfo: the registry of plugs.  Every socket id of the PD code is
// recorded twice, once for each crossing it leaves, with the crossing's
// cell and the heading the plug faces; a socket is "used" once a wire
// (a tree edge or a routed path) joins its two plugs.

module Sockets {
  import opened Wrappers
  import opened Directions
  import opened SortedSets
  import opened LineData
  import opened PixelGraph
  import opened VectorGraph

  /** One record: the crossing's cell and the plug's heading. */
  datatype Plug = Plug(x: int, y: int, d: Direction)

  /** getUsed: an id never set is unused. */
  function Used(used: map<int, bool>, id: int): bool
  {
    id in used && used[id]
  }

  /** The records of an id; an id never recorded has none. */
  function Records(info: map<int, seq<Plug>>, id: int): seq<Plug>
  {
    if id in info then info[id] else []
  }

  /** The ids whose flag is true. */
  function UsedIds(used: map<int, bool>): set<int>
  {
    set id | id in used && used[id]
  }

  /** How many of the ids 1..m are used, counted one id at a time. */
  function UsedUpTo(used: map<int, bool>, m: int): nat
    decreases m
  {
    if m <= 0 then 0 else UsedUpTo(used, m - 1) + (if Used(used, m) then 1 else 0)
  }

  /** The count is the number of used ids in 1..m. */
  lemma {:induction false} UsedUpToIsCard(used: map<int, bool>, m: int)
    ensures UsedUpTo(used, m) == |set i | 1 <= i <= m && Used(used, i)|
    decreases m
  {
    if m <= 0 {
      assert (set i | 1 <= i <= m && Used(used, i)) == {};
    } else {
      UsedUpToIsCard(used, m - 1);
      var below := set i | 1 <= i <= m - 1 && Used(used, i);
      var upTo := set i | 1 <= i <= m && Used(used, i);
      if Used(used, m) {
        assert upTo == below + {m};
      } else {
        assert upTo == below;
      }
    }
  }

  /** What check(n) demands: ids 1..2n each recorded twice, and n - 1 of
      them used (the tree edges of a tree on n crossings). */
  predicate CheckPasses(used: map<int, bool>, info: map<int, seq<Plug>>, n: int)
  {
    (forall i :: 1 <= i <= 2 * n ==> |Records(info, i)| == 2) && UsedUpTo(used, 2 * n) == n - 1
  }

  predicate PlugsIn(ps: seq<Plug>, mx: map<int, int>, my: map<int, int>)
  {
    forall j :: 0 <= j < |ps| ==> ps[j].x in mx && ps[j].y in my
  }

  /** A plug list with its cells relabelled; headings are kept. */
  function MapPlugs(ps: seq<Plug>, mx: map<int, int>, my: map<int, int>): (r: seq<Plug>)
    requires PlugsIn(ps, mx, my)
    ensures |r| == |ps|
    ensures forall j :: 0 <= j < |ps| ==> r[j] == Plug(mx[ps[j].x], my[ps[j].y], ps[j].d)
  {
    seq(|ps|, j requires 0 <= j < |ps| => Plug(mx[ps[j].x], my[ps[j].y], ps[j].d))
  }

  predicate InfoIn(info: map<int, seq<Plug>>, mx: map<int, int>, my: map<int, int>)
  {
    forall id :: id in info ==> PlugsIn(info[id], mx, my)
  }

  /** The registry commitCoordMap builds: every record relabelled, in
      order; an id with an empty list gets no entry, as no addInfo call
      creates it. */
  function MapInfo(info: map<int, seq<Plug>>, mx: map<int, int>, my: map<int, int>): map<int, seq<Plug>>
    requires InfoIn(info, mx, my)
  {
    map id | id in info && info[id] != [] :: MapPlugs(info[id], mx, my)
  }

  /** Relabelling keeps, for every id, the number of records, their order
      and their headings; only the cells move. */
  lemma MapInfoRecords(info: map<int, seq<Plug>>, mx: map<int, int>, my: map<int, int>, id: int)
    requires InfoIn(info, mx, my)
    ensures PlugsIn(Records(info, id), mx, my)
    ensures Records(MapInfo(info, mx, my), id) == MapPlugs(Records(info, id), mx, my)
  {
  }

  /** What LineData's constructor accepts. */
  predicate AxisParallel(l: RawLine)
  {
    l.xf == l.xt || l.yf == l.yt
  }

  /** The tree edges getTreeEdgeVGE draws for the ids in `ids`, in order:
      for each used id, the segment between its two records, tagged with
      the id. */
  function TreeEdgeRaws(ids: seq<int>, used: map<int, bool>, info: map<int, seq<Plug>>): (r: seq<RawLine>)
    requires forall i :: 0 <= i < |ids| && Used(used, ids[i]) ==> |Records(info, ids[i])| >= 2
    decreases |ids|
  {
    if ids == [] then []
    else
      var id := ids[|ids| - 1];
      TreeEdgeRaws(ids[..|ids| - 1], used, info)
      + if Used(used, id) then
          var ps := Records(info, id);
          [RawLine(ps[0].x, ps[1].x, ps[0].y, ps[1].y, id)]
        else []
  }

  /** An edge joins the two records of a used id and is tagged with it. */
  predicate EdgeOf(e: RawLine, used: map<int, bool>, info: map<int, seq<Plug>>)
  {
    var ps := Records(info, e.v);
    Used(used, e.v) && |ps| >= 2
    && e.xf == ps[0].x && e.yf == ps[0].y && e.xt == ps[1].x && e.yt == ps[1].y
  }

  /** Each drawn edge belongs to an id of `ids`, and the tags ascend. */
  predicate EdgesTagged(ids: seq<int>, used: map<int, bool>, info: map<int, seq<Plug>>, r: seq<RawLine>)
  {
    && (forall k :: 0 <= k < |r| ==> r[k].v in ids && EdgeOf(r[k], used, info))
    && (forall k, l :: 0 <= k < l < |r| ==> r[k].v < r[l].v)
  }

  /** Every used id of `ids` has an edge. */
  predicate EdgesCover(ids: seq<int>, used: map<int, bool>, r: seq<RawLine>)
  {
    forall id :: id in ids && Used(used, id) ==> exists k :: 0 <= k < |r| && r[k].v == id
  }

  /** The last edge drawn for a non-empty list. */
  lemma TreeEdgeRawsLast(ids: seq<int>, used: map<int, bool>, info: map<int, seq<Plug>>)
    requires forall i :: 0 <= i < |ids| && Used(used, ids[i]) ==> |Records(info, ids[i])| >= 2
    requires ids != []
    ensures var init, id := ids[..|ids| - 1], ids[|ids| - 1];
      var a, r := TreeEdgeRaws(init, used, info), TreeEdgeRaws(ids, used, info);
      && |a| <= |r| <= |a| + 1 && r[..|a|] == a
      && (Used(used, id) <==> |r| == |a| + 1)
      && (Used(used, id) ==> r[|a|].v == id && EdgeOf(r[|a|], used, info))
  {
  }

  /** The edges getTreeEdgeVGE draws are those of used ids of the list, in
      ascending order of ids. */
  lemma {:induction false} TreeEdgesTagged(ids: seq<int>, used: map<int, bool>, info: map<int, seq<Plug>>)
    requires forall i :: 0 <= i < |ids| && Used(used, ids[i]) ==> |Records(info, ids[i])| >= 2
    requires StrictlySorted(ids)
    ensures EdgesTagged(ids, used, info, TreeEdgeRaws(ids, used, info))
    decreases |ids|
  {
    if ids != [] {
      var init, id := ids[..|ids| - 1], ids[|ids| - 1];
      TreeEdgesTagged(init, used, info);
      TreeEdgeRawsLast(ids, used, info);
      var a := TreeEdgeRaws(init, used, info);
      var r := TreeEdgeRaws(ids, used, info);
      forall k | 0 <= k < |a| ensures a[k].v in ids && a[k].v < id {
        assert a[k].v in init;
        var j :| 0 <= j < |init| && init[j] == a[k].v;
        assert ids[j] == init[j];
      }
      forall k | 0 <= k < |r| ensures r[k].v in ids && EdgeOf(r[k], used, info) {
        if k < |a| {
          assert r[k] == a[k];
        }
      }
    }
  }

  /** Every used id of the list gets an edge. */
  lemma {:induction false} TreeEdgesCover(ids: seq<int>, used: map<int, bool>, info: map<int, seq<Plug>>)
    requires forall i :: 0 <= i < |ids| && Used(used, ids[i]) ==> |Records(info, ids[i])| >= 2
    ensures EdgesCover(ids, used, TreeEdgeRaws(ids, used, info))
    decreases |ids|
  {
    if ids != [] {
      var init, id := ids[..|ids| - 1], ids[|ids| - 1];
      TreeEdgesCover(init, used, info);
      TreeEdgeRawsLast(ids, used, info);
      var a := TreeEdgeRaws(init, used, info);
      var r := TreeEdgeRaws(ids, used, info);
      forall x | x in ids && Used(used, x) ensures exists k :: 0 <= k < |r| && r[k].v == x {
        var j :| 0 <= j < |ids| && ids[j] == x;
        if j < |ids| - 1 {
          assert init[j] == x;
          var k :| 0 <= k < |a| && a[k].v == x;
          assert r[k] == a[k];
        } else {
          assert r[|a|].v == x;
        }
      }
    }
  }

  /** The grid of getTreeEdgeVGE: exactly one edge per used id, joining
      its two records, tagged with the id, in ascending order of ids. */
  lemma TreeEdgeGrid(used: map<int, bool>, info: map<int, seq<Plug>>)
    requires forall id :: Used(used, id) ==> |Records(info, id)| >= 2
    ensures var r := TreeEdgeRaws(SortedInts(used.Keys), used, info);
      && (forall k :: 0 <= k < |r| ==> EdgeOf(r[k], used, info))
      && (forall id :: Used(used, id) <==> exists k :: 0 <= k < |r| && r[k].v == id)
      && (forall k, l :: 0 <= k < l < |r| ==> r[k].v < r[l].v)
  {
    var ids := SortedInts(used.Keys);
    SortedIntsSpec(used.Keys);
    TreeEdgesTagged(ids, used, info);
    TreeEdgesCover(ids, used, info);
    var r := TreeEdgeRaws(ids, used, info);
    forall id | Used(used, id) ensures exists k :: 0 <= k < |r| && r[k].v == id {
      assert id in Elems(ids);
    }
  }

  /** One -2 marker per cell, in the given order (setPos of each cell). */
  function Markers(cells: seq<Cell>): (r: seq<Line>)
    ensures |r| == |cells|
    ensures forall k :: 0 <= k < |cells| ==> r[k] == RawLine(cells[k].0, cells[k].0, cells[k].1, cells[k].1, -2)
  {
    seq(|cells|, k requires 0 <= k < |cells| => RawLine(cells[k].0, cells[k].0, cells[k].1, cells[k].1, -2))
  }

  /** Painting the markers: exactly the listed cells read -2, all others
      stay air. */
  lemma {:induction false} MarkersPaint(cells: seq<Cell>, c: Cell)
    ensures Get(PaintAll(map[], Markers(cells)), c) == if c in Elems(cells) then -2 else 0
    decreases |cells|
  {
    if cells != [] {
      var init, last := cells[..|cells| - 1], cells[|cells| - 1];
      MarkersPaint(init, c);
      var l: Line := RawLine(last.0, last.0, last.1, last.1, -2);
      assert Markers(cells) == Markers(init) + [l];
      PaintAllAppend(map[], Markers(init), l);
      PaintGet(PaintAll(map[], Markers(init)), l, c);
      SegmentCellsLaws(l);
      assert cells == init + [last];
      ElemsSnoc(init, last);
    }
  }

  /** The cells of all records. */
  function RecordCells(info: map<int, seq<Plug>>): set<Cell>
  {
    set id, j | id in info && 0 <= j < |info[id]| :: (info[id][j].x, info[id][j].y)
  }

  /** The pairs of a set in lexicographic order, as iterating a
      std::set of (x, y) tuples yields them. */
  method SortedCellsOf(s: set<Cell>) returns (ans: seq<Cell>)
    ensures ans == SortedPairs(s)
  {
    ans := [];
    var rest := s;
    while rest != {}
      invariant ans + SortedPairs(rest) == SortedPairs(s)
      decreases rest
    {
      var item := LexMinOf(rest);
      ans := ans + [item];
      rest := rest - {item};
    }
  }

  /** The cells of one id's records, added to a set. */
  method AddCells(acc: set<Cell>, ps: seq<Plug>) returns (r: set<Cell>)
    ensures r == acc + set j | 0 <= j < |ps| :: (ps[j].x, ps[j].y)
  {
    r := acc;
    for j := 0 to |ps|
      invariant r == acc + set k | 0 <= k < j :: (ps[k].x, ps[k].y)
    {
      r := r + {(ps[j].x, ps[j].y)};
    }
  }

  /** One id's records relabelled, or None as soon as a cell has no image
      (the assertions of commitCoordMap). */
  method MapPlugList(ps: seq<Plug>, mx: map<int, int>, my: map<int, int>) returns (r: Option<seq<Plug>>)
    ensures r.Some? <==> PlugsIn(ps, mx, my)
    ensures r.Some? ==> r.value == MapPlugs(ps, mx, my)
  {
    var mapped: seq<Plug> := [];
    for j := 0 to |ps|
      invariant PlugsIn(ps[..j], mx, my)
      invariant mapped == MapPlugs(ps[..j], mx, my)
    {
      var p := ps[j];
      if p.x !in mx || p.y !in my {
        return None;
      }
      mapped := mapped + [Plug(mx[p.x], my[p.y], p.d)];
    }
    assert ps[..|ps|] == ps;
    return Some(mapped);
  }

  class SocketInfo {
    var socketUsed: map<int, bool>
    var socketInfo: map<int, seq<Plug>>
    var checked: bool

    constructor()
      ensures socketUsed == map[] && socketInfo == map[] && !checked
    {
      socketUsed := map[];
      socketInfo := map[];
      checked := false;
    }

    /** The implicit copy constructor: an independent registry with the
        same flags, records and checked mark. */
    constructor Copy(other: SocketInfo)
      ensures socketUsed == other.socketUsed && socketInfo == other.socketInfo && checked == other.checked
    {
      socketUsed := other.socketUsed;
      socketInfo := other.socketInfo;
      checked := other.checked;
    }

    /** getUsedCnt: the number of ids flagged used. */
    method GetUsedCnt() returns (cnt: int)
      ensures cnt == |UsedIds(socketUsed)|
    {
      cnt := 0;
      var rest := socketUsed.Keys;
      ghost var counted: set<int> := {};
      while rest != {}
        invariant rest <= socketUsed.Keys
        invariant counted == set id | id in socketUsed.Keys - rest && socketUsed[id]
        invariant cnt == |counted|
        decreases rest
      {
        var id := MinOf(rest);
        if socketUsed[id] {
          assert id !in counted;
          counted := counted + {id};
          cnt := cnt + 1;
        }
        rest := rest - {id};
      }
      assert counted == UsedIds(socketUsed);
    }

    /** getAllUnusedId: the unused ids of 1..2n, ascending. */
    method GetAllUnusedId(crossingCnt: int) returns (ans: seq<int>)
      ensures StrictlySorted(ans)
      ensures forall id :: id in ans <==> 1 <= id <= 2 * crossingCnt && !Used(socketUsed, id)
    {
      ans := [];
      var i := 1;
      while i <= 2 * crossingCnt
        invariant 1 <= i && (crossingCnt >= 0 ==> i <= 2 * crossingCnt + 1) && (crossingCnt < 0 ==> i == 1)
        invariant StrictlySorted(ans) && forall k :: 0 <= k < |ans| ==> ans[k] < i
        invariant forall id :: id in ans <==> 1 <= id < i && !Used(socketUsed, id)
        decreases 2 * crossingCnt - i
      {
        if !GetUsed(i) {
          ans := ans + [i];
        }
        i := i + 1;
      }
      assert crossingCnt >= 0 ==> i == 2 * crossingCnt + 1;
    }

    /** setUsed: overwrites one flag. */
    method SetUsed(id: int, newVal: bool)
      modifies this
      ensures GetUsed(id) == newVal
      ensures forall other :: other != id ==> GetUsed(other) == old(GetUsed(other))
      ensures socketUsed == old(socketUsed)[id := newVal]
      ensures socketInfo == old(socketInfo) && checked == old(checked)
    {
      socketUsed := socketUsed[id := newVal];
    }

    /** addInfo: appends a record; refused once the registry is checked. */
    method AddInfo(id: int, x: int, y: int, d: Direction) returns (o: Outcome)
      modifies this
      ensures o.Pass? <==> !old(checked)
      ensures o.Pass? ==> socketInfo == old(socketInfo)[id := Records(old(socketInfo), id) + [Plug(x, y, d)]]
      ensures o.Fail? ==> socketInfo == old(socketInfo) && o.error.AssertionFailed?
      ensures socketUsed == old(socketUsed) && checked == old(checked)
    {
      if checked {
        return Fail(AssertionFailed("SocketInfo::addInfo after check"));
      }
      socketInfo := socketInfo[id := Records(socketInfo, id) + [Plug(x, y, d)]];
      o := Pass;
    }

    function GetUsed(id: int): bool
      reads this
    {
      Used(socketUsed, id)
    }

    /** getInfo: the two records of an id. */
    function GetInfo(id: int): (r: Result<seq<Plug>>)
      reads this
      ensures r.Ok? <==> |Records(socketInfo, id)| == 2
      ensures r.Ok? ==> r.value == Records(socketInfo, id)
    {
      if |Records(socketInfo, id)| == 2 then Ok(Records(socketInfo, id))
      else Err(AssertionFailed("SocketInfo::getInfo: not two records"))
    }

    /** check(n): on an unchecked registry, passes and marks it checked
        exactly when ids 1..2n each have two records and n - 1 of them are
        used; on a checked one it does nothing. */
    method Check(n: int) returns (o: Outcome)
      modifies this
      ensures socketUsed == old(socketUsed) && socketInfo == old(socketInfo)
      ensures old(checked) ==> o.Pass? && checked
      ensures !old(checked) ==> (o.Pass? <==> CheckPasses(socketUsed, socketInfo, n))
      ensures o.Pass? ==> checked
      ensures o.Fail? ==> o.error.AssertionFailed?
    {
      if checked {
        return Pass;
      }
      var usedCnt := 0;
      var i := 1;
      while i <= 2 * n
        invariant 1 <= i && (n >= 0 ==> i <= 2 * n + 1)
        invariant usedCnt == UsedUpTo(socketUsed, i - 1)
        invariant forall k :: 1 <= k < i ==> |Records(socketInfo, k)| == 2
        decreases 2 * n - i
      {
        if GetUsed(i) {
          usedCnt := usedCnt + 1;
        }
        if |Records(socketInfo, i)| != 2 {
          return Fail(AssertionFailed("SocketInfo::check: id without two records"));
        }
        i := i + 1;
      }
      assert n < 0 ==> UsedUpTo(socketUsed, 2 * n) == 0;
      assert n >= 0 ==> i == 2 * n + 1;
      if usedCnt != n - 1 {
        return Fail(AssertionFailed("SocketInfo::check: used count is not n - 1"));
      }
      checked := true;
      o := Pass;
    }

    /** commitCoordMap: relabels every record's cell through the two maps;
        fails, changing nothing, when a cell has no image. */
    method CommitCoordMap(mapX: map<int, int>, mapY: map<int, int>) returns (o: Outcome)
      requires checked
      modifies this
      ensures o.Pass? <==> InfoIn(old(socketInfo), mapX, mapY)
      ensures o.Pass? ==> socketInfo == MapInfo(old(socketInfo), mapX, mapY)
      ensures o.Fail? ==> socketInfo == old(socketInfo) && o.error.AssertionFailed?
      ensures socketUsed == old(socketUsed) && checked
    {
      var newInfo: map<int, seq<Plug>> := map[];
      var rest := socketInfo.Keys;
      while rest != {}
        invariant socketInfo == old(socketInfo) && socketUsed == old(socketUsed) && checked
        invariant rest <= socketInfo.Keys
        invariant forall id :: id in socketInfo.Keys - rest ==> PlugsIn(socketInfo[id], mapX, mapY)
        invariant forall id :: id in newInfo <==> id in socketInfo.Keys - rest && socketInfo[id] != []
        invariant forall id :: id in newInfo ==> newInfo[id] == MapPlugs(socketInfo[id], mapX, mapY)
        decreases rest
      {
        var id := MinOf(rest);
        var mapped := MapPlugList(socketInfo[id], mapX, mapY);
        if mapped.None? {
          assert !PlugsIn(socketInfo[id], mapX, mapY);
          return Fail(AssertionFailed("SocketInfo::commitCoordMap: coordinate without image"));
        }
        if mapped.value != [] {
          newInfo := newInfo[id := mapped.value];
        }
        rest := rest - {id};
      }
      assert InfoIn(socketInfo, mapX, mapY);
      ghost var mapped := MapInfo(socketInfo, mapX, mapY);
      assert forall id :: id in newInfo <==> id in mapped;
      assert forall id :: id in newInfo ==> newInfo[id] == mapped[id];
      assert newInfo == mapped;
      socketInfo := newInfo;
      o := Pass;
    }

    /** getTreeEdgeVGE: a fresh grid holding, for each used id in
        ascending order, the segment between its two records tagged with
        the id; fails if such a segment is not axis-parallel. */
    method GetTreeEdgeVGE() returns (vge: VectorGraphEngine, o: Outcome)
      requires checked
      requires forall id :: Used(socketUsed, id) ==> |Records(socketInfo, id)| >= 2
      ensures fresh(vge) && fresh(vge.pge) && vge.Valid()
      ensures var raws := TreeEdgeRaws(SortedInts(socketUsed.Keys), socketUsed, socketInfo);
        && (o.Pass? <==> forall k :: 0 <= k < |raws| ==> AxisParallel(raws[k]))
        && (o.Pass? ==> vge.lineDataSet == raws)
      ensures o.Fail? ==> o.error.AssertionFailed?
    {
      vge := new VectorGraphEngine();
      var ids := SetToVecOfIds(socketUsed.Keys);
      ghost var raws := TreeEdgeRaws(ids, socketUsed, socketInfo);
      for i := 0 to |ids|
        invariant fresh(vge) && fresh(vge.pge) && vge.Valid()
        invariant vge.lineDataSet == TreeEdgeRaws(ids[..i], socketUsed, socketInfo)
      {
        assert ids[..i + 1][..i] == ids[..i];
        var id := ids[i];
        if GetUsed(id) {
          var ps := socketInfo[id];
          var ln := NewLine(ps[0].x, ps[1].x, ps[0].y, ps[1].y, id);
          if ln.Err? {
            TreeEdgeRawsPrefix(ids, socketUsed, socketInfo, i);
            return vge, Fail(AssertionFailed("LineData: segment not axis-parallel"));
          }
          vge.SetLine(ln.value);
        }
      }
      assert ids[..|ids|] == ids;
      o := Pass;
    }

    /** getCrossingVGE: a fresh grid with a -2 marker at every distinct
        record cell, set in lexicographic order. */
    method GetCrossingVGE() returns (vge: VectorGraphEngine)
      requires checked
      ensures fresh(vge) && fresh(vge.pge) && vge.Valid()
      ensures vge.lineDataSet == Markers(SortedPairs(RecordCells(socketInfo)))
    {
      var cells: set<Cell> := {};
      var rest := socketInfo.Keys;
      while rest != {}
        invariant socketInfo == old(socketInfo)
        invariant rest <= socketInfo.Keys
        invariant cells == set id, j | id in socketInfo.Keys - rest && 0 <= j < |socketInfo[id]| ::
                             (socketInfo[id][j].x, socketInfo[id][j].y)
        decreases rest
      {
        var id := MinOf(rest);
        cells := AddCells(cells, socketInfo[id]);
        rest := rest - {id};
      }
      assert cells == RecordCells(socketInfo);
      var order := SortedCellsOf(cells);
      vge := new VectorGraphEngine();
      for i := 0 to |order|
        invariant fresh(vge) && fresh(vge.pge) && vge.Valid()
        invariant vge.lineDataSet == Markers(order[..i])
      {
        vge.SetPos(order[i].0, order[i].1, -2);
      }
      assert order[..|order|] == order;
    }
  }

  /** The ascending listing of a set of ids (iterating a std::map's keys). */
  method SetToVecOfIds(s: set<int>) returns (ans: seq<int>)
    ensures ans == SortedInts(s) && StrictlySorted(ans)
  {
    ans := [];
    var rest := s;
    while rest != {}
      invariant ans + SortedInts(rest) == SortedInts(s)
      decreases rest
    {
      var item := MinOf(rest);
      ans := ans + [item];
      rest := rest - {item};
    }
    SortedIntsSpec(s);
  }

  /** A prefix whose last used id gives a slanted segment makes the whole
      list hold that slanted segment. */
  lemma TreeEdgeRawsPrefix(ids: seq<int>, used: map<int, bool>, info: map<int, seq<Plug>>, i: int)
    requires forall k :: 0 <= k < |ids| && Used(used, ids[k]) ==> |Records(info, ids[k])| >= 2
    requires 0 <= i < |ids| && Used(used, ids[i])
    requires var ps := Records(info, ids[i]); !(ps[0].x == ps[1].x || ps[0].y == ps[1].y)
    ensures exists k :: 0 <= k < |TreeEdgeRaws(ids, used, info)| && !AxisParallel(TreeEdgeRaws(ids, used, info)[k])
  {
    PrefixRaws(ids, used, info, i + 1);
    var a := TreeEdgeRaws(ids[..i + 1], used, info);
    assert ids[..i + 1][..i] == ids[..i];
    assert a[|a| - 1] == TreeEdgeRaws(ids, used, info)[|a| - 1];
  }

  /** The edges of a prefix of the ids are a prefix of the edges. */
  lemma {:induction false} PrefixRaws(ids: seq<int>, used: map<int, bool>, info: map<int, seq<Plug>>, i: int)
    requires forall k :: 0 <= k < |ids| && Used(used, ids[k]) ==> |Records(info, ids[k])| >= 2
    requires 0 <= i <= |ids|
    ensures var a := TreeEdgeRaws(ids[..i], used, info);
            var r := TreeEdgeRaws(ids, used, info);
            |a| <= |r| && a == r[..|a|]
    decreases |ids|
  {
    if i < |ids| {
      var init := ids[..|ids| - 1];
      assert init[..i] == ids[..i];
      PrefixRaws(init, used, info, i);
    } else {
      assert ids[..i] == ids;
    }
  }
}
