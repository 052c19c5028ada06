// NodeSet3D: the 3-D skeleton of a drawn diagram.  Lattice points get ids
// 1, 2, ... in order of first use, the two maps between points and ids stay
// inverse to each other, and each link between two ids is stored once, with
// the smaller id first.

module NodeSets {
  import opened Wrappers
  import opened SortedSets
  import NumInput

  type Coord3 = (int, int, int)

  /** The stored form of a link: the two ids with the smaller first. */
  function Ordered(id1: int, id2: int): (int, int)
  {
    if id1 > id2 then (id2, id1) else (id1, id2)
  }

  /** A link is undirected: both orders store one pair, the smaller id
      first, holding exactly the two ids. */
  lemma OrderedUndirected(a: int, b: int)
    ensures Ordered(a, b) == Ordered(b, a)
    ensures Ordered(a, b).0 <= Ordered(a, b).1
    ensures {Ordered(a, b).0, Ordered(a, b).1} == {a, b}
  {
  }

  // ---------------------------------------------------------------------
  // The text outputGraph writes.

  /** Words written one after another, each after its label. */
  function Concat(parts: seq<(string, string)>): string
    decreases |parts|
  {
    if parts == [] then []
    else Concat(parts[..|parts| - 1]) + parts[|parts| - 1].0 + parts[|parts| - 1].1
  }

  /** Labelled values with each value written by std::to_string. */
  function Rendered(parts: seq<(string, int)>): (r: seq<(string, string)>)
    ensures |r| == |parts|
  {
    seq(|parts|, k requires 0 <= k < |parts| => (parts[k].0, NumInput.IntToString(parts[k].1)))
  }

  /** The values of labelled parts. */
  function Values(parts: seq<(string, int)>): (r: seq<int>)
    ensures |r| == |parts|
  {
    seq(|parts|, k requires 0 <= k < |parts| => parts[k].1)
  }

  /** One "node <id> pos <x> <y> <z>" line per id 1..n, in id order. */
  function NodeParts(n: int, coords: map<int, Coord3>): (r: seq<(string, int)>)
    requires forall i :: 1 <= i <= n ==> i in coords
    ensures |r| == if n <= 0 then 0 else 4 * n
    decreases n
  {
    if n <= 0 then []
    else
      var c := coords[n];
      NodeParts(n - 1, coords) + [("\nnode ", n), (" pos ", c.0), (" ", c.1), (" ", c.2)]
  }

  /** One "link <a> <b>" line per stored pair, in the given order. */
  function LinkParts(links: seq<(int, int)>): (r: seq<(string, int)>)
    ensures |r| == 2 * |links|
    decreases |links|
  {
    if links == [] then []
    else
      var e := links[|links| - 1];
      LinkParts(links[..|links| - 1]) + [("\nlink ", e.0), (" ", e.1)]
  }

  /** Everything outputGraph writes, as labelled values. */
  function GraphParts(n: int, coords: map<int, Coord3>, links: seq<(int, int)>): seq<(string, int)>
    requires forall i :: 1 <= i <= n ==> i in coords
  {
    [("node_cnt ", n), ("\nedge_cnt ", |links|)] + NodeParts(n, coords) + LinkParts(links)
  }

  /** outputGraph's text: the counts, the node lines, the link lines, each
      line ended by a newline, then the blank line std::endl adds. */
  function GraphText(n: int, coords: map<int, Coord3>, links: seq<(int, int)>): string
    requires forall i :: 1 <= i <= n ==> i in coords
  {
    Concat(Rendered(GraphParts(n, coords, links))) + "\n\n"
  }

  /** Labels free of digits, all but the first non-empty. */
  ghost predicate PlainLabels<W>(parts: seq<(string, W)>)
  {
    forall k :: 0 <= k < |parts| ==> NumInput.NoDigits(parts[k].0) && (k > 0 ==> parts[k].0 != [])
  }

  /** The words of labelled parts. */
  function Words(parts: seq<(string, string)>): (r: seq<string>)
    ensures |r| == |parts|
  {
    seq(|parts|, k requires 0 <= k < |parts| => parts[k].1)
  }

  /** The digit runs of digit words between plain labels are the words. */
  lemma {:induction false} RunsConcat(parts: seq<(string, string)>)
    requires PlainLabels(parts)
    requires forall k :: 0 <= k < |parts| ==> parts[k].1 != [] && NumInput.AllDigits(parts[k].1)
    ensures NumInput.Runs(Concat(parts)) == Words(parts)
    decreases |parts|
  {
    if |parts| == 1 {
      RunsOfFirst(parts);
    } else if parts != [] {
      var init := parts[..|parts| - 1];
      assert forall k :: 0 <= k < |init| ==> init[k] == parts[k];
      RunsConcat(init);
      RunsOfLast(parts);
    }
  }

  /** One labelled digit word reads as that word. */
  lemma RunsOfFirst(parts: seq<(string, string)>)
    requires |parts| == 1 && NumInput.NoDigits(parts[0].0)
    requires parts[0].1 != [] && NumInput.AllDigits(parts[0].1)
    ensures NumInput.Runs(Concat(parts)) == Words(parts)
  {
    assert parts[..0] == [];
    assert Concat(parts) == parts[0].0 + parts[0].1;
    NumInput.OneRun(parts[0].1);
    NumInput.RunsNoDigitPrefix(parts[0].0, parts[0].1);
  }

  /** A further digit word after a plain, non-empty label adds one run. */
  lemma RunsOfLast(parts: seq<(string, string)>)
    requires |parts| > 1
    requires NumInput.NoDigits(parts[|parts| - 1].0) && parts[|parts| - 1].0 != []
    requires parts[|parts| - 1].1 != [] && NumInput.AllDigits(parts[|parts| - 1].1)
    requires NumInput.Runs(Concat(parts[..|parts| - 1])) == Words(parts[..|parts| - 1])
    ensures NumInput.Runs(Concat(parts)) == Words(parts)
  {
    var init, last := parts[..|parts| - 1], parts[|parts| - 1];
    assert Words(parts) == Words(init) + [last.1];
    NumInput.OneRun(last.1);
    NumInput.RunsSplit(Concat(init), last.0, last.1);
  }

  /** Non-negative values render as their decimal digits. */
  lemma RenderedWords(parts: seq<(string, int)>)
    requires forall k :: 0 <= k < |parts| ==> parts[k].1 >= 0
    ensures Words(Rendered(parts)) == NumInput.NatRuns(Values(parts))
  {
  }

  /** Labelled values that fit an int read back as the values. */
  lemma ExtractRendered(parts: seq<(string, int)>, tail: string)
    requires PlainLabels(parts) && NumInput.NoDigits(tail)
    requires forall k :: 0 <= k < |parts| ==> 0 <= parts[k].1 <= NumInput.IntMax
    ensures NumInput.Extract(Concat(Rendered(parts)) + tail) == Values(parts)
  {
    var r := Rendered(parts);
    assert PlainLabels(r);
    NumInput.RunsNoDigitSuffix(Concat(r), tail);
    RunsConcat(r);
    RenderedWords(parts);
    NumInput.ParseNatRuns(Values(parts));
  }

  /** Concatenating two lists of parts is writing one after the other. */
  lemma {:induction false} ConcatAppend(a: seq<(string, string)>, b: seq<(string, string)>)
    ensures Concat(a + b) == Concat(a) + Concat(b)
    decreases |b|
  {
    if b == [] {
      assert a + b == a;
    } else {
      var init, last := b[..|b| - 1], b[|b| - 1];
      ConcatAppend(a, init);
      assert (a + b)[..|a + b| - 1] == a + init;
      assert (a + b)[|a + b| - 1] == last;
      assert Concat(a + b) == Concat(a + init) + last.0 + last.1;
      assert Concat(b) == Concat(init) + last.0 + last.1;
      Regroup(Concat(a), Concat(init), last.0, last.1);
    }
  }

  /** Regrouping a concatenation of four parts. */
  lemma Regroup<T>(x: seq<T>, y: seq<T>, z: seq<T>, w: seq<T>)
    ensures (x + y) + z + w == x + (y + z + w)
  {
  }

  /** Plain labels stay plain when a list of non-empty plain labels follows. */
  lemma PlainAppend<W>(a: seq<(string, W)>, b: seq<(string, W)>)
    requires PlainLabels(a)
    requires forall k :: 0 <= k < |b| ==> NumInput.NoDigits(b[k].0) && b[k].0 != []
    ensures PlainLabels(a + b)
  {
    assert forall k :: |a| <= k < |a + b| ==> (a + b)[k] == b[k - |a|];
  }

  /** The node lines hold id i and its coordinates at 4(i-1) .. 4i-1, and
      their labels are plain. */
  lemma {:induction false} NodePartsAt(n: int, coords: map<int, Coord3>)
    requires forall i :: 1 <= i <= n ==> i in coords
    ensures |NodeParts(n, coords)| == if n <= 0 then 0 else 4 * n
    ensures forall i :: 1 <= i <= n ==>
              (NodeParts(n, coords)[4 * i - 4] == ("\nnode ", i) &&
               NodeParts(n, coords)[4 * i - 3] == (" pos ", coords[i].0) &&
               NodeParts(n, coords)[4 * i - 2] == (" ", coords[i].1) &&
               NodeParts(n, coords)[4 * i - 1] == (" ", coords[i].2))
    decreases n
  {
    if n > 0 {
      NodePartsAt(n - 1, coords);
    }
  }

  /** The node lines' labels are plain. */
  lemma {:induction false} NodePartsPlain(n: int, coords: map<int, Coord3>)
    requires forall i :: 1 <= i <= n ==> i in coords
    ensures forall k :: 0 <= k < |NodeParts(n, coords)| ==>
              NumInput.NoDigits(NodeParts(n, coords)[k].0) && NodeParts(n, coords)[k].0 != []
    decreases n
  {
    if n > 0 {
      NodePartsPlain(n - 1, coords);
      assert NumInput.NoDigits("\nnode ") && NumInput.NoDigits(" pos ") && NumInput.NoDigits(" ");
    }
  }

  /** The link lines hold link k at 2k and 2k+1, and their labels are
      plain. */
  lemma {:induction false} LinkPartsAt(links: seq<(int, int)>)
    ensures |LinkParts(links)| == 2 * |links|
    ensures forall k :: 0 <= k < |links| ==>
              LinkParts(links)[2 * k] == ("\nlink ", links[k].0) && LinkParts(links)[2 * k + 1] == (" ", links[k].1)
    ensures forall k :: 0 <= k < |LinkParts(links)| ==>
              NumInput.NoDigits(LinkParts(links)[k].0) && LinkParts(links)[k].0 != []
    decreases |links|
  {
    if links != [] {
      LinkPartsAt(links[..|links| - 1]);
      assert NumInput.NoDigits("\nlink ") && NumInput.NoDigits(" ");
    }
  }

  /** outputGraph's labels hold no digit. */
  lemma GraphLabelsPlain(n: int, coords: map<int, Coord3>, links: seq<(int, int)>)
    requires forall i :: 1 <= i <= n ==> i in coords
    ensures PlainLabels(GraphParts(n, coords, links))
  {
    var head := [("node_cnt ", n), ("\nedge_cnt ", |links|)];
    assert NumInput.NoDigits("node_cnt ") && NumInput.NoDigits("\nedge_cnt ");
    assert PlainLabels(head);
    NodePartsPlain(n, coords);
    LinkPartsAt(links);
    PlainAppend(head, NodeParts(n, coords));
    PlainAppend(head + NodeParts(n, coords), LinkParts(links));
  }

  /** The values outputGraph writes fit an int when the counts and the
      coordinates do. */
  lemma GraphValuesFit(n: int, coords: map<int, Coord3>, links: seq<(int, int)>)
    requires 0 <= n <= NumInput.IntMax && |links| <= NumInput.IntMax
    requires forall i :: 1 <= i <= n ==> i in coords
    requires forall i :: 1 <= i <= n ==>
               (0 <= coords[i].0 <= NumInput.IntMax && 0 <= coords[i].1 <= NumInput.IntMax && 0 <= coords[i].2 <= NumInput.IntMax)
    requires forall k :: 0 <= k < |links| ==> 1 <= links[k].0 <= n && 1 <= links[k].1 <= n
    ensures forall k :: 0 <= k < |GraphParts(n, coords, links)| ==> 0 <= GraphParts(n, coords, links)[k].1 <= NumInput.IntMax
  {
    var parts := GraphParts(n, coords, links);
    var np := NodeParts(n, coords);
    NodePartsAt(n, coords);
    LinkPartsAt(links);
    assert parts[0].1 == n && parts[1].1 == |links|;
    forall k | 2 <= k < 2 + |np|
      ensures 0 <= parts[k].1 <= NumInput.IntMax
    {
      var q := k - 2;
      var i := q / 4 + 1;
      assert 1 <= i <= n && 4 * i - 4 <= q < 4 * i;
      assert parts[k] == np[q];
      var c := coords[i];
      if q == 4 * i - 4 {
        assert np[4 * i - 4].1 == i;
      } else if q == 4 * i - 3 {
        assert np[4 * i - 3].1 == coords[i].0;
      } else if q == 4 * i - 2 {
        assert np[4 * i - 2].1 == coords[i].1;
      } else {
        assert np[4 * i - 1].1 == coords[i].2;
      }
    }
    forall k | 2 + |np| <= k < |parts|
      ensures 0 <= parts[k].1 <= NumInput.IntMax
    {
      var j := k - 2 - |np|;
      var e := j / 2;
      assert 0 <= e < |links| && 2 * e <= j <= 2 * e + 1;
      assert parts[k] == LinkParts(links)[j];
      if j == 2 * e {
        assert LinkParts(links)[2 * e].1 == links[e].0;
      } else {
        assert LinkParts(links)[2 * e + 1].1 == links[e].1;
      }
    }
  }

  /** The node values sit after the two counts, four per id. */
  lemma GraphNodeValues(n: int, coords: map<int, Coord3>, links: seq<(int, int)>)
    requires forall i :: 1 <= i <= n ==> i in coords
    ensures var v := Values(GraphParts(n, coords, links));
            forall i :: 1 <= i <= n ==>
              (v[4 * i - 2] == i && v[4 * i - 1] == coords[i].0 && v[4 * i] == coords[i].1 && v[4 * i + 1] == coords[i].2)
  {
    var parts := GraphParts(n, coords, links);
    var v := Values(parts);
    var np := NodeParts(n, coords);
    NodePartsAt(n, coords);
    forall i | 1 <= i <= n
      ensures v[4 * i - 2] == i && v[4 * i - 1] == coords[i].0 && v[4 * i] == coords[i].1 && v[4 * i + 1] == coords[i].2
    {
      var c := coords[i];
      assert parts[4 * i - 2] == np[4 * i - 4];
      assert parts[4 * i - 1] == np[4 * i - 3];
      assert parts[4 * i] == np[4 * i - 2];
      assert parts[4 * i + 1] == np[4 * i - 1];
    }
  }

  /** The link values follow the node values, two per link. */
  lemma GraphLinkValues(n: nat, coords: map<int, Coord3>, links: seq<(int, int)>)
    requires forall i :: 1 <= i <= n ==> i in coords
    ensures var v := Values(GraphParts(n, coords, links));
            |v| == 2 + 4 * n + 2 * |links| &&
            forall k :: 0 <= k < |links| ==> v[2 + 4 * n + 2 * k] == links[k].0 && v[3 + 4 * n + 2 * k] == links[k].1
  {
    var parts := GraphParts(n, coords, links);
    var v := Values(parts);
    var np, lp := NodeParts(n, coords), LinkParts(links);
    LinkPartsAt(links);
    forall k | 0 <= k < |links|
      ensures v[2 + |np| + 2 * k] == links[k].0 && v[3 + |np| + 2 * k] == links[k].1
    {
      assert parts[2 + |np| + 2 * k] == lp[2 * k];
      assert parts[3 + |np| + 2 * k] == lp[2 * k + 1];
    }
  }

  /** Reading the integers back out of outputGraph's text, when every
      coordinate is a non-negative int: the node count, the link count, then
      each id with its coordinates in id order, then each link's two ids. */
  lemma GraphTextReads(n: int, coords: map<int, Coord3>, links: seq<(int, int)>)
    requires 0 <= n <= NumInput.IntMax && |links| <= NumInput.IntMax
    requires forall i :: 1 <= i <= n ==> i in coords
    requires forall i :: 1 <= i <= n ==>
               (0 <= coords[i].0 <= NumInput.IntMax && 0 <= coords[i].1 <= NumInput.IntMax && 0 <= coords[i].2 <= NumInput.IntMax)
    requires forall k :: 0 <= k < |links| ==> 1 <= links[k].0 <= n && 1 <= links[k].1 <= n
    ensures var r := NumInput.Extract(GraphText(n, coords, links));
            && |r| == 2 + 4 * n + 2 * |links| && r[0] == n && r[1] == |links|
            && (forall i :: 1 <= i <= n ==>
                  (r[4 * i - 2] == i && r[4 * i - 1] == coords[i].0 && r[4 * i] == coords[i].1 && r[4 * i + 1] == coords[i].2))
            && (forall k :: 0 <= k < |links| ==> r[2 + 4 * n + 2 * k] == links[k].0 && r[3 + 4 * n + 2 * k] == links[k].1)
  {
    var parts := GraphParts(n, coords, links);
    GraphLabelsPlain(n, coords, links);
    GraphValuesFit(n, coords, links);
    assert NumInput.NoDigits("\n\n");
    ExtractRendered(parts, "\n\n");
    assert NumInput.Extract(GraphText(n, coords, links)) == Values(parts);
    GraphNodeValues(n, coords, links);
    GraphLinkValues(n, coords, links);
  }

  // ---------------------------------------------------------------------

  class NodeSet3D {
    var nodeCnt: int
    var idToCoord: map<int, Coord3>
    var coordToId: map<Coord3, int>
    var linkSet: set<(int, int)>

    /** The ids are exactly 1..nodeCnt, the two maps are inverse to each
        other, and every link joins two different ids, smaller first. */
    ghost predicate Valid()
      reads this
    {
      && nodeCnt >= 0
      && (forall i :: i in idToCoord <==> 1 <= i <= nodeCnt)
      && (forall c :: c in coordToId ==> coordToId[c] in idToCoord && idToCoord[coordToId[c]] == c)
      && (forall i :: i in idToCoord ==> idToCoord[i] in coordToId && coordToId[idToCoord[i]] == i)
      && (forall e :: e in linkSet ==> 1 <= e.0 < e.1 <= nodeCnt)
    }

    /** The registered coordinates. */
    ghost function Coords(): set<Coord3>
      reads this
    {
      coordToId.Keys
    }

    /** The links as unordered pairs of coordinates. */
    ghost function CoordLinks(): set<set<Coord3>>
      reads this
      requires Valid()
    {
      set e | e in linkSet :: {idToCoord[e.0], idToCoord[e.1]}
    }

    /** A fresh set has no node and no link. */
    constructor()
      ensures Valid() && nodeCnt == 0 && idToCoord == map[] && coordToId == map[] && linkSet == {}
      ensures Coords() == {} && CoordLinks() == {}
    {
      nodeCnt := 0;
      idToCoord := map[];
      coordToId := map[];
      linkSet := {};
    }

    /** getNodeId: the id of known coordinates, which maps back to them;
        unknown coordinates trip the assertion. */
    function GetNodeId(x: int, y: int, z: int): (r: Result<int>)
      reads this
      requires Valid()
      ensures r.Ok? <==> (x, y, z) in coordToId
      ensures r.Ok? ==> 1 <= r.value <= nodeCnt && idToCoord[r.value] == (x, y, z)
      ensures r.Err? ==> r.error.AssertionFailed?
    {
      if (x, y, z) in coordToId then Ok(coordToId[(x, y, z)])
      else Err(AssertionFailed("NodeSet3D::getNodeId"))
    }

    /** addOrGetNodeId: known coordinates keep their id and nothing changes;
        new ones get the next id, nodeCnt + 1, recorded in both maps. */
    method AddOrGetNodeId(x: int, y: int, z: int) returns (id: int)
      requires Valid()
      modifies this
      ensures Valid() && linkSet == old(linkSet)
      ensures Coords() == old(Coords()) + {(x, y, z)} && CoordLinks() == old(CoordLinks())
      ensures 1 <= id <= nodeCnt && idToCoord[id] == (x, y, z) && coordToId[(x, y, z)] == id
      ensures (x, y, z) in old(coordToId) ==>
                id == old(coordToId)[(x, y, z)] && nodeCnt == old(nodeCnt) &&
                coordToId == old(coordToId) && idToCoord == old(idToCoord)
      ensures (x, y, z) !in old(coordToId) ==>
                id == old(nodeCnt) + 1 && nodeCnt == id &&
                coordToId == old(coordToId)[(x, y, z) := id] && idToCoord == old(idToCoord)[id := (x, y, z)]
    {
      if (x, y, z) in coordToId {
        var r := GetNodeId(x, y, z);
        return r.value;
      }
      ghost var links := CoordLinks();
      nodeCnt := nodeCnt + 1;
      id := nodeCnt;
      idToCoord := idToCoord[id := (x, y, z)];
      coordToId := coordToId[(x, y, z) := id];
      assert forall e :: e in linkSet ==> e.0 != id && e.1 != id;
      assert CoordLinks() == links;
    }

    /** link: two different ids of known nodes are stored as one pair, the
        smaller first (so linking again changes nothing); anything else
        trips an assertion and stores nothing. */
    method Link(id1: int, id2: int) returns (o: Outcome)
      requires Valid()
      modifies this
      ensures Valid() && nodeCnt == old(nodeCnt) && idToCoord == old(idToCoord) && coordToId == old(coordToId)
      ensures o == Pass <==> id1 != id2 && 1 <= id1 <= nodeCnt && 1 <= id2 <= nodeCnt
      ensures o == Pass ==> linkSet == old(linkSet) + {Ordered(id1, id2)}
      ensures o == Pass ==> CoordLinks() == old(CoordLinks()) + {{idToCoord[id1], idToCoord[id2]}}
      ensures o.Fail? ==> o.error.AssertionFailed? && linkSet == old(linkSet)
    {
      if id1 == id2 || !(1 <= id1 <= nodeCnt) || !(1 <= id2 <= nodeCnt) {
        return Fail(AssertionFailed("NodeSet3D::link"));
      }
      var a, b := id1, id2;
      if a > b {
        a, b := b, a;
      }
      linkSet := linkSet + {(a, b)};
      assert {idToCoord[a], idToCoord[b]} == {idToCoord[id1], idToCoord[id2]};
      o := Pass;
    }

    /** outputGraph: the counts, every node with its position in id order,
        then the links in ascending order. */
    method OutputGraph() returns (out: string)
      requires Valid()
      ensures out == GraphText(nodeCnt, idToCoord, SortedPairs(linkSet))
    {
      SortedPairsSpec(linkSet);
      out := WriteGraph(nodeCnt, idToCoord, SortedPairs(linkSet));
    }
  }

  /** outputGraph's writing loops over the node count, the id-to-position
      map and the links in output order. */
  method WriteGraph(n: nat, coords: map<int, Coord3>, items: seq<(int, int)>) returns (out: string)
    requires forall i :: 1 <= i <= n ==> i in coords
    ensures out == GraphText(n, coords, items)
  {
    out := WriteCounts(n, |items|);
    ghost var head := [("node_cnt ", n), ("\nedge_cnt ", |items|)];
    for id := 1 to n + 1
      invariant out == Concat(Rendered(head + NodeParts(id - 1, coords))) + "\n"
    {
      var c := coords[id];
      var line := "node " + NumInput.IntToString(id) + " pos " + NumInput.IntToString(c.0) + " "
                  + NumInput.IntToString(c.1) + " " + NumInput.IntToString(c.2);
      NodeStep(out, head, id, coords, line);
      out := out + line + "\n";
    }
    ghost var nodes := head + NodeParts(n, coords);
    assert nodes + LinkParts(items[..0]) == nodes;
    for k := 0 to |items|
      invariant out == Concat(Rendered(nodes + LinkParts(items[..k]))) + "\n"
    {
      var line := "link " + NumInput.IntToString(items[k].0) + " " + NumInput.IntToString(items[k].1);
      LinkStep(out, nodes, items, k, line);
      out := out + line + "\n";
    }
    assert items[..|items|] == items;
    GraphEnd(out, n, coords, items);
    out := out + "\n";
  }

  /** The counts lines, up to the second line's newline. */
  method WriteCounts(n: int, m: int) returns (out: string)
    ensures out == Concat(Rendered([("node_cnt ", n), ("\nedge_cnt ", m)])) + "\n"
  {
    var w0, w1 := NumInput.IntToString(n), NumInput.IntToString(m);
    CountsLines(n, m, w0, w1);
    out := "node_cnt " + w0 + "\n" + "edge_cnt " + w1 + "\n";
  }

  /** The blank line that ends outputGraph's text. */
  lemma GraphEnd(out: string, n: int, coords: map<int, Coord3>, items: seq<(int, int)>)
    requires forall i :: 1 <= i <= n ==> i in coords
    requires out == Concat(Rendered([("node_cnt ", n), ("\nedge_cnt ", |items|)] + NodeParts(n, coords) + LinkParts(items))) + "\n"
    ensures out + "\n" == GraphText(n, coords, items)
  {
  }

  /** One node line added to outputGraph's text so far. */
  lemma NodeStep(out: string, head: seq<(string, int)>, id: int, coords: map<int, Coord3>, text: string)
    requires forall i :: 1 <= i <= id ==> i in coords
    requires out == Concat(Rendered(head + NodeParts(id - 1, coords))) + "\n"
    requires id >= 1
    requires text == "node " + NumInput.IntToString(id) + " pos " + NumInput.IntToString(coords[id].0) + " "
                     + NumInput.IntToString(coords[id].1) + " " + NumInput.IntToString(coords[id].2)
    ensures out + text + "\n" == Concat(Rendered(head + NodeParts(id, coords))) + "\n"
  {
    var c := coords[id];
    var before := head + NodeParts(id - 1, coords);
    var line := [("\nnode ", id), (" pos ", c.0), (" ", c.1), (" ", c.2)];
    NodeLine(id, c, text);
    RenderedAppend(before, line);
    ConcatAppend(Rendered(before), Rendered(line));
    assert head + NodeParts(id, coords) == before + line;
    LineAfter(Concat(Rendered(before)), text, Concat(Rendered(line)));
  }

  /** One link line added to outputGraph's text so far. */
  lemma LinkStep(out: string, nodes: seq<(string, int)>, items: seq<(int, int)>, k: int, text: string)
    requires 0 <= k < |items|
    requires out == Concat(Rendered(nodes + LinkParts(items[..k]))) + "\n"
    requires text == "link " + NumInput.IntToString(items[k].0) + " " + NumInput.IntToString(items[k].1)
    ensures out + text + "\n" == Concat(Rendered(nodes + LinkParts(items[..k + 1]))) + "\n"
  {
    var before := nodes + LinkParts(items[..k]);
    var line := [("\nlink ", items[k].0), (" ", items[k].1)];
    LinkLine(items[k], text);
    RenderedAppend(before, line);
    ConcatAppend(Rendered(before), Rendered(line));
    LinkPartsSnoc(items, k);
    assert nodes + LinkParts(items[..k + 1]) == before + line;
    LineAfter(Concat(Rendered(before)), text, Concat(Rendered(line)));
  }

  /** The link lines of a prefix one longer. */
  lemma LinkPartsSnoc(items: seq<(int, int)>, k: int)
    requires 0 <= k < |items|
    ensures LinkParts(items[..k + 1]) == LinkParts(items[..k]) + [("\nlink ", items[k].0), (" ", items[k].1)]
  {
    assert items[..k + 1][..k] == items[..k];
  }

  /** A line written after the previous line's newline. */
  lemma LineAfter(prev: string, text: string, parts: string)
    requires parts == "\n" + text
    ensures prev + "\n" + text + "\n" == prev + parts + "\n"
  {
  }

  /** Rendering two lists of parts renders each. */
  lemma RenderedAppend(a: seq<(string, int)>, b: seq<(string, int)>)
    ensures Rendered(a + b) == Rendered(a) + Rendered(b)
  {
  }

  /** Two labelled words, as concatenated parts. */
  lemma ConcatPair(p: (string, string), q: (string, string))
    ensures Concat([p, q]) == p.0 + p.1 + q.0 + q.1
  {
    assert [p, q][..1] == [p];
    assert [p][..0] == [];
    assert Concat([p]) == p.0 + p.1;
  }

  /** The counts lines, up to the second line's newline. */
  lemma CountsLines(n: int, m: int, w0: string, w1: string)
    requires w0 == NumInput.IntToString(n) && w1 == NumInput.IntToString(m)
    ensures "node_cnt " + w0 + "\n" + "edge_cnt " + w1 + "\n"
            == Concat(Rendered([("node_cnt ", n), ("\nedge_cnt ", m)])) + "\n"
  {
    assert Rendered([("node_cnt ", n), ("\nedge_cnt ", m)]) == [("node_cnt ", w0), ("\nedge_cnt ", w1)];
    ConcatPair(("node_cnt ", w0), ("\nedge_cnt ", w1));
    assert "\n" + "edge_cnt " == "\nedge_cnt ";
  }

  /** A node line after the previous line's newline, as concatenated
      parts. */
  lemma NodeLine(id: int, c: Coord3, text: string)
    requires text == "node " + NumInput.IntToString(id) + " pos " + NumInput.IntToString(c.0) + " "
                     + NumInput.IntToString(c.1) + " " + NumInput.IntToString(c.2)
    ensures "\n" + text == Concat(Rendered([("\nnode ", id), (" pos ", c.0), (" ", c.1), (" ", c.2)]))
  {
    var a, b, d, e := NumInput.IntToString(id), NumInput.IntToString(c.0), NumInput.IntToString(c.1), NumInput.IntToString(c.2);
    assert Rendered([("\nnode ", id), (" pos ", c.0), (" ", c.1), (" ", c.2)]) == [("\nnode ", a), (" pos ", b), (" ", d), (" ", e)];
    NodeWords(a, b, d, e, text);
  }

  /** The node line's words, as concatenated parts. */
  lemma NodeWords(a: string, b: string, d: string, e: string, text: string)
    requires text == "node " + a + " pos " + b + " " + d + " " + e
    ensures "\n" + text == Concat([("\nnode ", a), (" pos ", b), (" ", d), (" ", e)])
  {
    var l := [("\nnode ", a), (" pos ", b), (" ", d), (" ", e)];
    assert l[..3] == [("\nnode ", a), (" pos ", b), (" ", d)];
    assert l[..3][..2] == [("\nnode ", a), (" pos ", b)];
    ConcatPair(("\nnode ", a), (" pos ", b));
    assert "\n" + "node " == "\nnode ";
  }

  /** A link line after the previous line's newline, as concatenated
      parts. */
  lemma LinkLine(e: (int, int), text: string)
    requires text == "link " + NumInput.IntToString(e.0) + " " + NumInput.IntToString(e.1)
    ensures "\n" + text == Concat(Rendered([("\nlink ", e.0), (" ", e.1)]))
  {
    var a, b := NumInput.IntToString(e.0), NumInput.IntToString(e.1);
    assert Rendered([("\nlink ", e.0), (" ", e.1)]) == [("\nlink ", a), (" ", b)];
    ConcatPair(("\nlink ", a), (" ", b));
    assert "\n" + "link " == "\nlink ";
  }
}
