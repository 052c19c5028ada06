// PDTree: the spanning tree of crossings.  Node 0 is a sentinel meaning
// "no neighbour"; every real node holds one crossing, the heading its
// from-below socket faces, its four neighbour slots (indexed by heading)
// and its lattice position.  A child hangs off a free plug of its parent
// and sits one unit step away in that heading.

module PdTrees {
  import opened Wrappers
  import opened Directions
  import opened Coord2dPosition
  import opened PdCrossings
  import opened PdCodes

  /** The four neighbour slots of a node (next_node[4]), by heading. */
  datatype Slots = Slots(east: int, north: int, west: int, south: int)
  {
    /** next_node[i]. */
    function Get(i: nat): int
      requires i < 4
    {
      if i == 0 then east else if i == 1 then north else if i == 2 then west else south
    }

    /** next_node[i] = v: only slot i changes. */
    function Set(i: nat, v: int): (r: Slots)
      requires i < 4
      ensures r.Get(i) == v && forall j :: 0 <= j < 4 && j != i ==> r.Get(j) == Get(j)
    {
      if i == 0 then this.(east := v) else if i == 1 then this.(north := v)
      else if i == 2 then this.(west := v) else this.(south := v)
    }
  }

  datatype TreeNode = TreeNode(next: Slots, pos: Coord2d)

  datatype TreeMsg = TreeMsg(crossing: seq<int>, base: Direction)

  /** A free plug seen by dfs: the node, the heading of the slot and the
      socket id shown there.  The float weight is not modelled. */
  datatype LeafInfo = LeafInfo(nodeId: int, dir: Direction, socketId: int)

  /** The removed crossing and what is left of the list. */
  datatype Popped = Popped(crossing: seq<int>, rest: seq<seq<int>>)

  /** A value-initialised TreeNode: no neighbours, at the origin. */
  const EmptyNode := TreeNode(Slots(0, 0, 0, 0), Origin())

  /** A value-initialised TreeMsg: an empty crossing, base EAST. */
  const EmptyMsg := TreeMsg([], East)

  /** Slot i of node x is free (0), holds a later child of x, or holds
      the parent of x. */
  ghost predicate SlotOk(s: seq<TreeNode>, p: seq<int>, x: int, i: int)
    requires |p| == |s| && 1 <= x < |s| && 0 <= i < 4
  {
    var e := s[x].next.Get(i);
    e == 0 || (x < e < |s| && p[e] == x) || (x >= 2 && e == p[x])
  }

  /** A non-root node hangs off an earlier node, in heading v[x], and its
      slot facing back holds that parent. */
  ghost predicate ParentOk(s: seq<TreeNode>, p: seq<int>, v: seq<Direction>, x: int)
    requires |p| == |s| && |v| == |s| && 2 <= x < |s|
  {
    1 <= p[x] < x && s[p[x]].next.Get(Index(v[x])) == x && s[x].next.Get(Index(Opposite(v[x]))) == p[x]
  }

  /** The tree shape.  `p` gives each node's parent (-1 for the root at
      1) and `v` the heading from the parent to it. */
  ghost predicate Shaped(s: seq<TreeNode>, m: seq<TreeMsg>, p: seq<int>, v: seq<Direction>)
  {
    && |s| >= 1 && |m| == |s| && |p| == |s| && |v| == |s|
    && s[0] == EmptyNode
    && (forall x :: 1 <= x < |s| ==> |m[x].crossing| == 4)
    && (|s| >= 2 ==> p[1] == -1)
    && (forall x :: 2 <= x < |s| ==> ParentOk(s, p, v, x))
    && (forall x, i :: 1 <= x < |s| && 0 <= i < 4 ==> SlotOk(s, p, x, i))
  }

  /** A child sits one unit step from its parent in the heading of the
      joining slot, and the two slots of the tree edge show the same
      socket id. */
  ghost predicate PlacedAt(s: seq<TreeNode>, m: seq<TreeMsg>, p: seq<int>, v: seq<Direction>, x: int)
    requires Shaped(s, m, p, v) && 2 <= x < |s| && ParentOk(s, p, v, x)
  {
    && s[x].pos == Add(s[p[x]].pos, DeltaByDirection(v[x]))
    && SocketId(m[x].crossing, m[x].base, Opposite(v[x])) == SocketId(m[p[x]].crossing, m[p[x]].base, v[x])
  }

  /** The layout promises of buildTree, for every non-root node. */
  ghost predicate Placed(s: seq<TreeNode>, m: seq<TreeMsg>, p: seq<int>, v: seq<Direction>)
    requires Shaped(s, m, p, v)
  {
    forall x :: 2 <= x < |s| ==> PlacedAt(s, m, p, v, x)
  }

  /** The crossings held by the real nodes, in node order. */
  function Crossings(m: seq<TreeMsg>): (r: seq<seq<int>>)
    requires |m| >= 1
    ensures |r| == |m| - 1
    ensures forall k :: 0 <= k < |r| ==> r[k] == m[k + 1].crossing
  {
    seq(|m| - 1, k requires 0 <= k < |m| - 1 => m[k + 1].crossing)
  }

  lemma CrossingsSnoc(m: seq<TreeMsg>, msg: TreeMsg)
    requires |m| >= 1
    ensures Crossings(m + [msg]) == Crossings(m) + [msg.crossing]
  {
  }

  /** The free plugs dfs(x, fa) meets from slot i on, in visiting order:
      a slot holding the caller is skipped, a free slot yields its plug,
      any other slot is a child whose subtree is visited in place. */
  ghost function PlugsFrom(s: seq<TreeNode>, m: seq<TreeMsg>, p: seq<int>, v: seq<Direction>,
                           x: int, fa: int, i: nat): seq<LeafInfo>
    requires Shaped(s, m, p, v) && 1 <= x < |s| && fa == p[x] && i <= 4
    decreases |s| - x, 4 - i
  {
    if i == 4 then []
    else
      var e := s[x].next.Get(i);
      assert SlotOk(s, p, x, i);
      var here :=
        if e == fa then []
        else if e == 0 then [LeafInfo(x, FromIndex(i), SocketId(m[x].crossing, m[x].base, FromIndex(i)))]
        else PlugsFrom(s, m, p, v, e, x, 0);
      here + PlugsFrom(s, m, p, v, x, fa, i + 1)
  }

  /** Every plug dfs reports is a free slot of a real node, and reports the
      socket id that slot shows. */
  lemma {:induction false} PlugsAreFree(s: seq<TreeNode>, m: seq<TreeMsg>, p: seq<int>, v: seq<Direction>,
                                        x: int, fa: int, i: nat)
    requires Shaped(s, m, p, v) && 1 <= x < |s| && fa == p[x] && i <= 4
    ensures forall li :: li in PlugsFrom(s, m, p, v, x, fa, i) ==> FreePlug(s, m, li)
    decreases |s| - x, 4 - i
  {
    if i < 4 {
      var e := s[x].next.Get(i);
      assert SlotOk(s, p, x, i);
      PlugsAreFree(s, m, p, v, x, fa, i + 1);
      if e != fa && e != 0 {
        PlugsAreFree(s, m, p, v, e, x, 0);
      }
    }
  }

  /** `li` names a free slot of a real node and the socket id it shows. */
  ghost predicate FreePlug(s: seq<TreeNode>, m: seq<TreeMsg>, li: LeafInfo)
    requires |m| == |s|
    requires forall x :: 1 <= x < |s| ==> |m[x].crossing| == 4
  {
    && 1 <= li.nodeId < |s|
    && s[li.nodeId].next.Get(Index(li.dir)) == 0
    && li.socketId == SocketId(m[li.nodeId].crossing, m[li.nodeId].base, li.dir)
  }

  /** dfs's bookkeeping: the first sighting of a socket id records the
      plug, the next one erases the record. */
  function Toggle(acc: map<int, LeafInfo>, li: LeafInfo): map<int, LeafInfo>
  {
    if li.socketId in acc then acc - {li.socketId} else acc[li.socketId := li]
  }

  function ToggleAll(acc: map<int, LeafInfo>, ls: seq<LeafInfo>): map<int, LeafInfo>
    decreases |ls|
  {
    if ls == [] then acc else ToggleAll(Toggle(acc, ls[0]), ls[1..])
  }

  lemma {:induction false} ToggleAllAppend(acc: map<int, LeafInfo>, a: seq<LeafInfo>, b: seq<LeafInfo>)
    ensures ToggleAll(acc, a + b) == ToggleAll(ToggleAll(acc, a), b)
    decreases |a|
  {
    if a == [] {
      assert a + b == b;
    } else {
      assert (a + b)[0] == a[0] && (a + b)[1..] == a[1..] + b;
      ToggleAllAppend(Toggle(acc, a[0]), a[1..], b);
    }
  }

  /** How many plugs in the list show `id`. */
  function CountId(ls: seq<LeafInfo>, id: int): nat
    decreases |ls|
  {
    if ls == [] then 0 else (if ls[0].socketId == id then 1 else 0) + CountId(ls[1..], id)
  }

  /** After toggling, an id is recorded exactly when it was recorded before
      and seen an even number of times, or not before and seen an odd
      number of times; a record is keyed by its own socket id and is one of
      the plugs seen or an old record. */
  lemma {:induction false} ToggleParity(acc: map<int, LeafInfo>, ls: seq<LeafInfo>, id: int)
    requires forall k :: k in acc ==> acc[k].socketId == k
    ensures var r := ToggleAll(acc, ls);
      && (id in r <==> (id in acc) != (CountId(ls, id) % 2 == 1))
      && (id in r ==> r[id].socketId == id && (r[id] in ls || (id in acc && r[id] == acc[id])))
    decreases |ls|
  {
    if ls != [] {
      var t := Toggle(acc, ls[0]);
      assert forall k :: k in t ==> t[k].socketId == k;
      ToggleParity(t, ls[1..], id);
      var r := ToggleAll(acc, ls);
      if id in r && r[id] in ls[1..] {
        assert r[id] in ls;
      }
    }
  }

  /** The candidates getBestSocket chooses among: the socket ids shown an
      odd number of times by the free plugs of the tree, each with a plug
      showing it. */
  lemma Candidates(s: seq<TreeNode>, m: seq<TreeMsg>, p: seq<int>, v: seq<Direction>, id: int)
    requires Shaped(s, m, p, v) && |s| >= 2
    ensures var ls := PlugsFrom(s, m, p, v, 1, -1, 0);
      var r := ToggleAll(map[], ls);
      && (id in r <==> CountId(ls, id) % 2 == 1)
      && (id in r ==> r[id].socketId == id && r[id] in ls && FreePlug(s, m, r[id]))
  {
    ToggleParity(map[], PlugsFrom(s, m, p, v, 1, -1, 0), id);
    PlugsAreFree(s, m, p, v, 1, -1, 0);
  }

  /** The node list after newTreeNode and the two links of buildTree: a
      new last node whose slot facing back holds the parent, placed one
      step from it, and the parent's slot `li.dir` holding the new node. */
  function Grown(s: seq<TreeNode>, li: LeafInfo): (r: seq<TreeNode>)
    requires 1 <= li.nodeId < |s|
    ensures |r| == |s| + 1
    ensures forall x :: 0 <= x < |s| && x != li.nodeId ==> r[x] == s[x]
    ensures r[li.nodeId] == s[li.nodeId].(next := s[li.nodeId].next.Set(Index(li.dir), |s|))
    ensures r[|s|] == TreeNode(EmptyNode.next.Set(Index(Opposite(li.dir)), li.nodeId),
                               Add(s[li.nodeId].pos, DeltaByDirection(li.dir)))
  {
    var child, a := |s|, li.nodeId;
    var s0 := s + [EmptyNode];
    var s1 := s0[child := s0[child].(next := s0[child].next.Set(Index(Opposite(li.dir)), a))];
    var s2 := s1[a := s1[a].(next := s1[a].next.Set(Index(li.dir), child))];
    s2[child := s2[child].(pos := Add(s2[a].pos, DeltaByDirection(li.dir)))]
  }

  /** Growing the tree at a free plug keeps its shape. */
  lemma GrownShaped(s: seq<TreeNode>, m: seq<TreeMsg>, p: seq<int>, v: seq<Direction>, li: LeafInfo, msg: TreeMsg)
    requires Shaped(s, m, p, v) && |s| >= 2
    requires FreePlug(s, m, li) && |msg.crossing| == 4
    ensures Shaped(Grown(s, li), m + [msg], p + [li.nodeId], v + [li.dir])
  {
    var n, a, d := |s|, li.nodeId, Index(li.dir);
    var s2, m2, p2, v2 := Grown(s, li), m + [msg], p + [li.nodeId], v + [li.dir];
    forall x, i | 1 <= x < |s2| && 0 <= i < 4
      ensures SlotOk(s2, p2, x, i)
    {
      if x == n {
        assert s2[x].next.Get(i) == 0 || s2[x].next.Get(i) == a;
      } else if x == a && i == d {
      } else {
        assert SlotOk(s, p, x, i);
        assert s2[x].next.Get(i) == s[x].next.Get(i);
      }
    }
    forall x | 2 <= x < |s2|
      ensures ParentOk(s2, p2, v2, x)
    {
      if x < n {
        assert ParentOk(s, p, v, x);
        if p[x] == a {
          assert Index(v[x]) != d by {
            assert s[a].next.Get(Index(v[x])) == x;
          }
        }
      }
    }
  }

  /** Growing the tree at a free plug keeps the layout promises, provided
      the new crossing shows the plug's socket id on the side facing the
      parent. */
  lemma GrownPlaced(s: seq<TreeNode>, m: seq<TreeMsg>, p: seq<int>, v: seq<Direction>, li: LeafInfo, msg: TreeMsg)
    requires Shaped(s, m, p, v) && Placed(s, m, p, v) && |s| >= 2
    requires FreePlug(s, m, li) && |msg.crossing| == 4
    requires SocketId(msg.crossing, msg.base, Opposite(li.dir)) == li.socketId
    ensures Shaped(Grown(s, li), m + [msg], p + [li.nodeId], v + [li.dir])
    ensures Placed(Grown(s, li), m + [msg], p + [li.nodeId], v + [li.dir])
  {
    GrownShaped(s, m, p, v, li, msg);
    var n := |s|;
    var s2, m2, p2, v2 := Grown(s, li), m + [msg], p + [li.nodeId], v + [li.dir];
    forall x | 2 <= x < |s2|
      ensures PlacedAt(s2, m2, p2, v2, x)
    {
      assert ParentOk(s2, p2, v2, x);
      if x < n {
        assert ParentOk(s, p, v, x) && PlacedAt(s, m, p, v, x);
        assert s2[x].pos == s[x].pos && s2[p[x]].pos == s[p[x]].pos;
      }
    }
  }

  /** A map that is not empty has a key. */
  lemma SomeKey<V>(m: map<int, V>)
    ensures m == map[] || exists k :: k in m
  {
    if forall k :: k !in m {
      assert m == map[];
    }
  }

  /** Moving one crossing from the unused list to the tree keeps the total. */
  lemma MoveOne(placed: multiset<seq<int>>, rest: multiset<seq<int>>, before: multiset<seq<int>>, c: seq<int>)
    requires rest + multiset{c} == before
    ensures (placed + multiset{c}) + rest == placed + before
  {
  }

  /** The first crossing of the list containing `id`, removed. */
  method PopCrossingBySocketId(unused: seq<seq<int>>, socketId: int) returns (r: Result<Popped>)
    ensures r.Ok? <==> exists k :: 0 <= k < |unused| && socketId in unused[k]
    ensures r.Ok? ==> (exists k :: 0 <= k < |unused| && socketId in unused[k]
                                  && (forall j :: 0 <= j < k ==> socketId !in unused[j])
                                  && r.value == Popped(unused[k], unused[..k] + unused[k + 1..]))
    ensures r.Ok? ==> (socketId in r.value.crossing && |r.value.rest| == |unused| - 1
      && multiset(r.value.rest) + multiset{r.value.crossing} == multiset(unused))
    ensures r.Err? ==> r.error.AssertionFailed?
  {
    if |unused| == 0 {
      return Err(AssertionFailed("PDTree::popCrossingBySocketId: empty list"));
    }
    var pos := -1;
    var i := 0;
    while i < |unused|
      invariant 0 <= i <= |unused|
      invariant forall j :: 0 <= j < i ==> socketId !in unused[j]
    {
      if socketId in unused[i] {
        pos := i;
        break;
      }
      i := i + 1;
    }
    if pos == -1 {
      return Err(AssertionFailed("PDTree::popCrossingBySocketId: socket not found"));
    }
    var ans := unused[pos];
    var rest := unused[..pos] + unused[pos + 1..];
    assert unused == unused[..pos] + [ans] + unused[pos + 1..];
    r := Ok(Popped(ans, rest));
  }

  /** popRandomCrossing with the random index as a parameter. */
  method PopRandomCrossing(unused: seq<seq<int>>, pos: int) returns (r: Result<Popped>)
    requires unused != [] ==> 0 <= pos < |unused|
    ensures r.Ok? <==> unused != []
    ensures r.Ok? ==> (r.value == Popped(unused[pos], unused[..pos] + unused[pos + 1..])
      && multiset(r.value.rest) + multiset{r.value.crossing} == multiset(unused))
    ensures r.Err? ==> r.error.AssertionFailed?
  {
    if |unused| == 0 {
      return Err(AssertionFailed("PDTree::popRandomCrossing: empty list"));
    }
    var ans := unused[pos];
    assert unused == unused[..pos] + [ans] + unused[pos + 1..];
    r := Ok(Popped(ans, unused[..pos] + unused[pos + 1..]));
  }

  class PDTree {
    var pdCode: seq<seq<int>>
    var structure: seq<TreeNode>
    var message: seq<TreeMsg>
    ghost var parent: seq<int>
    ghost var via: seq<Direction>

    ghost predicate Valid()
      reads this
    {
      Shaped(structure, message, parent, via) && Placed(structure, message, parent, via)
    }

    constructor()
      ensures structure == [] && message == [] && pdCode == []
    {
      pdCode := [];
      structure := [];
      message := [];
      parent := [];
      via := [];
    }

    /** newTreeNode: appends a blank node and returns its index. */
    method NewTreeNode() returns (id: int)
      modifies this
      ensures id == old(|structure|)
      ensures structure == old(structure) + [EmptyNode] && message == old(message) + [EmptyMsg]
      ensures parent == old(parent) + [0] && via == old(via) + [East] && pdCode == old(pdCode)
    {
      structure := structure + [EmptyNode];
      message := message + [EmptyMsg];
      parent := parent + [0];
      via := via + [East];
      id := |structure| - 1;
    }

    /** clear: no code, only the sentinel node 0. */
    method Clear()
      modifies this
      ensures Valid() && pdCode == [] && structure == [EmptyNode] && message == [EmptyMsg]
      ensures parent == [0] && via == [East]
    {
      pdCode := [];
      structure := [];
      message := [];
      parent := [];
      via := [];
      var zero := NewTreeNode();
    }

    /** dfs(x, fa): toggles into the map every free plug of the subtree of x
        (the side away from fa), in visiting order. */
    method Dfs(x: int, fa: int, leafIdMap: map<int, LeafInfo>) returns (r: map<int, LeafInfo>)
      requires Valid() && 1 <= x < |structure| && fa == parent[x]
      ensures r == ToggleAll(leafIdMap, PlugsFrom(structure, message, parent, via, x, fa, 0))
      decreases |structure| - x
    {
      r := leafIdMap;
      for i := 0 to 4
        invariant ToggleAll(r, PlugsFrom(structure, message, parent, via, x, fa, i))
                  == ToggleAll(leafIdMap, PlugsFrom(structure, message, parent, via, x, fa, 0))
      {
        var e := structure[x].next.Get(i);
        assert SlotOk(structure, parent, x, i);
        ghost var here :=
          if e == fa then []
          else if e == 0 then [LeafInfo(x, FromIndex(i), SocketId(message[x].crossing, message[x].base, FromIndex(i)))]
          else PlugsFrom(structure, message, parent, via, e, x, 0);
        ghost var later := PlugsFrom(structure, message, parent, via, x, fa, i + 1);
        assert PlugsFrom(structure, message, parent, via, x, fa, i) == here + later;
        ToggleAllAppend(r, here, later);
        if e == fa {
          continue;
        }
        if e == 0 {
          var socketId := SocketId(message[x].crossing, message[x].base, FromIndex(i));
          r := Toggle(r, LeafInfo(x, FromIndex(i), socketId));
        } else {
          r := Dfs(e, x, r);
        }
      }
    }

    /** getBestSocket: one plug whose socket id is shown an odd number of
        times by the free plugs of the tree; which one is the float
        weight's choice, not modelled. */
    method GetBestSocket(root: int) returns (r: Result<LeafInfo>)
      requires Valid() && |structure| >= 2 && root == 1
      ensures var cands := ToggleAll(map[], PlugsFrom(structure, message, parent, via, 1, -1, 0));
        && (r.Ok? <==> cands != map[])
        && (r.Ok? ==> r.value.socketId in cands && cands[r.value.socketId] == r.value)
      ensures r.Ok? ==> FreePlug(structure, message, r.value)
      ensures r.Err? ==> r.error.AssertionFailed?
    {
      var leafIdMap := Dfs(root, -1, map[]);
      if leafIdMap == map[] {
        return Err(AssertionFailed("PDTree::getBestSocket: no free socket"));
      }
      SomeKey(leafIdMap);
      var k :| k in leafIdMap;
      Candidates(structure, message, parent, via, k);
      r := Ok(leafIdMap[k]);
    }

    /** The linking step of buildTree: the new node `newNode` (already
        appended) takes the popped crossing, turned so that the plug's
        socket faces back to the parent, and the two slots are joined. */
    method LinkNode(ghost s0: seq<TreeNode>, ghost m0: seq<TreeMsg>, ghost p0: seq<int>, ghost v0: seq<Direction>,
                    newNode: int, leafInfo: LeafInfo, crossing: seq<int>)
      requires structure == s0 + [EmptyNode] && message == m0 + [EmptyMsg]
      requires parent == p0 + [0] && via == v0 + [East] && newNode == |s0|
      requires |m0| == |s0| && |p0| == |s0| && |v0| == |s0|
      requires 1 <= leafInfo.nodeId < |s0|
      requires |crossing| == 4 && leafInfo.socketId in crossing
      modifies this
      ensures pdCode == old(pdCode)
      ensures structure == Grown(s0, leafInfo)
      ensures message == m0 + [TreeMsg(crossing, BaseShift(crossing, leafInfo.socketId, Opposite(leafInfo.dir)))]
      ensures parent == p0 + [leafInfo.nodeId] && via == v0 + [leafInfo.dir]
    {
      var oppoDir := Opposite(leafInfo.dir);
      var base := BaseShift(crossing, leafInfo.socketId, oppoDir);
      message := message[newNode := TreeMsg(crossing, base)];
      var child := structure[newNode].(next := structure[newNode].next.Set(Index(oppoDir), leafInfo.nodeId));
      var fa := structure[leafInfo.nodeId];
      var faNode := fa.(next := fa.next.Set(Index(leafInfo.dir), newNode));
      child := child.(pos := Add(fa.pos, DeltaByDirection(leafInfo.dir)));
      structure := structure[newNode := child][leafInfo.nodeId := faNode];
      parent := parent[newNode := leafInfo.nodeId];
      via := via[newNode := leafInfo.dir];
    }

    /** The root set-up of buildTree: node 1 takes the crossing, base EAST,
        at the origin. */
    method PlantRoot(root: int, crossing: seq<int>)
      requires structure == [EmptyNode, EmptyNode] && message == [EmptyMsg, EmptyMsg]
      requires parent == [0, 0] && via == [East, East] && root == 1 && |crossing| == 4
      modifies this
      ensures Valid() && pdCode == old(pdCode) && |structure| == 2
      ensures message[1] == TreeMsg(crossing, East) && structure[1].pos == Origin()
    {
      message := message[root := message[root].(crossing := crossing)];
      message := message[root := message[root].(base := East)];
      structure := structure[root := structure[root].(pos := Origin())];
      parent := parent[root := -1];
      assert forall x, i :: 1 <= x < |structure| && 0 <= i < 4 ==> structure[x].next.Get(i) == 0;
    }

    /** One round of buildTree's loop: finds a candidate socket, pops the
        first unused crossing holding it and hangs it off the tree. */
    method GrowOnce(root: int, unused: seq<seq<int>>) returns (o: Outcome, rest: seq<seq<int>>)
      requires Valid() && |structure| >= 2 && root == 1 && unused != []
      requires multiset(Crossings(message)) + multiset(unused) == multiset(pdCode)
      requires forall k :: 0 <= k < |unused| ==> |unused[k]| == 4
      modifies this
      ensures pdCode == old(pdCode)
      ensures o.Fail? ==> o.error.AssertionFailed?
      ensures o.Pass? ==> && Valid() && |structure| == old(|structure|) + 1 && |rest| + 1 == |unused|
                          && multiset(Crossings(message)) + multiset(rest) == multiset(pdCode)
                          && (forall k :: 0 <= k < |rest| ==> |rest[k]| == 4)
                          && message[1] == old(message[1]) && structure[1].pos == old(structure[1].pos)
    {
      rest := unused;
      var best := GetBestSocket(root);
      if best.Err? {
        return Fail(best.error), rest;
      }
      var leafInfo := best.value;
      ghost var s0, m0, p0, v0 := structure, message, parent, via;
      var newNode := NewTreeNode();
      var popped := PopCrossingBySocketId(unused, leafInfo.socketId);
      if popped.Err? {
        return Fail(popped.error), rest;
      }
      var crossing := popped.value.crossing;
      rest := popped.value.rest;
      assert |crossing| == 4 && forall k :: 0 <= k < |rest| ==> |rest[k]| == 4 by {
        assert crossing in multiset(unused);
        forall k | 0 <= k < |rest| ensures |rest[k]| == 4 {
          assert rest[k] in multiset(unused);
        }
      }
      LinkNode(s0, m0, p0, v0, newNode, leafInfo, crossing);
      ghost var msg := TreeMsg(crossing, BaseShift(crossing, leafInfo.socketId, Opposite(leafInfo.dir)));
      BaseShiftSound(crossing, leafInfo.socketId, Opposite(leafInfo.dir));
      GrownPlaced(s0, m0, p0, v0, leafInfo, msg);
      CrossingsSnoc(m0, msg);
      assert multiset(Crossings(message)) == multiset(Crossings(m0)) + multiset{crossing};
      MoveOne(multiset(Crossings(m0)), multiset(rest), multiset(unused), crossing);
      o := Pass;
    }

    /** buildTree: places a crossing chosen by `rootPick` at the origin with
        base EAST, then repeatedly hangs the first unused crossing holding
        a candidate socket off that socket, until none is left. */
    method BuildTree(rootPick: int) returns (o: Outcome)
      requires structure == [EmptyNode] && message == [EmptyMsg] && parent == [0] && via == [East]
      requires AllCrossings(pdCode)
      requires pdCode != [] ==> 0 <= rootPick < |pdCode|
      modifies this
      ensures pdCode == old(pdCode)
      ensures pdCode == [] ==> o.Fail?
      ensures o.Pass? ==> BuildSucceeded(rootPick)
      ensures o.Fail? ==> o.error.AssertionFailed?
    {
      var n := |pdCode|;
      if n == 0 {
        return Fail(AssertionFailed("PDTree::buildTree: no crossing"));
      }
      var unused: seq<seq<int>> := [];
      for i := 0 to n
        invariant unused == pdCode[..i]
      {
        unused := unused + [pdCode[i]];
      }
      assert unused == pdCode;
      var root := NewTreeNode();
      var first := PopRandomCrossing(unused, rootPick);
      unused := first.value.rest;
      PlantRoot(root, first.value.crossing);
      assert Crossings(message) == [pdCode[rootPick]];
      assert multiset(Crossings(message)) + multiset(unused) == multiset(pdCode);
      assert forall k :: 0 <= k < |unused| ==> |unused[k]| == 4 by {
        forall k | 0 <= k < |unused| ensures |unused[k]| == 4 {
          assert unused[k] in multiset(pdCode);
        }
      }
      while |unused| > 0
        invariant Valid() && |structure| >= 2 && pdCode == old(pdCode) && 0 <= rootPick < |pdCode|
        invariant multiset(Crossings(message)) + multiset(unused) == multiset(pdCode)
        invariant forall k :: 0 <= k < |unused| ==> |unused[k]| == 4
        invariant |structure| - 1 + |unused| == n
        invariant message[1] == TreeMsg(pdCode[rootPick], East) && structure[1].pos == Origin()
        decreases |unused|
      {
        o, unused := GrowOnce(root, unused);
        if o.Fail? {
          return;
        }
      }
      o := Pass;
    }

    /** load: clears, takes a copy of the code and builds the tree. */
    method Load(newPdCode: PDCode, rootPick: int) returns (o: Outcome)
      requires newPdCode.Valid()
      requires newPdCode.pdCode != [] ==> 0 <= rootPick < |newPdCode.pdCode|
      modifies this
      ensures pdCode == newPdCode.pdCode
      ensures pdCode == [] ==> o.Fail?
      ensures o.Pass? ==> BuildSucceeded(rootPick)
      ensures o.Fail? ==> o.error.AssertionFailed?
    {
      Clear();
      pdCode := newPdCode.pdCode;
      if |pdCode| == 0 {
        return Fail(AssertionFailed("PDTree::load: no crossing"));
      }
      o := BuildTree(rootPick);
    }

    /** What a successful build guarantees: a well-shaped, well-placed tree
        with one node per crossing of the code, rooted at the picked
        crossing at the origin with base EAST. */
    ghost predicate BuildSucceeded(rootPick: int)
      reads this
    {
      && Valid() && |structure| == |pdCode| + 1 && 0 <= rootPick < |pdCode|
      && multiset(Crossings(message)) == multiset(pdCode)
      && message[1] == TreeMsg(pdCode[rootPick], East) && structure[1].pos == Origin()
    }
  }
}
