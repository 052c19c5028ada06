// Graph: an undirected graph on the nodes 1..maxNodeId, stored as one
// adjacency list per node (node 0 is a placeholder that never has edges).

module Graphs {
  import opened Wrappers

  function Max(a: int, b: int): int { if a <= b then b else a }

  /** Every listed neighbour is a node, and each list entry has its mirror. */
  ghost predicate Adjacency(nn: seq<seq<int>>)
  {
    && |nn| >= 1 && nn[0] == []
    && (forall a, k :: 0 <= a < |nn| && 0 <= k < |nn[a]| ==> 1 <= nn[a][k] < |nn|)
    && (forall a, k :: 0 <= a < |nn| && 0 <= k < |nn[a]| ==> a in nn[nn[a][k]])
  }

  /** The directed pairs the lists hold. */
  ghost function EdgesOf(nn: seq<seq<int>>): set<(int, int)>
  {
    set a, k | 0 <= a < |nn| && 0 <= k < |nn[a]| :: (a, nn[a][k])
  }

  /** The edges of an adjacency structure run both ways between nodes. */
  lemma {:induction false} EdgesSymmetric(nn: seq<seq<int>>, a: int, b: int)
    requires Adjacency(nn) && (a, b) in EdgesOf(nn)
    ensures (b, a) in EdgesOf(nn) && 1 <= a < |nn| && 1 <= b < |nn|
  {
    var p, k :| 0 <= p < |nn| && 0 <= k < |nn[p]| && (p, nn[p][k]) == (a, b);
    assert a in nn[b];
    var k' :| 0 <= k' < |nn[b]| && nn[b][k'] == a;
    assert (b, nn[b][k']) in EdgesOf(nn);
  }

  /** n more empty lists. */
  function Empties(n: int): (r: seq<seq<int>>)
    ensures |r| == if n <= 0 then 0 else n
    ensures forall k :: 0 <= k < |r| ==> r[k] == []
  {
    if n <= 0 then [] else Empties(n - 1) + [[]]
  }

  /** Appending empty lists adds no edge. */
  lemma GrowKeepsEdges(nn: seq<seq<int>>, n: int)
    requires Adjacency(nn)
    ensures Adjacency(nn + Empties(n)) && EdgesOf(nn + Empties(n)) == EdgesOf(nn)
  {
    var g := nn + Empties(n);
    forall e | e in EdgesOf(g)
      ensures e in EdgesOf(nn)
    {
      var a, k :| 0 <= a < |g| && 0 <= k < |g[a]| && e == (a, g[a][k]);
      assert a < |nn|;
      assert (a, nn[a][k]) in EdgesOf(nn);
    }
    forall e | e in EdgesOf(nn)
      ensures e in EdgesOf(g)
    {
      var a, k :| 0 <= a < |nn| && 0 <= k < |nn[a]| && e == (a, nn[a][k]);
      assert (a, g[a][k]) in EdgesOf(g);
    }
  }

  /** Appending b to a's list adds exactly the pair (a, b). */
  lemma PushEdge(nn: seq<seq<int>>, a: int, b: int)
    requires 0 <= a < |nn|
    ensures EdgesOf(nn[a := nn[a] + [b]]) == EdgesOf(nn) + {(a, b)}
  {
    var g := nn[a := nn[a] + [b]];
    forall e | e in EdgesOf(g)
      ensures e in EdgesOf(nn) + {(a, b)}
    {
      var p, k :| 0 <= p < |g| && 0 <= k < |g[p]| && e == (p, g[p][k]);
      if p != a || k < |nn[a]| {
        assert (p, nn[p][k]) in EdgesOf(nn);
      }
    }
    forall e | e in EdgesOf(nn) + {(a, b)}
      ensures e in EdgesOf(g)
    {
      if e == (a, b) {
        assert (a, g[a][|nn[a]|]) in EdgesOf(g);
      } else {
        var p, k :| 0 <= p < |nn| && 0 <= k < |nn[p]| && e == (p, nn[p][k]);
        assert (p, g[p][k]) in EdgesOf(g);
      }
    }
  }

  /** Pushing t onto f's list and f onto t's keeps the lists an adjacency
      structure. */
  lemma PushBoth(nn: seq<seq<int>>, f: int, t: int)
    requires Adjacency(nn) && 1 <= f < |nn| && 1 <= t < |nn|
    ensures Adjacency(nn[f := nn[f] + [t]][t := nn[f := nn[f] + [t]][t] + [f]])
  {
    var g1 := nn[f := nn[f] + [t]];
    var g := g1[t := g1[t] + [f]];
    assert f in g[t];
    assert t in g[f];
    forall a, k | 0 <= a < |g| && 0 <= k < |g[a]|
      ensures a in g[g[a][k]]
    {
      var b := g[a][k];
      if k < |nn[a]| {
        assert b == nn[a][k];
        assert a in nn[b];
      }
    }
  }

  /** Graph.h: nextNode[i] lists the neighbours of node i. */
  class Graph {
    var maxNodeId: int
    var nextNode: seq<seq<int>>

    ghost predicate Valid()
      reads this
    {
      maxNodeId >= 0 && |nextNode| == maxNodeId + 1 && Adjacency(nextNode)
    }

    /** The directed pairs stored: each edge appears both ways. */
    ghost function Edges(): set<(int, int)>
      reads this
    {
      EdgesOf(nextNode)
    }

    /** A new graph has no nodes and no edges. */
    constructor()
      ensures Valid() && maxNodeId == 0 && Edges() == {}
    {
      maxNodeId := 0;
      nextNode := [[]];
    }

    /** checkHasNode: the ids 1..maxNodeId are nodes. */
    predicate CheckHasNode(nodeId: int)
      reads this
    {
      1 <= nodeId <= maxNodeId
    }

    /** setMaxNodeId: the node count only grows, one empty list per new
        node, and no edge changes. */
    method SetMaxNodeId(newMaxNodeId: int)
      requires Valid()
      modifies this
      ensures Valid() && maxNodeId == Max(old(maxNodeId), newMaxNodeId)
      ensures nextNode == old(nextNode) + Empties(newMaxNodeId - old(maxNodeId))
      ensures Edges() == old(Edges())
    {
      ghost var n0 := nextNode;
      while maxNodeId < newMaxNodeId
        invariant old(maxNodeId) <= maxNodeId <= Max(old(maxNodeId), newMaxNodeId)
        invariant nextNode == n0 + Empties(maxNodeId - old(maxNodeId)) && |nextNode| == maxNodeId + 1
      {
        maxNodeId := maxNodeId + 1;
        nextNode := nextNode + [[]];
      }
      GrowKeepsEdges(n0, maxNodeId - old(maxNodeId));
    }

    /** addEdge: grow to cover both ends, then, when both are node ids,
        record the edge in both directions; an id below 1 fails. */
    method AddEdge(f: int, t: int) returns (o: Outcome)
      requires Valid()
      modifies this
      ensures Valid() && maxNodeId == Max(Max(old(maxNodeId), f), t)
      ensures o == Pass <==> f >= 1 && t >= 1
      ensures o.Fail? ==> o.error.AssertionFailed? && Edges() == old(Edges())
      ensures o == Pass ==> Edges() == old(Edges()) + {(f, t), (t, f)}
    {
      SetMaxNodeId(f);
      SetMaxNodeId(t);
      if !CheckHasNode(f) || !CheckHasNode(t) {
        return Fail(AssertionFailed("Graph::addEdge"));
      }
      ghost var n0 := nextNode;
      PushBoth(n0, f, t);
      PushEdge(n0, f, t);
      nextNode := nextNode[f := nextNode[f] + [t]];
      PushEdge(nextNode, t, f);
      nextNode := nextNode[t := nextNode[t] + [f]];
      o := Pass;
    }

    /** getNextNode: the neighbours of a node: each is a node that lists it
        back, and every edge from the node is listed. */
    function GetNextNode(nodeId: int): (r: seq<int>)
      reads this
      requires Valid() && CheckHasNode(nodeId)
      ensures forall k :: 0 <= k < |r| ==> CheckHasNode(r[k]) && (nodeId, r[k]) in Edges() && (r[k], nodeId) in Edges()
      ensures forall t :: (nodeId, t) in Edges() ==> t in r
    {
      var r := nextNode[nodeId];
      forall t | (nodeId, t) in Edges()
        ensures t in r
      {
        var a, k :| 0 <= a < |nextNode| && 0 <= k < |nextNode[a]| && (a, nextNode[a][k]) == (nodeId, t);
        assert r[k] == t;
      }
      assert forall k :: 0 <= k < |r| ==> (nodeId, r[k]) in Edges();
      forall k | 0 <= k < |r|
        ensures (r[k], nodeId) in Edges()
      {
        EdgesSymmetric(nextNode, nodeId, r[k]);
      }
      r
    }
  }
}
