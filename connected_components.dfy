// ConnectedComponents: a union-find over the nodes 1..maxNodeId of a
// graph, built by linking every listed edge, and the list of its classes.

module Connectivity {
  import opened Graphs

  /** A walk along edges of E (a single node is a walk). */
  ghost predicate IsPath(edges: set<(int, int)>, p: seq<int>)
  {
    |p| >= 1 && forall k :: 0 <= k < |p| - 1 ==> (p[k], p[k + 1]) in edges
  }

  /** a and b are joined by a walk. */
  ghost predicate Conn(edges: set<(int, int)>, a: int, b: int)
  {
    exists p {:trigger IsPath(edges, p)} :: IsPath(edges, p) && p[0] == a && p[|p| - 1] == b
  }

  lemma ConnRefl(edges: set<(int, int)>, a: int)
    ensures Conn(edges, a, a)
  {
    assert IsPath(edges, [a]);
  }

  lemma ConnEdge(edges: set<(int, int)>, a: int, b: int)
    requires (a, b) in edges
    ensures Conn(edges, a, b)
  {
    assert IsPath(edges, [a, b]);
  }

  lemma ConnTrans(edges: set<(int, int)>, a: int, b: int, c: int)
    requires Conn(edges, a, b) && Conn(edges, b, c)
    ensures Conn(edges, a, c)
  {
    var p :| IsPath(edges, p) && p[0] == a && p[|p| - 1] == b;
    var q :| IsPath(edges, q) && q[0] == b && q[|q| - 1] == c;
    var r := p + q[1..];
    forall k | 0 <= k < |r| - 1
      ensures (r[k], r[k + 1]) in edges
    {
      if k < |p| - 1 {
        assert (p[k], p[k + 1]) in edges;
      } else {
        assert (q[k - |p| + 1], q[k - |p| + 2]) in edges;
      }
    }
    assert IsPath(edges, r);
  }

  lemma ConnMono(edges: set<(int, int)>, more: set<(int, int)>, a: int, b: int)
    requires Conn(edges, a, b) && edges <= more
    ensures Conn(more, a, b)
  {
    var p :| IsPath(edges, p) && p[0] == a && p[|p| - 1] == b;
    assert IsPath(more, p);
  }

  /** Every edge of E joins two indices of tag with equal labels. */
  ghost predicate EdgesKeep(edges: set<(int, int)>, tag: seq<int>)
  {
    forall e :: e in edges ==> 0 <= e.0 < |tag| && 0 <= e.1 < |tag| && tag[e.0] == tag[e.1]
  }

  /** A tag that every edge keeps is constant along a walk. */
  lemma {:induction false} LabelAlong(edges: set<(int, int)>, tag: seq<int>, p: seq<int>)
    requires EdgesKeep(edges, tag) && IsPath(edges, p) && 0 <= p[0] < |tag|
    ensures 0 <= p[|p| - 1] < |tag| && tag[p[|p| - 1]] == tag[p[0]]
    decreases |p|
  {
    if |p| >= 2 {
      assert (p[0], p[1]) in edges;
      var rest := p[1..];
      assert IsPath(edges, rest) by {
        forall k | 0 <= k < |rest| - 1
          ensures (rest[k], rest[k + 1]) in edges
        {
          assert (p[k + 1], p[k + 2]) in edges;
        }
      }
      LabelAlong(edges, tag, rest);
    }
  }

  /** Without edges every node is alone. */
  lemma ConnEmpty(n: int, a: int, b: int)
    requires Conn({}, a, b) && 0 <= a <= n
    ensures a == b
  {
    var none: set<(int, int)> := {};
    var p :| IsPath(none, p) && p[0] == a && p[|p| - 1] == b;
    LabelAlong(none, seq(n + 1, i => i), p);
  }

  /** The union-find forest: f points towards root, root[i] is i's root,
      and dist strictly falls along f, so following f ends at root. */
  ghost predicate Forest(f: seq<int>, root: seq<int>, dist: seq<nat>, n: int)
  {
    && |f| == n + 1 && |root| == n + 1 && |dist| == n + 1
    && forall i :: 1 <= i <= n ==> NodeOk(f, root, dist, n, i)
  }

  /** The forest conditions at node i. */
  ghost predicate NodeOk(f: seq<int>, root: seq<int>, dist: seq<nat>, n: int, i: int)
    requires |f| == n + 1 && |root| == n + 1 && |dist| == n + 1 && 1 <= i <= n
  {
    && 1 <= f[i] <= n && 1 <= root[i] <= n
    && f[root[i]] == root[i] && root[f[i]] == root[i]
    && (f[i] == i ==> root[i] == i)
    && (f[i] != i ==> dist[f[i]] < dist[i] && dist[root[i]] < dist[i])
  }

  /** Equal roots exactly when joined by a walk of linked edges. */
  ghost predicate Partition(root: seq<int>, edges: set<(int, int)>, n: int)
  {
    && |root| == n + 1
    && (forall e :: e in edges ==> 1 <= e.0 <= n && 1 <= e.1 <= n)
    && forall a, b {:trigger Conn(edges, a, b)} :: 1 <= a <= n && 1 <= b <= n ==> (root[a] == root[b] <==> Conn(edges, a, b))
  }

  /** Path compression: pointing x straight at its root keeps the forest. */
  lemma Compress(f: seq<int>, root: seq<int>, dist: seq<nat>, n: int, x: int)
    requires Forest(f, root, dist, n) && 1 <= x <= n
    ensures Forest(f[x := root[x]], root, dist, n)
  {
    var f' := f[x := root[x]];
    assert NodeOk(f, root, dist, n, x);
    assert NodeOk(f, root, dist, n, root[x]);
    forall i | 1 <= i <= n
      ensures NodeOk(f', root, dist, n, i)
    {
      assert NodeOk(f, root, dist, n, i);
      assert NodeOk(f, root, dist, n, root[i]);
    }
  }

  ghost function Relabel(root: seq<int>, rx: int, ry: int): (r: seq<int>)
    ensures |r| == |root|
    ensures forall i :: 0 <= i < |root| ==> r[i] == if root[i] == rx then ry else root[i]
  {
    seq(|root|, i requires 0 <= i < |root| => if root[i] == rx then ry else root[i])
  }

  ghost function Shift(dist: seq<nat>, root: seq<int>, rx: int, k: nat): (r: seq<nat>)
    requires |root| == |dist|
    ensures |r| == |dist|
    ensures forall i :: 0 <= i < |dist| ==> r[i] == if root[i] == rx then dist[i] + k else dist[i]
  {
    seq(|dist|, i requires 0 <= i < |dist| => if root[i] == rx then dist[i] + k else dist[i])
  }

  /** Hanging root rx under root ry keeps a forest, with rx's tree relabelled
      and pushed below ry. */
  lemma Hang(f: seq<int>, root: seq<int>, dist: seq<nat>, n: int, rx: int, ry: int)
    requires Forest(f, root, dist, n) && 1 <= rx <= n && 1 <= ry <= n && rx != ry
    requires f[rx] == rx && f[ry] == ry
    ensures Forest(f[rx := ry], Relabel(root, rx, ry), Shift(dist, root, rx, dist[ry] + 1), n)
  {
    var f', root', dist' := f[rx := ry], Relabel(root, rx, ry), Shift(dist, root, rx, dist[ry] + 1);
    assert NodeOk(f, root, dist, n, rx) && NodeOk(f, root, dist, n, ry);
    assert root[rx] == rx && root[ry] == ry;
    forall i | 1 <= i <= n
      ensures NodeOk(f', root', dist', n, i)
    {
      assert NodeOk(f, root, dist, n, i);
      assert NodeOk(f, root, dist, n, root[i]) && NodeOk(f, root, dist, n, f[i]);
      if i != rx && root[i] == rx {
        assert f[i] != i;
      }
    }
  }

  lemma PartitionEdges(root: seq<int>, edges: set<(int, int)>, n: int)
    requires Partition(root, edges, n)
    ensures EdgesKeep(edges, root)
  {
    forall e | e in edges
      ensures root[e.0] == root[e.1]
    {
      ConnEdge(edges, e.0, e.1);
    }
  }

  /** Linking x and y whose roots already agree keeps the partition. */
  lemma LinkSame(root: seq<int>, edges: set<(int, int)>, n: int, x: int, y: int)
    requires Partition(root, edges, n) && 1 <= x <= n && 1 <= y <= n && root[x] == root[y]
    ensures Partition(root, edges + {(x, y), (y, x)}, n)
  {
    var more := edges + {(x, y), (y, x)};
    PartitionEdges(root, edges, n);
    assert EdgesKeep(more, root);
    forall a, b | 1 <= a <= n && 1 <= b <= n
      ensures root[a] == root[b] <==> Conn(more, a, b)
    {
      if root[a] == root[b] {
        ConnMono(edges, more, a, b);
      }
      if Conn(more, a, b) {
        var p :| IsPath(more, p) && p[0] == a && p[|p| - 1] == b;
        LabelAlong(more, root, p);
      }
    }
  }

  /** Linking x and y with distinct roots rx, ry (in either orientation)
      merges exactly their two classes. */
  lemma LinkMerge(root: seq<int>, edges: set<(int, int)>, n: int, x: int, y: int, rx: int, ry: int)
    requires Partition(root, edges, n) && 1 <= x <= n && 1 <= y <= n
    requires (rx == root[x] && ry == root[y]) || (rx == root[y] && ry == root[x])
    requires rx != ry
    ensures Partition(Relabel(root, rx, ry), edges + {(x, y), (y, x)}, n)
  {
    var more := edges + {(x, y), (y, x)};
    var root' := Relabel(root, rx, ry);
    PartitionEdges(root, edges, n);
    assert EdgesKeep(more, root');
    forall a, b | 1 <= a <= n && 1 <= b <= n
      ensures root'[a] == root'[b] <==> Conn(more, a, b)
    {
      if root'[a] == root'[b] {
        if root[a] == root[b] {
          ConnMono(edges, more, a, b);
        } else {
          // a and b lie in the two merged classes; go through the new edge.
          var u := if root[x] == root[a] then x else y;
          var v := if u == x then y else x;
          assert root[u] == root[a] && root[v] == root[b];
          ConnMono(edges, more, a, u);
          ConnEdge(more, u, v);
          ConnMono(edges, more, v, b);
          ConnTrans(more, a, u, v);
          ConnTrans(more, a, v, b);
        }
      }
      if Conn(more, a, b) {
        var p :| IsPath(more, p) && p[0] == a && p[|p| - 1] == b;
        LabelAlong(more, root', p);
      }
    }
  }

  /** At the start every node is its own root. */
  lemma Singletons(n: int)
    requires n >= 0
    ensures Partition(seq(n + 1, i => i), {}, n)
  {
    var root: seq<int> := seq(n + 1, i => i);
    forall a, b | 1 <= a <= n && 1 <= b <= n
      ensures root[a] == root[b] <==> Conn({}, a, b)
    {
      if a == b {
        ConnRefl({}, a);
      }
      if Conn({}, a, b) {
        ConnEmpty(n, a, b);
      }
    }
  }

  /** The union-find state: a forest whose roots partition the nodes by
      connectivity. */
  ghost predicate UnionFind(f: seq<int>, root: seq<int>, dist: seq<nat>, edges: set<(int, int)>, n: int)
  {
    n >= 0 && Forest(f, root, dist, n) && Partition(root, edges, n)
  }

  /** link with distinct roots: hang rx under ry. */
  lemma HookKeeps(f: seq<int>, root: seq<int>, dist: seq<nat>, edges: set<(int, int)>, n: int,
                  x: int, y: int, rx: int, ry: int)
    requires UnionFind(f, root, dist, edges, n) && 1 <= x <= n && 1 <= y <= n
    requires (rx == root[x] && ry == root[y]) || (rx == root[y] && ry == root[x])
    requires rx != ry && 1 <= rx <= n && 1 <= ry <= n
    ensures UnionFind(f[rx := ry], Relabel(root, rx, ry), Shift(dist, root, rx, dist[ry] + 1),
                      edges + {(x, y), (y, x)}, n)
  {
    assert NodeOk(f, root, dist, n, x) && NodeOk(f, root, dist, n, y);
    Hang(f, root, dist, n, rx, ry);
    LinkMerge(root, edges, n, x, y, rx, ry);
  }

  /** link with equal roots: only the edge is recorded. */
  lemma SameKeeps(f: seq<int>, root: seq<int>, dist: seq<nat>, edges: set<(int, int)>, n: int, x: int, y: int)
    requires UnionFind(f, root, dist, edges, n) && 1 <= x <= n && 1 <= y <= n && root[x] == root[y]
    ensures UnionFind(f, root, dist, edges + {(x, y), (y, x)}, n)
  {
    LinkSame(root, edges, n, x, y);
  }

  /** The nodes below i whose root is r. */
  ghost function Class(root: seq<int>, r: int, i: int): set<int>
  {
    set a | 1 <= a < i && a < |root| && root[a] == r
  }

  /** Node a lies in one of the sets of cc. */
  ghost predicate Covered(cc: seq<set<int>>, a: int)
  {
    exists k :: 0 <= k < |cc| && a in cc[k]
  }

  /** s is a connected component among the nodes 1..n: any two of its
      members are joined by a walk, and whatever a member reaches is in s. */
  ghost predicate IsComponent(edges: set<(int, int)>, n: int, s: set<int>)
  {
    && (forall a, b :: a in s && b in s ==> Conn(edges, a, b))
    && (forall a, b :: a in s && 1 <= b <= n && Conn(edges, a, b) ==> b in s)
  }

  /** cc lists the connected components of the graph with edges E on the
      nodes 1..n: non-empty sets of nodes, pairwise disjoint, covering every
      node, each one a component. */
  ghost predicate Components(edges: set<(int, int)>, n: int, cc: seq<set<int>>)
  {
    && (forall k :: 0 <= k < |cc| ==> cc[k] != {} && (forall a :: a in cc[k] ==> 1 <= a <= n))
    && (forall a :: 1 <= a <= n ==> Covered(cc, a))
    && (forall p, q :: 0 <= p < q < |cc| ==> cc[p] !! cc[q])
    && (forall k :: 0 <= k < |cc| ==> IsComponent(edges, n, cc[k]))
  }

  lemma SomeMember(s: set<int>)
    ensures s == {} || exists a :: a in s
  {
    if forall a :: a !in s {
      assert s == {};
    }
  }

  /** Whatever order the classes come in, the same sets are listed: the
      random orientation of links cannot change the answer. */
  lemma ComponentsUnique(edges: set<(int, int)>, n: int, cc: seq<set<int>>, dd: seq<set<int>>)
    requires Components(edges, n, cc) && Components(edges, n, dd)
    ensures forall k :: 0 <= k < |cc| ==> cc[k] in dd
  {
    forall k | 0 <= k < |cc|
      ensures cc[k] in dd
    {
      SomeMember(cc[k]);
      var a :| a in cc[k];
      assert Covered(dd, a);
      var l :| 0 <= l < |dd| && a in dd[l];
      assert IsComponent(edges, n, cc[k]) && IsComponent(edges, n, dd[l]);
      forall b | b in cc[k]
        ensures b in dd[l]
      {
        assert Conn(edges, a, b);
      }
      forall b | b in dd[l]
        ensures b in cc[k]
      {
        assert Conn(edges, a, b);
      }
      assert cc[k] == dd[l];
    }
  }

  /** Every root lies in 1..n and is its own root. */
  lemma RootsInRange(f: seq<int>, root: seq<int>, dist: seq<nat>, n: int)
    requires Forest(f, root, dist, n)
    ensures forall i :: 1 <= i <= n ==> 1 <= root[i] <= n
  {
    forall i | 1 <= i <= n
      ensures 1 <= root[i] <= n
    {
      assert NodeOk(f, root, dist, n, i);
    }
  }

  /** A root class is a connected component. */
  lemma ClassIsComponent(root: seq<int>, edges: set<(int, int)>, n: int, r: int)
    requires Partition(root, edges, n)
    ensures IsComponent(edges, n, Class(root, r, n + 1))
  {
    var s := Class(root, r, n + 1);
    forall a, b | a in s && b in s
      ensures Conn(edges, a, b)
    {
    }
    forall a, b | a in s && 1 <= b <= n && Conn(edges, a, b)
      ensures b in s
    {
    }
  }

  /** ConnectedComponents.h: the union-find over a graph's nodes. */
  class ConnectedComponents {
    const fa: array<int>
    const maxNodeId: int
    /** Each node's root, a bound on its distance above the root, and the
        edges linked so far. */
    ghost var root: seq<int>
    ghost var dist: seq<nat>
    ghost var edges: set<(int, int)>

    ghost predicate Valid()
      reads this, fa
    {
      fa.Length == maxNodeId + 1 && UnionFind(fa[..], root, dist, edges, maxNodeId)
    }

    /** Every node starts as its own root; then construct_all links each
        edge of the graph. */
    constructor(ag: Graph)
      requires ag.Valid()
      ensures Valid() && fresh(fa) && maxNodeId == ag.maxNodeId && edges == ag.Edges()
    {
      maxNodeId := ag.maxNodeId;
      fa := new int[ag.maxNodeId + 1];
      new;
      for i := 1 to maxNodeId + 1
        invariant forall k :: 1 <= k < i ==> fa[k] == k
      {
        fa[i] := i;
      }
      root := seq(maxNodeId + 1, i => i);
      dist := seq(maxNodeId + 1, i => 0);
      edges := {};
      Singletons(maxNodeId);
      ConstructAll(ag);
    }

    /** find: the root of x, compressing the path to it. */
    method Find(x: int) returns (r: int)
      requires Valid() && 1 <= x <= maxNodeId
      modifies fa
      ensures Valid() && r == root[x] && 1 <= r <= maxNodeId
      decreases dist[x]
    {
      assert NodeOk(fa[..], root, dist, maxNodeId, x);
      if fa[x] == x {
        return x;
      }
      r := Find(fa[x]);
      Compress(fa[..], root, dist, maxNodeId, x);
      fa[x] := r;
    }

    /** link: join the classes of x and y; which root goes under the other
        is a coin toss. */
    method Link(x: int, y: int)
      requires Valid() && 1 <= x <= maxNodeId && 1 <= y <= maxNodeId
      modifies this, fa
      ensures Valid() && edges == old(edges) + {(x, y), (y, x)}
    {
      var rx := Find(x);
      var ry := Find(y);
      ghost var f := fa[..];
      if rx != ry {
        var swap: bool :| true;
        if swap {
          rx, ry := ry, rx;
        }
        HookKeeps(f, root, dist, edges, maxNodeId, x, y, rx, ry);
        root, dist, edges := Relabel(root, rx, ry), Shift(dist, root, rx, dist[ry] + 1), edges + {(x, y), (y, x)};
        fa[rx] := ry;
        assert fa[..] == f[rx := ry];
      } else {
        SameKeeps(f, root, dist, edges, maxNodeId, x, y);
        edges := edges + {(x, y), (y, x)};
      }
    }

    /** The inner loop of construct_all: link node i with each of next,
        whose edges all lie within bound. */
    method LinkEach(i: int, next: seq<int>, ghost bound: set<(int, int)>)
      requires Valid() && 1 <= i <= maxNodeId && edges <= bound
      requires forall l :: 0 <= l < |next| ==> 1 <= next[l] <= maxNodeId && (i, next[l]) in bound && (next[l], i) in bound
      modifies this, fa
      ensures Valid() && old(edges) <= edges <= bound
      ensures forall l :: 0 <= l < |next| ==> (i, next[l]) in edges
    {
      for k := 0 to |next|
        invariant Valid() && old(edges) <= edges <= bound
        invariant forall l :: 0 <= l < k ==> (i, next[l]) in edges
      {
        Link(i, next[k]);
      }
    }

    /** construct_all: link every node with each of its neighbours. */
    method ConstructAll(ag: Graph)
      requires Valid() && ag.Valid() && ag.maxNodeId == maxNodeId && edges == {}
      modifies this, fa
      ensures Valid() && edges == ag.Edges()
    {
      for i := 1 to maxNodeId + 1
        invariant Valid() && edges <= ag.Edges()
        invariant forall a, k :: 1 <= a < i && 0 <= k < |ag.nextNode[a]| ==> (a, ag.nextNode[a][k]) in edges
      {
        var next := ag.GetNextNode(i);
        LinkEach(i, next, ag.Edges());
      }
      forall e | e in ag.Edges()
        ensures e in edges
      {
        var a, k :| 0 <= a < |ag.nextNode| && 0 <= k < |ag.nextNode[a]| && e == (a, ag.nextNode[a][k]);
      }
    }

    /** getConnectedComponents: one bucket per root, then the non-empty
        buckets in root order. */
    method GetConnectedComponents() returns (cc: seq<set<int>>)
      requires Valid()
      modifies fa
      ensures Valid() && Components(edges, maxNodeId, cc)
    {
      var ans: seq<set<int>> := [];
      while |ans| - 1 < maxNodeId
        invariant |ans| <= maxNodeId + 1
        invariant forall r :: 0 <= r < |ans| ==> ans[r] == {}
      {
        ans := ans + [{}];
      }
      for i := 1 to maxNodeId + 1
        invariant Valid() && |ans| == maxNodeId + 1
        invariant forall r :: 0 <= r < |ans| ==> ans[r] == Class(root, r, i)
      {
        var r := Find(i);
        ans := ans[r := ans[r] + {i}];
      }
      ghost var idx;
      cc, idx := NonEmpty(ans, maxNodeId);
      RootsInRange(fa[..], root, dist, maxNodeId);
      ClassesAreComponents(root, edges, maxNodeId, ans, cc, idx);
    }
  }

  /** idx[k] is the bucket cc[k] came from: increasing, and every non-empty
      bucket 1..i-1 is picked. */
  ghost predicate Picks(ans: seq<set<int>>, cc: seq<set<int>>, idx: seq<int>, i: int)
  {
    && |idx| == |cc|
    && (forall k :: 0 <= k < |idx| ==> 1 <= idx[k] < i && idx[k] < |ans| && cc[k] == ans[idx[k]] && cc[k] != {})
    && (forall p, q :: 0 <= p < q < |idx| ==> idx[p] < idx[q])
    && (forall r :: 1 <= r < i && r < |ans| && ans[r] != {} ==> r in idx)
  }

  /** The second loop of getConnectedComponents: the non-empty buckets 1..n
      in order; idx says which bucket each came from. */
  method NonEmpty(ans: seq<set<int>>, n: int) returns (cc: seq<set<int>>, ghost idx: seq<int>)
    requires n >= 0 && |ans| == n + 1
    ensures Picks(ans, cc, idx, n + 1)
  {
    cc, idx := [], [];
    for i := 1 to n + 1
      invariant Picks(ans, cc, idx, i)
    {
      if |ans[i]| > 0 {
        cc := cc + [ans[i]];
        idx := idx + [i];
      }
    }
  }

  /** The non-empty root classes, in increasing root order, are the
      connected components. */
  lemma ClassesAreComponents(root: seq<int>, edges: set<(int, int)>, n: int, ans: seq<set<int>>, cc: seq<set<int>>, idx: seq<int>)
    requires Partition(root, edges, n) && |ans| == n + 1
    requires forall i :: 1 <= i <= n ==> 1 <= root[i] <= n
    requires forall r :: 0 <= r < |ans| ==> ans[r] == Class(root, r, n + 1)
    requires Picks(ans, cc, idx, n + 1)
    ensures Components(edges, n, cc)
  {
    forall a | 1 <= a <= n
      ensures Covered(cc, a)
    {
      var r := root[a];
      assert a in ans[r];
      var k :| 0 <= k < |idx| && idx[k] == r;
      assert a in cc[k];
    }
    forall p, q | 0 <= p < q < |cc|
      ensures cc[p] !! cc[q]
    {
      assert idx[p] < idx[q];
    }
    forall k | 0 <= k < |cc|
      ensures IsComponent(edges, n, cc[k])
    {
      ClassIsComponent(root, edges, n, idx[k]);
    }
  }
}
