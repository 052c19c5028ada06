// BfsAlgo: the breadth-first flood fill over a 0/1 grid (0 free, 1 an
// obstacle, everything outside the grid an obstacle), and the walks that
// say what it computes.

module Bfs {
  import opened Wrappers
  import opened Matrices

  /** A cell (row, column). */
  type Pos = (int, int)

  /** A cell the flood may enter: inside the matrix and 0. */
  predicate Free(m: Matrix, c: Pos)
  {
    InBounds(m, c.0, c.1) && m.cells[c.0][c.1] == 0
  }

  predicate Adjacent(a: Pos, b: Pos)
  {
    || (a.0 == b.0 && (a.1 - b.1 == 1 || b.1 - a.1 == 1))
    || (a.1 == b.1 && (a.0 - b.0 == 1 || b.0 - a.0 == 1))
  }

  /** A walk: free cells, each a 4-neighbour of the one before. */
  ghost predicate IsWalk(m: Matrix, w: seq<Pos>)
  {
    && |w| >= 1
    && (forall k :: 0 <= k < |w| ==> Free(m, w[k]))
    && (forall k :: 0 <= k < |w| - 1 ==> Adjacent(w[k], w[k + 1]))
  }

  /** c can be reached from s by 4-neighbour steps over free cells. */
  ghost predicate Reachable(m: Matrix, s: Pos, c: Pos)
  {
    exists w {:trigger IsWalk(m, w)} :: IsWalk(m, w) && w[0] == s && w[|w| - 1] == c
  }

  /** A set no step over free cells leaves. */
  ghost predicate Closed(m: Matrix, S: set<Pos>)
  {
    forall c, d :: c in S && Adjacent(c, d) && Free(m, d) ==> d in S
  }

  /** Every cell reachable from a member of a closed set is in the set. */
  lemma ReachableInClosed(m: Matrix, S: set<Pos>, s: Pos, c: Pos)
    requires s in S && Closed(m, S) && Reachable(m, s, c)
    ensures c in S
  {
    var w :| IsWalk(m, w) && w[0] == s && w[|w| - 1] == c;
    var k := 0;
    while k < |w| - 1
      invariant 0 <= k < |w| && w[k] in S
    {
      assert Adjacent(w[k], w[k + 1]) && Free(m, w[k + 1]);
      k := k + 1;
    }
  }

  function Step(c: Pos, o: Pos): Pos
  {
    (c.0 + o.0, c.1 + o.1)
  }

  /** The four unit steps, in some order. */
  ghost predicate UnitSteps(steps: seq<Pos>)
  {
    |steps| == 4 && forall o :: o in steps <==> o in {(1, 0), (-1, 0), (0, 1), (0, -1)}
  }

  /** Adjacent cells are exactly one of the four steps apart. */
  lemma AdjacentStep(steps: seq<Pos>, c: Pos, d: Pos)
    requires UnitSteps(steps) && Adjacent(c, d)
    ensures exists k :: 0 <= k < 4 && d == Step(c, steps[k])
  {
    var o := (d.0 - c.0, d.1 - c.1);
    assert o in steps;
    var k :| 0 <= k < 4 && steps[k] == o;
    assert d == Step(c, steps[k]);
  }

  lemma StepAdjacent(steps: seq<Pos>, c: Pos, k: int)
    requires UnitSteps(steps) && 0 <= k < 4
    ensures Adjacent(c, Step(c, steps[k]))
  {
    assert steps[k] in steps;
  }

  /** Extending a walk by one adjacent free cell. */
  lemma WalkSnoc(m: Matrix, w: seq<Pos>, d: Pos)
    requires IsWalk(m, w) && Adjacent(w[|w| - 1], d) && Free(m, d)
    ensures IsWalk(m, w + [d])
  {
  }

  /** A walk to c extends by one step to any free neighbour of c. */
  lemma ReachableStep(m: Matrix, s: Pos, c: Pos, d: Pos)
    requires Reachable(m, s, c) && Adjacent(c, d) && Free(m, d)
    ensures Reachable(m, s, d)
  {
    var w :| IsWalk(m, w) && w[0] == s && w[|w| - 1] == c;
    WalkSnoc(m, w, d);
    assert (w + [d])[0] == s;
  }

  /** The cells a 0/1 matrix marks with 1. */
  ghost function Marked(v: Matrix): set<Pos>
  {
    set i, j | 0 <= i < v.rcnt && 0 <= j < v.ccnt && v.cells[i][j] == 1 :: (i, j)
  }

  /** Setting one more cell to 1 adds exactly that cell to the marks. */
  lemma MarkOne(v: Matrix, v': Matrix, d: Pos)
    requires v'.rcnt == v.rcnt && v'.ccnt == v.ccnt && InBounds(v, d.0, d.1)
    requires v'.cells[d.0][d.1] == 1
    requires forall a, b :: InBounds(v, a, b) && (a, b) != d ==> v'.cells[a][b] == v.cells[a][b]
    ensures Marked(v') == Marked(v) + {d}
  {
    forall c | c in Marked(v) + {d}
      ensures c in Marked(v')
    {
      assert v'.cells[c.0][c.1] == 1;
    }
  }

  /** The cells not yet marked. */
  ghost function Unmarked(m: Matrix, marked: set<Pos>): set<Pos>
  {
    set i, j | 0 <= i < m.rcnt && 0 <= j < m.ccnt && (i, j) !in marked :: (i, j)
  }

  lemma UnmarkedShrinks(m: Matrix, marked: set<Pos>, d: Pos)
    requires InBounds(m, d.0, d.1) && d !in marked
    ensures Unmarked(m, marked + {d}) < Unmarked(m, marked)
  {
    assert d in Unmarked(m, marked);
  }

  /** The offsets BfsAlgo::search tries, as (row, column) steps. */
  const BfsSteps: seq<Pos> := [(1, 0), (-1, 0), (0, 1), (0, -1)]

  /** The search state: every marked cell is free and reachable from the
      start, and the queue holds marked cells. */
  ghost predicate Searching(g: Matrix, s: Pos, vis: Matrix, q: seq<Pos>)
  {
    && vis.rcnt == g.rcnt && vis.ccnt == g.ccnt
    && (forall c :: c in Marked(vis) ==> Free(g, c) && Reachable(g, s, c))
    && (forall k :: 0 <= k < |q| ==> q[k] in Marked(vis))
  }

  /** Every marked cell other than `skip` that has left the queue has its
      free neighbours marked. */
  ghost predicate Expanded(g: Matrix, marked: set<Pos>, q: seq<Pos>, skip: Option<Pos>)
  {
    forall c, d :: c in marked && c !in q && Some(c) != skip && Adjacent(c, d) && Free(g, d) ==> d in marked
  }

  /** Marking d and queueing it keeps every expanded cell expanded. */
  lemma ExpandedGrows(g: Matrix, M: set<Pos>, M': set<Pos>, q: seq<Pos>, q': seq<Pos>, c: Pos, d: Pos)
    requires Expanded(g, M, q, Some(c))
    requires (M' == M && q' == q) || (M' == M + {d} && q' == q + [d])
    ensures Expanded(g, M', q', Some(c))
  {
    forall c1, d1 | c1 in M' && c1 !in q' && Some(c1) != Some(c) && Adjacent(c1, d1) && Free(g, d1)
      ensures d1 in M'
    {
      assert c1 in M && c1 !in q;
    }
  }

  /** Once all four neighbours of c are marked where free, c is expanded
      too. */
  lemma ExpandedHead(steps: seq<Pos>, g: Matrix, M: set<Pos>, q: seq<Pos>, c: Pos)
    requires UnitSteps(steps) && Expanded(g, M, q, Some(c))
    requires forall k :: 0 <= k < 4 && Free(g, Step(c, steps[k])) ==> Step(c, steps[k]) in M
    ensures Expanded(g, M, q, None)
  {
    forall c1, d1 | c1 in M && c1 !in q && Adjacent(c1, d1) && Free(g, d1)
      ensures d1 in M
    {
      if c1 == c {
        AdjacentStep(steps, c, d1);
      }
    }
  }

  /** The state of the expansion of c after its first k neighbours have
      been tried: the marks only grew from M0, the queue only grew from q0,
      and those neighbours are marked where free. */
  ghost predicate Stage(steps: seq<Pos>, g: Matrix, s: Pos, v: Matrix, q: seq<Pos>, c: Pos, k: int, M0: set<Pos>, q0: seq<Pos>)
  {
    && Searching(g, s, v, q) && c in Marked(v) && M0 <= Marked(v)
    && Expanded(g, Marked(v), q, Some(c))
    && (forall k1 :: 0 <= k1 < k && k1 < |steps| && Free(g, Step(c, steps[k1])) ==> Step(c, steps[k1]) in Marked(v))
    && ((Marked(v) == M0 && q == q0) || Unmarked(g, Marked(v)) < Unmarked(g, M0))
  }

  /** One neighbour d of the cell c being expanded: mark it and queue it
      when it is free and unmarked. */
  method Mark(ghost g: Matrix, ghost s: Pos, vis: ZeroOneMatrix, q: seq<Pos>, c: Pos, d: Pos, free: bool)
    returns (q': seq<Pos>)
    requires vis.Valid() && Searching(g, s, vis.Value(), q) && Expanded(g, Marked(vis.Value()), q, Some(c))
    requires c in Marked(vis.Value()) && Adjacent(c, d) && free == Free(g, d)
    modifies vis.base
    ensures vis.Valid() && Searching(g, s, vis.Value(), q') && Expanded(g, Marked(vis.Value()), q', Some(c))
    ensures Marked(old(vis.Value())) <= Marked(vis.Value())
    ensures Free(g, d) ==> d in Marked(vis.Value())
    ensures (Marked(vis.Value()) == Marked(old(vis.Value())) && q' == q) ||
            Unmarked(g, Marked(vis.Value())) < Unmarked(g, Marked(old(vis.Value())))
  {
    q' := q;
    if !free || vis.GetPos(d.0, d.1) == 1 {
      if free {
        assert vis.Value().cells[d.0][d.1] == 1;
      }
      return;
    }
    ghost var v0 := vis.Value();
    assert d !in Marked(v0);
    vis.SetPos(d.0, d.1, 1);
    MarkOne(v0, vis.Value(), d);
    ReachableStep(g, s, c, d);
    q' := q + [d];
    ExpandedGrows(g, Marked(v0), Marked(vis.Value()), q, q', c, d);
    UnmarkedShrinks(g, Marked(v0), d);
  }

  /** What Mark does to the marks and the queue takes the expansion of c
      from stage k to stage k + 1. */
  lemma StageNext(steps: seq<Pos>, g: Matrix, s: Pos, v: Matrix, v': Matrix, q: seq<Pos>, q': seq<Pos>, c: Pos, k: int,
                  M0: set<Pos>, q0: seq<Pos>)
    requires 0 <= k < |steps| && Stage(steps, g, s, v, q, c, k, M0, q0)
    requires Searching(g, s, v', q') && Expanded(g, Marked(v'), q', Some(c))
    requires Marked(v) <= Marked(v')
    requires Free(g, Step(c, steps[k])) ==> Step(c, steps[k]) in Marked(v')
    requires (Marked(v') == Marked(v) && q' == q) || Unmarked(g, Marked(v')) < Unmarked(g, Marked(v))
    ensures Stage(steps, g, s, v', q', c, k + 1, M0, q0)
  {
    forall k1 | 0 <= k1 < k + 1 && Free(g, Step(c, steps[k1]))
      ensures Step(c, steps[k1]) in Marked(v')
    {
      if k1 < k {
        assert Step(c, steps[k1]) in Marked(v);
      }
    }
  }

  /** Trying the k-th neighbour of c, as one turn of the loop over the
      four steps. */
  method Visit(g: Matrix, ghost s: Pos, vis: ZeroOneMatrix, q: seq<Pos>, c: Pos, k: int,
               ghost M0: set<Pos>, ghost q0: seq<Pos>)
    returns (q': seq<Pos>)
    requires 0 <= k < 4 && vis.Valid() && Stage(BfsSteps, g, s, vis.Value(), q, c, k, M0, q0)
    modifies vis.base
    ensures vis.Valid() && Stage(BfsSteps, g, s, vis.Value(), q', c, k + 1, M0, q0)
  {
    StepAdjacent(BfsSteps, c, k);
    var d := Step(c, BfsSteps[k]);
    ghost var v0 := vis.Value();
    q' := Mark(g, s, vis, q, c, d, WrapAt(1, g, d.0, d.1) == 0);
    StageNext(BfsSteps, g, s, v0, vis.Value(), q, q', c, k, M0, q0);
  }

  /** The body of the search loop for the cell c just taken off the queue:
      try its four neighbours, after which c's free neighbours are all
      marked. */
  method Expand(g: Matrix, ghost s: Pos, vis: ZeroOneMatrix, c: Pos, q: seq<Pos>) returns (q': seq<Pos>)
    requires vis.Valid() && Searching(g, s, vis.Value(), q) && c in Marked(vis.Value())
    requires Expanded(g, Marked(vis.Value()), q, Some(c))
    modifies vis.base
    ensures vis.Valid() && Searching(g, s, vis.Value(), q')
    ensures Expanded(g, Marked(vis.Value()), q', None)
    ensures Marked(old(vis.Value())) <= Marked(vis.Value())
    ensures (Marked(vis.Value()) == Marked(old(vis.Value())) && q' == q) ||
            Unmarked(g, Marked(vis.Value())) < Unmarked(g, Marked(old(vis.Value())))
  {
    ghost var M0 := Marked(vis.Value());
    q' := q;
    var k := 0;
    while k < 4
      invariant 0 <= k <= 4 && vis.Valid() && Stage(BfsSteps, g, s, vis.Value(), q', c, k, M0, q)
    {
      q' := Visit(g, s, vis, q', c, k, M0, q);
      k := k + 1;
    }
    ExpandedHead(BfsSteps, g, Marked(vis.Value()), q', c);
  }

  /** A finished search: the marks are exactly the reachable cells. */
  lemma SearchDone(g: Matrix, s: Pos, v: Matrix)
    requires Searching(g, s, v, []) && Expanded(g, Marked(v), [], None) && s in Marked(v)
    ensures forall i, j :: InBounds(g, i, j) ==> (v.cells[i][j] == 1 <==> Reachable(g, s, (i, j)))
  {
    forall i, j | InBounds(g, i, j)
      ensures v.cells[i][j] == 1 <==> Reachable(g, s, (i, j))
    {
      if v.cells[i][j] == 1 {
        assert (i, j) in Marked(v);
      }
      if Reachable(g, s, (i, j)) {
        ReachableInClosed(g, Marked(v), s, (i, j));
      }
    }
  }

  /** Marking the free start cell in a matrix of zeros starts the search. */
  lemma SearchStart(g: Matrix, s: Pos, v0: Matrix, v: Matrix)
    requires Free(g, s) && v0 == Zeros(g.rcnt, g.ccnt)
    requires v.rcnt == g.rcnt && v.ccnt == g.ccnt && v.cells[s.0][s.1] == 1
    requires forall a, b :: InBounds(v, a, b) && (a, b) != s ==> v.cells[a][b] == v0.cells[a][b]
    ensures Searching(g, s, v, [s]) && Expanded(g, Marked(v), [s], None) && s in Marked(v)
  {
    MarkOne(v0, v, s);
    assert forall i, j :: InBounds(v0, i, j) ==> v0.cells[i][j] == 0;
    assert Marked(v0) == {};
    assert IsWalk(g, [s]);
  }

  /** BfsAlgo::search: the marked cells are exactly the cells reachable
      from the start over free cells; the start must be a free cell. */
  method Search(graph: ZeroOneMatrix, x: int, y: int) returns (vis: ZeroOneMatrix)
    requires graph.Valid() && InBounds(graph.Value(), x, y)
    requires graph.Value().cells[x][y] == 0
    ensures fresh(vis) && fresh(vis.base) && vis.Valid()
    ensures vis.Value().rcnt == graph.Value().rcnt && vis.Value().ccnt == graph.Value().ccnt
    ensures vis.Value().cells[x][y] == 1
    ensures forall i, j :: InBounds(graph.Value(), i, j) ==>
              (vis.Value().cells[i][j] == 1 <==> Reachable(graph.Value(), (x, y), (i, j)))
  {
    var g := graph.Value();
    vis := new ZeroOneMatrix(g.rcnt, g.ccnt);
    var q := [(x, y)];
    ghost var v0 := vis.Value();
    vis.SetPos(x, y, 1);
    SearchStart(g, (x, y), v0, vis.Value());
    while q != []
      invariant vis.Valid() && fresh(vis) && fresh(vis.base)
      invariant Searching(g, (x, y), vis.Value(), q)
      invariant Expanded(g, Marked(vis.Value()), q, None) && (x, y) in Marked(vis.Value())
      decreases Unmarked(g, Marked(vis.Value())), |q|
    {
      var c := q[0];
      q := Expand(g, (x, y), vis, c, q[1..]);
    }
    SearchDone(g, (x, y), vis.Value());
    assert (x, y) in Marked(vis.Value());
  }
}
