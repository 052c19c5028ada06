// SpfaPathEngine: a shortest-path search (SPFA, a queue-based Bellman-Ford)
// over states (x, y, heading), confined by a Margin view, followed by the
// reconstruction of the route as a chain of axis-parallel segments.
// Costs are kept in tenths: a forward step costs 1.0 = 10, a turn 0.1 = 1.

module SpfaPath {
  import opened Wrappers
  import opened Directions
  import opened Coord2dPosition
  import opened LineData
  import opened SortedSets
  import opened PixelGraph
  import opened GraphViews

  /** A search state: a cell and the heading the route has there. */
  datatype State = State(x: int, y: int, h: Direction)

  /** One entry of getNextPos: a successor state and the cost of reaching it. */
  datatype Move = Move(to: State, cost: nat)

  const ForwardCost: nat := 10
  const TurnCost: nat := 1

  /** One step along the current heading. */
  function Forward(s: State): (t: State)
    ensures t.h == s.h && (t.x != s.x || t.y != s.y)
  {
    DeltaProperties(s.h);
    var d := DeltaByDirection(s.h);
    State(s.x + d.x, s.y + d.y, s.h)
  }

  /** The transitions of the search: step forward, or turn in place to
      another heading. */
  predicate IsMove(s: State, t: State)
  {
    t == Forward(s) || (t.x == s.x && t.y == s.y && t.h != s.h)
  }

  function Cost(s: State, t: State): nat
  {
    if t.x == s.x && t.y == s.y then TurnCost else ForwardCost
  }

  /** getNextPos: the forward step first, then the three turns in enum
      order; exactly the transitions out of `s`, each with its cost. */
  method GetNextPos(s: State) returns (ans: seq<Move>)
    ensures |ans| == 4 && ans[0] == Move(Forward(s), ForwardCost)
    ensures forall m :: m in ans ==> IsMove(s, m.to) && m.cost == Cost(s, m.to)
    ensures forall t :: IsMove(s, t) ==> Move(t, Cost(s, t)) in ans
  {
    var delta := DeltaByDirection(s.h);
    ans := [Move(State(s.x + delta.x, s.y + delta.y, s.h), ForwardCost)];
    for i := 0 to 4
      invariant |ans| == 1 + i - (if s.h in AllDirections[..i] then 1 else 0)
      invariant ans[0] == Move(Forward(s), ForwardCost)
      invariant forall k :: 1 <= k < |ans| ==>
                  ans[k].to.x == s.x && ans[k].to.y == s.y && ans[k].to.h != s.h && ans[k].cost == TurnCost
      invariant forall k :: 0 <= k < i && AllDirections[k] != s.h ==>
                  Move(State(s.x, s.y, AllDirections[k]), TurnCost) in ans
    {
      assert AllDirections[..i + 1] == AllDirections[..i] + [AllDirections[i]];
      var d := AllDirections[i];
      if d != s.h {
        ans := ans + [Move(State(s.x, s.y, d), TurnCost)];
      }
    }
    AllDirectionsComplete(s.h);
    assert AllDirections[..4] == AllDirections;
    forall t | IsMove(s, t) ensures Move(t, Cost(s, t)) in ans {
      if t != Forward(s) {
        AllDirectionsComplete(t.h);
      }
    }
    forall m | m in ans ensures IsMove(s, m.to) && m.cost == Cost(s, m.to) {
      var k :| 0 <= k < |ans| && ans[k] == m;
    }
  }

  // ---------------------------------------------------------------------
  // The search space.

  /** The view the search runs on: the caller's view with a wall of -1
      outside the rectangle and the start and end cells forced open. */
  function MarginOf(age: View, xmin: int, xmax: int, ymin: int, ymax: int,
                    xf: int, yf: int, xt: int, yt: int): View
  {
    Margin(age, xmin, xmax, ymin, ymax, -1, xf, yf, xt, yt)
  }

  /** The cells the search may enter: those where the view shows air. */
  function AirOf(g: View): Cell -> bool
    requires Readable(g)
  {
    c => GetPos(g, c) == 0
  }

  /** A transition into `t` is allowed iff its cell is open. */
  predicate Open(open: Cell -> bool, t: State)
  {
    open((t.x, t.y))
  }

  /** A finite set of states holding every open one: the rectangle grown to
      take in the start and end cells. */
  ghost function Arena(xmin: int, xmax: int, ymin: int, ymax: int,
                       xf: int, yf: int, xt: int, yt: int): set<State>
  {
    set x: int, y: int, h: Direction |
      Min(xmin, Min(xf, xt)) <= x <= Max(xmax, Max(xf, xt)) &&
      Min(ymin, Min(yf, yt)) <= y <= Max(ymax, Max(yf, yt)) &&
      h in AllDirections :: State(x, y, h)
  }

  lemma OpenInArena(age: View, xmin: int, xmax: int, ymin: int, ymax: int,
                    xf: int, yf: int, xt: int, yt: int, t: State)
    requires Readable(MarginOf(age, xmin, xmax, ymin, ymax, xf, yf, xt, yt))
    requires Open(AirOf(MarginOf(age, xmin, xmax, ymin, ymax, xf, yf, xt, yt)), t)
    ensures t in Arena(xmin, xmax, ymin, ymax, xf, yf, xt, yt)
  {
    AllDirectionsComplete(t.h);
    assert t.h in AllDirections;
  }

  /** Every allowed transition out of a reached state is already as cheap as
      it can get: the relaxation fixed point at `s`. */
  ghost predicate Settled(open: Cell -> bool, dis: map<State, nat>, s: State)
    requires s in dis
  {
    forall t :: IsMove(s, t) && Open(open, t) ==> t in dis && dis[t] <= dis[s] + Cost(s, t)
  }

  /** `s` was reached from its recorded predecessor by an allowed transition
      whose cost the distances account for. */
  ghost predicate Linked(open: Cell -> bool, dis: map<State, nat>, pre: map<State, State>, s: State)
    requires s in dis
  {
    s in pre && pre[s] in dis && IsMove(pre[s], s) && Open(open, s)
    && dis[pre[s]] + Cost(pre[s], s) <= dis[s]
  }

  /** What the queue loop keeps: reached states lie in the arena, queued
      states are reached, the start states sit at distance 0 without a
      predecessor, and every other reached state is linked to one. */
  ghost predicate SearchInv(open: Cell -> bool, arena: set<State>, xf: int, yf: int,
                            dis: map<State, nat>, pre: map<State, State>,
                            vis: set<State>, q: seq<State>)
  {
    && dis.Keys <= arena
    && Elems(q) <= dis.Keys
    && vis <= Elems(q)
    && (forall d :: State(xf, yf, d) in dis)
    && (forall s :: s in dis && s.x == xf && s.y == yf ==> dis[s] == 0 && s !in pre)
    && (forall s {:trigger Linked(open, dis, pre, s)} ::
          s in dis && !(s.x == xf && s.y == yf) ==> Linked(open, dis, pre, s))
  }

  /** The termination measure's second part: it shrinks whenever a known
      distance drops. */
  ghost function Potential(dis: map<State, nat>): set<(State, nat)>
  {
    set s, d: nat | s in dis && d < dis[s] :: (s, d)
  }

  lemma PotentialShrinks(dis: map<State, nat>, t: State, nd: nat)
    requires t in dis && nd < dis[t]
    ensures Potential(dis[t := nd]) < Potential(dis)
  {
    assert (t, nd) in Potential(dis);
    assert (t, nd) !in Potential(dis[t := nd]);
  }

  lemma SettledAfterRelax(open: Cell -> bool, dis: map<State, nat>, s: State, t: State, nd: nat)
    requires s in dis && s != t && Settled(open, dis, s)
    requires t in dis ==> nd < dis[t]
    ensures Settled(open, dis[t := nd], s)
  {
  }

  /** Relaxing the transition cur -> t keeps the search invariant. */
  lemma RelaxKeepsInv(open: Cell -> bool, arena: set<State>, xf: int, yf: int,
                      dis: map<State, nat>, pre: map<State, State>, vis: set<State>, q: seq<State>,
                      cur: State, t: State)
    requires (forall t :: Open(open, t) ==> t in arena)
    requires SearchInv(open, arena, xf, yf, dis, pre, vis, q) && cur in dis
    requires IsMove(cur, t) && Open(open, t)
    requires t !in dis || dis[t] > dis[cur] + Cost(cur, t)
    ensures t != cur && !(t.x == xf && t.y == yf)
    ensures SearchInv(open, arena, xf, yf, dis[t := dis[cur] + Cost(cur, t)], pre[t := cur],
                      if t in vis then vis else vis + {t}, if t in vis then q else q + [t])
  {
    var nd := dis[cur] + Cost(cur, t);
    var dis' := dis[t := nd];
    var pre' := pre[t := cur];
    var q' := if t in vis then q else q + [t];
    assert State(xf, yf, t.h) in dis;
    ElemsSnoc(q, t);
    assert dis'.Keys <= arena;
    assert Elems(q') <= dis'.Keys;
    assert (if t in vis then vis else vis + {t}) <= Elems(q');
    assert forall d :: State(xf, yf, d) in dis';
    assert forall s :: s in dis' && s.x == xf && s.y == yf ==> dis'[s] == 0 && s !in pre';
    forall s | s in dis' && !(s.x == xf && s.y == yf) ensures Linked(open, dis', pre', s) {
      if s != t {
        assert Linked(open, dis, pre, s);
      }
    }
  }

  /** The measure has not grown since (dis0, q0): no reached state was
      lost, no known distance rose, and the queue is unchanged unless some
      distance changed. */
  ghost predicate NoWorse(dis0: map<State, nat>, q0: seq<State>, dis: map<State, nat>, q: seq<State>)
  {
    && dis0.Keys <= dis.Keys
    && (dis.Keys == dis0.Keys ==> Potential(dis) <= Potential(dis0))
    && (dis.Keys == dis0.Keys && Potential(dis) == Potential(dis0) ==> q == q0)
  }

  /** One pass of the inner loop: try the transition `m` out of `cur`,
      lowering the successor's distance, recording `cur` as its predecessor
      and queueing it (if not queued yet) when that is cheaper. */
  method RelaxMove(open: Cell -> bool, ghost arena: set<State>, xf: int, yf: int,
                   cur: State, m: Move, ghost dis0: map<State, nat>, ghost q0: seq<State>,
                   dis: map<State, nat>, pre: map<State, State>, vis: set<State>, q: seq<State>)
    returns (dis': map<State, nat>, pre': map<State, State>, vis': set<State>, q': seq<State>)
    requires forall t :: Open(open, t) ==> t in arena
    requires SearchInv(open, arena, xf, yf, dis, pre, vis, q) && cur in dis
    requires IsMove(cur, m.to) && m.cost == Cost(cur, m.to)
    requires forall s :: s in dis && s != cur && s !in Elems(q) ==> Settled(open, dis, s)
    requires NoWorse(dis0, q0, dis, q)
    ensures SearchInv(open, arena, xf, yf, dis', pre', vis', q') && cur in dis' && dis'[cur] == dis[cur]
    ensures forall s :: s in dis' && s != cur && s !in Elems(q') ==> Settled(open, dis', s)
    ensures NoWorse(dis0, q0, dis', q')
    ensures forall s :: s in dis ==> s in dis' && dis'[s] <= dis[s]
    ensures Open(open, m.to) ==> m.to in dis' && dis'[m.to] <= dis[cur] + m.cost
  {
    dis', pre', vis', q' := dis, pre, vis, q;
    var t := m.to;
    var nd := dis[cur] + m.cost;
    if open((t.x, t.y)) {
      if t !in dis || dis[t] > nd {
        if t in dis {
          PotentialShrinks(dis, t, nd);
        }
        RelaxKeepsInv(open, arena, xf, yf, dis, pre, vis, q, cur, t);
        forall s | s in dis && s != cur && s != t && s !in Elems(q)
          ensures Settled(open, dis[t := nd], s)
        {
          SettledAfterRelax(open, dis, s, t, nd);
        }
        dis' := dis[t := nd];
        pre' := pre[t := cur];
        if t !in vis {
          vis' := vis + {t};
          ElemsSnoc(q, t);
          q' := q + [t];
        }
      }
    }
  }

  /** The body of the queue loop for one popped state `cur`: relax its four
      transitions.  Afterwards `cur` is settled and the measure has not
      grown. */
  method Expand(open: Cell -> bool, ghost arena: set<State>, xf: int, yf: int, cur: State,
                dis0: map<State, nat>, pre0: map<State, State>, vis0: set<State>, q0: seq<State>)
    returns (dis: map<State, nat>, pre: map<State, State>, vis: set<State>, q: seq<State>)
    requires forall t :: Open(open, t) ==> t in arena
    requires SearchInv(open, arena, xf, yf, dis0, pre0, vis0, q0) && cur in dis0
    requires forall s :: s in dis0 && s != cur && s !in Elems(q0) ==> Settled(open, dis0, s)
    ensures SearchInv(open, arena, xf, yf, dis, pre, vis, q)
    ensures forall s :: s in dis && s !in Elems(q) ==> Settled(open, dis, s)
    ensures NoWorse(dis0, q0, dis, q)
  {
    dis, pre, vis, q := dis0, pre0, vis0, q0;
    var dnow := dis[cur];
    var moves := GetNextPos(cur);
    for j := 0 to 4
      invariant SearchInv(open, arena, xf, yf, dis, pre, vis, q)
      invariant cur in dis && dis[cur] == dnow
      invariant forall s :: s in dis && s != cur && s !in Elems(q) ==> Settled(open, dis, s)
      invariant forall m :: m in moves[..j] && Open(open, m.to) ==> m.to in dis && dis[m.to] <= dnow + m.cost
      invariant NoWorse(dis0, q0, dis, q)
    {
      assert moves[..j + 1] == moves[..j] + [moves[j]];
      dis, pre, vis, q := RelaxMove(open, arena, xf, yf, cur, moves[j], dis0, q0, dis, pre, vis, q);
    }
    assert moves[..4] == moves;
    SettledByMoves(open, dis, cur, moves);
  }

  /** Once every transition of `cur` has been relaxed, `cur` is settled. */
  lemma SettledByMoves(open: Cell -> bool, dis: map<State, nat>, cur: State, moves: seq<Move>)
    requires cur in dis
    requires forall t :: IsMove(cur, t) ==> Move(t, Cost(cur, t)) in moves
    requires forall m :: m in moves && Open(open, m.to) ==> m.to in dis && dis[m.to] <= dis[cur] + m.cost
    ensures Settled(open, dis, cur)
  {
    forall t | IsMove(cur, t) && Open(open, t)
      ensures t in dis && dis[t] <= dis[cur] + Cost(cur, t)
    {
      assert Move(t, Cost(cur, t)) in moves;
    }
  }

  // ---------------------------------------------------------------------
  // Walks and their costs.

  /** A route through the search space: consecutive states are transitions
      into open cells. */
  ghost predicate IsWalk(open: Cell -> bool, w: seq<State>)
    decreases |w|
  {
    |w| >= 1 && (|w| >= 2 ==> IsMove(w[0], w[1]) && Open(open, w[1]) && IsWalk(open, w[1..]))
  }

  function WalkCost(w: seq<State>): nat
  {
    if |w| <= 1 then 0 else Cost(w[0], w[1]) + WalkCost(w[1..])
  }

  ghost predicate FromTo(w: seq<State>, xf: int, yf: int, xt: int, yt: int)
  {
    |w| >= 1 && w[0].x == xf && w[0].y == yf && w[|w| - 1].x == xt && w[|w| - 1].y == yt
  }

  /** Every state of `w` after the first is a transition from the one
      before it. */
  ghost predicate Moves(w: seq<State>)
  {
    forall i, j {:trigger IsMove(w[i], w[j])} :: 0 <= i < |w| - 1 && j == i + 1 ==> IsMove(w[i], w[j])
  }

  /** Consecutive states of a walk are transitions. */
  lemma {:induction false} WalkSteps(open: Cell -> bool, w: seq<State>)
    requires IsWalk(open, w)
    ensures Moves(w)
    decreases |w|
  {
    if |w| >= 2 {
      WalkSteps(open, w[1..]);
      forall i, j | 0 <= i < |w| - 1 && j == i + 1 ensures IsMove(w[i], w[j]) {
        if i > 0 {
          assert IsMove(w[1..][i - 1], w[1..][j - 1]);
          assert w[i] == w[1..][i - 1] && w[j] == w[1..][j - 1];
        }
      }
    }
  }

  /** At the fixed point, the distance of a reached state bounds the
      distance at the end of every walk out of it. */
  lemma {:induction false} WalkBound(open: Cell -> bool, dis: map<State, nat>, w: seq<State>)
    requires IsWalk(open, w) && w[0] in dis
    requires forall s :: s in dis ==> Settled(open, dis, s)
    ensures w[|w| - 1] in dis && dis[w[|w| - 1]] <= dis[w[0]] + WalkCost(w)
    decreases |w|
  {
    if |w| > 1 {
      assert Settled(open, dis, w[0]);
      WalkBound(open, dis, w[1..]);
    }
  }

  // ---------------------------------------------------------------------
  // getVecLineData.

  /** The cell a state stands on. */
  function CellOf(s: State): Cell
  {
    (s.x, s.y)
  }

  /** The cells of the first n states of a walk. */
  ghost function WalkCells(w: seq<State>, n: nat): set<Cell>
    requires n <= |w|
  {
    if n == 0 then {} else WalkCells(w, n - 1) + {CellOf(w[n - 1])}
  }

  /** The cells of a list of segments. */
  ghost function LinesCells(ls: seq<Line>): set<Cell>
  {
    if ls == [] then {} else LinesCells(ls[..|ls| - 1]) + SegmentCells(ls[|ls| - 1])
  }

  lemma LinesCellsSnoc(ls: seq<Line>, l: Line)
    ensures LinesCells(ls + [l]) == LinesCells(ls) + SegmentCells(l)
  {
    assert (ls + [l])[..|ls|] == ls;
  }

  /** The heading changes between states i - 1 and i. */
  predicate Turns(w: seq<State>, i: int)
    requires 0 < i < |w|
  {
    w[i - 1].h != w[i].h
  }

  /** `starts` lists where the maximal runs of equal heading among the first
      n states begin: index 0 and exactly the indices at which the heading
      changes, in increasing order. */
  ghost predicate RunStarts(w: seq<State>, n: nat, starts: seq<nat>)
  {
    && 1 <= n <= |w| && |starts| >= 1 && starts[0] == 0
    && (forall k :: 0 <= k < |starts| ==> starts[k] < n)
    && (forall a, b :: 0 <= a < b < |starts| ==> starts[a] < starts[b])
    && (forall i :: 0 < i < n ==> (i in starts <==> Turns(w, i)))
  }

  /** The last index of run k: just before the next run, or n - 1. */
  function RunEnd(n: nat, starts: seq<nat>, k: nat): int
    requires k < |starts|
  {
    if k + 1 < |starts| then starts[k + 1] - 1 else n - 1
  }

  /** Segment k goes, with tag 0, from the cell where run k begins to the
      cell where it ends. */
  ghost predicate SpansRuns(lines: seq<Line>, w: seq<State>, n: nat, starts: seq<nat>)
  {
    && n <= |w| && |lines| == |starts|
    && forall k :: 0 <= k < |lines| ==>
         starts[k] <= RunEnd(n, starts, k) < n &&
         lines[k] == RawLine(w[starts[k]].x, w[RunEnd(n, starts, k)].x,
                             w[starts[k]].y, w[RunEnd(n, starts, k)].y, 0)
  }

  /** What getVecLineData returns for a walk: one segment per maximal run of
      equal heading, in walk order. */
  ghost predicate MergesRuns(lines: seq<Line>, w: seq<State>)
  {
    exists starts :: RunStarts(w, |w|, starts) && SpansRuns(lines, w, |w|, starts)
  }

  /** A segment pointing along a heading (or of length 0). */
  predicate Along(l: Line, h: Direction)
  {
    match h
    case East => l.yf == l.yt && l.xf <= l.xt
    case West => l.yf == l.yt && l.xt <= l.xf
    case North => l.xf == l.xt && l.yf <= l.yt
    case South => l.xf == l.xt && l.yt <= l.yf
  }

  /** Moving the end of a segment one step further along its heading adds
      exactly the new end cell. */
  lemma ExtendAlong(l: Line, s: State)
    requires Along(l, s.h) && l.xt == s.x && l.yt == s.y
    ensures var t := Forward(s);
            var r := RawLine(l.xf, t.x, l.yf, t.y, l.v);
            (r.xf == r.xt || r.yf == r.yt) && Along(r, s.h) &&
            SegmentCells(r) == SegmentCells(l) + {CellOf(t)}
  {
    var t := Forward(s);
    var r: Line := RawLine(l.xf, t.x, l.yf, t.y, l.v);
    match s.h
    case East =>
      assert forall c :: c in SegmentCells(r) ==> c in SegmentCells(l) || c == CellOf(t);
    case West =>
      assert forall c :: c in SegmentCells(r) ==> c in SegmentCells(l) || c == CellOf(t);
    case North =>
      assert forall c :: c in SegmentCells(r) ==> c in SegmentCells(l) || c == CellOf(t);
    case South =>
      assert forall c :: c in SegmentCells(r) ==> c in SegmentCells(l) || c == CellOf(t);
  }

  /** The loop invariant of getVecLineData after i states. */
  ghost predicate Merged(path: seq<State>, i: nat, ans: seq<Line>, starts: seq<nat>)
    requires i <= |path|
  {
    && (i == 0 <==> ans == [])
    && (i > 0 ==> RunStarts(path, i, starts) && SpansRuns(ans, path, i, starts)
                  && Along(ans[|ans| - 1], path[i - 1].h))
    && LinesCells(ans) == WalkCells(path, i)
  }

  lemma RunStartsFirst(path: seq<State>)
    requires |path| >= 1
    ensures RunStarts(path, 1, [0])
  {
  }

  /** A heading change at i begins a new run. */
  lemma RunStartsNew(path: seq<State>, i: nat, starts: seq<nat>)
    requires 0 < i < |path| && RunStarts(path, i, starts) && path[i - 1].h != path[i].h
    ensures RunStarts(path, i + 1, starts + [i])
  {
    var st := starts + [i];
    forall j | 0 < j < i + 1 ensures (j in st <==> Turns(path, j)) {
      assert j in st <==> j in starts || j == i;
    }
  }

  /** No heading change at i: the runs keep their starts. */
  lemma RunStartsSame(path: seq<State>, i: nat, starts: seq<nat>)
    requires 0 < i < |path| && RunStarts(path, i, starts) && path[i - 1].h == path[i].h
    ensures RunStarts(path, i + 1, starts)
  {
    assert i !in starts;
  }

  lemma SpansFirst(path: seq<State>)
    requires |path| >= 1
    ensures SpansRuns([RawLine(path[0].x, path[0].x, path[0].y, path[0].y, 0)], path, 1, [0])
  {
  }

  /** A new run adds a one-cell segment; the runs before it keep their ends. */
  lemma SpansNew(ans: seq<Line>, path: seq<State>, i: nat, starts: seq<nat>)
    requires 0 < i < |path| && SpansRuns(ans, path, i, starts)
    ensures SpansRuns(ans + [RawLine(path[i].x, path[i].x, path[i].y, path[i].y, 0)], path, i + 1, starts + [i])
  {
    var st := starts + [i];
    var l: Line := RawLine(path[i].x, path[i].x, path[i].y, path[i].y, 0);
    var ans' := ans + [l];
    forall k | 0 <= k < |ans'|
      ensures st[k] <= RunEnd(i + 1, st, k) < i + 1 &&
              ans'[k] == RawLine(path[st[k]].x, path[RunEnd(i + 1, st, k)].x,
                                 path[st[k]].y, path[RunEnd(i + 1, st, k)].y, 0)
    {
      if k < |ans| {
        assert RunEnd(i + 1, st, k) == RunEnd(i, starts, k);
        assert st[k] == starts[k] && ans'[k] == ans[k];
      }
    }
  }

  /** A continued run moves the last segment's end to the new state. */
  lemma SpansSame(ans: seq<Line>, path: seq<State>, i: nat, starts: seq<nat>, r: Line)
    requires 0 < i < |path| && SpansRuns(ans, path, i, starts) && |ans| >= 1
    requires r == RawLine(ans[|ans| - 1].xf, path[i].x, ans[|ans| - 1].yf, path[i].y, 0)
    ensures SpansRuns(ans[..|ans| - 1] + [r], path, i + 1, starts)
  {
    var ans' := ans[..|ans| - 1] + [r];
    forall k | 0 <= k < |ans'|
      ensures starts[k] <= RunEnd(i + 1, starts, k) < i + 1 &&
              ans'[k] == RawLine(path[starts[k]].x, path[RunEnd(i + 1, starts, k)].x,
                                 path[starts[k]].y, path[RunEnd(i + 1, starts, k)].y, 0)
    {
      if k < |ans| - 1 {
        assert RunEnd(i + 1, starts, k) == RunEnd(i, starts, k);
        assert ans'[k] == ans[k];
      }
    }
  }

  /** The first state opens the first one-cell segment. */
  lemma MergeFirst(path: seq<State>, l: Line)
    requires |path| >= 1 && l == RawLine(path[0].x, path[0].x, path[0].y, path[0].y, 0)
    ensures Merged(path, 1, [l], [0])
  {
    SegmentCellsLaws(l);
    assert [] + [l] == [l];
    LinesCellsSnoc([], l);
    assert LinesCells([l]) == {CellOf(path[0])};
    assert WalkCells(path, 1) == {CellOf(path[0])};
    RunStartsFirst(path);
    SpansFirst(path);
    assert Along(l, path[0].h) by {
      match path[0].h
      case East =>
      case West =>
      case North =>
      case South =>
    }
  }

  /** A heading change opens a new one-cell segment. */
  lemma MergeNewRun(path: seq<State>, i: nat, ans: seq<Line>, starts: seq<nat>, l: Line)
    requires 0 < i < |path| && Merged(path, i, ans, starts)
    requires path[i - 1].h != path[i].h
    requires l == RawLine(path[i].x, path[i].x, path[i].y, path[i].y, 0)
    ensures Merged(path, i + 1, ans + [l], starts + [i])
  {
    LinesCellsSnoc(ans, l);
    SegmentCellsLaws(l);
    RunStartsNew(path, i, starts);
    SpansNew(ans, path, i, starts);
  }

  /** Moving the last segment's end one step along the run keeps it
      axis-parallel. */
  lemma SameRunAligned(path: seq<State>, i: nat, ans: seq<Line>, starts: seq<nat>)
    requires 0 < i < |path| && Merged(path, i, ans, starts)
    requires path[i] == Forward(path[i - 1])
    ensures ans[|ans| - 1].xf == path[i].x || ans[|ans| - 1].yf == path[i].y
  {
    assert SpansRuns(ans, path, i, starts);
    assert RunEnd(i, starts, |ans| - 1) == i - 1;
    ExtendAlong(ans[|ans| - 1], path[i - 1]);
  }

  /** A state that continues the run moves the last segment's end to it. */
  lemma MergeSameRun(path: seq<State>, i: nat, ans: seq<Line>, starts: seq<nat>, r: Line)
    requires 0 < i < |path| && Merged(path, i, ans, starts)
    requires path[i] == Forward(path[i - 1])
    requires r == RawLine(ans[|ans| - 1].xf, path[i].x, ans[|ans| - 1].yf, path[i].y, ans[|ans| - 1].v)
    ensures Merged(path, i + 1, ans[..|ans| - 1] + [r], starts)
  {
    var last := ans[|ans| - 1];
    assert SpansRuns(ans, path, i, starts);
    assert RunEnd(i, starts, |ans| - 1) == i - 1;
    ExtendAlong(last, path[i - 1]);
    var front := ans[..|ans| - 1];
    LinesCellsSnoc(front, r);
    assert front + [last] == ans;
    LinesCellsSnoc(front, last);
    RunStartsSame(path, i, starts);
    SpansSame(ans, path, i, starts, r);
  }

  /** At the end of the loop, the invariant is the method's promise. */
  lemma MergedDone(path: seq<State>, ans: seq<Line>, starts: seq<nat>)
    requires Merged(path, |path|, ans, starts)
    ensures path == [] ==> ans == []
    ensures path != [] ==> MergesRuns(ans, path)
    ensures LinesCells(ans) == WalkCells(path, |path|)
  {
  }

  /** One round of getVecLineData's loop: a new one-cell segment where the
      heading changes (or at the first state), otherwise the last segment's
      end moves to the current cell. */
  method MergeStep(path: seq<State>, i: nat, ans: seq<Line>, ghost starts: seq<nat>)
    returns (ans': seq<Line>, ghost starts': seq<nat>)
    requires i < |path| && Merged(path, i, ans, starts)
    requires i > 0 ==> IsMove(path[i - 1], path[i])
    ensures Merged(path, i + 1, ans', starts')
  {
    var x := path[i].x;
    var y := path[i].y;
    if i == 0 || path[i - 1].h != path[i].h {
      var l: Line := RawLine(x, x, y, y, 0);
      if i == 0 {
        MergeFirst(path, l);
        starts' := [0];
      } else {
        MergeNewRun(path, i, ans, starts, l);
        starts' := starts + [i];
      }
      ans' := ans + [l];
    } else {
      SameRunAligned(path, i, ans, starts);
      var last := ans[|ans| - 1];
      var r := SetAimPos(last, x, y);
      MergeSameRun(path, i, ans, starts, r.value);
      starts' := starts;
      ans' := ans[..|ans| - 1] + [r.value];
    }
  }

  /** getVecLineData: merge the states of a walk into segments.  The result
      has one segment per maximal run of equal heading, and together the
      segments cover exactly the cells of the walk. */
  method GetVecLineData(path: seq<State>) returns (ans: seq<Line>)
    requires Moves(path)
    ensures path == [] ==> ans == []
    ensures path != [] ==> MergesRuns(ans, path)
    ensures LinesCells(ans) == WalkCells(path, |path|)
  {
    ans := [];
    ghost var starts: seq<nat> := [];
    for i := 0 to |path|
      invariant Merged(path, i, ans, starts)
    {
      assert i > 0 ==> IsMove(path[i - 1], path[i]);
      ans, starts := MergeStep(path, i, ans, starts);
    }
    MergedDone(path, ans, starts);
  }

  /** Two consecutive segments meet: the run after segment k begins with a
      turn, which stays on the cell where segment k ends. */
  lemma RunsChainAt(lines: seq<Line>, w: seq<State>, starts: seq<nat>, k: nat)
    requires Moves(w) && RunStarts(w, |w|, starts) && SpansRuns(lines, w, |w|, starts)
    requires k < |lines| - 1
    ensures lines[k].xt == lines[k + 1].xf && lines[k].yt == lines[k + 1].yf
  {
    var j := starts[k + 1];
    assert starts[k] < j < |w|;
    assert j in starts;
    assert Turns(w, j);
    assert IsMove(w[j - 1], w[j]);
    assert RunEnd(|w|, starts, k) == j - 1;
  }

  /** The merged segments start at the walk's first cell, end at its last,
      carry tag 0, and each begins where the one before it ends. */
  lemma RunsChain(lines: seq<Line>, w: seq<State>)
    requires Moves(w)
    requires MergesRuns(lines, w)
    ensures |lines| >= 1 && lines[0].xf == w[0].x && lines[0].yf == w[0].y
    ensures lines[|lines| - 1].xt == w[|w| - 1].x && lines[|lines| - 1].yt == w[|w| - 1].y
    ensures forall k :: 0 <= k < |lines| ==> lines[k].v == 0
    ensures forall k :: 0 <= k < |lines| - 1 ==> lines[k].xt == lines[k + 1].xf && lines[k].yt == lines[k + 1].yf
  {
    var starts :| RunStarts(w, |w|, starts) && SpansRuns(lines, w, |w|, starts);
    assert RunEnd(|w|, starts, |lines| - 1) == |w| - 1;
    forall k | 0 <= k < |lines| - 1
      ensures lines[k].xt == lines[k + 1].xf && lines[k].yt == lines[k + 1].yf
    {
      RunsChainAt(lines, w, starts, k);
    }
  }

  /** Every cell of a walk is open, given that its first cell is. */
  lemma {:induction false} WalkCellsOpen(open: Cell -> bool, w: seq<State>, n: nat)
    requires IsWalk(open, w) && open(CellOf(w[0])) && n <= |w|
    ensures forall c :: c in WalkCells(w, n) ==> open(c)
    decreases n
  {
    if n > 0 {
      WalkCellsOpen(open, w, n - 1);
      if n > 1 {
        WalkOpen(open, w, n - 1);
      }
    }
  }

  /** The i-th state of a walk, past the first, stands on an open cell. */
  lemma {:induction false} WalkOpen(open: Cell -> bool, w: seq<State>, i: nat)
    requires IsWalk(open, w) && 1 <= i < |w|
    ensures Open(open, w[i])
    decreases i
  {
    if i > 1 {
      WalkOpen(open, w[1..], i - 1);
      assert w[1..][i - 1] == w[i];
    }
  }

  // ---------------------------------------------------------------------
  // runAlgo.

  /** What runAlgo promises.  Start equal to end: cost 0 and one zero-length
      segment.  Otherwise, inside the Margin view: no segments (and cost 0,
      the value-initialised result) exactly when no walk joins start and
      end; else `route` is a cheapest such walk, `cost` its cost, the
      segments are its maximal straight runs, and they cover exactly the
      walk's cells, all of them open. */
  ghost predicate RouteSpec(age: View, xmin: int, xmax: int, ymin: int, ymax: int,
                            xf: int, yf: int, xt: int, yt: int,
                            cost: nat, lines: seq<Line>, route: seq<State>)
    requires (xf == xt && yf == yt) || (Readable(age) && xmin <= xmax && ymin <= ymax)
  {
    if xf == xt && yf == yt then
      cost == 0 && lines == [RawLine(xf, xt, yf, yt, 0)]
    else
      var open := AirOf(MarginOf(age, xmin, xmax, ymin, ymax, xf, yf, xt, yt));
      if lines == [] then
        cost == 0 && forall w :: IsWalk(open, w) ==> !FromTo(w, xf, yf, xt, yt)
      else
        && IsWalk(open, route) && FromTo(route, xf, yf, xt, yt)
        && WalkCost(route) == cost
        && MergesRuns(lines, route) && LinesCells(lines) == WalkCells(route, |route|)
        && (forall c :: c in LinesCells(lines) ==> open(c))
        && forall w :: IsWalk(open, w) && FromTo(w, xf, yf, xt, yt) ==> cost <= WalkCost(w)
  }

  /** The queue starts with the four states of the start cell, in enum
      order, each at distance 0 and marked as queued. */
  method Seed(xf: int, yf: int) returns (d: map<State, nat>, v: set<State>, q: seq<State>)
    ensures d.Keys == v && v == Elems(q)
    ensures forall s: State :: s in d <==> s.x == xf && s.y == yf
    ensures forall s :: s in d ==> d[s] == 0
  {
    d, v, q := map[], {}, [];
    for i := 0 to 4
      invariant d.Keys == v && v == Elems(q)
      invariant forall s :: s in d <==> s.x == xf && s.y == yf && s.h in AllDirections[..i]
      invariant forall s :: s in d ==> d[s] == 0
    {
      var s := State(xf, yf, AllDirections[i]);
      assert AllDirections[..i + 1] == AllDirections[..i] + [AllDirections[i]];
      d := d[s := 0];
      v := v + {s};
      ElemsSnoc(q, s);
      q := q + [s];
    }
    assert AllDirections[..4] == AllDirections;
    forall s: State | s.x == xf && s.y == yf ensures s in d {
      AllDirectionsComplete(s.h);
    }
  }

  /** The queue loop: pop the front state and expand it until the queue is
      empty.  At the end every reached state is settled. */
  method Search(open: Cell -> bool, ghost arena: set<State>, xf: int, yf: int,
                d0: map<State, nat>, p0: map<State, State>, v0: set<State>, q0: seq<State>)
    returns (d: map<State, nat>, p: map<State, State>, v: set<State>)
    requires forall t :: Open(open, t) ==> t in arena
    requires SearchInv(open, arena, xf, yf, d0, p0, v0, q0)
    requires forall s :: s in d0 && s !in Elems(q0) ==> Settled(open, d0, s)
    ensures SearchInv(open, arena, xf, yf, d, p, v, [])
    ensures forall s :: s in d ==> Settled(open, d, s)
  {
    var q := q0;
    d, p, v := d0, p0, v0;
    while q != []
      invariant SearchInv(open, arena, xf, yf, d, p, v, q)
      invariant forall s :: s in d && s !in Elems(q) ==> Settled(open, d, s)
      decreases arena - d.Keys, Potential(d), |q|
    {
      var cur := q[0];
      ElemsConcat([cur], q[1..]);
      assert [cur] + q[1..] == q;
      q := q[1..];
      v := v - {cur};
      d, p, v, q := Expand(open, arena, xf, yf, cur, d, p, v, q);
    }
  }

  /** The cheapest of the four headings at the end cell, the first in enum
      order on ties; None when the end cell was not reached. */
  method PickBest(d: map<State, nat>, xt: int, yt: int) returns (best: Option<State>)
    ensures best.None? <==> forall s: State :: s.x == xt && s.y == yt ==> s !in d
    ensures best.Some? ==> best.value in d && best.value.x == xt && best.value.y == yt
    ensures best.Some? ==> forall s :: s in d && s.x == xt && s.y == yt ==> d[best.value] <= d[s]
  {
    best := None;
    for k := 0 to 4
      invariant best.Some? ==> best.value in d && best.value.x == xt && best.value.y == yt
      invariant best.Some? ==> forall k' :: 0 <= k' < k && State(xt, yt, AllDirections[k']) in d ==>
                  d[best.value] <= d[State(xt, yt, AllDirections[k'])]
      invariant best.None? ==> forall k' :: 0 <= k' < k ==> State(xt, yt, AllDirections[k']) !in d
    {
      var e := State(xt, yt, AllDirections[k]);
      if e in d && (best.None? || d[e] < d[best.value]) {
        best := Some(e);
      }
    }
    forall s: State | s.x == xt && s.y == yt && s in d
      ensures best.Some? && d[best.value] <= d[s]
    {
      AllDirectionsComplete(s.h);
      assert s == State(xt, yt, AllDirections[Index(s.h)]);
    }
  }

  /** Follow the predecessors from `end` back to a start state; the states
      met, in walk order, form a walk whose cost is the distance of `end`. */
  method Backtrack(open: Cell -> bool, ghost arena: set<State>, xf: int, yf: int,
                   d: map<State, nat>, p: map<State, State>, end: State)
    returns (arr: seq<State>)
    requires SearchInv(open, arena, xf, yf, d, p, {}, [])
    requires forall s :: s in d ==> Settled(open, d, s)
    requires end in d
    ensures IsWalk(open, arr) && arr[0].x == xf && arr[0].y == yf && arr[|arr| - 1] == end
    ensures WalkCost(arr) == d[end]
  {
    var cur := end;
    arr := [cur];
    while cur in p
      invariant |arr| >= 1 && cur in d && arr[0] == cur && arr[|arr| - 1] == end
      invariant IsWalk(open, arr)
      invariant d[cur] + WalkCost(arr) == d[end]
      decreases d[cur]
    {
      var prev := p[cur];
      assert Linked(open, d, p, cur);
      assert Settled(open, d, prev);
      ghost var tail := arr;
      arr := [prev] + arr;
      assert arr[1..] == tail;
      cur := prev;
    }
    if !(cur.x == xf && cur.y == yf) {
      assert Linked(open, d, p, cur);
    }
  }

  /** No reached state at the end cell: no walk joins start and end. */
  lemma NoRouteWithoutEnd(open: Cell -> bool, d: map<State, nat>, xf: int, yf: int, xt: int, yt: int)
    requires forall s: State :: s.x == xf && s.y == yf ==> s in d
    requires forall s :: s in d ==> Settled(open, d, s)
    requires forall s: State :: s.x == xt && s.y == yt ==> s !in d
    ensures forall w :: IsWalk(open, w) ==> !FromTo(w, xf, yf, xt, yt)
  {
    forall w: seq<State> | IsWalk(open, w) ensures !FromTo(w, xf, yf, xt, yt) {
      if FromTo(w, xf, yf, xt, yt) {
        WalkBound(open, d, w);
      }
    }
  }

  /** At the fixed point, the cheapest reached heading at the end cell costs
      no more than any walk from start to end. */
  lemma CheapestRoute(open: Cell -> bool, d: map<State, nat>, xf: int, yf: int, xt: int, yt: int, best: State)
    requires forall s :: s in d && s.x == xf && s.y == yf ==> d[s] == 0
    requires forall s: State :: s.x == xf && s.y == yf ==> s in d
    requires forall s :: s in d ==> Settled(open, d, s)
    requires best in d && forall s :: s in d && s.x == xt && s.y == yt ==> d[best] <= d[s]
    ensures forall w :: IsWalk(open, w) && FromTo(w, xf, yf, xt, yt) ==> d[best] <= WalkCost(w)
  {
    forall w: seq<State> | IsWalk(open, w) && FromTo(w, xf, yf, xt, yt) ensures d[best] <= WalkCost(w) {
      WalkBound(open, d, w);
    }
  }

  /** The state reached by following `pre` `n` times from `s`, if every
      step has a predecessor. */
  function Follow(pre: map<State, State>, s: State, n: nat): (r: Option<State>)
    ensures n == 0 ==> r == Some(s)
    decreases n
  {
    if n == 0 then Some(s)
    else if s !in pre then None
    else Follow(pre, pre[s], n - 1)
  }

  lemma {:induction false} FollowSplit(pre: map<State, State>, s: State, m: nat, n: nat)
    requires Follow(pre, s, m).Some?
    ensures Follow(pre, s, m + n) == Follow(pre, Follow(pre, s, m).value, n)
    decreases m
  {
    if m > 0 {
      FollowSplit(pre, pre[s], m - 1, n);
    }
  }

  /** A predecessor map left over from a run that started at (0,0), seen by
      a run from (1,0) to (2,0) that reached (2,0,E), (0,0,W) and (0,0,E):
      the entries of the new run are linked, but the start states (1,0,E)
      and (1,0,W) keep their old predecessors. */
  function StalePre(): map<State, State>
  {
    map[State(2, 0, East) := State(1, 0, East),
        State(0, 0, West) := State(1, 0, West),
        State(0, 0, East) := State(0, 0, West),
        State(1, 0, East) := State(0, 0, East),
        State(1, 0, West) := State(1, 0, East)]
  }

  function StaleRunDistances(): map<State, nat>
  {
    map[State(1, 0, East) := 0, State(1, 0, North) := 0, State(1, 0, West) := 0, State(1, 0, South) := 0,
        State(2, 0, East) := 10, State(0, 0, West) := 10, State(0, 0, East) := 11]
  }

  /** With that map, the backtracking loop of runAlgo never meets a state
      without a predecessor: from the end state (2,0,E) it reaches the
      start state (1,0,E) and then goes round a cycle of four states for
      ever, although every state the second run reached is linked. */
  lemma StalePreNeverEnds()
    ensures forall s :: s in StaleRunDistances() && !(s.x == 1 && s.y == 0) ==>
              Linked(c => true, StaleRunDistances(), StalePre(), s)
    ensures Follow(StalePre(), State(2, 0, East), 1) == Some(State(1, 0, East))
    ensures forall n: nat :: Follow(StalePre(), State(2, 0, East), n).Some?
  {
    var pre := StalePre();
    var e := State(1, 0, East);
    assert Follow(pre, e, 4) == Some(e);
    forall n: nat ensures Follow(pre, State(2, 0, East), n).Some? {
      if n > 0 {
        CycleForever(pre, e, n - 1);
        FollowSplit(pre, State(2, 0, East), 1, n - 1);
      }
    }
  }

  lemma {:induction false} CycleForever(pre: map<State, State>, e: State, n: nat)
    requires Follow(pre, e, 4) == Some(e)
    ensures Follow(pre, e, n).Some?
    decreases n
  {
    if n >= 4 {
      CycleForever(pre, e, n - 4);
      FollowSplit(pre, e, 4, n - 4);
    } else if n > 0 {
      FollowSplit(pre, e, n, 4 - n);
    }
  }

  class SpfaPathEngine {
    var dis: map<State, nat>
    var pre: map<State, State>
    var vis: set<State>

    constructor()
      ensures dis == map[] && pre == map[] && vis == {}
    {
      dis := map[];
      pre := map[];
      vis := {};
    }

    /** runAlgo as written: `dis` and `vis` are cleared but `pre` is not, so
        the start states must not carry a predecessor from an earlier run
        (true of a freshly constructed engine, which is how every caller in
        the repository uses it). */
    method RunAlgo(age: View, xmin: int, xmax: int, ymin: int, ymax: int,
                   xf: int, yf: int, xt: int, yt: int)
      returns (cost: nat, lines: seq<Line>, ghost route: seq<State>)
      requires (xf == xt && yf == yt) || (Readable(age) && xmin <= xmax && ymin <= ymax)
      requires forall d :: State(xf, yf, d) !in pre
      modifies this
      ensures RouteSpec(age, xmin, xmax, ymin, ymax, xf, yf, xt, yt, cost, lines, route)
      ensures vis == {}
      ensures !(xf == xt && yf == yt) ==>
                var open := AirOf(MarginOf(age, xmin, xmax, ymin, ymax, xf, yf, xt, yt));
                forall s :: s in dis ==> Settled(open, dis, s)
    {
      dis := map[];
      vis := {};
      route := [];
      if xf == xt && yf == yt {
        return 0, [RawLine(xf, xt, yf, yt, 0)], [State(xf, yf, East)];
      }
      var open := AirOf(MarginOf(age, xmin, xmax, ymin, ymax, xf, yf, xt, yt));
      ghost var arena := Arena(xmin, xmax, ymin, ymax, xf, yf, xt, yt);
      forall t | Open(open, t) ensures t in arena {
        OpenInArena(age, xmin, xmax, ymin, ymax, xf, yf, xt, yt, t);
      }

      var d, v, q := Seed(xf, yf);
      var p := pre;
      forall s | s in d ensures s in arena {
        OpenInArena(age, xmin, xmax, ymin, ymax, xf, yf, xt, yt, s);
      }
      d, p, v := Search(open, arena, xf, yf, d, p, v, q);
      dis, pre, vis := d, p, v;

      var best := PickBest(d, xt, yt);
      if best.None? {
        NoRouteWithoutEnd(open, d, xf, yf, xt, yt);
        return 0, [], [];
      }
      var arr := Backtrack(open, arena, xf, yf, d, p, best.value);
      route := arr;
      cost := d[best.value];
      WalkSteps(open, arr);
      lines := GetVecLineData(arr);
      MarginGetPos(MarginOf(age, xmin, xmax, ymin, ymax, xf, yf, xt, yt), (xf, yf));
      WalkCellsOpen(open, arr, |arr|);
      CheapestRoute(open, d, xf, yf, xt, yt, best.value);
    }

    /** runAlgo with the predecessor map cleared as well. */
    method RunAlgoCleared(age: View, xmin: int, xmax: int, ymin: int, ymax: int,
                          xf: int, yf: int, xt: int, yt: int)
      returns (cost: nat, lines: seq<Line>, ghost route: seq<State>)
      requires (xf == xt && yf == yt) || (Readable(age) && xmin <= xmax && ymin <= ymax)
      modifies this
      ensures RouteSpec(age, xmin, xmax, ymin, ymax, xf, yf, xt, yt, cost, lines, route)
      ensures vis == {}
    {
      pre := map[];
      cost, lines, route := RunAlgo(age, xmin, xmax, ymin, ymax, xf, yf, xt, yt);
    }
  }
}
