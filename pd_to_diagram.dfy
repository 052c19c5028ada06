// PdToDiagram2d: the driver.  One conversion attempt loads the PD code,
// lays it out for a seed and checks that the chosen component lies on the
// outer border; convert retries over consecutive seeds; getAllCc computes
// the link components straight from the code.

module PdToDiagram {
  import opened Wrappers
  import opened NumInput
  import opened Matrices
  import opened PdCodes
  import opened PdCrossings
  import opened Graphs
  import opened Connectivity
  import opened DiagramGraphs
  import opened BorderDetection

  /** 2^32: the range of the unsigned seed. */
  const U32: int := 0x1_0000_0000

  /** What one attempt is given besides its seed: the socket id whose
      component must end up outside (-1 for the largest id), the PD code
      text, and the layout stage.  The layout stage stands for reseeding
      the generator, rebuilding the tree until no crossings overlap,
      checking the socket registry, linking, and exporting the final grid:
      for a seed and the code's ids it gives the exported matrix or the
      failure one of those steps raises. */
  datatype Job = Job(lastSocketId: int, text: string, layout: (int, seq<int>) -> Result<Matrix>)

  /** The layout stage never raises a border failure or MaxTryExceeded:
      only a crossing meeting (retryable) or a fatal assertion. */
  ghost predicate LayoutFailures(job: Job)
  {
    forall seed: int, ints: seq<int> ::
      job.layout(seed, ints).Err? ==> job.layout(seed, ints).error.CrossingMeet? || job.layout(seed, ints).error.AssertionFailed?
  }

  /** The border check's verdict on matrix m: the target's component in
      the crossing graph meets the values on the outer border. */
  ghost predicate OnBorder(lastSocketId: int, m: Matrix)
  {
    exists nodes :: NodeTop(m, nodes) && ComponentOf(DiagramEdges(m), nodes, Target(lastSocketId, m)) * BorderValues(m) != {}
  }

  /** The grids the border check rejects with an assertion: no positive
      cell, an occupied or missing corner, or a crossing without four
      socket ids around it. */
  ghost predicate Unreadable(m: Matrix)
  {
    MaxFrom(IntMin, m.cells) <= 0 || !InBounds(m, 0, 0) || m.cells[0][0] != 0 || !WellFormed(m)
  }

  /** What one attempt with this seed yields: the load's failure, the
      layout's failure, a fatal border assertion, BadBorder when the target
      component is not outside, and otherwise the exported matrix. */
  ghost function Attempt(job: Job, seed: int): Result<Matrix>
  {
    var loaded := LoadOutcome(job.text);
    if loaded.Err? then Err(loaded.error)
    else
      var laid := job.layout(seed, Extract(job.text));
      if laid.Err? then laid
      else if Unreadable(laid.value) then Err(AssertionFailed("BorderDetect::checkBorderMaxCC"))
      else if OnBorder(job.lastSocketId, laid.value) then laid
      else Err(BadBorder)
  }

  /** Two outcomes agree when they are equal, or both fatal assertions
      (whose location text differs by where the assertion sits). */
  predicate Agree(a: Result<Matrix>, b: Result<Matrix>)
  {
    a == b || (a.Err? && b.Err? && a.error.AssertionFailed? && b.error.AssertionFailed?)
  }

  /** Every attempt of a job, as a function of the seed. */
  ghost function Attempts(job: Job): int -> Result<Matrix>
  {
    seed => Attempt(job, seed)
  }

  /** tries gives every attempt's outcome for the job. */
  ghost predicate Tabulates(tries: int -> Result<Matrix>, job: Job)
  {
    forall s {:trigger Attempt(job, s)} :: tries(s) == Attempt(job, s)
  }

  /** Attempts(job) is such a table, so the retry loop's requirement can
      always be met. */
  lemma AttemptsTabulate(job: Job)
    ensures Tabulates(Attempts(job), job)
  {
  }

  /** A failure that convert answers by trying the next seed. */
  predicate Retried(once: Result<Matrix>)
  {
    once.Err? && once.error.Retryable()
  }

  /** What convert returns when it tries `count` seeds from `seed` on,
      attempt s giving tries(s): the first attempt that is not a retryable
      failure, or MaxTryExceeded when every attempt is. */
  ghost function Retry(tries: int -> Result<Matrix>, seed: int, count: int): Result<Matrix>
    decreases count
  {
    if count <= 0 then Err(MaxTryExceeded)
    else if Retried(tries(seed)) then Retry(tries, seed + 1, count - 1)
    else tries(seed)
  }

  /** One round of the loop: a retryable failure leaves the rest of the
      seeds to decide, anything else agreeing with this attempt is the
      answer. */
  lemma RetryNext(tries: int -> Result<Matrix>, seed: int, count: int, once: Result<Matrix>)
    requires count > 0 && Agree(once, tries(seed))
    ensures Retried(once) ==> Retry(tries, seed, count) == Retry(tries, seed + 1, count - 1)
    ensures !Retried(once) ==> Agree(once, Retry(tries, seed, count))
  {
  }

  /** Attempts seed, seed+1, .., seed+k-1 all failed retryably. */
  ghost predicate AllRetried(tries: int -> Result<Matrix>, seed: int, k: int)
  {
    forall s :: seed <= s < seed + k ==> Retried(tries(s))
  }

  /** The first attempt that does not fail retryably decides the outcome. */
  lemma {:induction false} RetryStopsAtFirst(tries: int -> Result<Matrix>, seed: int, count: int, i: int)
    requires 0 <= i < count && AllRetried(tries, seed, i) && !Retried(tries(seed + i))
    ensures Retry(tries, seed, count) == tries(seed + i)
    decreases i
  {
    if i > 0 {
      assert Retried(tries(seed));
      RetryStopsAtFirst(tries, seed + 1, count - 1, i - 1);
    }
  }

  /** When every attempt fails retryably, convert gives up with
      MaxTryExceeded. */
  lemma {:induction false} RetryExhausted(tries: int -> Result<Matrix>, seed: int, count: int)
    requires AllRetried(tries, seed, count)
    ensures Retry(tries, seed, count) == Err(MaxTryExceeded)
    decreases count
  {
    if count > 0 {
      assert Retried(tries(seed));
      RetryExhausted(tries, seed + 1, count - 1);
    }
  }

  /** The converse: convert's outcome is MaxTryExceeded after every
      attempt failed retryably, or else it is the outcome of the first
      attempt that did not. */
  lemma {:induction false} RetryCases(tries: int -> Result<Matrix>, seed: int, count: int)
    ensures || (Retry(tries, seed, count) == Err(MaxTryExceeded) && AllRetried(tries, seed, count))
            || (exists i :: 0 <= i < count && AllRetried(tries, seed, i) && !Retried(tries(seed + i))
                  && Retry(tries, seed, count) == tries(seed + i))
    decreases count
  {
    if count > 0 {
      if Retried(tries(seed)) {
        RetryCases(tries, seed + 1, count - 1);
        if !(Retry(tries, seed + 1, count - 1) == Err(MaxTryExceeded) && AllRetried(tries, seed + 1, count - 1)) {
          var i :| 0 <= i < count - 1 && AllRetried(tries, seed + 1, i) && !Retried(tries(seed + 1 + i))
                   && Retry(tries, seed + 1, count - 1) == tries(seed + 1 + i);
          assert seed + (i + 1) == seed + 1 + i;
          assert AllRetried(tries, seed, i + 1);
        } else {
          assert AllRetried(tries, seed, count);
        }
      } else {
        assert seed + 0 == seed;
        assert AllRetried(tries, seed, 0);
      }
    }
  }

  /** convert gives up with MaxTryExceeded exactly when every one of its
      attempts failed retryably, provided no attempt raises that failure
      itself. */
  lemma MaxTryExactlyWhenAllRetried(tries: int -> Result<Matrix>, seed: int, count: int)
    requires forall s :: tries(s) != Err(MaxTryExceeded)
    ensures Retry(tries, seed, count) == Err(MaxTryExceeded) <==> AllRetried(tries, seed, count)
  {
    RetryCases(tries, seed, count);
    if AllRetried(tries, seed, count) {
      RetryExhausted(tries, seed, count);
    }
  }

  /** No attempt itself ends with MaxTryExceeded. */
  lemma AttemptNeverMaxTry(job: Job, seed: int)
    requires LayoutFailures(job)
    ensures Attempt(job, seed) != Err(MaxTryExceeded)
  {
    var loaded := LoadOutcome(job.text);
    if loaded.Ok? {
      var laid := job.layout(seed, Extract(job.text));
      assert laid.Err? ==> laid.error.CrossingMeet? || laid.error.AssertionFailed?;
    }
  }

  /** One attempt fails with BadBorder exactly when the code loads, the
      layout stage succeeds, the border check can read the grid, and the
      target component is not on the outer border. */
  lemma BadBorderExactly(job: Job, seed: int)
    requires LayoutFailures(job)
    ensures Attempt(job, seed) == Err(BadBorder) <==>
              && LoadOutcome(job.text).Ok?
              && job.layout(seed, Extract(job.text)).Ok?
              && !Unreadable(job.layout(seed, Extract(job.text)).value)
              && !OnBorder(job.lastSocketId, job.layout(seed, Extract(job.text)).value)
  {
    var laid := job.layout(seed, Extract(job.text));
    assert laid.Err? ==> laid.error.CrossingMeet? || laid.error.AssertionFailed?;
  }

  /** The check's verdict is OnBorder: the node count the check reports is
      the only one NodeTop allows. */
  lemma VerdictIsOnBorder(lastSocketId: int, m: Matrix, nodes: int, verdict: bool)
    requires NodeTop(m, nodes)
    requires verdict <==> ComponentOf(DiagramEdges(m), nodes, Target(lastSocketId, m)) * BorderValues(m) != {}
    ensures verdict <==> OnBorder(lastSocketId, m)
  {
    if OnBorder(lastSocketId, m) {
      var n :| NodeTop(m, n) && ComponentOf(DiagramEdges(m), n, Target(lastSocketId, m)) * BorderValues(m) != {};
      NodeTopUnique(m, n, nodes);
    }
  }

  /** toIntMatrix2: a dense copy of the exported matrix. */
  method ToIntMatrix2(m: Matrix) returns (im: IntMatrix2)
    ensures fresh(im) && im.Valid() && im.Value() == m
  {
    im := new IntMatrix2(m.rcnt, m.ccnt);
    im.cells := m.cells;
  }

  /** tryConvertOnce: load the code, run the layout stage for this seed,
      then check the border; a false verdict is BadBorder. */
  method TryConvertOnce(seed: int, job: Job) returns (r: Result<Matrix>)
    ensures Agree(r, Attempt(job, seed))
  {
    var pdCode := new PDCode();
    var loaded := pdCode.InputPdCode(job.text);
    if loaded.Err? {
      return Err(loaded.error);
    }
    var laid := job.layout(seed, Flatten(pdCode.pdCode));
    if laid.Err? {
      return laid;
    }
    var im := laid.value;
    var im2 := ToIntMatrix2(im);
    var flag, nodes := CheckBorderMaxCC(job.lastSocketId, im2);
    if flag.Err? {
      return Err(flag.error);
    }
    VerdictIsOnBorder(job.lastSocketId, im, nodes, flag.value);
    if !flag.value {
      return Err(BadBorder);
    }
    r := Ok(im);
  }

  /** One attempt, as the retry loop sees it: agreeing with the tabulated
      outcome. */
  method AttemptOnce(seed: int, job: Job, ghost tries: int -> Result<Matrix>) returns (once: Result<Matrix>)
    requires Tabulates(tries, job)
    ensures Agree(once, tries(seed))
  {
    once := TryConvertOnce(seed, job);
  }

  /** convert: try the seeds minSeed, minSeed+1, .., minSeed+maxTry in
      turn; a crossing meeting or a bad border moves on to the next seed,
      any other failure ends the conversion, and the first success is the
      answer.  When no seed succeeds, MaxTryExceeded. */
  method Convert(minSeed: int, job: Job, maxTry: int, ghost tries: int -> Result<Matrix>) returns (r: Result<Matrix>)
    requires Tabulates(tries, job)
    ensures Agree(r, Retry(tries, minSeed, maxTry + 1))
  {
    var ans: Matrix := Zeros(1, 1);
    var fail := true;
    var suc := false;
    var seed := minSeed;
    ghost var left := maxTry + 1;
    ghost var answer := Retry(tries, minSeed, maxTry + 1);
    while seed <= minSeed + maxTry
      invariant minSeed <= seed && (maxTry >= 0 ==> seed <= minSeed + maxTry + 1)
      invariant left == minSeed + maxTry + 1 - seed
      invariant fail && !suc
      invariant answer == Retry(tries, seed, left)
      decreases left
    {
      var once := AttemptOnce(seed, job, tries);
      RetryNext(tries, seed, left, once);
      if once.Ok? {
        ans := once.value;
        fail := false;
        suc := true;
      } else if once.error.Retryable() {
        fail := true;
      } else {
        return once;
      }
      if !fail {
        break;
      }
      seed := seed + 1;
      left := left - 1;
    }
    if !suc {
      return Err(MaxTryExceeded);
    }
    r := Ok(ans);
  }

  /** The loop bound as written: min_seed + max_try in unsigned 32-bit
      arithmetic. */
  function SeedBoundAsWritten(minSeed: int, maxTry: int): (b: int)
    ensures 0 <= b < U32
    ensures 0 <= minSeed < U32 && 0 <= maxTry < U32 ==> (b < minSeed <==> minSeed + maxTry >= U32)
  {
    (minSeed + maxTry) % U32
  }

  /** convert as written, with an unsigned seed: it tries the seeds from
      minSeed up to the wrapped bound, so the number of attempts is not
      maxTry + 1 once minSeed + maxTry passes 2^32. */
  method ConvertAsWritten(minSeed: int, job: Job, maxTry: int, ghost tries: int -> Result<Matrix>) returns (r: Result<Matrix>)
    requires 0 <= minSeed < U32 && Tabulates(tries, job)
    requires SeedBoundAsWritten(minSeed, maxTry) < U32 - 1
    ensures Agree(r, Retry(tries, minSeed, SeedBoundAsWritten(minSeed, maxTry) + 1 - minSeed))
  {
    var ans: Matrix := Zeros(1, 1);
    var fail := true;
    var suc := false;
    var bound := SeedBoundAsWritten(minSeed, maxTry);
    var seed := minSeed;
    ghost var left := bound + 1 - minSeed;
    ghost var answer := Retry(tries, minSeed, left);
    while seed <= bound
      invariant minSeed <= seed && (minSeed <= bound ==> seed <= bound + 1)
      invariant left == bound + 1 - seed
      invariant fail && !suc
      invariant answer == Retry(tries, seed, left)
      decreases left
    {
      var once := AttemptOnce(seed, job, tries);
      RetryNext(tries, seed, left, once);
      if once.Ok? {
        ans := once.value;
        fail := false;
        suc := true;
      } else if once.error.Retryable() {
        fail := true;
      } else {
        return once;
      }
      if !fail {
        break;
      }
      NoWrap(seed + 1);
      seed := (seed + 1) % U32;
      left := left - 1;
    }
    if !suc {
      return Err(MaxTryExceeded);
    }
    r := Ok(ans);
  }

  /** A seed below 2^32 is its own unsigned value. */
  lemma NoWrap(x: int)
    requires 0 <= x < U32
    ensures x % U32 == x
  {
  }

  /** With min_seed = 2^32 - 1 and the default max_try = 100 the wrapped
      bound is 99, below the first seed: the written loop makes no attempt
      and reports MaxTryExceeded, even when the very first seed would have
      succeeded, as Convert (which tries all 101 seeds) reports. */
  lemma WrappedBoundSkipsEverySeed(tries: int -> Result<Matrix>)
    ensures SeedBoundAsWritten(U32 - 1, 100) == 99
    ensures Retry(tries, U32 - 1, SeedBoundAsWritten(U32 - 1, 100) + 1 - (U32 - 1)) == Err(MaxTryExceeded)
    ensures tries(U32 - 1).Ok? ==> Retry(tries, U32 - 1, 100 + 1) == tries(U32 - 1)
  {
    if tries(U32 - 1).Ok? {
      assert AllRetried(tries, U32 - 1, 0);
      assert U32 - 1 + 0 == U32 - 1;
      RetryStopsAtFirst(tries, U32 - 1, 101, 0);
    }
  }

  /** Convert gives up only after every one of its maxTry + 1 seeds failed
      with a crossing meeting or a bad border. */
  lemma ConvertTriesEverySeed(job: Job, minSeed: int, maxTry: int, tries: int -> Result<Matrix>)
    requires LayoutFailures(job) && Tabulates(tries, job)
    ensures Retry(tries, minSeed, maxTry + 1) == Err(MaxTryExceeded) <==> AllRetried(tries, minSeed, maxTry + 1)
  {
    forall s
      ensures tries(s) != Err(MaxTryExceeded)
    {
      AttemptNeverMaxTry(job, s);
    }
    MaxTryExactlyWhenAllRetried(tries, minSeed, maxTry + 1);
  }

  // ---- getAllCc

  /** The edges getAllCc adds for a code given as its flat id list: in
      every crossing, positions 0 and 2, and positions 1 and 3, each pair
      both ways. */
  function StrandEdges(ints: seq<int>): set<(int, int)>
    decreases |ints|
  {
    if |ints| < 4 then {}
    else
      var k := |ints| - 4;
      StrandEdges(ints[..k]) + {(ints[k], ints[k + 2]), (ints[k + 2], ints[k]), (ints[k + 1], ints[k + 3]), (ints[k + 3], ints[k + 1])}
  }

  /** The largest id of the code, and 0 for no ids. */
  function TopId(ints: seq<int>): int
    decreases |ints|
  {
    if ints == [] then 0 else Graphs.Max(TopId(ints[..|ints| - 1]), ints[|ints| - 1])
  }

  /** Every id is a node id the graph accepts. */
  predicate AllIds(ints: seq<int>)
  {
    forall i :: 0 <= i < |ints| ==> ints[i] >= 1
  }

  /** The pairs added for one crossing by the first j rounds of the inner
      loop. */
  function PairsBelow(c: seq<int>, j: int): set<(int, int)>
    requires |c| == 4
  {
    (if j >= 1 then {(c[0], c[2]), (c[2], c[0])} else {}) + (if j >= 2 then {(c[1], c[3]), (c[3], c[1])} else {})
  }

  /** The node count after the first j rounds of the inner loop. */
  function TopBelow(top: int, c: seq<int>, j: int): int
    requires |c| == 4
  {
    var t1 := if j >= 1 then Graphs.Max(Graphs.Max(top, c[0]), c[2]) else top;
    if j >= 2 then Graphs.Max(Graphs.Max(t1, c[1]), c[3]) else t1
  }

  /** Flattening one more crossing appends its ids. */
  lemma FlattenSnoc(code: seq<seq<int>>, i: int)
    requires 0 <= i < |code|
    ensures Flatten(code[..i + 1]) == Flatten(code[..i]) + code[i]
  {
    assert code[..i + 1][..i] == code[..i];
  }

  /** One more crossing adds its two pairs and may raise the top id. */
  lemma StrandSnoc(ints: seq<int>, c: seq<int>)
    requires |c| == 4
    ensures StrandEdges(ints + c) == StrandEdges(ints) + PairsBelow(c, 2)
    ensures TopId(ints + c) == TopBelow(TopId(ints), c, 2)
  {
    var all := ints + c;
    assert all[..|ints|] == ints;
    assert all[..|ints| + 3] == ints + c[..3];
    assert (ints + c[..3])[..|ints| + 2] == ints + c[..2];
    assert (ints + c[..2])[..|ints| + 1] == ints + c[..1];
    assert (ints + c[..1])[..|ints|] == ints;
    assert TopId(ints + c[..1]) == Graphs.Max(TopId(ints), c[0]);
    assert TopId(ints + c[..2]) == Graphs.Max(TopId(ints + c[..1]), c[1]);
    assert TopId(ints + c[..3]) == Graphs.Max(TopId(ints + c[..2]), c[2]);
  }

  /** One more crossing of node ids keeps every id a node id. */
  lemma AllIdsSnoc(ints: seq<int>, c: seq<int>)
    requires |c| == 4 && AllIds(ints) && LinkedBelow(c, 2)
    ensures AllIds(ints + c)
  {
  }

  /** A crossing with an id below 1 puts that id in the flat list. */
  lemma BadIdFound(code: seq<seq<int>>, i: int)
    requires AllCrossings(code) && 0 <= i < |code| && !LinkedBelow(code[i], 2)
    ensures !AllIds(Flatten(code))
  {
    var j := if code[i][0] < 1 then 0 else if code[i][2] < 1 then 2 else if code[i][1] < 1 then 1 else 3;
    InFlatten(code, i, j);
  }

  /** Every id of a crossing is in the flat list. */
  lemma {:induction false} InFlatten(code: seq<seq<int>>, i: int, j: int)
    requires 0 <= i < |code| && 0 <= j < |code[i]|
    ensures code[i][j] in Flatten(code)
    decreases |code|
  {
    if i < |code| - 1 {
      InFlatten(code[..|code| - 1], i, j);
    }
  }

  /** The ids the first j rounds of the inner loop have linked are node
      ids. */
  predicate LinkedBelow(c: seq<int>, j: int)
    requires |c| == 4
  {
    (j >= 1 ==> c[0] >= 1 && c[2] >= 1) && (j >= 2 ==> c[1] >= 1 && c[3] >= 1)
  }

  /** Round j of the inner loop adds the pair at positions j and j + 2. */
  lemma BelowStep(top: int, c: seq<int>, j: int)
    requires |c| == 4 && 0 <= j < 2
    ensures PairsBelow(c, j + 1) == PairsBelow(c, j) + {(c[j], c[j + 2]), (c[j + 2], c[j])}
    ensures TopBelow(top, c, j + 1) == Graphs.Max(Graphs.Max(TopBelow(top, c, j), c[j]), c[j + 2])
  {
  }

  /** One round of the inner loop: link positions j and j + 2. */
  method LinkPair(nodeGraph: Graph, crossing: PDCrossing, j: int, ghost base: set<(int, int)>, ghost top: int) returns (o: Outcome)
    requires nodeGraph.Valid() && |crossing.crs| == 4 && 0 <= j < 2
    requires nodeGraph.Edges() == base + PairsBelow(crossing.crs, j) && nodeGraph.maxNodeId == TopBelow(top, crossing.crs, j)
    modifies nodeGraph
    ensures nodeGraph.Valid()
    ensures o == Pass <==> crossing.crs[j] >= 1 && crossing.crs[j + 2] >= 1
    ensures o.Fail? ==> o.error.AssertionFailed?
    ensures o == Pass ==> nodeGraph.Edges() == base + PairsBelow(crossing.crs, j + 1)
    ensures o == Pass ==> nodeGraph.maxNodeId == TopBelow(top, crossing.crs, j + 1)
  {
    BelowStep(top, crossing.crs, j);
    o := nodeGraph.AddEdge(crossing.crs[j], crossing.crs[j + 2]);
  }

  /** The inner loop of getAllCc: link positions j and j + 2 of one
      crossing for j = 0, 1; an id below 1 fails. */
  method LinkStrands(nodeGraph: Graph, crossing: PDCrossing, ghost before: seq<int>) returns (o: Outcome)
    requires nodeGraph.Valid() && |crossing.crs| == 4
    requires nodeGraph.Edges() == StrandEdges(before) && nodeGraph.maxNodeId == TopId(before)
    modifies nodeGraph
    ensures nodeGraph.Valid()
    ensures o == Pass <==> LinkedBelow(crossing.crs, 2)
    ensures o.Fail? ==> o.error.AssertionFailed?
    ensures o == Pass ==> nodeGraph.Edges() == StrandEdges(before + crossing.crs)
    ensures o == Pass ==> nodeGraph.maxNodeId == TopId(before + crossing.crs)
  {
    ghost var c := crossing.crs;
    ghost var top := TopId(before);
    ghost var base := StrandEdges(before);
    for j := 0 to 2
      invariant nodeGraph.Valid() && crossing.crs == c
      invariant nodeGraph.Edges() == base + PairsBelow(c, j)
      invariant nodeGraph.maxNodeId == TopBelow(top, c, j)
      invariant LinkedBelow(c, j)
    {
      o := LinkPair(nodeGraph, crossing, j, base, top);
      if o.Fail? {
        return;
      }
    }
    StrandSnoc(before, c);
    o := Pass;
  }

  /** The loop of getAllCc: a graph holding, for every crossing of the
      loaded code, the pairs at positions 0-2 and 1-3; an id below 1 is
      the graph's fatal assertion. */
  method StrandGraph(pdCode: PDCode) returns (nodeGraph: Graph, o: Outcome)
    requires pdCode.Valid()
    ensures fresh(nodeGraph) && nodeGraph.Valid()
    ensures o == Pass <==> AllIds(Flatten(pdCode.pdCode))
    ensures o.Fail? ==> o.error.AssertionFailed?
    ensures o == Pass ==> nodeGraph.Edges() == StrandEdges(Flatten(pdCode.pdCode))
    ensures o == Pass ==> nodeGraph.maxNodeId == TopId(Flatten(pdCode.pdCode))
  {
    nodeGraph := new Graph();
    ghost var code := pdCode.pdCode;
    for i := 0 to pdCode.GetCrossingNumber()
      invariant pdCode.pdCode == code && pdCode.n == |code| && AllCrossings(code)
      invariant fresh(nodeGraph) && nodeGraph.Valid()
      invariant nodeGraph.Edges() == StrandEdges(Flatten(code[..i]))
      invariant nodeGraph.maxNodeId == TopId(Flatten(code[..i]))
      invariant AllIds(Flatten(code[..i]))
    {
      var crossing := pdCode.GetCrossing(i);
      ghost var before := Flatten(code[..i]);
      o := LinkStrands(nodeGraph, crossing, before);
      if o.Fail? {
        BadIdFound(code, i);
        return;
      }
      FlattenSnoc(code, i);
      AllIdsSnoc(before, crossing.crs);
    }
    assert code[..|code|] == code;
    o := Pass;
  }

  /** getAllCc: load the code, link positions 0-2 and 1-3 of every
      crossing in an undirected graph, and return the graph's connected
      components. */
  method GetAllCc(text: string) returns (r: Result<seq<set<int>>>)
    ensures LoadOutcome(text).Err? ==> r == Err(LoadOutcome(text).error)
    ensures LoadOutcome(text).Ok? ==> (r.Ok? <==> AllIds(Extract(text)))
    ensures r.Err? ==> r.error.AssertionFailed?
    ensures r.Ok? ==> Components(StrandEdges(Extract(text)), TopId(Extract(text)), r.value)
  {
    var pdCode := new PDCode();
    var loaded := pdCode.InputPdCode(text);
    if loaded.Err? {
      return Err(loaded.error);
    }
    var nodeGraph, o := StrandGraph(pdCode);
    if o.Fail? {
      return Err(o.error);
    }
    var allCc := ComponentsOf(nodeGraph);
    r := Ok(allCc);
  }

  /** The last step of getAllCc: the union-find's components of the
      graph. */
  method ComponentsOf(nodeGraph: Graph) returns (allCc: seq<set<int>>)
    requires nodeGraph.Valid()
    ensures Components(nodeGraph.Edges(), nodeGraph.maxNodeId, allCc)
  {
    var ccAlg := new ConnectedComponents(nodeGraph);
    allCc := ccAlg.GetConnectedComponents();
  }

  /** The two ends of a strand through a crossing end up in one component:
      for every crossing, the ids at positions 0 and 2 (and at 1 and 3)
      share a component of getAllCc's answer. */
  lemma StrandEndsShareComponent(ints: seq<int>, cc: seq<set<int>>, k: int, j: int)
    requires AllIds(ints) && Components(StrandEdges(ints), TopId(ints), cc)
    requires |ints| % 4 == 0 && 0 <= k && 4 * k + 4 <= |ints| && 0 <= j <= 1
    ensures exists p :: 0 <= p < |cc| && ints[4 * k + j] in cc[p] && ints[4 * k + j + 2] in cc[p]
  {
    var a, b := ints[4 * k + j], ints[4 * k + j + 2];
    StrandEdgeAt(ints, k, j);
    TopIdBound(ints, 4 * k + j);
    TopIdBound(ints, 4 * k + j + 2);
    assert Covered(cc, a);
    var p :| 0 <= p < |cc| && a in cc[p];
    assert IsComponent(StrandEdges(ints), TopId(ints), cc[p]);
    ConnEdge(StrandEdges(ints), a, b);
  }

  lemma {:induction false} StrandEdgeAt(ints: seq<int>, k: int, j: int)
    requires |ints| % 4 == 0 && 0 <= k && 4 * k + 4 <= |ints| && 0 <= j <= 1
    ensures (ints[4 * k + j], ints[4 * k + j + 2]) in StrandEdges(ints)
    decreases |ints|
  {
    var last := |ints| - 4;
    if 4 * k < last {
      assert ints[..last][4 * k + j] == ints[4 * k + j] && ints[..last][4 * k + j + 2] == ints[4 * k + j + 2];
      StrandEdgeAt(ints[..last], k, j);
    }
  }

  /** Every id is at most TopId, which is never negative. */
  lemma {:induction false} TopIdBound(ints: seq<int>, i: int)
    requires 0 <= i < |ints|
    ensures 0 <= TopId(ints) && ints[i] <= TopId(ints)
    decreases |ints|
  {
    var init := ints[..|ints| - 1];
    if i < |ints| - 1 {
      assert init[i] == ints[i];
      TopIdBound(init, i);
    } else if init != [] {
      TopIdBound(init, 0);
    }
  }
}
