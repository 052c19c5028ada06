// A PD code: n crossings of four socket ids each, read from text and
// checked to use every id 1..2n exactly twice.

module PdCodes {
  import opened Wrappers
  import opened NumInput
  import opened PdCrossings

  /** The ids of all crossings, in order. */
  function Flatten(code: seq<seq<int>>): seq<int>
    decreases |code|
  {
    if code == [] then [] else Flatten(code[..|code| - 1]) + code[|code| - 1]
  }

  /** `code` is `ints` cut into consecutive groups of four. */
  ghost predicate ChunksOf(code: seq<seq<int>>, ints: seq<int>)
  {
    |ints| == 4 * |code| && forall i :: 0 <= i < |code| ==> code[i] == ints[4 * i..4 * i + 4]
  }

  /** Every crossing has four ids. */
  predicate AllCrossings(code: seq<seq<int>>)
  {
    forall i :: 0 <= i < |code| ==> |code[i]| == 4
  }

  /** Cutting the flattened ids into fours gives the crossings back. */
  lemma {:induction false} FlattenChunks(code: seq<seq<int>>)
    requires AllCrossings(code)
    ensures ChunksOf(code, Flatten(code))
    decreases |code|
  {
    if code != [] {
      var init, last := code[..|code| - 1], code[|code| - 1];
      FlattenChunks(init);
      var g := Flatten(init);
      var f := Flatten(code);
      assert f == g + last;
      forall i | 0 <= i < |code| ensures code[i] == f[4 * i..4 * i + 4] {
        if i == |code| - 1 {
          assert f[4 * i..4 * i + 4] == last;
        } else {
          assert code[i] == init[i] == g[4 * i..4 * i + 4];
          assert f[4 * i..4 * i + 4] == g[4 * i..4 * i + 4];
        }
      }
    }
  }

  /** The ids cut into the same crossings are the same ids. */
  lemma ChunksSameIds(code: seq<seq<int>>, a: seq<int>, b: seq<int>)
    requires ChunksOf(code, a) && ChunksOf(code, b)
    ensures a == b
  {
    forall k | 0 <= k < |a| ensures a[k] == b[k] {
      var i := k / 4;
      assert 4 * i <= k < 4 * i + 4 && i < |code|;
      assert a[4 * i..4 * i + 4] == code[i] == b[4 * i..4 * i + 4];
      assert a[4 * i..4 * i + 4][k - 4 * i] == a[k];
      assert b[4 * i..4 * i + 4][k - 4 * i] == b[k];
    }
  }

  /** Cut into fours, ids flatten back to themselves. */
  lemma ChunksFlatten(code: seq<seq<int>>, ints: seq<int>)
    requires ChunksOf(code, ints)
    ensures AllCrossings(code) && Flatten(code) == ints
  {
    FlattenChunks(code);
    ChunksSameIds(code, Flatten(code), ints);
  }

  /** What std::map's operator[] reads: a missing key counts zero. */
  function Count(cnt: map<int, int>, x: int): int
  {
    if x in cnt then cnt[x] else 0
  }

  /** Every id 1..2n occurs exactly twice. */
  predicate EveryIdTwice(ints: seq<int>, n: int)
  {
    forall i :: 1 <= i <= 2 * n ==> multiset(ints)[i] == 2
  }

  /** Two copies of each of 1..k. */
  function TwoCopies(k: nat): (m: multiset<int>)
    ensures |m| == 2 * k
    ensures forall x :: m[x] == if 1 <= x <= k then 2 else 0
  {
    if k == 0 then multiset{} else TwoCopies(k - 1) + multiset{k as int, k as int}
  }

  /** With 4n ids, "every id of 1..2n twice" leaves room for nothing else:
      the ids are exactly two copies of 1..2n, and conversely. */
  lemma ExactlyTwoCopies(ints: seq<int>, n: nat)
    requires |ints| == 4 * n
    ensures EveryIdTwice(ints, n) <==> multiset(ints) == TwoCopies(2 * n)
  {
    var m, t := multiset(ints), TwoCopies(2 * n);
    if EveryIdTwice(ints, n) {
      assert t <= m;
      var d := m - t;
      assert m == t + d;
      assert |d| == 0;
    }
  }

  /** What InputPdCode reports for the text it reads: a fatal assertion
      unless the number of integers is a non-zero multiple of four, else
      whether every id 1..2n occurs exactly twice, n being a quarter of
      the count. */
  function LoadOutcome(text: seq<char>): Result<bool>
  {
    var ints := Extract(text);
    if |ints| == 0 || |ints| % 4 != 0 then Err(AssertionFailed("InputPdCode: bad integer count"))
    else Ok(EveryIdTwice(ints, |ints| / 4))
  }

  /** The texts of the crossings, each with the item decorations. */
  function CrossingTexts(code: seq<seq<int>>, beforeItem: seq<char>, beginItem: seq<char>,
                         sep: seq<char>, endItem: seq<char>): (r: seq<seq<char>>)
    ensures |r| == |code|
    ensures forall i :: 0 <= i < |code| ==> r[i] == CrossingText(code[i], beforeItem, beginItem, sep, endItem)
    decreases |code|
  {
    if code == [] then []
    else CrossingTexts(code[..|code| - 1], beforeItem, beginItem, sep, endItem)
         + [CrossingText(code[|code| - 1], beforeItem, beginItem, sep, endItem)]
  }

  /** toString: the code's decorations around the crossings' texts joined
      by the separator. */
  function CodeText(code: seq<seq<int>>, beforeCode: seq<char>, beforeItem: seq<char>, beginItem: seq<char>,
                    sep: seq<char>, endItem: seq<char>): seq<char>
  {
    beforeCode + beginItem + Join(CrossingTexts(code, beforeItem, beginItem, sep, endItem), sep) + endItem
  }

  /** Decorations that carry no digits, so they read back as nothing. */
  predicate PlainDecorations(beforeCode: seq<char>, beforeItem: seq<char>, beginItem: seq<char>,
                             sep: seq<char>, endItem: seq<char>)
  {
    NoDigits(beforeCode) && NoDigits(beforeItem) && NoDigits(beginItem) && NoDigits(endItem)
    && |sep| > 0 && NoDigits(sep)
  }

  /** Every id is a non-negative int. */
  predicate IdsFit(code: seq<seq<int>>)
  {
    forall i, j :: 0 <= i < |code| && 0 <= j < |code[i]| ==> 0 <= code[i][j] <= IntMax
  }

  lemma {:induction false} FlattenFits(code: seq<seq<int>>)
    requires IdsFit(code)
    ensures forall i :: 0 <= i < |Flatten(code)| ==> 0 <= Flatten(code)[i] <= IntMax
    decreases |code|
  {
    if code != [] {
      var init, last := code[..|code| - 1], code[|code| - 1];
      FlattenFits(init);
      assert Flatten(code) == Flatten(init) + last;
    }
  }

  /** The digit runs of the crossings' texts are the renderings of all ids. */
  lemma {:induction false} CrossingRuns(code: seq<seq<int>>, beforeItem: seq<char>, beginItem: seq<char>,
                                        sep: seq<char>, endItem: seq<char>)
    requires NoDigits(beforeItem) && NoDigits(beginItem) && NoDigits(endItem) && |sep| > 0 && NoDigits(sep)
    requires IdsFit(code)
    ensures forall i :: 0 <= i < |Flatten(code)| ==> Flatten(code)[i] >= 0
    ensures RunsOfAll(CrossingTexts(code, beforeItem, beginItem, sep, endItem)) == NatRuns(Flatten(code))
    decreases |code|
  {
    FlattenFits(code);
    if code != [] {
      var init, last := code[..|code| - 1], code[|code| - 1];
      CrossingRuns(init, beforeItem, beginItem, sep, endItem);
      var ts := CrossingTexts(code, beforeItem, beginItem, sep, endItem);
      assert ts[..|ts| - 1] == CrossingTexts(init, beforeItem, beginItem, sep, endItem);
      CrossingTextRuns(last, beforeItem, beginItem, sep, endItem);
      NatRunsAppend(Flatten(init), last);
    }
  }

  /** Reading the integers out of a code's text gives all its ids in order. */
  lemma CodeTextReadsIds(code: seq<seq<int>>, beforeCode: seq<char>, beforeItem: seq<char>, beginItem: seq<char>,
                         sep: seq<char>, endItem: seq<char>)
    requires PlainDecorations(beforeCode, beforeItem, beginItem, sep, endItem) && IdsFit(code)
    ensures Extract(CodeText(code, beforeCode, beforeItem, beginItem, sep, endItem)) == Flatten(code)
  {
    var ts := CrossingTexts(code, beforeItem, beginItem, sep, endItem);
    var pre := beforeCode + beginItem;
    var j := Join(ts, sep);
    assert NoDigits(pre);
    assert pre + j + endItem == pre + (j + endItem);
    RunsNoDigitPrefix(pre, j + endItem);
    RunsNoDigitSuffix(j, endItem);
    RunsJoin(ts, sep);
    CrossingRuns(code, beforeItem, beginItem, sep, endItem);
    FlattenFits(code);
    ParseNatRuns(Flatten(code));
  }

  /** Writing a code out and reading it back: the integers are the ids,
      cut into the same crossings, and the check passes exactly when the
      code uses every id 1..2n twice. */
  lemma CodeTextRoundTrip(code: seq<seq<int>>, beforeCode: seq<char>, beforeItem: seq<char>, beginItem: seq<char>,
                          sep: seq<char>, endItem: seq<char>)
    requires PlainDecorations(beforeCode, beforeItem, beginItem, sep, endItem)
    requires |code| > 0 && AllCrossings(code) && IdsFit(code)
    ensures var ints := Extract(CodeText(code, beforeCode, beforeItem, beginItem, sep, endItem));
            ChunksOf(code, ints)
            && LoadOutcome(CodeText(code, beforeCode, beforeItem, beginItem, sep, endItem))
               == Ok(multiset(ints) == TwoCopies(2 * |code|))
  {
    var text := CodeText(code, beforeCode, beforeItem, beginItem, sep, endItem);
    CodeTextReadsIds(code, beforeCode, beforeItem, beginItem, sep, endItem);
    var ints := Extract(text);
    assert ints == Flatten(code);
    FlattenChunks(code);
    assert |ints| == 4 * |code|;
    assert |ints| / 4 == |code| && |ints| % 4 == 0 && |ints| != 0;
    ExactlyTwoCopies(ints, |code|);
    assert LoadOutcome(text) == Ok(EveryIdTwice(ints, |code|));
  }

  /** Reads the idx-th crossing's ids into `crs` and adds them to the
      counts, one id at a time. */
  method ReadCrossing(ints: seq<int>, idx: nat, cnt: map<int, int>)
    returns (crossing: seq<int>, cnt': map<int, int>)
    requires 4 * idx + 4 <= |ints|
    ensures crossing == ints[4 * idx..4 * idx + 4]
    ensures forall x :: Count(cnt', x) == Count(cnt, x) + multiset(crossing)[x]
  {
    crossing, cnt' := [], cnt;
    for j := 0 to 4
      invariant crossing == ints[4 * idx..4 * idx + j]
      invariant forall x :: Count(cnt', x) == Count(cnt, x) + multiset(crossing)[x]
    {
      var pos := idx * 4 + j;
      crossing := crossing + [ints[pos]];
      cnt' := cnt'[ints[pos] := Count(cnt', ints[pos]) + 1];
    }
  }

  /** The loop of InputPdCode over the crossings: each group of four ids
      becomes a crossing, and every id is counted. */
  method ReadCrossings(ints: seq<int>, count: nat) returns (code: seq<seq<int>>, cnt: map<int, int>)
    requires |ints| == 4 * count
    ensures ChunksOf(code, ints)
    ensures forall x :: Count(cnt, x) == multiset(ints)[x]
  {
    code, cnt := [], map[];
    for i := 0 to count
      invariant |code| == i && forall k :: 0 <= k < i ==> code[k] == ints[4 * k..4 * k + 4]
      invariant forall x :: Count(cnt, x) == multiset(ints[..4 * i])[x]
    {
      var crossing;
      crossing, cnt := ReadCrossing(ints, i, cnt);
      assert ints[..4 * i + 4] == ints[..4 * i] + crossing;
      code := code + [crossing];
    }
    assert ints[..4 * count] == ints;
  }

  /** The final check of InputPdCode: ids 1..2n each counted twice. */
  method EachIdTwice(cnt: map<int, int>, count: nat, ghost ints: seq<int>) returns (valid: bool)
    requires forall x :: Count(cnt, x) == multiset(ints)[x]
    ensures valid == EveryIdTwice(ints, count)
  {
    for i := 1 to 2 * count + 1
      invariant forall k :: 1 <= k < i ==> multiset(ints)[k] == 2
    {
      if Count(cnt, i) != 2 {
        return false;
      }
    }
    return true;
  }

  class PDCode {
    var n: int
    var pdCode: seq<seq<int>>

    /** n counts the crossings, and each has four ids. */
    ghost predicate Valid()
      reads this
    {
      n == |pdCode| && AllCrossings(pdCode)
    }

    /** A default code has no crossings. */
    constructor()
      ensures Valid() && n == 0 && pdCode == []
    {
      n := 0;
      pdCode := [];
    }

    method Clear()
      modifies this
      ensures Valid() && n == 0 && pdCode == []
    {
      n := 0;
      pdCode := [];
    }

    /** getCrossingNumber: zero means the code was never loaded. */
    function GetCrossingNumber(): (k: int)
      reads this
      requires Valid()
      ensures k == |pdCode| && (k == 0 <==> pdCode == [])
    {
      n
    }

    /** getCrossing: a fresh crossing loaded with the idx-th group of ids. */
    method GetCrossing(idx: int) returns (c: PDCrossing)
      requires Valid() && n != 0 && 0 <= idx < n
      ensures fresh(c) && c.crs == pdCode[idx] && |c.crs| == 4
    {
      c := new PDCrossing();
      var o := c.Load(pdCode[idx]);
    }

    /** The text of the idx-th crossing, as toString writes it. */
    method CrossingString(idx: int, beforeItem: seq<char>, beginItem: seq<char>,
                          sep: seq<char>, endItem: seq<char>) returns (t: seq<char>)
      requires Valid() && n != 0 && 0 <= idx < n
      ensures t == CrossingTexts(pdCode, beforeItem, beginItem, sep, endItem)[idx]
    {
      var c := GetCrossing(idx);
      t := c.ToString(beforeItem, beginItem, sep, endItem);
    }

    /** toString with the given decorations. */
    method ToString(beforeCode: seq<char>, beforeItem: seq<char>, beginItem: seq<char>,
                    sep: seq<char>, endItem: seq<char>) returns (ans: seq<char>)
      requires Valid() && n != 0
      ensures ans == CodeText(pdCode, beforeCode, beforeItem, beginItem, sep, endItem)
    {
      ghost var ts := CrossingTexts(pdCode, beforeItem, beginItem, sep, endItem);
      var start := beforeCode + beginItem;
      ans := start;
      for i := 0 to n
        invariant ans == start + Join(ts[..i], sep) + (if 0 < i < n then sep else [])
      {
        var t := CrossingString(i, beforeItem, beginItem, sep, endItem);
        JoinAlong(ans, start, ts, i, sep);
        ans := ans + t + (if i != n - 1 then sep else []);
      }
      assert ts[..n] == ts;
      ans := ans + endItem;
    }

    /** The reading and checking InputPdCode performs on the text it reads:
        the integers are cut into crossings of four, n is their number,
        and the result says whether every id 1..2n occurs twice. A bad
        integer count is a fatal assertion, after the old crossings are
        dropped and before n changes. */
    method LoadFromText(text: seq<char>) returns (r: Result<bool>)
      modifies this
      ensures r == LoadOutcome(text)
      ensures r.Ok? ==> Valid() && n == |Extract(text)| / 4 && ChunksOf(pdCode, Extract(text))
      ensures r.Err? ==> pdCode == [] && n == old(n)
    {
      pdCode := [];
      var ints := ExtractIntegers(text);
      if |ints| == 0 || |ints| % 4 != 0 {
        return Err(AssertionFailed("InputPdCode: bad integer count"));
      }
      var count := |ints| / 4;
      n := count;
      var cnt;
      pdCode, cnt := ReadCrossings(ints, count);
      ChunksFlatten(pdCode, ints);

      var valid := EachIdTwice(cnt, count, ints);
      return Ok(valid);
    }

    /** InputPdCode as written: it is handed a stream but reads the
        process's standard input instead, so what it loads and reports
        depends only on `stdinText`. */
    method InputPdCodeAsWritten(inputStream: seq<char>, stdinText: seq<char>) returns (r: Result<bool>)
      modifies this
      ensures r == LoadOutcome(stdinText)
      ensures r.Ok? ==> Valid() && ChunksOf(pdCode, Extract(stdinText))
    {
      r := LoadFromText(stdinText);
    }

    /** InputPdCode reading the stream it is given: it loads the stream's
        integers as crossings of four and reports true exactly when they
        are two copies of 1..2n. */
    method InputPdCode(inputStream: seq<char>) returns (r: Result<bool>)
      modifies this
      ensures r == LoadOutcome(inputStream)
      ensures r.Ok? ==> Valid() && n > 0 && Flatten(pdCode) == Extract(inputStream)
      ensures r.Ok? ==> (r.value <==> multiset(Flatten(pdCode)) == TwoCopies(2 * n))
    {
      r := LoadFromText(inputStream);
      if r.Ok? {
        ChunksFlatten(pdCode, Extract(inputStream));
        ExactlyTwoCopies(Extract(inputStream), n);
      }
    }
  }

  /** The written InputPdCode ignores its stream: a valid one-crossing code
      written to the stream passes when read from the stream, but with
      nothing on standard input the written version fails its count
      assertion. */
  lemma InputIgnoresStream(beforeCode: seq<char>, beforeItem: seq<char>, beginItem: seq<char>,
                           sep: seq<char>, endItem: seq<char>)
    requires PlainDecorations(beforeCode, beforeItem, beginItem, sep, endItem)
    ensures LoadOutcome(CodeText([[1, 2, 2, 1]], beforeCode, beforeItem, beginItem, sep, endItem)) == Ok(true)
    ensures LoadOutcome("") == Err(AssertionFailed("InputPdCode: bad integer count"))
  {
    var code := [[1, 2, 2, 1]];
    CodeTextReadsIds(code, beforeCode, beforeItem, beginItem, sep, endItem);
    assert Flatten(code) == [1, 2, 2, 1];
    OneCrossingPasses();
    NoDigitsNoRuns("");
  }

  /** The one-crossing code [[1, 2, 2, 1]] has each of its ids twice. */
  lemma OneCrossingPasses()
    ensures EveryIdTwice([1, 2, 2, 1], 1)
  {
    assert multiset([1, 2, 2, 1])[1] == 2 && multiset([1, 2, 2, 1])[2] == 2;
  }
}
