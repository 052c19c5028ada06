// Ascending listings of finite sets, and ranks.  std::set iterates its
// elements in ascending order, and std::sort / std::lower_bound are used
// on such listings; this module is their model.

module SortedSets {

  /** The elements of a sequence, as a set. */
  function Elems<T>(s: seq<T>): set<T>
  {
    set i | 0 <= i < |s| :: s[i]
  }

  predicate StrictlySorted(s: seq<int>)
  {
    forall i, j :: 0 <= i < j < |s| ==> s[i] < s[j]
  }

  predicate Sorted(s: seq<int>)
  {
    forall i, j :: 0 <= i < j < |s| ==> s[i] <= s[j]
  }

  predicate NoDuplicates<T(==)>(s: seq<T>)
  {
    forall i, j :: 0 <= i < j < |s| ==> s[i] != s[j]
  }

  lemma NonEmptyPick<T>(s: set<T>) returns (x: T)
    requires s != {}
    ensures x in s
  {
    assert |s| > 0;
    x :| x in s;
  }

  lemma {:induction false} MinExists(s: set<int>)
    requires s != {}
    ensures exists m :: m in s && forall y :: y in s ==> m <= y
  {
    var x := NonEmptyPick(s);
    if s != {x} {
      var r := s - {x};
      MinExists(r);
      var m :| m in r && forall y :: y in r ==> m <= y;
      forall y | y in s ensures y == x || y in r { }
      if x < m {
        assert forall y :: y in s ==> x <= y;
      } else {
        assert forall y :: y in s ==> m <= y;
      }
    } else {
      assert forall y :: y in s ==> x <= y;
    }
  }

  /** The smallest element of a non-empty set. */
  function MinOf(s: set<int>): (m: int)
    requires s != {}
    ensures m in s && forall y :: y in s ==> m <= y
  {
    MinExists(s);
    var m :| m in s && forall y :: y in s ==> m <= y; m
  }

  /** The elements of `s` in ascending order: what iterating a std::set
      yields. */
  function SortedInts(s: set<int>): seq<int>
    decreases s
  {
    if s == {} then [] else
      var m := MinOf(s);
      [m] + SortedInts(s - {m})
  }

  /** The ascending listing is strictly sorted, lists exactly the set, and
      has one entry per element. */
  lemma {:induction false} SortedIntsSpec(s: set<int>)
    ensures StrictlySorted(SortedInts(s))
    ensures Elems(SortedInts(s)) == s
    ensures |SortedInts(s)| == |s|
    decreases s
  {
    if s != {} {
      var m := MinOf(s);
      var rest := SortedInts(s - {m});
      SortedIntsSpec(s - {m});
      SortedIntsStep(s, m, rest);
    }
  }

  lemma SortedIntsStep(s: set<int>, m: int, rest: seq<int>)
    requires s != {} && m == MinOf(s) && rest == SortedInts(s - {m})
    requires StrictlySorted(rest) && Elems(rest) == s - {m} && |rest| == |s - {m}|
    ensures StrictlySorted(SortedInts(s)) && Elems(SortedInts(s)) == s && |SortedInts(s)| == |s|
  {
    MinBelowRest(s, m, rest);
    ConsStrict(m, rest);
    ConsElems(m, rest);
    assert SortedInts(s) == [m] + rest;
  }

  /** The least element is below every entry listing the other elements. */
  lemma MinBelowRest(s: set<int>, m: int, rest: seq<int>)
    requires s != {} && m == MinOf(s) && Elems(rest) == s - {m}
    ensures forall k :: 0 <= k < |rest| ==> m < rest[k]
  {
    forall k | 0 <= k < |rest| ensures m < rest[k] {
      assert rest[k] in Elems(rest);
    }
  }

  /** Putting a smaller entry in front keeps a listing strictly sorted. */
  lemma ConsStrict(m: int, rest: seq<int>)
    requires StrictlySorted(rest)
    requires forall k :: 0 <= k < |rest| ==> m < rest[k]
    ensures StrictlySorted([m] + rest)
  {
    var r := [m] + rest;
    forall i, j | 0 <= i < j < |r| ensures r[i] < r[j] {
      assert r[j] == rest[j - 1];
      if i > 0 { assert r[i] == rest[i - 1]; }
    }
  }

  /** Putting an entry in front adds exactly that entry. */
  lemma ConsElems<T>(m: T, rest: seq<T>)
    ensures Elems([m] + rest) == {m} + Elems(rest)
  {
    ElemsConcat([m], rest);
    assert [m][0] == m;
    assert Elems([m]) == {m};
  }

  lemma FirstIsLeast(s: seq<int>, k: int)
    requires StrictlySorted(s) && 0 <= k < |s|
    ensures s[0] <= s[k]
  {
  }

  /** A strictly sorted sequence is determined by its set of elements. */
  lemma {:induction false} StrictlySortedUnique(a: seq<int>, b: seq<int>)
    requires StrictlySorted(a) && StrictlySorted(b)
    requires Elems(a) == Elems(b)
    ensures a == b
    decreases |a|
  {
    if |a| == 0 {
      assert NoDuplicates(b);
      DistinctCard(b);
    } else {
      assert a[0] in Elems(b);
      assert |b| > 0;
      assert b[0] in Elems(a);
      var i :| 0 <= i < |b| && b[i] == a[0];
      var j :| 0 <= j < |a| && a[j] == b[0];
      FirstIsLeast(a, j);
      FirstIsLeast(b, i);
      var a' := a[1..];
      var b' := b[1..];
      forall y | y in Elems(a') ensures y in Elems(b') {
        var k :| 0 <= k < |a'| && a'[k] == y;
        assert a[k + 1] == y && a[0] < y;
        assert y in Elems(b);
        var l :| 0 <= l < |b| && b[l] == y;
        assert l != 0;
        assert b'[l - 1] == y;
      }
      forall y | y in Elems(b') ensures y in Elems(a') {
        var k :| 0 <= k < |b'| && b'[k] == y;
        assert b[k + 1] == y && b[0] < y;
        assert y in Elems(a);
        var l :| 0 <= l < |a| && a[l] == y;
        assert l != 0;
        assert a'[l - 1] == y;
      }
      StrictlySortedUnique(a', b');
      assert a == [a[0]] + a' && b == [b[0]] + b';
    }
  }

  /** A sequence without duplicates has as many distinct elements as
      entries. */
  lemma {:induction false} DistinctCard<T>(s: seq<T>)
    requires NoDuplicates(s)
    ensures |Elems(s)| == |s|
    decreases |s|
  {
    if |s| > 0 {
      var t := s[..|s| - 1];
      DistinctCard(t);
      assert Elems(s) == Elems(t) + {s[|s| - 1]};
      assert s[|s| - 1] !in Elems(t) by {
        forall k | 0 <= k < |t| ensures t[k] != s[|s| - 1] {
          assert t[k] == s[k];
        }
      }
    }
  }

  /** The rank of `x` in `s`: how many members are smaller.  It is the
      index of `x` in the ascending listing (see `LowerBoundIsRank`). */
  function Rank(s: set<int>, x: int): nat
  {
    |set y | y in s && y < x|
  }

  lemma {:induction false} SubsetCard<T>(a: set<T>, b: set<T>)
    requires a <= b
    ensures |a| <= |b|
    decreases b
  {
    if a != {} {
      var x := NonEmptyPick(a);
      SubsetCard(a - {x}, b - {x});
    }
  }

  lemma ProperSubsetCard<T>(a: set<T>, b: set<T>, x: T)
    requires a <= b && x in b && x !in a
    ensures |a| < |b|
  {
    SubsetCard(a, b - {x});
  }

  /** Ranks of members are strictly increasing and below the set size. */
  lemma RankMonotone(s: set<int>, x: int, y: int)
    requires x in s && y in s && x < y
    ensures Rank(s, x) < Rank(s, y) < |s|
  {
    var below := set z | z in s && z < x;
    var belowY := set z | z in s && z < y;
    ProperSubsetCard(below, belowY, x);
    ProperSubsetCard(belowY, s, y);
  }

  lemma RankBelowSize(s: set<int>, x: int)
    requires x in s
    ensures Rank(s, x) < |s|
  {
    var below := set z | z in s && z < x;
    ProperSubsetCard(below, s, x);
  }

  /** `std::lower_bound`: the first index whose entry is not below `x`, found
      by bisection. */
  method LowerBound(a: seq<int>, x: int) returns (r: int)
    requires Sorted(a)
    ensures 0 <= r <= |a|
    ensures forall i :: 0 <= i < r ==> a[i] < x
    ensures forall i :: r <= i < |a| ==> x <= a[i]
  {
    var lo, hi := 0, |a|;
    while lo < hi
      invariant 0 <= lo <= hi <= |a|
      invariant forall i :: 0 <= i < lo ==> a[i] < x
      invariant forall i :: hi <= i < |a| ==> x <= a[i]
      decreases hi - lo
    {
      var mid := lo + (hi - lo) / 2;
      if a[mid] < x {
        lo := mid + 1;
      } else {
        hi := mid;
      }
    }
    r := lo;
  }

  /** On a strictly sorted listing of `s`, the lower-bound index of `x` is
      its rank. */
  lemma LowerBoundIsRank(a: seq<int>, s: set<int>, x: int, r: int)
    requires StrictlySorted(a) && Elems(a) == s
    requires 0 <= r <= |a|
    requires forall i :: 0 <= i < r ==> a[i] < x
    requires forall i :: r <= i < |a| ==> x <= a[i]
    ensures r == Rank(s, x)
  {
    var pre := a[..r];
    assert NoDuplicates(pre) by {
      forall i, j | 0 <= i < j < |pre| ensures pre[i] != pre[j] {
        assert pre[i] == a[i] && pre[j] == a[j];
      }
    }
    DistinctCard(pre);
    forall y | y in Elems(pre) ensures y in s && y < x {
      var k :| 0 <= k < |pre| && pre[k] == y;
      assert a[k] == y;
    }
    forall y | y in s && y < x ensures y in Elems(pre) {
      var k :| 0 <= k < |a| && a[k] == y;
      assert k < r;
      assert pre[k] == y;
    }
    assert Elems(pre) == set y | y in s && y < x;
  }

  // ---------------------------------------------------------------------
  // Pairs of integers in lexicographic order (std::tuple<int,int> keys).

  predicate LexLess(p: (int, int), q: (int, int))
  {
    p.0 < q.0 || (p.0 == q.0 && p.1 < q.1)
  }

  predicate LexSorted(s: seq<(int, int)>)
  {
    forall i, j :: 0 <= i < j < |s| ==> LexLess(s[i], s[j])
  }

  lemma {:induction false} LexMinExists(s: set<(int, int)>)
    requires s != {}
    ensures exists m :: m in s && forall y :: y in s && y != m ==> LexLess(m, y)
  {
    var x := NonEmptyPick(s);
    if s != {x} {
      var r := s - {x};
      LexMinExists(r);
      var m :| m in r && forall y :: y in r && y != m ==> LexLess(m, y);
      forall y | y in s ensures y == x || y in r { }
      if LexLess(x, m) {
        assert forall y :: y in s && y != x ==> LexLess(x, y);
      } else {
        assert forall y :: y in s && y != m ==> LexLess(m, y);
      }
    } else {
      assert forall y :: y in s && y != x ==> LexLess(x, y);
    }
  }

  /** The lexicographically smallest pair of a non-empty set. */
  function LexMinOf(s: set<(int, int)>): (m: (int, int))
    requires s != {}
    ensures m in s && forall y :: y in s && y != m ==> LexLess(m, y)
  {
    LexMinExists(s);
    var m :| m in s && forall y :: y in s && y != m ==> LexLess(m, y); m
  }

  /** The pairs of `s` in lexicographic order: what iterating a
      std::set<std::tuple<int,int>> yields. */
  function SortedPairs(s: set<(int, int)>): seq<(int, int)>
    decreases s
  {
    if s == {} then [] else
      var m := LexMinOf(s);
      [m] + SortedPairs(s - {m})
  }

  lemma {:induction false} SortedPairsSpec(s: set<(int, int)>)
    ensures LexSorted(SortedPairs(s))
    ensures Elems(SortedPairs(s)) == s
    ensures |SortedPairs(s)| == |s|
    decreases s
  {
    if s != {} {
      var m := LexMinOf(s);
      var rest := SortedPairs(s - {m});
      SortedPairsSpec(s - {m});
      SortedPairsStep(s, m, rest);
    }
  }

  lemma SortedPairsStep(s: set<(int, int)>, m: (int, int), rest: seq<(int, int)>)
    requires s != {} && m == LexMinOf(s) && rest == SortedPairs(s - {m})
    requires LexSorted(rest) && Elems(rest) == s - {m} && |rest| == |s - {m}|
    ensures LexSorted(SortedPairs(s)) && Elems(SortedPairs(s)) == s && |SortedPairs(s)| == |s|
  {
    forall k | 0 <= k < |rest| ensures LexLess(m, rest[k]) {
      assert rest[k] in Elems(rest);
    }
    ConsLex(m, rest);
    ConsElems(m, rest);
    assert SortedPairs(s) == [m] + rest;
  }

  /** Putting a lexicographically smaller pair in front keeps a listing
      sorted. */
  lemma ConsLex(m: (int, int), rest: seq<(int, int)>)
    requires LexSorted(rest)
    requires forall k :: 0 <= k < |rest| ==> LexLess(m, rest[k])
    ensures LexSorted([m] + rest)
  {
    var r := [m] + rest;
    forall i, j | 0 <= i < j < |r| ensures LexLess(r[i], r[j]) {
      assert r[j] == rest[j - 1];
      if i > 0 { assert r[i] == rest[i - 1]; }
    }
  }

  lemma ElemsConcat<T>(a: seq<T>, b: seq<T>)
    ensures Elems(a + b) == Elems(a) + Elems(b)
  {
    forall x | x in Elems(a + b) ensures x in Elems(a) + Elems(b) {
      var k :| 0 <= k < |a + b| && (a + b)[k] == x;
      if k >= |a| { assert b[k - |a|] == x; }
    }
    forall x | x in Elems(a) + Elems(b) ensures x in Elems(a + b) {
      if x in Elems(a) {
        var k :| 0 <= k < |a| && a[k] == x;
        assert (a + b)[k] == x;
      } else {
        var k :| 0 <= k < |b| && b[k] == x;
        assert (a + b)[|a| + k] == x;
      }
    }
  }

  /** Appending one entry adds exactly that entry (a queue push). */
  lemma ElemsSnoc<T>(a: seq<T>, x: T)
    ensures Elems(a + [x]) == Elems(a) + {x}
  {
    ElemsConcat(a, [x]);
    assert [x][0] == x;
  }

  /** Keeps the entries satisfying `keep`, in order (the source's filtering
      loops that push back the kept entries). */
  function Filter<T>(s: seq<T>, keep: T -> bool): (r: seq<T>)
    ensures |r| <= |s|
  {
    if s == [] then [] else
      (if keep(s[0]) then [s[0]] else []) + Filter(s[1..], keep)
  }

  lemma {:induction false} FilterElems<T>(s: seq<T>, keep: T -> bool)
    ensures Elems(Filter(s, keep)) == set x | x in Elems(s) && keep(x)
    decreases |s|
  {
    if s != [] {
      FilterElems(s[1..], keep);
      var head := if keep(s[0]) then [s[0]] else [];
      assert Filter(s, keep) == head + Filter(s[1..], keep);
      ElemsConcat(head, Filter(s[1..], keep));
      ElemsConcat([s[0]], s[1..]);
      assert [s[0]] + s[1..] == s;
    }
  }
}
