// Coord2dSet: the x and y coordinate values seen in a set of segments, and
// the rank of a value among them (the coordinate compression used to
// re-space the layout).

module Coord2dSets {
  import opened SortedSets

  /** mergeSet: the union of two sets, built element by element. */
  method MergeSet(s1: set<int>, s2: set<int>) returns (ans: set<int>)
    ensures ans == s1 + s2
  {
    ans := {};
    var rest := s1;
    while rest != {}
      invariant rest <= s1 && ans == s1 - rest
      decreases rest
    {
      ghost var w := NonEmptyPick(rest);
      var item :| item in rest;
      ans := ans + {item};
      rest := rest - {item};
    }
    rest := s2;
    while rest != {}
      invariant rest <= s2 && ans == s1 + (s2 - rest)
      decreases rest
    {
      ghost var w := NonEmptyPick(rest);
      var item :| item in rest;
      ans := ans + {item};
      rest := rest - {item};
    }
  }

  /** ::setToVec: the elements of a set in its (ascending) iteration order. */
  method SetToVecOf(s: set<int>) returns (ans: seq<int>)
    ensures StrictlySorted(ans) && Elems(ans) == s && |ans| == |s|
    ensures ans == SortedInts(s)
  {
    ans := [];
    var rest := s;
    while rest != {}
      invariant ans + SortedInts(rest) == SortedInts(s)
      decreases rest
    {
      var item := MinOf(rest);
      ans := ans + [item];
      rest := rest - {item};
    }
    assert SortedInts(rest) == [];
    assert ans == SortedInts(s);
    SortedIntsSpec(s);
  }

  /** A subset with as many elements as the set is the set. */
  lemma {:induction false} SameSizeSubset(a: set<int>, b: set<int>)
    requires a <= b && |a| == |b|
    ensures a == b
    decreases a
  {
    if a != {} {
      var x := NonEmptyPick(a);
      SameSizeSubset(a - {x}, b - {x});
      assert a == (a - {x}) + {x} && b == (b - {x}) + {x};
    }
  }

  /** A listing of an earlier state of a growing set that is as long as
      the set lists the set itself. */
  lemma ListingCurrent(listed: set<int>, s: set<int>)
    requires listed <= s && |SortedInts(listed)| == |s|
    ensures listed == s
  {
    SortedIntsSpec(listed);
    SameSizeSubset(listed, s);
  }

  /** What `xkRank` / `ykRank` assign to each member of a coordinate set:
      its rank, scaled by the spacing factor k. */
  function KRankMap(s: set<int>, k: int): (m: map<int, int>)
    ensures m.Keys == s
  {
    map x | x in s :: Rank(s, x) * k
  }

  lemma {:induction false} MulGap(a: int, b: int, k: int)
    requires 0 <= a < b && k >= 1
    ensures a * k + k <= b * k
    decreases b - a
  {
    if a + 1 < b {
      MulGap(a + 1, b, k);
    }
  }

  lemma {:induction false} MulBelow(a: int, n: int, k: int)
    requires 0 <= a <= n && k >= 1
    ensures 0 <= a * k <= n * k
    decreases n - a
  {
    if a < n {
      MulBelow(a + 1, n, k);
    }
  }

  /** Scaled ranks keep the order of coordinates and put distinct
      coordinates at least k apart, starting from 0. */
  lemma KRankMapSpacing(s: set<int>, k: int, x: int, y: int)
    requires k >= 1 && x in s && y in s
    ensures 0 <= KRankMap(s, k)[x] <= (|s| - 1) * k
    ensures x < y ==> KRankMap(s, k)[x] + k <= KRankMap(s, k)[y]
    ensures x == y <==> KRankMap(s, k)[x] == KRankMap(s, k)[y]
  {
    RankBelowSize(s, x);
    RankBelowSize(s, y);
    MulBelow(Rank(s, x), |s| - 1, k);
    if x < y {
      RankMonotone(s, x, y);
      MulGap(Rank(s, x), Rank(s, y), k);
    } else if y < x {
      RankMonotone(s, y, x);
      MulGap(Rank(s, y), Rank(s, x), k);
    }
  }

  class Coord2dSet {
    var xIntSet: set<int>
    var yIntSet: set<int>
    var xIntVec: seq<int>
    var yIntVec: seq<int>
    /** The sets the two cached listings were last built from. */
    ghost var xListed: set<int>
    ghost var yListed: set<int>

    /** The cached listings are ascending listings of earlier states of the
        sets, which only ever grow. */
    ghost predicate Valid()
      reads this
    {
      && xListed <= xIntSet && xIntVec == SortedInts(xListed)
      && yListed <= yIntSet && yIntVec == SortedInts(yListed)
    }

    constructor()
      ensures Valid()
      ensures xIntSet == {} && yIntSet == {} && xIntVec == [] && yIntVec == []
    {
      xIntSet, yIntSet := {}, {};
      xIntVec, yIntVec := [], [];
      xListed, yListed := {}, {};
    }

    method AddPos(x: int, y: int)
      requires Valid()
      modifies this
      ensures Valid()
      ensures xIntSet == old(xIntSet) + {x} && yIntSet == old(yIntSet) + {y}
      ensures xIntVec == old(xIntVec) && yIntVec == old(yIntVec)
    {
      xIntSet := xIntSet + {x};
      yIntSet := yIntSet + {y};
    }

    /** merge: a fresh set holding both coordinate sets' values; its cached
        listings start empty. */
    static method Merge(cs1: Coord2dSet, cs2: Coord2dSet) returns (ans: Coord2dSet)
      ensures fresh(ans) && ans.Valid()
      ensures ans.xIntSet == cs1.xIntSet + cs2.xIntSet
      ensures ans.yIntSet == cs1.yIntSet + cs2.yIntSet
    {
      ans := new Coord2dSet();
      var xs := MergeSet(cs1.xIntSet, cs2.xIntSet);
      var ys := MergeSet(cs1.yIntSet, cs2.yIntSet);
      ans.xIntSet := xs;
      ans.yIntSet := ys;
    }

    /** setToVec: rebuilds both listings when either is out of date; a
        listing whose length matches the set is already current. */
    method SetToVec()
      requires Valid()
      modifies this
      ensures Valid()
      ensures xIntSet == old(xIntSet) && yIntSet == old(yIntSet)
      ensures xIntVec == SortedInts(xIntSet) && yIntVec == SortedInts(yIntSet)
    {
      if |xIntVec| != |xIntSet| || |yIntVec| != |yIntSet| {
        xIntVec := SetToVecOf(xIntSet);
        yIntVec := SetToVecOf(yIntSet);
        xListed, yListed := xIntSet, yIntSet;
      } else {
        ListingCurrent(xListed, xIntSet);
        ListingCurrent(yListed, yIntSet);
      }
    }

    /** xRank: the position of a member x in the ascending listing, i.e. how
        many members are smaller. */
    method XRank(x: int) returns (r: int)
      requires Valid() && x in xIntSet
      modifies this
      ensures Valid() && xIntSet == old(xIntSet) && yIntSet == old(yIntSet)
      ensures r == Rank(xIntSet, x)
    {
      SetToVec();
      SortedIntsSpec(xIntSet);
      r := LowerBound(xIntVec, x);
      LowerBoundIsRank(xIntVec, xIntSet, x, r);
    }

    method YRank(y: int) returns (r: int)
      requires Valid() && y in yIntSet
      modifies this
      ensures Valid() && xIntSet == old(xIntSet) && yIntSet == old(yIntSet)
      ensures r == Rank(yIntSet, y)
    {
      SetToVec();
      SortedIntsSpec(yIntSet);
      r := LowerBound(yIntVec, y);
      LowerBoundIsRank(yIntVec, yIntSet, y, r);
    }

    /** xkRank: the rank scaled by the spacing factor k >= 1. */
    method XkRank(x: int, k: int) returns (r: int)
      requires Valid() && k >= 1 && x in xIntSet
      modifies this
      ensures Valid() && xIntSet == old(xIntSet) && yIntSet == old(yIntSet)
      ensures r == KRankMap(xIntSet, k)[x]
    {
      SetToVec();
      var rank := XRank(x);
      r := rank * k;
    }

    method YkRank(y: int, k: int) returns (r: int)
      requires Valid() && k >= 1 && y in yIntSet
      modifies this
      ensures Valid() && xIntSet == old(xIntSet) && yIntSet == old(yIntSet)
      ensures r == KRankMap(yIntSet, k)[y]
    {
      SetToVec();
      var rank := YRank(y);
      r := rank * k;
    }
  }
}
