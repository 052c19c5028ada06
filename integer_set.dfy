// IntegerSet: a set of integers kept with an insertion-ordered vector that
// is sorted lazily when a rank is asked for.

module IntegerSets {
  import opened SortedSets

  /** Inserting into a sorted sequence before the first larger entry. */
  function Insert(s: seq<int>, x: int): (r: seq<int>)
    ensures multiset(r) == multiset(s) + multiset{x}
    ensures |r| == |s| + 1
  {
    if s == [] || x <= s[0] then [x] + s else
      assert s == [s[0]] + s[1..];
      [s[0]] + Insert(s[1..], x)
  }

  /** The result of std::sort on a vector: an ascending permutation. */
  function SortSeq(s: seq<int>): (r: seq<int>)
    ensures multiset(r) == multiset(s)
    ensures |r| == |s|
  {
    if s == [] then [] else
      assert s == [s[0]] + s[1..];
      Insert(SortSeq(s[1..]), s[0])
  }

  /** A bound below every entry of a sorted tail keeps the whole sorted. */
  lemma ConsSorted(a: int, t: seq<int>, strict: bool)
    requires Sorted(t) && (strict ==> StrictlySorted(t))
    requires forall e :: e in t ==> (if strict then a < e else a <= e)
    ensures Sorted([a] + t) && (strict ==> StrictlySorted([a] + t))
  {
    var r := [a] + t;
    forall i, j | 0 <= i < j < |r| ensures (if strict then r[i] < r[j] else r[i] <= r[j]) {
      assert r[j] == t[j - 1];
      assert t[j - 1] in t;
      if i > 0 {
        assert r[i] == t[i - 1];
      }
    }
  }

  lemma {:induction false} InsertSorted(s: seq<int>, x: int)
    requires Sorted(s)
    ensures Sorted(Insert(s, x))
    ensures x !in s && StrictlySorted(s) ==> StrictlySorted(Insert(s, x))
    decreases |s|
  {
    if s == [] || x <= s[0] {
      var strict := x !in s && StrictlySorted(s);
      forall e | e in s ensures (if strict then x < e else x <= e) {
        var k :| 0 <= k < |s| && s[k] == e;
        assert s[0] <= s[k];
      }
      ConsSorted(x, s, strict);
    } else {
      var t := Insert(s[1..], x);
      InsertSorted(s[1..], x);
      var strict := x !in s && StrictlySorted(s);
      forall e | e in t ensures (if strict then s[0] < e else s[0] <= e) {
        assert e in multiset(t);
        if e != x {
          assert e in multiset(s[1..]);
          var k :| 0 <= k < |s[1..]| && s[1..][k] == e;
          assert s[k + 1] == e;
        }
      }
      if strict {
        assert x !in s[1..];
      }
      ConsSorted(s[0], t, strict);
    }
  }

  /** The model of std::sort is an ascending permutation, strictly ascending
      on a vector without duplicates. */
  lemma {:induction false} SortSeqSorted(s: seq<int>)
    ensures Sorted(SortSeq(s))
    ensures NoDuplicates(s) ==> StrictlySorted(SortSeq(s))
    decreases |s|
  {
    if s != [] {
      SortSeqSorted(s[1..]);
      InsertSorted(SortSeq(s[1..]), s[0]);
      if NoDuplicates(s) {
        assert NoDuplicates(s[1..]);
        assert s[0] !in s[1..] by {
          forall k | 0 <= k < |s[1..]| ensures s[1..][k] != s[0] {
            assert s[1..][k] == s[k + 1];
          }
        }
        assert s[0] !in multiset(s[1..]);
        assert s[0] !in SortSeq(s[1..]) by {
          assert s[0] !in multiset(SortSeq(s[1..]));
        }
      }
    }
  }

  lemma ElemsOfMultiset(a: seq<int>, b: seq<int>)
    requires multiset(a) == multiset(b)
    ensures Elems(a) == Elems(b)
  {
    forall x | x in Elems(a) ensures x in Elems(b) {
      assert x in a;
      assert x in multiset(b);
      var k :| 0 <= k < |b| && b[k] == x;
    }
    forall x | x in Elems(b) ensures x in Elems(a) {
      assert x in b;
      assert x in multiset(a);
      var k :| 0 <= k < |a| && a[k] == x;
    }
  }

  class IntegerSet {
    var sorted: bool
    var valSet: set<int>
    var valVec: seq<int>

    /** The vector lists the set once per element; once sorted, ascending. */
    ghost predicate Valid()
      reads this
    {
      NoDuplicates(valVec) && Elems(valVec) == valSet && (sorted ==> StrictlySorted(valVec))
    }

    constructor()
      ensures Valid() && !sorted && valSet == {} && valVec == []
    {
      sorted := false;
      valSet := {};
      valVec := [];
    }

    /** addInt: a new value is appended and marks the vector unsorted; a
        known value changes nothing. */
    method AddInt(v: int)
      requires Valid()
      modifies this
      ensures Valid()
      ensures valSet == old(valSet) + {v}
      ensures v in old(valSet) ==> valVec == old(valVec) && sorted == old(sorted)
      ensures v !in old(valSet) ==> valVec == old(valVec) + [v] && !sorted
    {
      if v !in valSet {
        valSet := valSet + {v};
        valVec := valVec + [v];
        sorted := false;
        ElemsConcat(old(valVec), [v]);
        assert [v][0] == v;
        assert Elems([v]) == {v};
      }
    }

    /** rank: how many stored values are smaller than v, which must be
        stored.  Sorts the vector first if needed. */
    method Rank(v: int) returns (r: int)
      requires Valid() && v in valSet
      modifies this
      ensures Valid() && sorted && valSet == old(valSet)
      ensures valVec == SortedInts(valSet)
      ensures r == SortedSets.Rank(valSet, v)
    {
      if !sorted {
        var before := valVec;
        SortSeqSorted(before);
        ElemsOfMultiset(SortSeq(before), before);
        valVec := SortSeq(before);
        sorted := true;
        assert NoDuplicates(valVec);
      }
      SortedIntsSpec(valSet);
      StrictlySortedUnique(valVec, SortedInts(valSet));
      r := LowerBound(valVec, v);
      LowerBoundIsRank(valVec, valSet, v, r);
    }
  }
}
