// One crossing of a PD code: four socket ids listed counter-clockwise,
// starting with the one that enters from below.

module PdCrossings {
  import opened Wrappers
  import opened Directions
  import opened NumInput

  /** How far `aim` lies counter-clockwise of `base`, in quarter turns. */
  function DeltaDir(base: Direction, aim: Direction): (k: nat)
    ensures k < 4
  {
    (4 + Index(aim) - Index(base)) % 4
  }

  /** The socket seen in heading `aim` once the from-below socket has been
      turned to face `base`. */
  function SocketId(crs: seq<int>, base: Direction, aim: Direction): int
    requires |crs| == 4
  {
    crs[DeltaDir(base, aim)]
  }

  /** Turning a heading `k` quarter turns counter-clockwise. */
  function Rotate(d: Direction, k: nat): Direction
  {
    FromIndex((Index(d) + k) % 4)
  }

  /** With the from-below socket facing `aim`, the socket at `aim` is the
      from-below one. */
  lemma SocketAtBase(crs: seq<int>, d: Direction)
    requires |crs| == 4
    ensures SocketId(crs, d, d) == crs[0]
  {
  }

  /** Turning both headings by the same amount sees the same socket. */
  lemma SocketRotationInvariant(crs: seq<int>, base: Direction, aim: Direction, k: nat)
    requires |crs| == 4 && k < 4
    ensures SocketId(crs, Rotate(base, k), Rotate(aim, k)) == SocketId(crs, base, aim)
  {
    ShiftedOffset(Index(aim), Index(base), k);
  }

  /** Adding the same k to two quarter-turn indices keeps their offset. */
  lemma ShiftedOffset(a: int, b: int, k: int)
    requires 0 <= a < 4 && 0 <= b < 4 && 0 <= k < 4
    ensures (4 + (a + k) % 4 - (b + k) % 4) % 4 == (4 + a - b) % 4
  {
    if a + k >= 4 {
      assert (a + k) % 4 == a + k - 4;
    } else {
      assert (a + k) % 4 == a + k;
    }
    if b + k >= 4 {
      assert (b + k) % 4 == b + k - 4;
    } else {
      assert (b + k) % 4 == b + k;
    }
  }

  /** Every socket is seen in exactly one heading for a given base. */
  lemma SocketDirectionsDistinct(crs: seq<int>, base: Direction, a1: Direction, a2: Direction)
    requires |crs| == 4
    ensures DeltaDir(base, a1) == DeltaDir(base, a2) <==> a1 == a2
  {
    IndexRoundTrip(a1);
    IndexRoundTrip(a2);
  }

  /** The first position of `s` among the four ids. */
  function SocketIndex(crs: seq<int>, s: int): (i: nat)
    requires s in crs
    ensures i < |crs| && crs[i] == s
    ensures forall j :: 0 <= j < i ==> crs[j] != s
  {
    if crs[0] == s then 0 else 1 + SocketIndex(crs[1..], s)
  }

  /** The base heading that puts socket `s` in heading `d` (the baseShift
      the spanning-tree builder asks for). */
  function BaseShift(crs: seq<int>, s: int, d: Direction): Direction
    requires |crs| == 4 && s in crs
  {
    FromIndex((Index(d) + 4 - SocketIndex(crs, s)) % 4)
  }

  /** baseShift undoes getSocketIdByDirection: with that base, heading `d`
      shows socket `s`. */
  lemma BaseShiftSound(crs: seq<int>, s: int, d: Direction)
    requires |crs| == 4 && s in crs
    ensures SocketId(crs, BaseShift(crs, s, d), d) == s
  {
    var i := SocketIndex(crs, s);
    var dd := Index(d);
    assert Index(BaseShift(crs, s, d)) == (dd + 4 - i) % 4;
    assert DeltaDir(BaseShift(crs, s, d), d) == i;
  }

  /** The bound the assert in getSocketIdByDirection is written with:
      `0 <= delta_dir && delta_dir > 4`. */
  predicate GuardAsWritten(delta: int)
  {
    0 <= delta && delta > 4
  }

  /** The bound that was meant: a valid index into the four ids. */
  predicate GuardIntended(delta: int)
  {
    0 <= delta && delta < 4
  }

  /** Every offset the code computes fails the written guard and passes
      the intended one. */
  lemma GuardAsWrittenNeverHolds(base: Direction, aim: Direction)
    ensures !GuardAsWritten(DeltaDir(base, aim)) && GuardIntended(DeltaDir(base, aim))
  {
  }

  /** toString: `before begin a sep b sep c sep d end`. */
  function CrossingText(crs: seq<int>, beforeItem: seq<char>, beginItem: seq<char>,
                        sep: seq<char>, endItem: seq<char>): seq<char>
  {
    beforeItem + beginItem + Join(Render(crs), sep) + endItem
  }

  /** Reading the integers back out of a crossing's default text gives its
      four ids, when they are non-negative ints. */
  lemma CrossingTextRoundTrip(crs: seq<int>)
    requires |crs| == 4 && forall i :: 0 <= i < 4 ==> 0 <= crs[i] <= IntMax
    ensures Extract(CrossingText(crs, "X", "[", ", ", "]")) == crs
  {
    assert "X" + "[" == "X[";
    assert NoDigits("X[") && NoDigits(", ") && NoDigits("]");
    ExtractJoined("X[", crs, ", ", "]");
  }

  /** The digit runs of a crossing's text with digit-free decorations are
      its ids' renderings. */
  lemma CrossingTextRuns(crs: seq<int>, beforeItem: seq<char>, beginItem: seq<char>,
                         sep: seq<char>, endItem: seq<char>)
    requires NoDigits(beforeItem) && NoDigits(beginItem) && NoDigits(endItem)
    requires |sep| > 0 && NoDigits(sep)
    requires forall i :: 0 <= i < |crs| ==> crs[i] >= 0
    ensures Runs(CrossingText(crs, beforeItem, beginItem, sep, endItem)) == NatRuns(crs)
  {
    var pre := beforeItem + beginItem;
    assert NoDigits(pre);
    RunsJoined(pre, crs, sep, endItem);
  }

  class PDCrossing {
    var crs: seq<int>

    constructor()
      ensures crs == []
    {
      crs := [];
    }

    /** load: takes the ids, then fails unless there are exactly four. */
    method Load(ids: seq<int>) returns (o: Outcome)
      modifies this
      ensures crs == ids
      ensures o.Pass? <==> |ids| == 4
      ensures o.Fail? ==> o.error.AssertionFailed?
    {
      crs := ids;
      if |crs| != 4 {
        return Fail(AssertionFailed("PDCrossing::load: not four ids"));
      }
      o := Pass;
    }

    /** hasSocket: whether `id` is one of the four ids. */
    method HasSocket(id: int) returns (r: bool)
      requires |crs| == 4
      ensures r <==> id in crs
    {
      for i := 0 to 4
        invariant forall k :: 0 <= k < i ==> crs[k] != id
      {
        if crs[i] == id {
          return true;
        }
      }
      return false;
    }

    /** toString with the given decorations. */
    method ToString(beforeItem: seq<char>, beginItem: seq<char>, sep: seq<char>, endItem: seq<char>)
      returns (ans: seq<char>)
      requires |crs| == 4
      ensures ans == CrossingText(crs, beforeItem, beginItem, sep, endItem)
    {
      ghost var words := Render(crs);
      var start := beforeItem + beginItem;
      ans := start;
      for i := 0 to 4
        invariant ans == start + Join(words[..i], sep) + (if 0 < i < 4 then sep else [])
      {
        RenderAt(crs, i);
        JoinAlong(ans, start, words, i, sep);
        ans := ans + IntToString(crs[i]) + (if i != 3 then sep else []);
      }
      assert words[..4] == words;
      ans := ans + endItem;
    }

    /** getSocketIdByDirection as written: the assert's bound can never
        hold, so every call fails. */
    method GetSocketIdByDirectionAsWritten(base: Direction, aim: Direction) returns (r: Result<int>)
      requires |crs| == 4
      ensures r.Err? && r.error.AssertionFailed?
    {
      var delta := DeltaDir(base, aim);
      if GuardAsWritten(delta) {
        // Unreachable: the written bound excludes every offset below 4.
        assert false;
      }
      r := Err(AssertionFailed("PDCrossing::getSocketIdByDirection: bad index"));
    }

    /** getSocketIdByDirection with the intended bound. */
    function GetSocketIdByDirection(base: Direction, aim: Direction): (id: int)
      reads this
      requires |crs| == 4
      ensures id in crs
    {
      SocketId(crs, base, aim)
    }
  }
}
