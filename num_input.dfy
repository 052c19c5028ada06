// Pulling the integers out of free text (extractIntegersFromStream), the
// decimal rendering it inverts (std::to_string) and isAllDigits.

module NumInput {

  /** Largest value `istream >> int` accepts. */
  const IntMax: int := 0x7fff_ffff

  predicate IsDigit(c: char)
  {
    '0' <= c <= '9'
  }

  predicate AllDigits(s: seq<char>)
  {
    forall i :: 0 <= i < |s| ==> IsDigit(s[i])
  }

  function DigitValue(c: char): nat
    requires IsDigit(c)
  {
    (c as int) - ('0' as int)
  }

  function DigitChar(d: nat): (c: char)
    requires d < 10
    ensures IsDigit(c) && DigitValue(c) == d
  {
    (('0' as int) + d) as char
  }

  /** The decimal value of a run of digits (leading zeros allowed). */
  function DigitsValue(ds: seq<char>): nat
    requires AllDigits(ds)
    decreases |ds|
  {
    if ds == [] then 0 else DigitsValue(ds[..|ds| - 1]) * 10 + DigitValue(ds[|ds| - 1])
  }

  /** Length of the longest all-digit prefix. */
  function LeadDigits(s: seq<char>): (k: nat)
    ensures k <= |s| && AllDigits(s[..k])
    ensures k < |s| ==> !IsDigit(s[k])
    decreases |s|
  {
    if s == [] || !IsDigit(s[0]) then 0
    else
      var k := 1 + LeadDigits(s[1..]);
      assert s[..k] == [s[0]] + s[1..][..k - 1];
      k
  }

  /** The maximal runs of decimal digits, in input order; every other
      character only separates them. */
  function Runs(s: seq<char>): (rs: seq<seq<char>>)
    ensures forall i :: 0 <= i < |rs| ==> |rs[i]| > 0 && AllDigits(rs[i])
    decreases |s|
  {
    if s == [] then []
    else if !IsDigit(s[0]) then Runs(s[1..])
    else
      var k := LeadDigits(s);
      [s[..k]] + Runs(s[k..])
  }

  /** Reading the runs with `>> int`: each is parsed in order; the first one
      that does not fit an int fails the stream and ends the reading. */
  function Parse(rs: seq<seq<char>>): (r: seq<nat>)
    requires forall i :: 0 <= i < |rs| ==> AllDigits(rs[i])
    decreases |rs|
  {
    if rs == [] then []
    else
      var v := DigitsValue(rs[0]);
      if v > IntMax then [] else [v] + Parse(rs[1..])
  }

  /** The numbers read are the values of the first runs, in order, each
      fitting an int; when every run fits, all of them are read. */
  lemma {:induction false} ParseValues(rs: seq<seq<char>>)
    requires forall i :: 0 <= i < |rs| ==> AllDigits(rs[i])
    ensures |Parse(rs)| <= |rs|
    ensures forall i :: 0 <= i < |Parse(rs)| ==> Parse(rs)[i] == DigitsValue(rs[i]) <= IntMax
    ensures (forall i :: 0 <= i < |rs| ==> DigitsValue(rs[i]) <= IntMax) ==> |Parse(rs)| == |rs|
    ensures |Parse(rs)| < |rs| ==> DigitsValue(rs[|Parse(rs)|]) > IntMax
    decreases |rs|
  {
    if rs != [] && DigitsValue(rs[0]) <= IntMax {
      ParseValues(rs[1..]);
      var r := Parse(rs);
      assert r == [DigitsValue(rs[0])] + Parse(rs[1..]);
      forall i | 1 <= i < |r| ensures r[i] == DigitsValue(rs[i]) {
        assert r[i] == Parse(rs[1..])[i - 1] && rs[1..][i - 1] == rs[i];
      }
      if |r| < |rs| {
        assert rs[|r|] == rs[1..][|r| - 1];
      }
    }
  }

  /** What extractIntegersFromStream returns for the text `s`. */
  function Extract(s: seq<char>): seq<nat>
  {
    Parse(Runs(s))
  }

  /** The first pass keeps digits and turns everything else into a space. */
  function Keep(c: char): char
  {
    if IsDigit(c) then c else ' '
  }

  /** extractIntegersFromStream over the whole text of the stream: first
      replace every non-digit by a space, then read the integers the spaces
      separate. */
  method ExtractIntegers(s: seq<char>) returns (result: seq<int>)
    ensures result == Extract(s)
  {
    var p: seq<char> := [];
    for i := 0 to |s|
      invariant |p| == i && forall k :: 0 <= k < i ==> p[k] == Keep(s[k])
    {
      p := p + [Keep(s[i])];
    }
    KeepRuns(s, p);
    result := ReadInts(p);
  }

  /** The `while (iss >> num)` loop: skip spaces, read a run of digits as
      one number, and stop at the end of the text or at the first number
      that does not fit an int. */
  method ReadInts(p: seq<char>) returns (result: seq<int>)
    ensures result == Parse(Runs(p))
  {
    result := [];
    var i := 0;
    while i < |p|
      invariant 0 <= i <= |p|
      invariant result + Parse(Runs(p[i..])) == Parse(Runs(p))
      decreases |p| - i
    {
      if !IsDigit(p[i]) {
        RunsSkip(p, i);
        i := i + 1;
      } else {
        var j, num := ReadRun(p, i);
        RunsFrom(p, i, j);
        if num > IntMax {
          return;
        }
        result := result + [num];
        i := j;
      }
    }
    assert p[i..] == [];
  }

  /** One `>> int`: the digits from `i` up to the next non-digit, and
      their value. */
  method ReadRun(p: seq<char>, i: nat) returns (j: nat, num: nat)
    requires i < |p| && IsDigit(p[i])
    ensures i < j <= |p| && AllDigits(p[i..j]) && (j < |p| ==> !IsDigit(p[j]))
    ensures num == DigitsValue(p[i..j])
  {
    j, num := i, 0;
    while j < |p| && IsDigit(p[j])
      invariant i <= j <= |p| && AllDigits(p[i..j])
      invariant num == DigitsValue(p[i..j])
      invariant j == i ==> IsDigit(p[i])
      decreases |p| - j
    {
      assert p[i..j + 1][..j - i] == p[i..j];
      num := num * 10 + DigitValue(p[j]);
      j := j + 1;
    }
  }

  lemma RunsSkip(p: seq<char>, i: nat)
    requires i < |p| && !IsDigit(p[i])
    ensures Runs(p[i..]) == Runs(p[i + 1..])
  {
    assert p[i..][1..] == p[i + 1..];
  }

  lemma RunsFrom(p: seq<char>, i: nat, j: nat)
    requires i < j <= |p| && AllDigits(p[i..j]) && (j < |p| ==> !IsDigit(p[j]))
    ensures Runs(p[i..]) == [p[i..j]] + Runs(p[j..])
  {
    assert p[i..][..j - i] == p[i..j] && p[i..][j - i..] == p[j..];
    assert j < |p| ==> p[i..][j - i] == p[j];
    RunsStep(p[i..], j - i);
  }

  /** A digit prefix that a non-digit (or the end) follows is the leading
      run of digits. */
  lemma {:induction false} LeadDigitsUnique(t: seq<char>, n: nat)
    requires n <= |t| && AllDigits(t[..n]) && (n < |t| ==> !IsDigit(t[n]))
    ensures LeadDigits(t) == n
  {
    var k := LeadDigits(t);
    forall i | 0 <= i < n ensures IsDigit(t[i]) {
      assert t[..n][i] == t[i];
    }
    forall i | 0 <= i < k ensures IsDigit(t[i]) {
      assert t[..k][i] == t[i];
    }
  }

  /** A maximal digit prefix of length `n` is the first run. */
  lemma RunsStep(t: seq<char>, n: nat)
    requires 0 < n <= |t| && AllDigits(t[..n]) && (n < |t| ==> !IsDigit(t[n]))
    ensures Runs(t) == [t[..n]] + Runs(t[n..])
  {
    LeadDigitsUnique(t, n);
    assert IsDigit(t[..n][0]);
  }

  /** Replacing the non-digits by spaces keeps the runs. */
  lemma {:induction false} KeepRuns(s: seq<char>, p: seq<char>)
    requires |p| == |s| && forall k :: 0 <= k < |s| ==> p[k] == Keep(s[k])
    ensures Runs(p) == Runs(s)
    decreases |s|
  {
    if s != [] {
      if !IsDigit(s[0]) {
        KeepRuns(s[1..], p[1..]);
      } else {
        var n := LeadDigits(s);
        assert s[..n] == p[..n];
        RunsStep(s, n);
        RunsStep(p, n);
        KeepRuns(s[n..], p[n..]);
      }
    }
  }

  // ---------------------------------------------------------------------
  // What the extraction promises.

  /** A non-digit character splits the text: the runs of the whole are the
      runs on either side of it. */
  lemma {:induction false} RunsSeparator(a: seq<char>, c: char, b: seq<char>)
    requires !IsDigit(c)
    ensures Runs(a + [c] + b) == Runs(a) + Runs(b)
    decreases |a|
  {
    var s := a + [c] + b;
    if a == [] {
      assert s[1..] == b;
    } else if !IsDigit(a[0]) {
      assert s[1..] == a[1..] + [c] + b;
      RunsSeparator(a[1..], c, b);
    } else {
      var k := LeadDigits(a);
      assert s[..k] == a[..k];
      assert k < |a| ==> s[k] == a[k];
      assert k == |a| ==> s[k] == c;
      RunsStep(s, k);
      RunsStep(a, k);
      assert s[k..] == a[k..] + [c] + b;
      RunsSeparator(a[k..], c, b);
    }
  }

  /** Text without digits yields nothing. */
  lemma {:induction false} NoDigitsNoRuns(s: seq<char>)
    requires forall i :: 0 <= i < |s| ==> !IsDigit(s[i])
    ensures Runs(s) == [] && Extract(s) == []
    decreases |s|
  {
    if s != [] {
      NoDigitsNoRuns(s[1..]);
    }
  }

  /** A non-empty all-digit text is a single run. */
  lemma OneRun(s: seq<char>)
    requires |s| > 0 && AllDigits(s)
    ensures Runs(s) == [s]
  {
    assert s[..|s|] == s;
    RunsStep(s, |s|);
    assert s[|s|..] == [];
  }

  /** Reading runs that all fit is reading them one after the other. */
  lemma {:induction false} ParseAppend(a: seq<seq<char>>, b: seq<seq<char>>)
    requires forall i :: 0 <= i < |a| ==> AllDigits(a[i]) && DigitsValue(a[i]) <= IntMax
    requires forall i :: 0 <= i < |b| ==> AllDigits(b[i])
    ensures Parse(a + b) == Parse(a) + Parse(b)
    decreases |a|
  {
    if a != [] {
      assert (a + b)[0] == a[0] && DigitsValue(a[0]) <= IntMax;
      assert (a + b)[1..] == a[1..] + b;
      ParseAppend(a[1..], b);
      assert Parse(a) == [DigitsValue(a[0])] + Parse(a[1..]);
      assert Parse(a + b) == [DigitsValue(a[0])] + Parse(a[1..] + b);
    } else {
      assert a + b == b;
    }
  }

  // ---------------------------------------------------------------------
  // Decimal rendering (std::to_string) and its inverse.

  function NatToString(n: nat): (s: seq<char>)
    ensures |s| > 0 && AllDigits(s)
    decreases n
  {
    if n < 10 then [DigitChar(n)] else NatToString(n / 10) + [DigitChar(n % 10)]
  }

  /** std::to_string of an int: a minus sign for negative values. */
  function IntToString(i: int): seq<char>
  {
    if i < 0 then ['-'] + NatToString(-i) else NatToString(i)
  }

  /** Reading back a rendered natural number gives the number. */
  lemma {:induction false} NatToStringValue(n: nat)
    ensures DigitsValue(NatToString(n)) == n
    decreases n
  {
    if n >= 10 {
      NatToStringValue(n / 10);
      var s := NatToString(n);
      assert s[..|s| - 1] == NatToString(n / 10);
    }
  }

  /** The integers read from a rendered non-negative int are that int. */
  lemma ExtractIntToString(i: int)
    requires 0 <= i <= IntMax
    ensures Extract(IntToString(i)) == [i]
  {
    OneRun(NatToString(i));
    NatToStringValue(i);
    var t := NatToString(i);
    assert IntToString(i) == t;
    assert [t][0] == t && [t][1..] == [];
    assert Parse([t]) == [DigitsValue(t)];
  }

  // ---------------------------------------------------------------------
  // Joined renderings read back (the toString texts of crossings and codes).

  predicate NoDigits(s: seq<char>)
  {
    forall i :: 0 <= i < |s| ==> !IsDigit(s[i])
  }

  /** Items written one after another with `sep` between neighbours. */
  function Join(items: seq<seq<char>>, sep: seq<char>): seq<char>
    decreases |items|
  {
    if items == [] then []
    else if |items| == 1 then items[0]
    else Join(items[..|items| - 1], sep) + sep + items[|items| - 1]
  }

  /** Joining one more item adds the separator only after a first item. */
  lemma JoinStep(items: seq<seq<char>>, i: nat, sep: seq<char>)
    requires i < |items|
    ensures Join(items[..i + 1], sep) == Join(items[..i], sep) + (if i > 0 then sep else []) + items[i]
  {
    var a := items[..i + 1];
    assert a[..i] == items[..i] && a[i] == items[i];
    if i == 0 {
      assert Join(items[..i], sep) == [];
    }
  }

  /** One loop round of a toString: the text so far, with the separator
      written after every item but the last, gains item i and, unless it is
      the last, one more separator. */
  lemma JoinAlong(ans: seq<char>, start: seq<char>, items: seq<seq<char>>, i: nat, sep: seq<char>)
    requires i < |items|
    requires ans == start + Join(items[..i], sep) + (if 0 < i < |items| then sep else [])
    ensures ans + items[i] + (if i != |items| - 1 then sep else [])
            == start + Join(items[..i + 1], sep) + (if 0 < i + 1 < |items| then sep else [])
  {
    JoinStep(items, i, sep);
    var j := Join(items[..i], sep);
    var s1: seq<char> := if 0 < i < |items| then sep else [];
    var s2: seq<char> := if i != |items| - 1 then sep else [];
    assert start + j + s1 + items[i] + s2 == start + (j + s1 + items[i]) + s2;
  }

  /** std::to_string of each id. */
  function Render(ids: seq<int>): (r: seq<seq<char>>)
    ensures |r| == |ids|
    decreases |ids|
  {
    if ids == [] then [] else Render(ids[..|ids| - 1]) + [IntToString(ids[|ids| - 1])]
  }

  /** The i-th rendering is the i-th id's. */
  lemma {:induction false} RenderAt(ids: seq<int>, i: nat)
    requires i < |ids|
    ensures Render(ids)[i] == IntToString(ids[i])
    decreases |ids|
  {
    if i < |ids| - 1 {
      var init := ids[..|ids| - 1];
      RenderAt(init, i);
      assert init[i] == ids[i];
    }
  }

  /** The runs of each text, one text after the other. */
  function RunsOfAll(items: seq<seq<char>>): seq<seq<char>>
    decreases |items|
  {
    if items == [] then [] else RunsOfAll(items[..|items| - 1]) + Runs(items[|items| - 1])
  }

  /** The decimal renderings of non-negative ids. */
  function NatRuns(ids: seq<int>): (r: seq<seq<char>>)
    requires forall i :: 0 <= i < |ids| ==> ids[i] >= 0
    ensures |r| == |ids| && forall i :: 0 <= i < |ids| ==> r[i] == NatToString(ids[i])
    decreases |ids|
  {
    if ids == [] then [] else NatRuns(ids[..|ids| - 1]) + [NatToString(ids[|ids| - 1])]
  }

  lemma {:induction false} RunsNoDigitPrefix(nd: seq<char>, b: seq<char>)
    requires NoDigits(nd)
    ensures Runs(nd + b) == Runs(b)
    decreases |nd|
  {
    if nd == [] {
      assert nd + b == b;
    } else {
      assert (nd + b)[1..] == nd[1..] + b;
      RunsNoDigitPrefix(nd[1..], b);
    }
  }

  lemma RunsNoDigitSuffix(b: seq<char>, nd: seq<char>)
    requires NoDigits(nd)
    ensures Runs(b + nd) == Runs(b)
  {
    if nd == [] {
      assert b + nd == b;
    } else {
      assert b + nd == b + [nd[0]] + nd[1..];
      RunsSeparator(b, nd[0], nd[1..]);
      NoDigitsNoRuns(nd[1..]);
    }
  }

  /** A non-empty digit-free separator splits the runs of the text around it. */
  lemma RunsSplit(a: seq<char>, sep: seq<char>, b: seq<char>)
    requires |sep| > 0 && NoDigits(sep)
    ensures Runs(a + sep + b) == Runs(a) + Runs(b)
  {
    assert a + sep + b == a + [sep[0]] + (sep[1..] + b);
    RunsSeparator(a, sep[0], sep[1..] + b);
    RunsNoDigitPrefix(sep[1..], b);
  }

  /** The runs of joined texts are the runs of the texts, in order. */
  lemma {:induction false} RunsJoin(items: seq<seq<char>>, sep: seq<char>)
    requires |sep| > 0 && NoDigits(sep)
    ensures Runs(Join(items, sep)) == RunsOfAll(items)
    decreases |items|
  {
    if |items| == 1 {
      assert RunsOfAll(items) == RunsOfAll([]) + Runs(items[0]);
    } else if |items| > 1 {
      var init := items[..|items| - 1];
      RunsJoin(init, sep);
      RunsSplit(Join(init, sep), sep, items[|items| - 1]);
    }
  }

  /** Each non-negative id renders as a single run. */
  lemma {:induction false} RenderRuns(ids: seq<int>)
    requires forall i :: 0 <= i < |ids| ==> ids[i] >= 0
    ensures RunsOfAll(Render(ids)) == NatRuns(ids)
    decreases |ids|
  {
    if ids != [] {
      var init := ids[..|ids| - 1];
      RenderRuns(init);
      var r := Render(ids);
      assert r[..|r| - 1] == Render(init) && r[|r| - 1] == IntToString(ids[|ids| - 1]);
      OneRun(NatToString(ids[|ids| - 1]));
    }
  }

  lemma NatRunsAppend(a: seq<int>, b: seq<int>)
    requires forall i :: 0 <= i < |a| ==> a[i] >= 0
    requires forall i :: 0 <= i < |b| ==> b[i] >= 0
    ensures NatRuns(a + b) == NatRuns(a) + NatRuns(b)
  {
  }

  /** Reading the renderings of ids that fit an int gives the ids back. */
  lemma {:induction false} ParseNatRuns(ids: seq<int>)
    requires forall i :: 0 <= i < |ids| ==> 0 <= ids[i] <= IntMax
    ensures Parse(NatRuns(ids)) == ids
    decreases |ids|
  {
    if ids != [] {
      var init, x := ids[..|ids| - 1], ids[|ids| - 1];
      ParseNatRuns(init);
      var a := NatRuns(init);
      forall i | 0 <= i < |a| ensures DigitsValue(a[i]) <= IntMax {
        NatToStringValue(init[i]);
      }
      ParseAppend(a, [NatToString(x)]);
      NatToStringValue(x);
      var t := NatToString(x);
      assert [t][0] == t && [t][1..] == [];
      assert Parse([t]) == [x];
    }
  }

  /** The digit runs of ids written with a digit-free separator between
      digit-free decorations are the ids' renderings. */
  lemma RunsJoined(pre: seq<char>, ids: seq<int>, sep: seq<char>, post: seq<char>)
    requires NoDigits(pre) && NoDigits(post) && |sep| > 0 && NoDigits(sep)
    requires forall i :: 0 <= i < |ids| ==> ids[i] >= 0
    ensures Runs(pre + Join(Render(ids), sep) + post) == NatRuns(ids)
  {
    var j := Join(Render(ids), sep);
    assert pre + j + post == pre + (j + post);
    RunsNoDigitPrefix(pre, j + post);
    RunsNoDigitSuffix(j, post);
    RunsJoin(Render(ids), sep);
    RenderRuns(ids);
  }

  /** The ids written with a digit-free separator between digit-free
      decorations read back as the ids. */
  lemma ExtractJoined(pre: seq<char>, ids: seq<int>, sep: seq<char>, post: seq<char>)
    requires NoDigits(pre) && NoDigits(post) && |sep| > 0 && NoDigits(sep)
    requires forall i :: 0 <= i < |ids| ==> 0 <= ids[i] <= IntMax
    ensures Extract(pre + Join(Render(ids), sep) + post) == ids
  {
    var j := Join(Render(ids), sep);
    assert pre + j + post == pre + (j + post);
    RunsNoDigitPrefix(pre, j + post);
    RunsNoDigitSuffix(j, post);
    RunsJoin(Render(ids), sep);
    RenderRuns(ids);
    ParseNatRuns(ids);
  }

  // ---------------------------------------------------------------------
  // isAllDigits.

  /** isAllDigits: non-empty and every character a decimal digit. */
  function IsAllDigits(s: seq<char>): (r: bool)
  {
    |s| > 0 && AllDigits(s)
  }

  /** isAllDigits holds exactly when the whole text is one digit run, so a
      sign or any other separator makes it false. */
  lemma AllDigitsIsOneRun(s: seq<char>)
    ensures IsAllDigits(s) <==> Runs(s) == [s]
  {
    if IsAllDigits(s) {
      OneRun(s);
    }
    if Runs(s) == [s] {
      assert Runs(s)[0] == s;
    }
  }

  /** An all-digit string is read as exactly one integer, when it fits. */
  lemma AllDigitsReadsOne(s: seq<char>)
    requires IsAllDigits(s) && DigitsValue(s) <= IntMax
    ensures Extract(s) == [DigitsValue(s)]
  {
    AllDigitsIsOneRun(s);
    assert [s][0] == s && [s][1..] == [];
    assert Parse([s]) == [DigitsValue(s)];
  }
}
