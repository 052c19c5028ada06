// FileDataInput: reading an integer grid from text.  The input is the list of
// lines the stream yields; blank lines are dropped, the first kept line fixes
// the column count, and each cell is one `istream >> int` read.

module FileInput {
  import opened Wrappers
  import opened Matrices
  import NumInput

  /** The characters trim strips and std::isspace accepts in the C locale. */
  predicate IsSpace(c: char)
  {
    c == ' ' || c == '\t' || c == '\n' || c == '\r' || c == '\U{000C}' || c == '\U{000B}'
  }

  predicate AllSpace(s: string)
  {
    forall k :: 0 <= k < |s| ==> IsSpace(s[k])
  }

  /** The number of whitespace characters s starts with. */
  function LeadSpaces(s: string): (k: nat)
    ensures k <= |s| && AllSpace(s[..k])
    ensures k < |s| ==> !IsSpace(s[k])
    decreases |s|
  {
    if s == [] || !IsSpace(s[0]) then 0
    else
      var k := 1 + LeadSpaces(s[1..]);
      assert s[..k] == [s[0]] + s[1..][..k - 1];
      k
  }

  /** The number of whitespace characters s ends with. */
  function TrailSpaces(s: string): (k: nat)
    ensures k <= |s| && AllSpace(s[|s| - k..])
    ensures k < |s| ==> !IsSpace(s[|s| - 1 - k])
    decreases |s|
  {
    if s == [] || !IsSpace(s[|s| - 1]) then 0
    else
      var k := 1 + TrailSpaces(s[..|s| - 1]);
      assert s[|s| - k..] == s[..|s| - 1][|s| - k..] + [s[|s| - 1]];
      k
  }

  /** trim: s without its leading and trailing whitespace; "" when s is all
      whitespace. */
  function Trim(s: string): (r: string)
    ensures |r| <= |s|
    ensures r == [] <==> AllSpace(s)
    ensures r != [] ==> !IsSpace(r[0]) && !IsSpace(r[|r| - 1])
  {
    var start := LeadSpaces(s);
    if start == |s| then
      assert s[..start] == s;
      []
    else
      var t := TrailSpaces(s);
      assert t < |s| - start;
      assert !AllSpace(s) by { assert !IsSpace(s[start]); }
      s[start..|s| - t]
  }

  /** Leading spaces of whitespace followed by t. */
  lemma {:induction false} LeadSpacesAfter(a: string, t: string)
    requires AllSpace(a) && (t == [] || !IsSpace(t[0]))
    ensures LeadSpaces(a + t) == |a|
    decreases |a|
  {
    if a != [] {
      assert (a + t)[1..] == a[1..] + t;
      LeadSpacesAfter(a[1..], t);
    } else {
      assert a + t == t;
    }
  }

  /** Trailing spaces of t followed by whitespace. */
  lemma {:induction false} TrailSpacesBefore(t: string, b: string)
    requires AllSpace(b) && (t == [] || !IsSpace(t[|t| - 1]))
    ensures TrailSpaces(t + b) == |b|
    decreases |b|
  {
    if b != [] {
      assert (t + b)[..|t + b| - 1] == t + b[..|b| - 1];
      TrailSpacesBefore(t, b[..|b| - 1]);
    } else {
      assert t + b == t;
    }
  }

  /** trim is determined by its description: whatever sits between a
      whitespace prefix and a whitespace suffix, and neither starts nor ends
      with whitespace, is the trimmed string. */
  lemma TrimUnique(a: string, r: string, b: string)
    requires AllSpace(a) && AllSpace(b)
    requires r != [] ==> !IsSpace(r[0]) && !IsSpace(r[|r| - 1])
    ensures Trim(a + r + b) == r
  {
    var s := a + r + b;
    if r == [] {
      assert AllSpace(s) by {
        forall k | 0 <= k < |s| ensures IsSpace(s[k]) {
          if k < |a| { assert s[k] == a[k]; } else { assert s[k] == b[k - |a|]; }
        }
      }
    } else {
      LeadSpacesAfter(a, r + b);
      assert a + (r + b) == s;
      TrailSpacesBefore(a + r, b);
      assert (a + r)[|a + r| - 1] == r[|r| - 1];
      assert s[|a|..|s| - |b|] == r;
    }
  }

  /** What trim returns is a piece of s between a whitespace prefix and a
      whitespace suffix. */
  lemma TrimInfix(s: string)
    ensures var r := Trim(s);
            exists a :: 0 <= a <= |s| - |r| && r == s[a..a + |r|] && AllSpace(s[..a]) && AllSpace(s[a + |r|..])
  {
    var r := Trim(s);
    var a := LeadSpaces(s);
    if r == [] {
      assert s[..0] == [] && s[0..] == s;
      assert r == s[0..0];
    } else {
      var t := TrailSpaces(s);
      assert r == s[a..|s| - t];
      assert s[a + |r|..] == s[|s| - t..];
    }
  }

  /** trim is idempotent. */
  lemma TrimTwice(s: string)
    ensures Trim(Trim(s)) == Trim(s)
  {
    var r := Trim(s);
    TrimUnique([], r, []);
    assert [] + r + [] == r;
  }

  /** The lines count_non_empty_lines keeps: those whose trim is not empty,
      in input order, each kept as read (not trimmed). */
  function NonEmptyLines(lines: seq<string>): seq<string>
    decreases |lines|
  {
    if lines == [] then []
    else
      var last := lines[|lines| - 1];
      NonEmptyLines(lines[..|lines| - 1]) + (if Trim(last) != [] then [last] else [])
  }

  /** Keeping lines distributes over joining two blocks of lines, so the
      kept lines stay in input order. */
  lemma {:induction false} NonEmptyLinesAppend(a: seq<string>, b: seq<string>)
    ensures NonEmptyLines(a + b) == NonEmptyLines(a) + NonEmptyLines(b)
    decreases |b|
  {
    if b == [] {
      assert a + b == a;
    } else {
      var b' := b[..|b| - 1];
      assert (a + b)[..|a + b| - 1] == a + b';
      assert (a + b)[|a + b| - 1] == b[|b| - 1];
      NonEmptyLinesAppend(a, b');
    }
  }

  /** A line is kept exactly when it has a non-whitespace character. */
  lemma {:induction false} NonEmptyLinesExact(lines: seq<string>)
    ensures forall l :: l in NonEmptyLines(lines) <==> l in lines && !AllSpace(l)
    decreases |lines|
  {
    if lines != [] {
      var init := lines[..|lines| - 1];
      NonEmptyLinesExact(init);
      InitLast(lines);
    }
  }

  /** count_non_empty_lines: the kept lines and their number.  (A stream
      error while reading is not modelled.) */
  method CountNonEmptyLines(lines: seq<string>) returns (count: int, kept: seq<string>)
    ensures kept == NonEmptyLines(lines) && count == |kept|
  {
    kept, count := [], 0;
    for i := 0 to |lines|
      invariant kept == NonEmptyLines(lines[..i]) && count == |kept|
    {
      assert lines[..i + 1][..i] == lines[..i];
      var trimmed := Trim(lines[i]);
      if trimmed != [] {
        kept := kept + [lines[i]];
        count := count + 1;
      }
    }
    assert lines[..|lines|] == lines;
  }

  /** The number of maximal runs of non-whitespace characters in s. */
  function Segments(s: string): nat
    decreases |s|
  {
    if s == [] then 0
    else
      var init := s[..|s| - 1];
      Segments(init) + (if !IsSpace(s[|s| - 1]) && (init == [] || IsSpace(init[|init| - 1])) then 1 else 0)
  }

  /** count_non_blank_segments: one count per run of non-whitespace,
      however many spaces separate the runs. */
  method CountNonBlankSegments(line: string) returns (count: int)
    ensures count == Segments(line)
  {
    count := 0;
    var inSegment := false;
    for i := 0 to |line|
      invariant count == Segments(line[..i])
      invariant inSegment <==> i > 0 && !IsSpace(line[i - 1])
    {
      assert line[..i + 1][..i] == line[..i];
      if IsSpace(line[i]) {
        inSegment := false;
      } else {
        if !inSegment {
          count := count + 1;
          inSegment := true;
        }
      }
    }
    assert line[..|line|] == line;
  }

  /** A string has no segment exactly when it is all whitespace, that is
      when trim empties it. */
  lemma {:induction false} NoSegmentsAllSpace(s: string)
    ensures Segments(s) == 0 <==> AllSpace(s)
    decreases |s|
  {
    if s != [] {
      var init := s[..|s| - 1];
      NoSegmentsAllSpace(init);
      if !IsSpace(s[|s| - 1]) && !(init == [] || IsSpace(init[|init| - 1])) {
        assert !AllSpace(init) by { assert !IsSpace(init[|init| - 1]); }
      }
    }
  }

  /** Segments of two strings joined at whitespace add up. */
  lemma {:induction false} SegmentsConcat(a: string, b: string)
    requires a == [] || b == [] || IsSpace(a[|a| - 1]) || IsSpace(b[0])
    ensures Segments(a + b) == Segments(a) + Segments(b)
    decreases |b|
  {
    if b == [] {
      assert a + b == a;
    } else {
      var b' := b[..|b| - 1];
      assert (a + b)[..|a + b| - 1] == a + b';
      if b' != [] {
        SegmentsConcat(a, b');
        assert (a + b')[|a + b'| - 1] == b'[|b'| - 1];
      } else {
        assert a + b' == a;
        assert Segments(b) == (if !IsSpace(b[0]) then 1 else 0);
      }
    }
  }

  /** One space followed by a word without whitespace is one segment. */
  lemma {:induction false} OneSegment(t: string)
    requires t != [] && !exists k :: 0 <= k < |t| && IsSpace(t[k])
    ensures Segments([' '] + t) == 1
    decreases |t|
  {
    var s := [' '] + t;
    if |t| == 1 {
      assert s[..|s| - 1] == [' '];
      assert Segments([' ']) == 0 by { assert [' '][..0] == []; }
    } else {
      var t' := t[..|t| - 1];
      assert s[..|s| - 1] == [' '] + t';
      OneSegment(t');
    }
  }

  // ---------------------------------------------------------------------
  // `istream >> int` on a stringstream.

  /** The stream over one line: its text, the read position, and whether
      the stream is still good (neither failed nor at its end). */
  datatype Stream = Stream(text: string, pos: nat, good: bool)

  /** One `ss >> v`.  A stream that is not good, or has only whitespace
      left, leaves v untouched (None: the uninitialised local stays
      indeterminate) and fails.  Otherwise an optional sign and the longest
      run of digits are read: no digit stores 0 and fails; a value outside
      the int range stores the nearest bound and fails; running into the end
      of the text sets end-of-file, so the stream is no longer good. */
  function ReadInt(st: Stream): (res: (Stream, Option<int>))
    requires st.pos <= |st.text|
    ensures res.0.text == st.text && res.0.pos <= |st.text|
    ensures res.0.good ==> st.good
    decreases |st.text| - st.pos
  {
    if !st.good then (Stream(st.text, st.pos, false), None)
    else if st.pos < |st.text| && IsSpace(st.text[st.pos]) then ReadInt(Stream(st.text, st.pos + 1, true))
    else ReadAfterSpaces(st.text, st.pos)
  }

  /** The read once leading whitespace is skipped up to p. */
  function ReadAfterSpaces(text: string, p: nat): (res: (Stream, Option<int>))
    requires p <= |text|
    ensures res.0.text == text && res.0.pos <= |text|
  {
    if p == |text| then (Stream(text, p, false), None)
    else ReadDigits(text, p, if text[p] == '-' || text[p] == '+' then p + 1 else p)
  }

  /** The read of the digits from q on, after the sign (if any) at p. */
  function ReadDigits(text: string, p: nat, q: nat): (res: (Stream, Option<int>))
    requires p < |text| && q <= |text|
    ensures res.0.text == text && res.0.pos <= |text|
  {
    var rest := text[q..];
    Finish(text, p, q, rest[..NumInput.LeadDigits(rest)])
  }

  /** The read whose digits ds start at q: none stores 0 and fails. */
  function Finish(text: string, p: nat, q: nat, ds: string): (res: (Stream, Option<int>))
    requires p < |text| && q + |ds| <= |text| && NumInput.AllDigits(ds)
    ensures res.0.text == text && res.0.pos <= |text|
  {
    if ds == [] then (Stream(text, q, false), Some(0))
    else Store(text, q + |ds|, Signed(text[p], NumInput.DigitsValue(ds)))
  }

  /** The value of digits after a sign character (anything but '-' keeps
      it positive). */
  function Signed(sign: char, mag: nat): int
  {
    var m: int := mag;
    if sign == '-' then -m else m
  }

  /** Storing the value read, which ends at e: clamped with a failure when
      out of the int range. */
  function Store(text: string, e: nat, v: int): (res: (Stream, Option<int>))
    requires e <= |text|
    ensures res.0.text == text && res.0.pos <= |text|
  {
    if v > IntMax then (Stream(text, e, false), Some(IntMax))
    else if v < IntMin then (Stream(text, e, false), Some(IntMin))
    else (Stream(text, e, e < |text|), Some(v))
  }

  /** What k reads one after another store, in order. */
  function ReadMany(st: Stream, k: nat): (r: seq<Option<int>>)
    requires st.pos <= |st.text|
    ensures |r| == k
    decreases k
  {
    if k == 0 then []
    else
      var (st', v) := ReadInt(st);
      [v] + ReadMany(st', k - 1)
  }

  /** The stream k reads leave behind. */
  function StreamAfter(st: Stream, k: nat): (r: Stream)
    requires st.pos <= |st.text|
    ensures r.text == st.text && r.pos <= |r.text|
    decreases k
  {
    if k == 0 then st else StreamAfter(ReadInt(st).0, k - 1)
  }

  /** One more read moves on from where the first j reads stopped. */
  lemma {:induction false} StreamAfterNext(st: Stream, j: nat)
    requires st.pos <= |st.text|
    ensures StreamAfter(st, j + 1) == ReadInt(StreamAfter(st, j)).0
    decreases j
  {
    if j > 0 {
      StreamAfterNext(ReadInt(st).0, j - 1);
    }
  }

  /** The j-th of k reads is the read from where the first j stopped. */
  lemma {:induction false} ReadManyAt(st: Stream, k: nat, j: nat)
    requires st.pos <= |st.text| && j < k
    ensures ReadMany(st, k)[j] == ReadInt(StreamAfter(st, j)).1
    decreases j
  {
    if j > 0 {
      var next := ReadInt(st).0;
      assert ReadMany(st, k)[j] == ReadMany(next, k - 1)[j - 1];
      assert StreamAfter(st, j) == StreamAfter(next, j - 1);
      ReadManyAt(next, k - 1, j - 1);
    }
  }

  /** A fresh stringstream over a line. */
  function Open(line: string): Stream
  {
    Stream(line, 0, true)
  }

  /** Words written out one after another, each after one space. */
  function Spaced(ws: seq<string>): string
    decreases |ws|
  {
    if ws == [] then [] else [' '] + ws[0] + Spaced(ws[1..])
  }

  /** The decimal renderings of a row of values. */
  function Words(vs: seq<int>): (ws: seq<string>)
    ensures |ws| == |vs|
  {
    seq(|vs|, k requires 0 <= k < |vs| => NumInput.IntToString(vs[k]))
  }

  /** A row of values written out, each after one space. */
  function RowText(vs: seq<int>): string
  {
    Spaced(Words(vs))
  }

  predicate Int32(v: int)
  {
    IntMin <= v <= IntMax
  }

  function Abs(v: int): nat
  {
    if v < 0 then -v else v
  }

  /** The sign std::to_string writes. */
  function SignText(v: int): string
  {
    if v < 0 then ['-'] else []
  }

  /** w spells the int-sized value v as std::to_string writes it: the sign
      of v, then a non-empty run of digits worth |v|. */
  ghost predicate Spells(w: string, v: int)
  {
    var s := SignText(v);
    && Int32(v) && |s| < |w| && w[..|s|] == s
    && NumInput.AllDigits(w[|s|..]) && NumInput.DigitsValue(w[|s|..]) == Abs(v)
  }

  /** std::to_string spells every int-sized value. */
  lemma IntToStringSpells(v: int)
    requires Int32(v)
    ensures Spells(NumInput.IntToString(v), v)
  {
    var w, s, n := NumInput.IntToString(v), SignText(v), NumInput.NatToString(Abs(v));
    NumInput.NatToStringValue(Abs(v));
    assert w == s + n;
    assert w[..|s|] == s && w[|s|..] == n;
  }

  /** A spelled value has no whitespace in it. */
  lemma SpellsNoSpace(w: string, v: int)
    requires Spells(w, v)
    ensures w != [] && !exists k :: 0 <= k < |w| && IsSpace(w[k])
  {
    var s := SignText(v);
    forall k | 0 <= k < |w|
      ensures !IsSpace(w[k])
    {
      if k < |s| {
        assert w[k] == w[..|s|][k];
      } else {
        assert w[k] == w[|s|..][k - |s|];
      }
    }
  }

  /** Reading a spelled value back, after one space: the sign, then exactly
      its digits. */
  lemma ReadRendered(x: string, w: string, v: int, y: string)
    requires Spells(w, v) && (y == [] || !NumInput.IsDigit(y[0]))
    ensures var text := x + [' '] + w + y;
            ReadInt(Stream(text, |x|, true)) == (Stream(text, |x| + 1 + |w|, |y| > 0), Some(v))
  {
    var s := SignText(v);
    var n := w[|s|..];
    assert w == s + n;
    var text := x + [' '] + w + y;
    SpellsNoSpace(w, v);
    SkipOneSpace(x, w, y);
    DropFront(x, ' ', w, y);
    ReadSignedAt(text, |x| + 1, s, n, y, v);
  }

  /** What follows a prefix and one separator. */
  lemma DropFront<T>(x: seq<T>, c: T, w: seq<T>, y: seq<T>)
    ensures (x + [c] + w + y)[|x| + 1..] == w + y
  {
  }

  /** One space before the rendered value is skipped. */
  lemma SkipOneSpace(x: string, w: string, y: string)
    requires w != [] && !IsSpace(w[0])
    ensures var text := x + [' '] + w + y;
            ReadInt(Stream(text, |x|, true)) == ReadAfterSpaces(text, |x| + 1)
  {
    var text := x + [' '] + w + y;
    assert text[|x|] == ' ' && text[|x| + 1] == w[0];
    assert ReadInt(Stream(text, |x| + 1, true)) == ReadAfterSpaces(text, |x| + 1);
  }

  /** A value written at p as its sign s and the digits n of its
      magnitude, followed by y, reads as that value. */
  lemma ReadSignedAt(text: string, p: nat, s: string, n: string, y: string, v: int)
    requires Int32(v) && s == SignText(v) && (y == [] || !NumInput.IsDigit(y[0]))
    requires n != [] && NumInput.AllDigits(n) && NumInput.DigitsValue(n) == Abs(v)
    requires p + |s| + |n| + |y| == |text| && text[p..] == s + n + y
    ensures ReadAfterSpaces(text, p) == (Stream(text, p + |s| + |n|, |y| > 0), Some(v))
  {
    var q := p + |s|;
    SignAt(text, p, s, n, y, v);
    assert ReadAfterSpaces(text, p) == ReadDigits(text, p, q);
    ReadDigitsOf(text, p, q, n, y);
    assert Signed(text[p], NumInput.DigitsValue(n)) == v;
  }

  /** The character at p is the minus sign exactly when v is negative, and
      the digits follow the sign. */
  lemma SignAt(text: string, p: nat, s: string, n: string, y: string, v: int)
    requires s == SignText(v) && n != [] && NumInput.AllDigits(n)
    requires p + |s| + |n| + |y| == |text| && text[p..] == s + n + y
    ensures text[p] == '-' <==> v < 0
    ensures (text[p] == '-' || text[p] == '+') <==> v < 0
    ensures text[p + |s|..] == n + y
  {
    assert text[p] == (s + n + y)[0];
    assert NumInput.IsDigit(n[0]);
    assert text[p + |s|..] == (s + n + y)[|s|..];
  }

  /** Reading a run of digits that a non-digit (or the end) follows. */
  lemma ReadDigitsOf(text: string, p: nat, q: nat, n: string, y: string)
    requires p < |text| && q <= |text| && text[q..] == n + y
    requires n != [] && NumInput.AllDigits(n) && (y == [] || !NumInput.IsDigit(y[0]))
    ensures ReadDigits(text, p, q) ==
              Store(text, q + |n|, Signed(text[p], NumInput.DigitsValue(n)))
  {
    RunAt(text[q..], n, y);
  }

  /** The digit run a text starts with, when a non-digit or the end
      follows it. */
  lemma RunAt(rest: string, n: string, y: string)
    requires rest == n + y && NumInput.AllDigits(n) && (y == [] || !NumInput.IsDigit(y[0]))
    ensures rest[..NumInput.LeadDigits(rest)] == n
  {
    LeadDigitsOf(n, y);
  }

  /** The digit prefix of a digit run followed by a non-digit is the run. */
  lemma {:induction false} LeadDigitsOf(n: string, y: string)
    requires NumInput.AllDigits(n) && (y == [] || !NumInput.IsDigit(y[0]))
    ensures NumInput.LeadDigits(n + y) == |n|
    decreases |n|
  {
    if n == [] {
      assert n + y == y;
    } else {
      assert (n + y)[1..] == n[1..] + y;
      LeadDigitsOf(n[1..], y);
    }
  }

  /** The text of some words is the text of the first j, then of the
      rest. */
  lemma {:induction false} SpacedSplit(ws: seq<string>, j: nat)
    requires j <= |ws|
    ensures Spaced(ws) == Spaced(ws[..j]) + Spaced(ws[j..])
    decreases j
  {
    if j == 0 {
      assert ws[..0] == [] && ws[0..] == ws;
    } else {
      SpacedSplit(ws[1..], j - 1);
      assert ws[1..][..j - 1] == ws[..j][1..];
      assert ws[1..][j - 1..] == ws[j..];
    }
  }

  /** The text of the first j + 1 words ends with word j. */
  lemma SpacedSnoc(ws: seq<string>, j: nat)
    requires j < |ws|
    ensures Spaced(ws[..j + 1]) == Spaced(ws[..j]) + [' '] + ws[j]
  {
    SpacedSplit(ws[..j + 1], j);
    assert ws[..j + 1][..j] == ws[..j];
    assert ws[..j + 1][j..] == [ws[j]];
    assert [ws[j]][1..] == [];
  }

  /** The words from j on: a space, word j, then the words after it. */
  lemma SpacedFrom(ws: seq<string>, j: nat)
    requires j < |ws|
    ensures Spaced(ws[j..]) == [' '] + ws[j] + Spaced(ws[j + 1..])
  {
    assert ws[j..][1..] == ws[j + 1..];
  }

  /** The text around the j-th word of a line holding some words. */
  lemma AroundWord(x: string, ws: seq<string>, y: string, j: nat)
    requires j < |ws|
    ensures x + Spaced(ws) + y == (x + Spaced(ws[..j])) + [' '] + ws[j] + (Spaced(ws[j + 1..]) + y)
    ensures |x + Spaced(ws[..j + 1])| == |x + Spaced(ws[..j])| + 1 + |ws[j]|
  {
    SpacedSplit(ws, j);
    SpacedFrom(ws, j);
    SpacedSnoc(ws, j);
    Regroup(x, Spaced(ws[..j]), [' '], ws[j], Spaced(ws[j + 1..]), y);
  }

  /** Regrouping a concatenation around its middle part. */
  lemma Regroup<T>(x: seq<T>, a: seq<T>, sp: seq<T>, w: seq<T>, c: seq<T>, y: seq<T>)
    ensures x + (a + (sp + w + c)) + y == (x + a) + sp + w + (c + y)
  {
  }

  /** The read that starts after the first j words of a line gives value j
      and stops right after word j. */
  lemma ReadAt(x: string, ws: seq<string>, vs: seq<int>, y: string, j: nat)
    requires |ws| == |vs| && j < |vs| && Spells(ws[j], vs[j]) && (y == [] || !NumInput.IsDigit(y[0]))
    ensures var text := x + Spaced(ws) + y;
            var p := |x + Spaced(ws[..j])|;
            p <= |text| &&
            ReadInt(Stream(text, p, true)) ==
              (Stream(text, |x + Spaced(ws[..j + 1])|, j + 1 < |vs| || |y| > 0), Some(vs[j]))
  {
    var rest := Spaced(ws[j + 1..]) + y;
    AroundWord(x, ws, y, j);
    if j + 1 < |vs| {
      assert Spaced(ws[j + 1..])[0] == ' ';
    }
    assert |rest| > 0 <==> j + 1 < |vs| || |y| > 0;
    ReadRendered(x + Spaced(ws[..j]), ws[j], vs[j], rest);
  }

  /** Before each of its words is read, the stream over a line stands right
      after the words read so far. */
  lemma {:induction false} StreamsAlong(x: string, ws: seq<string>, vs: seq<int>, y: string, j: nat)
    requires |ws| == |vs| && j < |vs| && (forall k :: 0 <= k < |vs| ==> Spells(ws[k], vs[k]))
    requires y == [] || !NumInput.IsDigit(y[0])
    ensures var text := x + Spaced(ws) + y;
            StreamAfter(Stream(text, |x|, true), j) == Stream(text, |x + Spaced(ws[..j])|, true)
    decreases j
  {
    if j == 0 {
      assert ws[..0] == [];
    } else {
      StreamsAlong(x, ws, vs, y, j - 1);
      ReadAt(x, ws, vs, y, j - 1);
      StreamAfterNext(Stream(x + Spaced(ws) + y, |x|, true), j - 1);
    }
  }

  /** Every spelled value of a line reads back, in order. */
  lemma ReadWords(x: string, ws: seq<string>, vs: seq<int>, y: string)
    requires |ws| == |vs| && (forall k :: 0 <= k < |vs| ==> Spells(ws[k], vs[k]))
    requires y == [] || !NumInput.IsDigit(y[0])
    ensures var text := x + Spaced(ws) + y;
            forall j :: 0 <= j < |vs| ==> ReadMany(Stream(text, |x|, true), |vs|)[j] == Some(vs[j])
  {
    var text := x + Spaced(ws) + y;
    forall j | 0 <= j < |vs|
      ensures ReadMany(Stream(text, |x|, true), |vs|)[j] == Some(vs[j])
    {
      StreamsAlong(x, ws, vs, y, j);
      ReadAt(x, ws, vs, y, j);
      ReadManyAt(Stream(text, |x|, true), |vs|, j);
    }
  }

  /** The renderings of int-sized values spell them. */
  lemma WordsSpell(vs: seq<int>)
    requires forall k :: 0 <= k < |vs| ==> Int32(vs[k])
    ensures forall k :: 0 <= k < |vs| ==> Spells(Words(vs)[k], vs[k])
  {
    forall k | 0 <= k < |vs|
      ensures Spells(Words(vs)[k], vs[k])
    {
      IntToStringSpells(vs[k]);
    }
  }

  /** Every value of a rendered row reads back, in order. */
  lemma ReadRow(vs: seq<int>)
    requires forall k :: 0 <= k < |vs| ==> Int32(vs[k])
    ensures forall j :: 0 <= j < |vs| ==> ReadMany(Open(RowText(vs)), |vs|)[j] == Some(vs[j])
  {
    WordsSpell(vs);
    ReadLine(Words(vs), vs);
  }

  /** Every spelled value of a line holding only the words reads back. */
  lemma ReadLine(ws: seq<string>, vs: seq<int>)
    requires |ws| == |vs| && (forall k :: 0 <= k < |vs| ==> Spells(ws[k], vs[k]))
    ensures forall j :: 0 <= j < |vs| ==> ReadMany(Open(Spaced(ws)), |vs|)[j] == Some(vs[j])
  {
    var e: string := [];
    ReadWords(e, ws, vs, e);
    NoPad(Spaced(ws));
  }

  /** Nothing around a text leaves it as it is. */
  lemma NoPad<T>(t: seq<T>)
    ensures [] + t + [] == t
  {
  }

  /** Words without whitespace give one segment each. */
  lemma {:induction false} SpacedSegments(ws: seq<string>)
    requires forall k :: 0 <= k < |ws| ==> ws[k] != [] && !exists i :: 0 <= i < |ws[k]| && IsSpace(ws[k][i])
    ensures Segments(Spaced(ws)) == |ws|
    decreases |ws|
  {
    if ws != [] {
      OneSegment(ws[0]);
      SpacedSegments(ws[1..]);
      var rest := Spaced(ws[1..]);
      if rest != [] {
        assert rest[0] == ' ';
      }
      SegmentsConcat([' '] + ws[0], rest);
    }
  }

  /** A rendered row has one segment per value. */
  lemma RowSegments(vs: seq<int>)
    requires forall k :: 0 <= k < |vs| ==> Int32(vs[k])
    ensures Segments(RowText(vs)) == |vs|
  {
    WordsSpell(vs);
    forall k | 0 <= k < |vs|
      ensures Words(vs)[k] != [] && !exists i :: 0 <= i < |Words(vs)[k]| && IsSpace(Words(vs)[k][i])
    {
      SpellsNoSpace(Words(vs)[k], vs[k]);
    }
    SpacedSegments(Words(vs));
  }

  /** The rows of a grid written one per line, each value after a space. */
  function GridText(rows: seq<seq<int>>): (lines: seq<string>)
    ensures |lines| == |rows|
  {
    seq(|rows|, i requires 0 <= i < |rows| => RowText(rows[i]))
  }

  /** The round trip of loadMatrix: the lines of a grid with at least one
      row, all rows of one length c >= 1 and int-sized values, are all kept;
      the first has c segments; and the reads of line i give row i. */
  lemma GridTextReads(rows: seq<seq<int>>, c: nat)
    requires |rows| >= 1 && c >= 1
    requires forall i :: 0 <= i < |rows| ==> |rows[i]| == c
    requires forall i, j :: 0 <= i < |rows| && 0 <= j < c ==> Int32(rows[i][j])
    ensures NonEmptyLines(GridText(rows)) == GridText(rows)
    ensures Segments(GridText(rows)[0]) == c
    ensures forall i, j :: 0 <= i < |rows| && 0 <= j < c ==> ReadMany(Open(GridText(rows)[i]), c)[j] == Some(rows[i][j])
  {
    var lines := GridText(rows);
    forall i | 0 <= i < |rows|
      ensures Segments(lines[i]) == c && !AllSpace(lines[i])
      ensures forall j :: 0 <= j < c ==> ReadMany(Open(lines[i]), c)[j] == Some(rows[i][j])
    {
      RowSegments(rows[i]);
      NoSegmentsAllSpace(lines[i]);
      ReadRow(rows[i]);
    }
    AllKept(lines);
  }

  /** Lines that are all non-blank are all kept. */
  lemma {:induction false} AllKept(lines: seq<string>)
    requires forall i :: 0 <= i < |lines| ==> !AllSpace(lines[i])
    ensures NonEmptyLines(lines) == lines
    decreases |lines|
  {
    if lines != [] {
      var init, last := lines[..|lines| - 1], lines[|lines| - 1];
      forall i | 0 <= i < |init| ensures !AllSpace(init[i]) {
        assert init[i] == lines[i];
      }
      AllKept(init);
      KeepLast(lines);
      InitLast(lines);
    }
  }

  /** A non-empty list of lines is its front followed by its last line. */
  lemma InitLast<T>(s: seq<T>)
    requires s != []
    ensures s[..|s| - 1] + [s[|s| - 1]] == s
  {
  }

  /** A non-blank last line is kept. */
  lemma KeepLast(lines: seq<string>)
    requires lines != [] && !AllSpace(lines[|lines| - 1])
    ensures NonEmptyLines(lines) == NonEmptyLines(lines[..|lines| - 1]) + [lines[|lines| - 1]]
  {
    assert Trim(lines[|lines| - 1]) != [];
  }

  /** The grid loadMatrix reads from the kept lines: rows by kept line,
      columns by the first kept line's segments, and cell (i, j) whatever
      the j-th read of line i stored. */
  ghost predicate LoadedFrom(m: Matrix, kept: seq<string>)
  {
    && |kept| >= 1 && m.rcnt == |kept| && m.ccnt == Segments(kept[0])
    && forall i, j :: InBounds(m, i, j) && ReadMany(Open(kept[i]), m.ccnt)[j].Some? ==>
         m.cells[i][j] == ReadMany(Open(kept[i]), m.ccnt)[j].value
  }

  /** The reads so far, then k more, are the reads so far and the next
      one, then k - 1 more. */
  lemma ReadAlong(got: seq<Option<int>>, st: Stream, k: nat)
    requires st.pos <= |st.text| && k > 0
    ensures got + ReadMany(st, k) == (got + [ReadInt(st).1]) + ReadMany(ReadInt(st).0, k - 1)
  {
    assert ReadMany(st, k) == [ReadInt(st).1] + ReadMany(ReadInt(st).0, k - 1);
  }

  /** Reading one line into row i of the matrix, cell after cell. */
  method FillRow(mx: IntMatrix2, i: int, line: string)
    requires mx.Valid() && 0 <= i < mx.rcnt && mx.ccnt >= 0
    modifies mx
    ensures mx.Valid()
    ensures forall j :: 0 <= j < mx.ccnt && ReadMany(Open(line), mx.ccnt)[j].Some? ==>
              mx.cells[i][j] == ReadMany(Open(line), mx.ccnt)[j].value
    ensures forall a, b :: InBounds(mx.Value(), a, b) && a != i ==> mx.cells[a][b] == old(mx.cells[a][b])
  {
    var st := Open(line);
    ghost var got := [];
    ghost var c0 := mx.cells;
    for j := 0 to mx.ccnt
      invariant mx.Valid() && st.pos <= |st.text|
      invariant got + ReadMany(st, mx.ccnt - j) == ReadMany(Open(line), mx.ccnt)
      invariant forall b :: 0 <= b < j && got[b].Some? ==> mx.cells[i][b] == got[b].value
      invariant |mx.cells| == |c0| && forall a :: 0 <= a < |c0| && a != i ==> mx.cells[a] == c0[a]
    {
      ReadAlong(got, st, mx.ccnt - j);
      var r;
      st, r := ReadInt(st).0, ReadInt(st).1;
      var v: int;
      if r.Some? {
        v := r.value;
      } else {
        v :| true;
      }
      mx.SetPos(i, j, v);
      got := got + [r];
    }
  }

  /** loadMatrix: at least one non-blank line is required; the matrix has a
      row per kept line and as many columns as the first kept line has
      segments. */
  method LoadMatrix(lines: seq<string>) returns (r: Result<IntMatrix2>)
    ensures r.Err? <==> NonEmptyLines(lines) == []
    ensures r.Err? ==> r.error.AssertionFailed?
    ensures r.Ok? ==> fresh(r.value) && r.value.Valid() && LoadedFrom(r.value.Value(), NonEmptyLines(lines))
  {
    var rowCnt, vec := CountNonEmptyLines(lines);
    if rowCnt <= 0 {
      return Err(AssertionFailed("FileDataInput::loadMatrix"));
    }
    var colCnt := CountNonBlankSegments(vec[0]);
    var mx := new IntMatrix2(rowCnt, colCnt);
    for i := 0 to rowCnt
      invariant mx.Valid() && mx.rcnt == rowCnt && mx.ccnt == colCnt
      invariant forall a, b :: 0 <= a < i && 0 <= b < colCnt && ReadMany(Open(vec[a]), colCnt)[b].Some? ==>
                  mx.cells[a][b] == ReadMany(Open(vec[a]), colCnt)[b].value
    {
      FillRow(mx, i, vec[i]);
    }
    r := Ok(mx);
  }
}
