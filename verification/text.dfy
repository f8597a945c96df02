/**
  The string primitives the two parsers are built from, with Python's
  semantics: `str.strip()` with no argument, `str.split(sep)` with a
  one-character separator, `str.splitlines()`, and `filter(None, ...)`
  over a list of strings.
 */
module Text {

  /** The characters `str.splitlines()` treats as line boundaries
      ("\r\n" is one boundary made of two of them). */
  const LineBreaks: set<char> :=
    {'\n', '\r', '\U{000B}', '\U{000C}', '\U{001C}', '\U{001D}', '\U{001E}',
     '\U{0085}', '\U{2028}', '\U{2029}'}

  /** The characters for which `str.isspace()` holds, that is, what
      `str.strip()` with no argument removes. */
  predicate IsSpace(c: char) {
    var n := c as int;
    || 0x09 <= n <= 0x0D
    || 0x1C <= n <= 0x20
    || n == 0x85 || n == 0xA0 || n == 0x1680
    || 0x2000 <= n <= 0x200A
    || n == 0x2028 || n == 0x2029 || n == 0x202F || n == 0x205F || n == 0x3000
  }

  predicate AllSpace(s: string) {
    forall i :: 0 <= i < |s| ==> IsSpace(s[i])
  }

  /** No character of `s` belongs to `cs`. */
  predicate NoneIn(s: string, cs: set<char>) {
    forall i :: 0 <= i < |s| ==> s[i] !in cs
  }

  // ---------------------------------------------------------------- strip

  /** `r` is what stripping `s` must give: a slice of `s` with only
      whitespace around it, that neither starts nor ends with whitespace. */
  ghost predicate IsStripOf(s: string, r: string) {
    && (exists i, j ::
          && 0 <= i <= j <= |s| && r == s[i..j]
          && (forall m :: 0 <= m < i ==> IsSpace(s[m]))
          && (forall m :: j <= m < |s| ==> IsSpace(s[m])))
    && (r == [] || (!IsSpace(r[0]) && !IsSpace(r[|r| - 1])))
  }

  /** Number of whitespace characters at the start of `s`. */
  function LeadingSpaces(s: string): (n: nat)
    ensures n <= |s|
    ensures forall m :: 0 <= m < n ==> IsSpace(s[m])
    ensures n < |s| ==> !IsSpace(s[n])
  {
    if |s| > 0 && IsSpace(s[0]) then 1 + LeadingSpaces(s[1..]) else 0
  }

  /** Number of whitespace characters at the end of `s`. */
  function TrailingSpaces(s: string): (n: nat)
    ensures n <= |s|
    ensures forall m :: |s| - n <= m < |s| ==> IsSpace(s[m])
    ensures n < |s| ==> !IsSpace(s[|s| - n - 1])
  {
    if |s| > 0 && IsSpace(s[|s| - 1]) then 1 + TrailingSpaces(s[..|s| - 1]) else 0
  }

  /** Python's `s.strip()`. */
  function Strip(s: string): (r: string)
    ensures IsStripOf(s, r)
  {
    var i := LeadingSpaces(s);
    var j := |s| - (if i == |s| then 0 else TrailingSpaces(s));
    assert i < |s| ==> s[i..j][0] == s[i];
    s[i..j]
  }

  /** Stripping is fully determined by `IsStripOf`: any two strings it
      admits for the same `s` are equal. */
  lemma StripUnique(s: string, r1: string, r2: string)
    requires IsStripOf(s, r1) && IsStripOf(s, r2)
    ensures r1 == r2
  {
  }

  /** Stripping twice is stripping once. */
  lemma StripIdempotent(s: string)
    ensures Strip(Strip(s)) == Strip(s)
  {
    StripNoEdges(Strip(s));
  }

  /** A string with no blank at either end is its own strip. */
  lemma StripNoEdges(s: string)
    requires s == [] || (!IsSpace(s[0]) && !IsSpace(s[|s| - 1]))
    ensures Strip(s) == s
  {
    assert s[0..|s|] == s;
    assert IsStripOf(s, s);
    StripUnique(s, s, Strip(s));
  }

  /** A line made only of whitespace strips to the empty string. */
  lemma StripAllSpace(s: string)
    requires AllSpace(s)
    ensures Strip(s) == []
  {
  }

  // ---------------------------------------------------------------- split

  /** Index of the first character of `s` that is in `cs`, or `|s|`. */
  function FirstIn(s: string, cs: set<char>): (k: nat)
    ensures k <= |s|
    ensures forall i :: 0 <= i < k ==> s[i] !in cs
    ensures k < |s| ==> s[k] in cs
  {
    if |s| == 0 || s[0] in cs then 0 else 1 + FirstIn(s[1..], cs)
  }

  /** The characters of `s` that are in `cs`, in order: the separators
      a split of `s` on `cs` consumes. */
  function SepChars(s: string, cs: set<char>): (r: string)
    ensures |r| <= |s|
    ensures forall i :: 0 <= i < |r| ==> r[i] in cs
  {
    if |s| == 0 then []
    else (if s[0] in cs then [s[0]] else []) + SepChars(s[1..], cs)
  }

  /** The separators of `s` start at its first separator. */
  lemma {:induction false} SepCharsFrom(s: string, cs: set<char>)
    requires FirstIn(s, cs) < |s|
    ensures SepChars(s, cs) == [s[FirstIn(s, cs)]] + SepChars(s[FirstIn(s, cs) + 1..], cs)
  {
    if s[0] !in cs {
      SepCharsFrom(s[1..], cs);
      assert s[1..][FirstIn(s[1..], cs) + 1..] == s[FirstIn(s, cs) + 1..];
    }
  }

  /** Python's `s.split(sep)` for a one-character separator,
      generalised to a set of separator characters. */
  function Split(s: string, cs: set<char>): seq<string>
    decreases |s|
  {
    var k := FirstIn(s, cs);
    if k == |s| then [s]
    else [s[..k]] + Split(s[k + 1..], cs)
  }

  /** A split has one more piece than the string has separators. */
  lemma {:induction false} SplitCount(s: string, cs: set<char>)
    ensures |Split(s, cs)| == |SepChars(s, cs)| + 1
    decreases |s|
  {
    var k := FirstIn(s, cs);
    if k < |s| {
      SplitUnfold(s, cs);
      SepCharsFrom(s, cs);
      SplitCount(s[k + 1..], cs);
    } else if SepChars(s, cs) != [] {
      SepCharsPresent(s, cs);
    }
  }

  /** A string with a separator character has one before |s|. */
  lemma {:induction false} SepCharsPresent(s: string, cs: set<char>)
    requires SepChars(s, cs) != []
    ensures FirstIn(s, cs) < |s|
  {
    if s[0] !in cs {
      SepCharsPresent(s[1..], cs);
    }
  }

  /** Glue `pieces` back together, putting `seps[i]` between
      `pieces[i]` and `pieces[i + 1]`. */
  function Join(pieces: seq<string>, seps: string): string
    requires |pieces| == |seps| + 1
  {
    if |pieces| == 1 then pieces[0]
    else pieces[0] + [seps[0]] + Join(pieces[1..], seps[1..])
  }

  /** `Join` unfolded twice. */
  lemma JoinTwo(p: seq<string>, seps: string)
    requires |p| == |seps| + 1 && |p| >= 3
    ensures Join(p, seps) == p[0] + [seps[0]] + p[1] + [seps[1]] + Join(p[2..], seps[2..])
  {
    var p1, s1 := p[1..], seps[1..];
    assert p1[1..] == p[2..] && s1[1..] == seps[2..];
    var j2 := Join(p[2..], seps[2..]);
    var j1 := Join(p1, s1);
    assert j1 == p[1] + [seps[1]] + j2;
    var a := p[0] + [seps[0]];
    assert Join(p, seps) == a + j1;
    assert a + (p[1] + [seps[1]] + j2) == a + p[1] + [seps[1]] + j2;
  }

  /** `Join` with one more piece and separator in front. */
  lemma JoinCons(p: string, c: char, pieces: seq<string>, seps: string)
    requires |pieces| == |seps| + 1
    ensures Join([p] + pieces, [c] + seps) == p + [c] + Join(pieces, seps)
  {
    assert ([p] + pieces)[1..] == pieces && ([c] + seps)[1..] == seps;
  }

  /** `Split` unfolded at the first separator. */
  lemma SplitUnfold(s: string, cs: set<char>)
    requires FirstIn(s, cs) < |s|
    ensures Split(s, cs) == [s[..FirstIn(s, cs)]] + Split(s[FirstIn(s, cs) + 1..], cs)
  {
  }

  /** No piece of a split holds a separator. */
  lemma {:induction false} SplitPiecesClean(s: string, cs: set<char>)
    ensures forall i :: 0 <= i < |Split(s, cs)| ==> NoneIn(Split(s, cs)[i], cs)
    decreases |s|
  {
    var k := FirstIn(s, cs);
    if k < |s| {
      SplitUnfold(s, cs);
      SplitPiecesClean(s[k + 1..], cs);
    }
  }

  /** A string without separators is a single piece. */
  lemma SplitNoSep(s: string, cs: set<char>)
    requires NoneIn(s, cs)
    ensures Split(s, cs) == [s] && SepChars(s, cs) == []
  {
    if SepChars(s, cs) != [] {
      SepCharsPresent(s, cs);
    }
  }

  /** Splitting loses nothing: joining the pieces with the separators
      that were consumed gives back the original string. */
  lemma {:induction false} SplitJoin(s: string, cs: set<char>)
    ensures |Split(s, cs)| == |SepChars(s, cs)| + 1
    ensures Join(Split(s, cs), SepChars(s, cs)) == s
    decreases |s|
  {
    SplitCount(s, cs);
    var k := FirstIn(s, cs);
    if k < |s| {
      var rest := s[k + 1..];
      SplitUnfold(s, cs);
      SepCharsFrom(s, cs);
      SplitJoin(rest, cs);
      JoinCons(s[..k], s[k], Split(rest, cs), SepChars(rest, cs));
      assert s == s[..k] + [s[k]] + rest;
    } else {
      SplitNoSep(s, cs);
    }
  }

  /** The converse round trip: pieces free of separators, glued with
      separator characters, split back into exactly those pieces. */
  lemma {:induction false} SplitOfJoin(pieces: seq<string>, seps: string, cs: set<char>)
    requires |pieces| == |seps| + 1
    requires forall i :: 0 <= i < |pieces| ==> NoneIn(pieces[i], cs)
    requires forall i :: 0 <= i < |seps| ==> seps[i] in cs
    ensures Split(Join(pieces, seps), cs) == pieces
    ensures SepChars(Join(pieces, seps), cs) == seps
    decreases |pieces|
  {
    var p := pieces[0];
    if |pieces| == 1 {
      SplitNoSep(p, cs);
    } else {
      var tail := Join(pieces[1..], seps[1..]);
      var s := p + ([seps[0]] + tail);
      assert pieces == [p] + pieces[1..] && seps == [seps[0]] + seps[1..];
      JoinCons(p, seps[0], pieces[1..], seps[1..]);
      assert Join(pieces, seps) == s;
      FirstInAfterClean(p, [seps[0]] + tail, cs);
      SplitUnfold(s, cs);
      SepCharsFrom(s, cs);
      assert s[..|p|] == p && s[|p|] == seps[0] && s[|p| + 1..] == tail;
      SplitOfJoin(pieces[1..], seps[1..], cs);
    }
  }

  /** A prefix without separators is skipped by `FirstIn`. */
  lemma {:induction false} FirstInAfterClean(p: string, rest: string, cs: set<char>)
    requires NoneIn(p, cs)
    requires |rest| > 0 && rest[0] in cs
    ensures FirstIn(p + rest, cs) == |p|
  {
    if |p| > 0 {
      assert (p + rest)[1..] == p[1..] + rest;
      FirstInAfterClean(p[1..], rest, cs);
    }
  }

  // ---------------------------------------------------------------- lines

  /** `filter(None, xs)` on a list of strings: drops exactly the empty ones. */
  function NonEmpty(xs: seq<string>): (r: seq<string>)
    ensures |r| <= |xs|
    ensures forall x :: x in r <==> x in xs && x != []
  {
    if |xs| == 0 then []
    else (if xs[0] == [] then [] else [xs[0]]) + NonEmpty(xs[1..])
  }

  lemma {:induction false} NonEmptyAppend(a: seq<string>, b: seq<string>)
    ensures NonEmpty(a + b) == NonEmpty(a) + NonEmpty(b)
  {
    if |a| > 0 {
      assert (a + b)[1..] == a[1..] + b;
      NonEmptyAppend(a[1..], b);
    } else {
      assert a + b == b;
    }
  }

  /** Python's `s.splitlines()`: break at every line boundary, "\r\n"
      counting as one, and produce no piece after a final boundary. */
  function SplitLines(s: string): seq<string>
    decreases |s|
  {
    if |s| == 0 then []
    else
      var k := FirstIn(s, LineBreaks);
      if k == |s| then [s]
      else
        var next := if s[k] == '\r' && k + 1 < |s| && s[k + 1] == '\n' then k + 2 else k + 1;
        [s[..k]] + SplitLines(s[next..])
  }

  /** No piece of `splitlines()` holds a line boundary. */
  lemma {:induction false} SplitLinesClean(s: string)
    ensures forall i :: 0 <= i < |SplitLines(s)| ==> NoneIn(SplitLines(s)[i], LineBreaks)
    decreases |s|
  {
    if |s| > 0 {
      var k := FirstIn(s, LineBreaks);
      if k < |s| {
        var next := if s[k] == '\r' && k + 1 < |s| && s[k + 1] == '\n' then k + 2 else k + 1;
        SplitLinesClean(s[next..]);
      }
    }
  }

  /** The lines the parsers iterate over:
      `filter(None, text.splitlines())`. */
  function Lines(text: string): (r: seq<string>)
    ensures forall i :: 0 <= i < |r| ==> r[i] != [] && NoneIn(r[i], LineBreaks)
  {
    var r := NonEmpty(SplitLines(text));
    SplitLinesClean(text);
    assert forall i :: 0 <= i < |r| ==> r[i] in SplitLines(text);
    r
  }

  /** A separator at the very start only adds an empty first piece. */
  lemma LeadingSeparator(s: string, cs: set<char>)
    requires |s| > 0 && s[0] in cs
    ensures NonEmpty(Split(s, cs)) == NonEmpty(Split(s[1..], cs))
  {
    assert FirstIn(s, cs) == 0;
    assert Split(s, cs) == [[]] + Split(s[1..], cs);
    NonEmptyAppend([[]], Split(s[1..], cs));
  }

  /** Once empty pieces are dropped, `splitlines()` agrees with a plain
      split at every boundary character: the extra empty piece between
      '\r' and '\n', and the one after a final boundary, are both empty. */
  lemma {:induction false} LinesAsSplit(text: string)
    ensures Lines(text) == NonEmpty(Split(text, LineBreaks))
    decreases |text|
  {
    var s := text;
    var k := FirstIn(s, LineBreaks);
    if |s| == 0 {
      assert Split(s, LineBreaks) == [[]];
    } else if k < |s| {
      var next := if s[k] == '\r' && k + 1 < |s| && s[k + 1] == '\n' then k + 2 else k + 1;
      var rest := s[k + 1..];
      assert SplitLines(s) == [s[..k]] + SplitLines(s[next..]);
      assert Split(s, LineBreaks) == [s[..k]] + Split(rest, LineBreaks);
      LinesAsSplit(s[next..]);
      NonEmptyAppend([s[..k]], SplitLines(s[next..]));
      NonEmptyAppend([s[..k]], Split(rest, LineBreaks));
      if next == k + 2 {
        LeadingSeparator(rest, LineBreaks);
        assert rest[1..] == s[next..];
      }
    }
  }

  /** A file holding `ls`, each line ended by '\n'. */
  function Unlines(ls: seq<string>): string {
    if |ls| == 0 then [] else ls[0] + "\n" + Unlines(ls[1..])
  }

  /** A boundary-free line followed by '\n' is the first piece. */
  lemma SplitLinesStep(p: string, rest: string)
    requires NoneIn(p, LineBreaks)
    ensures SplitLines(p + ("\n" + rest)) == [p] + SplitLines(rest)
  {
    var s := p + ("\n" + rest);
    FirstInAfterClean(p, "\n" + rest, LineBreaks);
    assert s[..|p|] == p && s[|p|] == '\n' && s[|p| + 1..] == rest;
  }

  lemma {:induction false} SplitLinesOfUnlines(ls: seq<string>)
    requires forall i :: 0 <= i < |ls| ==> NoneIn(ls[i], LineBreaks)
    ensures SplitLines(Unlines(ls)) == ls
  {
    if |ls| > 0 {
      var rest := Unlines(ls[1..]);
      assert Unlines(ls) == ls[0] + ("\n" + rest);
      SplitLinesStep(ls[0], rest);
      SplitLinesOfUnlines(ls[1..]);
      assert ls == [ls[0]] + ls[1..];
    }
  }

  lemma {:induction false} NonEmptyKeepsAll(xs: seq<string>)
    requires forall i :: 0 <= i < |xs| ==> xs[i] != []
    ensures NonEmpty(xs) == xs
  {
    if |xs| > 0 {
      NonEmptyKeepsAll(xs[1..]);
      assert xs == [xs[0]] + xs[1..];
    }
  }

  /** Reading back the lines of a file written line by line gives the
      same lines, provided none is empty or holds a line boundary. */
  lemma LinesOfUnlines(ls: seq<string>)
    requires forall i :: 0 <= i < |ls| ==> ls[i] != [] && NoneIn(ls[i], LineBreaks)
    ensures Lines(Unlines(ls)) == ls
  {
    SplitLinesOfUnlines(ls);
    NonEmptyKeepsAll(ls);
  }
}
