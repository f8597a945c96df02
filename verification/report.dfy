/**
  The two record parsers of `application/report.py`, over the text of the
  file instead of its path:

  - `CollectingRacersData` reads a timing log (`start.log` / `end.log`):
    each line is a 3-character racer code followed by a timestamp, kept
    as raw text under a caller-chosen field name;
  - `CollectingAbbreviations` reads the roster (`abbreviations.txt`):
    each line is `CODE_Full Name_Team`.

  Both return their records sorted stably by racer code.
 */
module Report {
  import opened Results
  import opened Text
  import opened StableSort

  /** The dictionary keys the source writes. */
  const AbbreviationKey: string := "racer_abbreviation"
  const FullNameKey: string := "full_name"
  const TeamKey: string := "team"

  /** Width of the racer code at the start of a timing line. */
  const CodeWidth: nat := 3

  const Underscore: set<char> := {'_'}

  // ------------------------------------------------------------ timing log

  /** One timing-log line: the code, the caller's field name for the time,
      and the rest of the line, never parsed. */
  datatype TimingRecord = TimingRecord(code: string, title: string, time: string) {

    /** The dictionary the source builds. Written as a literal with the
        code entry first, so when `title` is itself "racer_abbreviation"
        the time overwrites the code. */
    function AsDict(): (d: map<string, string>)
      ensures d.Keys == {AbbreviationKey, title}
      ensures d[title] == time
      ensures title != AbbreviationKey ==> d[AbbreviationKey] == code
    {
      map[AbbreviationKey := code][title := time]
    }

    /** The log line this record reads back from. */
    function Line(): string {
      code + time
    }

    /** A record a log line can hold: a full-width code, no line boundary,
        and nothing at either end for `strip()` to remove. */
    predicate Writable() {
      var line := Line();
      && |code| == CodeWidth
      && NoneIn(line, LineBreaks)
      && !IsSpace(line[0]) && !IsSpace(line[|line| - 1])
    }
  }

  /** The sort key `a['racer_abbreviation']`. */
  function TimingKey(rec: TimingRecord): (k: string)
    ensures k == if rec.title == AbbreviationKey then rec.time else rec.code
  {
    rec.AsDict()[AbbreviationKey]
  }

  /** The record has the two fields `racer_abbreviation` and the caller's
      title, unless the two names coincide, in which case only the time
      survives and becomes the sort key. */
  lemma TimingDictShape(rec: TimingRecord)
    ensures rec.title != AbbreviationKey ==>
      && rec.AsDict().Keys == {AbbreviationKey, rec.title}
      && rec.AsDict()[AbbreviationKey] == rec.code
      && rec.AsDict()[rec.title] == rec.time
      && TimingKey(rec) == rec.code
    ensures rec.title == AbbreviationKey ==>
      && rec.AsDict() == map[AbbreviationKey := rec.time]
      && TimingKey(rec) == rec.time
  {
  }

  function Min(a: int, b: int): int {
    if a <= b then a else b
  }

  /** One pass of the loop body: strip the line, cut off the first
      three characters (fewer if the line is shorter) as the code. */
  function ParseTimingLine(line: string, title: string): (r: TimingRecord)
    ensures r.title == title
    ensures r.code + r.time == Strip(line)
    ensures |r.code| == Min(CodeWidth, |Strip(line)|)
  {
    var s := Strip(line);
    var cut := Min(CodeWidth, |s|);
    assert s == s[..cut] + s[cut..];
    TimingRecord(s[..cut], title, s[cut..])
  }

  function ParseTimingLines(lines: seq<string>, title: string): seq<TimingRecord> {
    seq(|lines|, i requires 0 <= i < |lines| => ParseTimingLine(lines[i], title))
  }

  /** `collecting_racers_data(file_path, title_for_time)` on the file's text. */
  function CollectingRacersData(text: string, title: string): (r: seq<TimingRecord>)
    ensures |r| == |Lines(text)|
    ensures multiset(r) == multiset(ParseTimingLines(Lines(text), title))
    ensures IsStableSortOf(r, ParseTimingLines(Lines(text), title), TimingKey)
  {
    SortByKey(ParseTimingLines(Lines(text), title), TimingKey)
  }

  /** Every record comes from one line of the log, and every line gives
      a record. */
  lemma RacersDataFromLines(text: string, title: string)
    ensures var r := CollectingRacersData(text, title);
      && (forall rec :: rec in r ==>
            exists j :: 0 <= j < |Lines(text)| && rec == ParseTimingLine(Lines(text)[j], title))
      && (forall j :: 0 <= j < |Lines(text)| ==> ParseTimingLine(Lines(text)[j], title) in r)
  {
    var lines := Lines(text);
    var r := CollectingRacersData(text, title);
    ParsedTimingElements(lines, title, r);
  }

  lemma ParsedTimingElements(lines: seq<string>, title: string, r: seq<TimingRecord>)
    requires multiset(r) == multiset(ParseTimingLines(lines, title))
    ensures forall rec :: rec in r ==> exists j :: 0 <= j < |lines| && rec == ParseTimingLine(lines[j], title)
    ensures forall j :: 0 <= j < |lines| ==> ParseTimingLine(lines[j], title) in r
  {
    var parsed := ParseTimingLines(lines, title);
    SameElements(r, parsed);
    forall rec | rec in r
      ensures exists j :: 0 <= j < |lines| && rec == ParseTimingLine(lines[j], title)
    {
      var j :| 0 <= j < |parsed| && parsed[j] == rec;
    }
    forall j | 0 <= j < |lines|
      ensures ParseTimingLine(lines[j], title) in r
    {
      assert parsed[j] in parsed;
    }
  }

  /** With an ordinary field name, the log's records are ordered by code. */
  lemma RacersDataSortedByCode(text: string, title: string)
    requires title != AbbreviationKey
    ensures var r := CollectingRacersData(text, title);
      forall i, j :: 0 <= i < j < |r| ==> !Less(r[j].code, r[i].code)
  {
    var r := CollectingRacersData(text, title);
    assert forall i :: 0 <= i < |r| ==> r[i].title == title by {
      RacersDataFromLines(text, title);
      forall i | 0 <= i < |r|
        ensures r[i].title == title
      {
        assert r[i] in r;
      }
    }
    forall i, j | 0 <= i < j < |r|
      ensures !Less(r[j].code, r[i].code)
    {
      TimingDictShape(r[i]);
      TimingDictShape(r[j]);
    }
  }

  /** A line of blanks is not dropped by `filter(None, ...)`: it yields a
      record whose code and time are both empty. */
  lemma WhitespaceTimingLine(line: string, title: string)
    requires AllSpace(line)
    ensures ParseTimingLine(line, title) == TimingRecord("", title, "")
  {
    StripAllSpace(line);
  }

  /** A whitespace-only line of the log is not removed by `filter(None, ...)`:
      the result holds a record with an empty code and an empty time. */
  lemma WhitespaceTimingLineKept(text: string, title: string, i: nat)
    requires i < |SplitLines(text)| && SplitLines(text)[i] != [] && AllSpace(SplitLines(text)[i])
    ensures TimingRecord("", title, "") in CollectingRacersData(text, title)
  {
    var piece := SplitLines(text)[i];
    assert piece in SplitLines(text);
    assert piece in Lines(text);
    RacersDataFromLines(text, title);
    WhitespaceTimingLine(piece, title);
  }

  /** Parsing is the inverse of writing the code and the time next to
      each other. */
  lemma TimingLineRoundTrip(rec: TimingRecord)
    requires rec.Writable()
    ensures ParseTimingLine(rec.Line(), rec.title) == rec
  {
    var line := rec.Line();
    StripNoEdges(line);
    assert line[..CodeWidth] == rec.code && line[CodeWidth..] == rec.time;
  }

  /** Writing records under one title to a log, one per line, and reading
      the log back gives the same records, stably sorted by key. */
  lemma TimingFileRoundTrip(recs: seq<TimingRecord>, title: string)
    requires forall i :: 0 <= i < |recs| ==> recs[i].Writable() && recs[i].title == title
    ensures var text := Unlines(seq(|recs|, i requires 0 <= i < |recs| => recs[i].Line()));
      IsStableSortOf(CollectingRacersData(text, title), recs, TimingKey)
  {
    var lines := seq(|recs|, i requires 0 <= i < |recs| => recs[i].Line());
    LinesOfUnlines(lines);
    forall i | 0 <= i < |recs|
      ensures ParseTimingLine(lines[i], title) == recs[i]
    {
      TimingLineRoundTrip(recs[i]);
    }
    assert ParseTimingLines(lines, title) == recs;
  }

  // ---------------------------------------------------------------- roster

  /** One roster line: `CODE_Full Name_Team`. */
  datatype RosterRecord = RosterRecord(code: string, fullName: string, team: string) {

    function AsDict(): (d: map<string, string>)
      ensures d.Keys == {AbbreviationKey, FullNameKey, TeamKey}
      ensures d[AbbreviationKey] == code && d[FullNameKey] == fullName && d[TeamKey] == team
    {
      map[AbbreviationKey := code, FullNameKey := fullName, TeamKey := team]
    }

    /** The roster line this record reads back from. */
    function Line(): string {
      code + "_" + fullName + "_" + team
    }

    /** A record a roster line can hold: no '_' or line boundary inside a
        field, and nothing at either end for `strip()` to remove. */
    predicate Writable() {
      var line := Line();
      && NoneIn(code, Underscore) && NoneIn(fullName, Underscore) && NoneIn(team, Underscore)
      && NoneIn(line, LineBreaks)
      && !IsSpace(line[0]) && !IsSpace(line[|line| - 1])
    }
  }

  /** The sort key `a['racer_abbreviation']`. */
  function RosterKey(rec: RosterRecord): (k: string)
    ensures k == rec.code
  {
    rec.AsDict()[AbbreviationKey]
  }

  lemma RosterDictShape(rec: RosterRecord)
    ensures rec.AsDict().Keys == {AbbreviationKey, FullNameKey, TeamKey}
    ensures rec.AsDict()[FullNameKey] == rec.fullName && rec.AsDict()[TeamKey] == rec.team
    ensures RosterKey(rec) == rec.code
  {
  }

  /** Indexing past the end of the split list: Python's IndexError. */
  datatype RosterError = IndexError

  /** Number of '_' separators in `s`. */
  function UnderscoreCount(s: string): nat {
    |SepChars(s, Underscore)|
  }

  /** `s` starts with the record's three fields joined by '_', ends right
      there exactly when `s` has two separators, and otherwise continues
      with the '_' that begins the dropped fields. */
  ghost predicate ReadFrom(s: string, rec: RosterRecord) {
    var head := rec.Line();
    && NoneIn(rec.code, Underscore) && NoneIn(rec.fullName, Underscore) && NoneIn(rec.team, Underscore)
    && head <= s
    && (|head| == |s| <==> UnderscoreCount(s) == 2)
    && (|head| < |s| ==> s[|head|] == '_')
  }

  /** Three or more pieces glued with '_': the first three, glued the same
      way, are a prefix, followed by '_' unless there were only three. */
  lemma JoinedHead(p: seq<string>, seps: string)
    requires |p| == |seps| + 1 && |p| >= 3
    requires forall i :: 0 <= i < |seps| ==> seps[i] == '_'
    ensures var head := RosterRecord(p[0], p[1], p[2]).Line(); var s := Join(p, seps);
      && head <= s
      && (|head| == |s| <==> |p| == 3)
      && (|head| < |s| ==> s[|head|] == '_')
  {
    JoinTwo(p, seps);
    var head := RosterRecord(p[0], p[1], p[2]).Line();
    var pre := p[0] + [seps[0]] + p[1] + [seps[1]];
    var tail := Join(p[2..], seps[2..]);
    assert head == pre + p[2];
    if |p| > 3 {
      assert p[2..][1..] == p[3..] && seps[2..][1..] == seps[3..];
      var more := [seps[2]] + Join(p[3..], seps[3..]);
      assert tail == p[2] + more;
      assert Join(p, seps) == head + more;
    }
  }

  /** The first three fields of a split with at least two separators. */
  lemma FirstThreeFields(s: string)
    requires UnderscoreCount(s) >= 2
    ensures var p := Split(s, Underscore);
      |p| == UnderscoreCount(s) + 1 && ReadFrom(s, RosterRecord(p[0], p[1], p[2]))
  {
    var p := Split(s, Underscore);
    var seps := SepChars(s, Underscore);
    SplitJoin(s, Underscore);
    SplitPiecesClean(s, Underscore);
    JoinedHead(p, seps);
  }

  /** One pass of the loop body: strip, split on '_', take fields 0, 1, 2. */
  function ParseRosterLine(line: string): (r: Result<RosterRecord, RosterError>)
    ensures r.Failure? <==> UnderscoreCount(Strip(line)) < 2
    ensures r.Success? ==> ReadFrom(Strip(line), r.value)
  {
    var fields := Split(Strip(line), Underscore);
    SplitCount(Strip(line), Underscore);
    // fewer than two separators: `separated_data[1]` or `[2]` is out of range
    if |fields| < 3 then Failure(IndexError)
    else
      FirstThreeFields(Strip(line));
      Success(RosterRecord(fields[0], fields[1], fields[2]))
  }

  /** A stripped line with exactly two underscores is given back exactly
      by gluing the three fields with '_' again. */
  lemma RosterLineExact(line: string)
    requires UnderscoreCount(Strip(line)) == 2
    ensures ParseRosterLine(line).Success?
    ensures ParseRosterLine(line).value.Line() == Strip(line)
  {
    var s := Strip(line);
    var head := ParseRosterLine(line).value.Line();
    assert head <= s && |head| == |s|;
    assert head == s[..|head|];
  }

  /** Writing a record as a roster line and reading it back gives the
      record, provided no field holds '_' and the line has no blanks
      around it for `strip()` to remove. */
  lemma RosterLineRoundTrip(rec: RosterRecord)
    requires rec.Writable()
    ensures ParseRosterLine(rec.Line()) == Success(rec)
  {
    var line := rec.Line();
    StripNoEdges(line);
    var pieces := [rec.code, rec.fullName, rec.team];
    JoinTwo(pieces, "__");
    assert pieces[2..] == [rec.team];
    assert Join(pieces, "__") == line;
    SplitOfJoin(pieces, "__", Underscore);
  }

  /** `collecting_abbreviations(file_path)` on the file's text: the loop
      parses line by line and raises at the first bad line; otherwise the
      records are sorted stably by code. */
  function CollectingAbbreviations(text: string): (r: Result<seq<RosterRecord>, RosterError>)
    ensures r.Failure? <==>
      exists i :: 0 <= i < |Lines(text)| && UnderscoreCount(Strip(Lines(text)[i])) < 2
    ensures r.Success? ==>
      && MapResult(Lines(text), ParseRosterLine).Success?
      && |r.value| == |Lines(text)|
      && multiset(r.value) == multiset(MapResult(Lines(text), ParseRosterLine).value)
      && IsStableSortOf(r.value, MapResult(Lines(text), ParseRosterLine).value, RosterKey)
  {
    match MapResult(Lines(text), ParseRosterLine)
    case Failure(e) => Failure(e)
    case Success(records) => Success(SortByKey(records, RosterKey))
  }

  /** On success every record is what one roster line parses to, every
      line's record is in the list, and the list is ordered by code. */
  lemma AbbreviationsFromLines(text: string)
    requires CollectingAbbreviations(text).Success?
    ensures var r := CollectingAbbreviations(text).value;
      && (forall rec :: rec in r ==>
            exists j :: 0 <= j < |Lines(text)| && ParseRosterLine(Lines(text)[j]) == Success(rec))
      && (forall j :: 0 <= j < |Lines(text)| ==>
            ParseRosterLine(Lines(text)[j]).Success? && ParseRosterLine(Lines(text)[j]).value in r)
      && (forall i, j :: 0 <= i < j < |r| ==> !Less(r[j].code, r[i].code))
  {
    var r := CollectingAbbreviations(text).value;
    MapResultElements(Lines(text), ParseRosterLine, r);
    forall i, j | 0 <= i < j < |r|
      ensures !Less(r[j].code, r[i].code)
    {
      RosterDictShape(r[i]);
      RosterDictShape(r[j]);
    }
  }

  /** A line of blanks survives `filter(None, ...)`, strips to "", splits
      into one field, and so makes the whole roster raise IndexError. */
  lemma WhitespaceRosterLine(text: string)
    requires exists i :: 0 <= i < |Lines(text)| && AllSpace(Lines(text)[i])
    ensures CollectingAbbreviations(text).Failure?
    ensures CollectingAbbreviations(text).error == IndexError
  {
    var lines := Lines(text);
    var i :| 0 <= i < |lines| && AllSpace(lines[i]);
    StripAllSpace(lines[i]);
    assert UnderscoreCount(Strip(lines[i])) == 0;
  }

  /** Writing a roster one record per line and reading it back succeeds
      and gives the same records, stably sorted by code. */
  lemma RosterFileRoundTrip(recs: seq<RosterRecord>)
    requires forall i :: 0 <= i < |recs| ==> recs[i].Writable()
    ensures var text := Unlines(seq(|recs|, i requires 0 <= i < |recs| => recs[i].Line()));
      && CollectingAbbreviations(text).Success?
      && IsStableSortOf(CollectingAbbreviations(text).value, recs, RosterKey)
  {
    var lines := seq(|recs|, i requires 0 <= i < |recs| => recs[i].Line());
    LinesOfUnlines(lines);
    forall i | 0 <= i < |recs|
      ensures ParseRosterLine(lines[i]) == Success(recs[i])
    {
      RosterLineRoundTrip(recs[i]);
    }
    var m := MapResult(lines, ParseRosterLine);
    assert m.Success?;
    assert m.value == recs;
  }
}
