# Monaco 2018 report: record parsers

A Dafny model of the two parsing functions of `application/report.py` in
the Monaco 2018 racing report:

- `collecting_racers_data(file_path, title_for_time)` reads a timing log
  (`start.log` or `end.log`). Each line is a 3-character racer code
  followed by a timestamp. The function returns one dictionary per
  non-empty line, `{'racer_abbreviation': code, title_for_time: rest}`,
  with the timestamp kept as raw text. The list is sorted by code, except
  when `title_for_time` is `'racer_abbreviation'`: then the time
  overwrites the code and the list is sorted by the time text.
- `collecting_abbreviations(file_path)` reads the roster
  (`abbreviations.txt`). Each line is `CODE_Full Name_Team`. The function
  returns one dictionary per non-empty line, `{'racer_abbreviation', 'full_name',
  'team'}`, sorted by code. A line with fewer than two underscores makes
  the whole call raise `IndexError`.

Each function takes the file's text as a string instead of a path.

The model has four modules:

- `Results`: a `Result` type, and `MapResult` for a loop whose body may raise.
- `Text`: the Python string primitives with Python's semantics.
  - `str.strip()` uses the `str.isspace()` character set.
  - `str.split('_')`.
  - `str.splitlines()` breaks at all ten line-boundary characters, treats
    "\r\n" as one boundary, and produces no piece after a final boundary.
  - `filter(None, ...)`.
- `StableSort`: Python's `str` ordering, and an insertion sort proved to be
  the unique stable sort. So it gives the same list as `list.sort(key=...)`.
- `Report`: the two records, the two per-line parsers and the two functions.

Three behaviours of the code are easy to miss, and the model keeps them:

- The roster result is a list sorted by code, not a mapping. Duplicate
  codes are all kept, in file order (application/report.py:31).
- A roster line may have more than three `_`-separated fields. The extra
  fields are dropped, and fewer than three raise `IndexError`
  (application/report.py:27-30).
- `filter(None, ...)` removes only empty strings, so a whitespace-only line
  is kept (application/report.py:13, 25). In a timing log it gives a
  record with an empty code and an empty time. In the roster it makes the
  whole call raise `IndexError`.

The program's own tests expect a different shape: a mapping keyed by code
with other field names (tests/test_report.py:56-58). They belong to a later
version of the module, and the model follows `application/report.py`.

## Model

| member | source | states |
|---|---|---|
| Results.MapResult | application/report.py:26-30 | The loop over the lines succeeds exactly when every line parses. On success it gives one result per line, in order. On failure it gives the error of the first failing line, and every earlier line parsed |
| Results.MapResultElements | application/report.py:26-31 | After any reordering of the results, each record is the result of some line, and every line's result is present |
| Text.LeadingSpaces | application/report.py:15 | Counts the whitespace run at the start of the string: everything before it is whitespace, and the character after it is not |
| Text.TrailingSpaces | application/report.py:15 | Counts the whitespace run at the end of the string, with the same two facts |
| Text.IsSpace | application/report.py:15 | The `str.isspace()` character set that `strip()` removes. It has no contract of its own: IsStripOf, Strip and StripUnique give its meaning |
| Text.Strip | application/report.py:15 | `strip()` returns a slice with only whitespace cut from both sides, and the slice neither starts nor ends with whitespace |
| Text.StripUnique | application/report.py:27 | That characterisation admits exactly one string, so `Strip` is the only possible `strip()` |
| Text.StripIdempotent | application/report.py:15 | A property of `Strip` alone, not used by the parsers: stripping twice equals stripping once |
| Text.StripNoEdges | application/report.py:15 | A string with no whitespace at either end strips to itself |
| Text.StripAllSpace | application/report.py:15 | A whitespace-only string strips to "" |
| Text.FirstIn | application/report.py:27 | Finds the first separator position: nothing before it is a separator, and the position holds one unless it is the end |
| Text.SepChars | application/report.py:27 | The separators a split consumes, all taken from the separator set |
| Text.SepCharsFrom | application/report.py:27 | Helper for SplitCount and SplitJoin: the separators start at the first separator |
| Text.SepCharsPresent | application/report.py:27 | A string with a separator has a first separator before its end |
| Text.Split | application/report.py:27 | `str.split(sep)`. It has no contract of its own: SplitCount, SplitPiecesClean, SplitJoin and SplitOfJoin give its meaning |
| Text.SplitUnfold | application/report.py:27 | `split(sep)` cuts at the first separator and splits the rest |
| Text.SplitCount | application/report.py:27 | `split(sep)` gives one more piece than there are separators |
| Text.SplitPiecesClean | application/report.py:27 | No piece of a split contains a separator |
| Text.SplitNoSep | application/report.py:27 | A string without separators splits into itself alone |
| Text.JoinCons | application/report.py:27-30 | Helper for SplitJoin and SplitOfJoin: joining one more piece and separator in front puts them before the rest joined |
| Text.JoinTwo | application/report.py:27-30 | Helper for JoinedHead and RosterLineRoundTrip: joined pieces are the first two pieces, each followed by its separator, then the rest joined |
| Text.SplitJoin | application/report.py:27 | Splitting loses nothing: rejoining the pieces with the consumed separators gives back the string |
| Text.SplitOfJoin | application/report.py:27 | Separator-free pieces joined by separators split back into exactly those pieces and separators |
| Text.FirstInAfterClean | application/report.py:27 | Helper for SplitOfJoin and SplitLinesOfUnlines: a separator-free prefix puts the first separator right after it |
| Text.NonEmpty | application/report.py:13 | `filter(None, xs)` keeps exactly the non-empty strings |
| Text.NonEmptyAppend | application/report.py:13 | Filtering a concatenation concatenates the filtered parts |
| Text.SplitLines | application/report.py:12 | `str.splitlines()`. It has no contract of its own: SplitLinesClean, LinesAsSplit and SplitLinesOfUnlines give its meaning |
| Text.SplitLinesClean | application/report.py:12 | No piece of `splitlines()` contains a line-boundary character |
| Text.Lines | application/report.py:12-13 | The lines both loops iterate over are non-empty and contain no line boundary |
| Text.LeadingSeparator | application/report.py:24-25 | A leading boundary adds only an empty piece, which the filter removes |
| Text.LinesAsSplit | application/report.py:12-13 | After filtering, `splitlines()` equals a plain split at every boundary character |
| Text.SplitLinesStep | application/report.py:12 | Helper for SplitLinesOfUnlines: a boundary-free line followed by "\n" is the first piece of `splitlines()` |
| Text.SplitLinesOfUnlines | application/report.py:12 | `splitlines()` of lines each ended by "\n" gives back those lines |
| Text.NonEmptyKeepsAll | application/report.py:13 | The filter leaves a list of non-empty strings unchanged |
| Text.LinesOfUnlines | application/report.py:24-25 | A file written one non-empty, boundary-free line at a time reads back as the same lines |
| StableSort.Less | application/report.py:17 | Python's `str` `<`, comparing by code point with a proper prefix first. LessIrreflexive, LessTransitive and LessTrichotomy show it is a strict total order |
| StableSort.LessIrreflexive | application/report.py:17 | No string is less than itself under `str` `<` |
| StableSort.LessTransitive | application/report.py:17 | `str` `<` is transitive |
| StableSort.LessTrichotomy | application/report.py:17 | Any two strings are equal or one is less than the other |
| StableSort.NotLessTransitive | application/report.py:31 | "Not greater" is transitive, so sorting is well defined |
| StableSort.InsertMultiset | application/report.py:17 | Inserting adds exactly one element and keeps the rest |
| StableSort.InsertSorted | application/report.py:17 | Inserting into a sorted list keeps it sorted |
| StableSort.InsertKeyClass | application/report.py:31 | Inserting in front of its equals keeps every equal-key group in order |
| StableSort.SortByKey | application/report.py:17 | `sort(key=...)` gives a permutation of the input, sorted by key, with each equal-key group in its original order |
| StableSort.KeyClassNonEmpty | application/report.py:31 | Helper for StableSortUnique: a key that has a group occurs in the list |
| StableSort.StableSortUnique | application/report.py:17 | Two stable sorts of the same list are equal, so the model's sort is the same list as Python's |
| StableSort.SameElements | application/report.py:17 | Helper for ParsedTimingElements: permutations contain the same elements |
| Report.TimingRecord.AsDict | application/report.py:15-16 | The dict literal has the keys `racer_abbreviation` and the title, and the title maps to the time. The code is kept under `racer_abbreviation` unless the title is that same key, in which case the later entry wins |
| Report.TimingKey | application/report.py:17 | The sort key is the code, or the time when the title is `racer_abbreviation` |
| Report.TimingDictShape | application/report.py:15-17 | A timing record has keys `racer_abbreviation` and the title, and sorts by code. When the title is itself `racer_abbreviation`, the time overwrites the code and becomes the sort key |
| Report.ParseTimingLine | application/report.py:15-16 | The record keeps the title. Code followed by time is exactly the stripped line, and the code is its first three characters, or all of it if shorter |
| Report.ParseTimingLines | application/report.py:14-16 | The list the loop builds: one record per line, in line order. It has no contract of its own: CollectingRacersData, RacersDataFromLines and ParsedTimingElements give its meaning |
| Report.CollectingRacersData | application/report.py:9-18 | One record per non-empty line, a permutation of the per-line records, stably sorted by `racer_abbreviation` |
| Report.RacersDataFromLines | application/report.py:12-17 | Every record comes from some line, and every line's record is in the result |
| Report.ParsedTimingElements | application/report.py:14-17 | Same as `RacersDataFromLines`, for any permutation of the parsed lines |
| Report.RacersDataSortedByCode | application/report.py:17 | With an ordinary title, the records are ordered by code |
| Report.WhitespaceTimingLine | application/report.py:15-16 | A whitespace-only string parses to a record with empty code and empty time |
| Report.WhitespaceTimingLineKept | application/report.py:12-16 | A non-empty, whitespace-only piece of `splitlines()` is not removed by the filter, and the result holds a record with empty code and empty time |
| Report.TimingLineRoundTrip | application/report.py:15-16 | A 3-character code written next to its time, with no blank at either end, parses back to the same record |
| Report.TimingFileRoundTrip | application/report.py:9-18 | Records written one per line read back as a stable sort of those records |
| Report.RosterRecord.AsDict | application/report.py:28-30 | The dict literal has exactly the keys `racer_abbreviation`, `full_name` and `team`, holding the code, the name and the team |
| Report.RosterKey | application/report.py:31 | The sort key is the code |
| Report.RosterDictShape | application/report.py:28-31 | A roster record has exactly the three keys and sorts by its code |
| Report.JoinedHead | application/report.py:27-30 | Three or more '_'-joined fields start with the first three joined. That prefix ends the string exactly when there were three fields, and otherwise '_' follows it |
| Report.FirstThreeFields | application/report.py:27-30 | With at least two underscores, the first three split fields are read back from the start of the line |
| Report.ParseRosterLine | application/report.py:27-30 | Raises `IndexError` exactly when the stripped line has fewer than two underscores. Otherwise the record's three '_'-free fields, '_'-joined, are a prefix of the stripped line, and only '_' and dropped fields follow |
| Report.RosterLineExact | application/report.py:27-30 | A stripped line with exactly two underscores is accepted, and gluing its three fields with '_' reproduces it exactly |
| Report.RosterLineRoundTrip | application/report.py:27-30 | A record whose fields have no '_' and whose line has no blank at either end parses back from its line |
| Report.CollectingAbbreviations | application/report.py:21-32 | Raises exactly when some line has fewer than two underscores. Otherwise it returns one record per line, a permutation of the per-line records, stably sorted by code |
| Report.AbbreviationsFromLines | application/report.py:24-31 | On success every record is some line's parse, every line's parse is present, and the list is ordered by code |
| Report.WhitespaceRosterLine | application/report.py:25-30 | A whitespace-only line makes the whole roster raise `IndexError` |
| Report.RosterFileRoundTrip | application/report.py:21-32 | Well-formed records written one per line read back successfully as a stable sort of those records |

## Left out

- Opening and reading the files (application/report.py:10, 22) is left out. Each function takes the file's text instead, so a missing file, which would raise `FileNotFoundError`, is not modelled.
- The timestamp after the code is kept as raw text, as the code keeps it. Parsing it and computing lap times live outside these two functions.
- `data_merge` (application/report.py:35-38) is not modelled. It only calls the two functions and discards their results.
- The module-level `print` calls (application/report.py:41-43) are not modelled. They are I/O on fixed relative paths.
- `tests/test_report.py` is not modelled. It targets a later version of the module: its `collecting_abbreviations` returns a mapping keyed by code with other field names, and the other functions it calls are not in `application/report.py`.
- Report.CollectingAbbreviations: the `IndexError` carries no message and no line number. The model records only that the error happened and which kind it is.
- Python dictionaries are modelled as records with an `AsDict` view. Dictionary iteration order is not modelled.
