# parseDiffOutput, modelled in Dafny

`parseDiffOutput` (index.js:25-53) reads the text `diff -u` prints and returns
the added and removed lines, each with a line number. It splits the text on
`'\n'` and skips the first two lines, which are the `---`/`+++` file headers.
It trims every remaining line and sorts it into one of five classes:

- a hunk header `@@ -a,b +c,d @@`;
- an added line `+…`;
- a removed line `-…`;
- an ignored line: `+++…`, `---…` or the `\ No newline at end of file` marker;
- a context line.

Three counters carry the state from one line to the next:

- `currLineNo` is the shared cursor;
- `addCurrLineNo` and `delCurrLineNo` are the offsets inside the current hunk.

The project is made of five modules:

- `Text` (text.dfy): `String.prototype.trim` over ECMAScript's white-space and
  line-terminator set, `startsWith`, and `split` with a one-character
  separator. Each comes with its characterising lemmas: what trim removes and
  that it is unique, and that split and join are inverses.
- `HunkHeader` (hunk_header.dfy): the header pattern
  `@@\s*-(\d+)(?:,(\d+))?\s*\+(\d+)(?:,(\d+))?\s*@@`, in two forms.
  - `IsMatchAt` says declaratively where each part of a match lies.
  - `ScanAt` is a deterministic scanner.
  - The two are proved to agree, so a match at a given position is unique.
  - `MatchHeader` is `reg.test` followed by `Number(line.match(reg)[1])`: the
    leftmost match and its capture group 1.
- `DiffParser` (diff_parser.dfy) holds the specification and the loop.
  - `Classify` gives the class of a trimmed line, in the code's test order.
  - `Effect` is what one line does to the counters and records; `Run` and
    `Parse` describe the whole pass.
  - The method `ParseDiffOutput` is the original loop and `ReadLine` its body.
    The method is proved to return `Parse(diffOutput)`.
- `DiffParserProperties` (diff_parser_properties.dfy): what the records mean.
  This covers where each record comes from, the line number each one gets,
  which lines leave no trace, that numbers increase within a hunk, and what
  happens to short inputs and to the two file-header lines.
- `DiffParserExamples` (diff_parser_examples.dfy) has two parts. The first is
  the class of each kind of line `diff -u` writes, stated for every text of
  that shape. The second is the records of a one-edit hunk and of a
  header-then-added hunk.

Two facts about the header test decide many results:

- The pattern at index.js:28 has no `^` anchor, so a trimmed line that
  contains a header anywhere is a header, whatever its first character.
- index.js:35 reads capture group 1, the old-file start, not the new-file
  start (group 3), so after `@@ -10,2 +12,2 @@` an added line is numbered 10.

Trimming comes before classification (index.js:33), with these consequences:

- A context line ` +x` is reported as an added line.
- An added line whose text starts with `++`, or a removed line whose text
  starts with `--`, is taken for a file header. It produces no record and
  moves no counter.

## Model

| member | source | states |
|---|---|---|
| Text.TrimSpec | index.js:33 | `trim` removes only white space, and only from the two ends, and leaves none at either end |
| Text.TrimUnique | index.js:33 | any way of stripping white space from both ends that leaves none gives exactly `Trim`'s result |
| Text.TrimKeepsTrimmed | index.js:33 | a line with no white space at either end is left unchanged by `trim` |
| Text.TrimIdempotent | index.js:33 | trimming twice is trimming once |
| Text.JoinSplit | index.js:26 | no piece of `split('\n')` contains `'\n'`, and joining the pieces with `'\n'` gives back the input |
| Text.SplitJoin | index.js:26 | splitting newline-free lines joined with `'\n'` gives back exactly those lines |
| Text.SplitCount | index.js:26 | `split` returns one more line than there are newlines, so there is always at least one line |
| Text.SplitFirstLine | index.js:26 | a text whose first line is `first` splits into `first` followed by the lines of the rest |
| HunkHeader.DecimalRoundTrip | index.js:35 | `Number` applied to the decimal numeral of `n` gives `n` back |
| HunkHeader.SkipWhitespaceSpec | index.js:28 | the `\s*` scan stops exactly at the end of the run of white space |
| HunkHeader.SkipDigitsSpec | index.js:28 | the `\d+` scan stops exactly at the end of the run of digits |
| HunkHeader.ScanAtSound | index.js:28 | whatever the scanner returns at a position is a match of the pattern there |
| HunkHeader.ScanAtComplete | index.js:28 | every match of the pattern at a position is the one the scanner returns, so the match and capture group 1 are unique there |
| HunkHeader.LeftmostFromSpec | index.js:34-35 | the search returns the first position where the pattern matches, and returns none when it matches nowhere |
| HunkHeader.MatchHeaderSpec | index.js:34-35 | the header test fails exactly when the pattern matches nowhere in the line; when it succeeds it yields capture group 1 of the leftmost match |
| HunkHeader.NoHeaderWithoutAt | index.js:28 | a line without `@` never passes the header test |
| HunkHeader.HeaderRoundTrip | index.js:28-35 | a header `@@ -a[,b] +c[,d] @@`, whatever follows it, passes the test with value `a` |
| DiffParser.ClassifyMeaning | index.js:34-50 | all five classes as if-and-only-ifs on the trimmed line. A header exactly when the pattern matches anywhere, numbered by group 1 of the leftmost match. Otherwise added or removed for a leading `+` or `-` not followed by two more, the text being the rest of the line. Ignored for `+++`, `---` and the marker. Context for everything else, including the empty line |
| DiffParser.ReadLine | index.js:33-50 | one pass of the loop body leaves the counters and records as `Effect` prescribes for the class of the trimmed line |
| DiffParser.ParseDiffOutput | index.js:25-53 | the loop returns `Parse(diffOutput)`: the records of reading every line after the first two, in order, from `currLineNo = 1` and both offsets 0 |
| DiffParserProperties.RunAppend | index.js:32-51 | reading `a` and then `b` is reading `a + b` |
| DiffParserProperties.RecordsAppendOnly | index.js:40-47 | records are only appended: earlier records stay, and there is one more per added or removed line |
| DiffParserProperties.HunkCounters | index.js:40-50 | with no header in between, the cursor advances by the number of context lines and each offset by the number of lines of its kind |
| DiffParserProperties.AfterHeader | index.js:34-50 | after `@@ -n…` and header-free lines `mid`, the cursor is `n` plus the context lines of `mid` and the offsets count `mid`'s added and removed lines; nothing from before the header survives |
| DiffParserProperties.AddedLineNumber | index.js:35-43 | an added line in a hunk numbered `n` gets `n` plus the context lines and added lines read since the header, and the record carries its text |
| DiffParserProperties.RemovedLineNumber | index.js:35-47 | a removed line in a hunk numbered `n` gets `n` plus the context lines and removed lines read since the header |
| DiffParserProperties.NumberBeforeAnyHeader | index.js:29-47 | before any header, numbering starts at 1 plus the context lines and the lines of the same kind read so far |
| DiffParserProperties.IgnoredLineTransparent | index.js:40-50 | an ignored line leaves the counters and records exactly as if it were absent |
| DiffParserProperties.HeaderForgetsCounters | index.js:34-38 | a header resets the state, so what follows it depends on the earlier lines only through the records already emitted |
| DiffParserProperties.OriginsSpec | index.js:40-47 | `Origins` lists every added and removed line, only those, each once, in increasing order |
| DiffParserProperties.RecordsFromOrigins | index.js:40-47 | the `r`-th new record is produced by the line at `Origins[r]`: same kind, and that line's text |
| DiffParserProperties.NumbersIncreaseWithinHunk | index.js:40-49 | within a hunk, successive added records have strictly increasing numbers, and so do successive removed records, each on their own |
| DiffParserProperties.ShortInputIsEmpty | index.js:26-32 | an input with fewer than two newlines, `""` included, gives no records |
| DiffParserProperties.FirstTwoLinesIgnored | index.js:32 | replacing the first two lines never changes the result |
| DiffParserProperties.ParseJoin | index.js:26 | parsing newline-free lines joined with `'\n'` is parsing those lines |
| DiffParserProperties.FileHeadersIgnored | index.js:26-32 | whatever the two file-header lines say, the records are those of the body |
| DiffParserProperties.ParseLinesByKinds | index.js:32-51 | once each line after the first two is known to fall in a class, the result is the run of those classes from the start state |
| DiffParserProperties.ParseProvenance | index.js:32-47 | record `r` comes from input line `2 + Origins[r]`: records follow input order, every added or removed line after the first two gives exactly one record, and no other line gives one |
| DiffParserExamples.HeaderLineKind | index.js:33-35 | a header line `@@ -a[,b] +c[,d] @@` is read as a header numbered `a`, the old-file start |
| DiffParserExamples.AddedLineKind | index.js:33-43 | `+text`, after any leading white space, is an added line carrying `text` when `text` has no `@`, does not start with `++` and does not end in white space |
| DiffParserExamples.RemovedLineKind | index.js:33-47 | the same for `-text` as a removed line |
| DiffParserExamples.ContextLineKind | index.js:48-49 | ` text` is a context line when `text` has no `@`, is not the marker, and neither starts with `+`/`-` nor starts or ends with white space |
| DiffParserExamples.BlankLineKind | index.js:33-49 | an empty or blank line is a context line |
| DiffParserExamples.TripleSignLineKind | index.js:40-48 | `+++text` and `---text` are ignored lines, when `text` has no `@` and does not end in white space |
| DiffParserExamples.OneEditRun | index.js:35-49 | header `@@ -n…`, one context line, one removed and two added lines give removed at `n+1`, added at `n+1` and added at `n+2`; for `n = 1` this is removed "old line" 2, added "new line" 2, added "another new line" 3 |
| DiffParserExamples.HeaderThenAddedRun | index.js:35-43 | an added line right after `@@ -n…` is numbered `n`, the old-file start, whatever the new-file start is |

## Left out

- `compareFiles` (index.js:8-19) is left out: it runs `diff -u` through `child_process.exec`, which is process I/O behind a Promise.
- `main` (index.js:56-64) is left out: it awaits `compareFiles` and logs errors to the console, which is I/O.
- HunkHeader.DecimalValue reads the digits as an unbounded integer. JavaScript's `Number` rounds numerals above 2^53 to a double; a real `diff` never writes line numbers that large.
- The counters and `lineNo` are unbounded integers, not doubles, for the same reason.
- JavaScript strings are UTF-16 code units; the model's strings are Unicode characters. Every character the parser tests is a single code unit, so the classes and texts agree. Lone surrogates cannot be written in the model.
- `Text.IsWhitespace` is ECMAScript's WhiteSpace and LineTerminator set at the current Unicode version: the set `trim` and `\s` use.
- General regular-expression semantics are not modelled. The one pattern the parser uses is modelled by a scanner and a declarative match relation, proved to agree.
- The `result` array is a sequence, and `push` is appending to it; the array is local, so nothing else can see it change.
- DiffParserExamples.OneEditRun states the worked example on classified lines, not on the text of the five lines. The class of each such line is given by `HeaderLineKind`, `ContextLineKind`, `RemovedLineKind` and `AddedLineKind`, and `ParseLinesByKinds` combines them. No single lemma states the records of that literal text.
