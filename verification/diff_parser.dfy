/**
  `parseDiffOutput`: turns the text `diff -u` prints into the list of added and
  removed lines with their line numbers.

  `Classify` says which branch a trimmed line takes, `Effect` what that branch
  does to the counters and the records, and `Run` and `Parse` what the whole
  pass computes. The method `ParseDiffOutput` is the loop of the original, with
  `ReadLine` as its body, proved to compute `Parse`.
 */
module DiffParser {
  import opened Text
  import opened HunkHeader

  datatype ChangeType = Added | Removed

  /** One record of the result: `{type, line, lineNo}`. */
  datatype Change = Change(kind: ChangeType, line: string, lineNo: int)

  /** The marker `diff` prints after a last line that has no newline. */
  const NoNewlineMarker: string := "\\ No newline at end of file"

  /** How the parser treats one trimmed line. */
  datatype LineKind =
    | HunkHeaderLine(start: nat)
    | AddedLine(text: string)
    | RemovedLine(text: string)
    | IgnoredLine
    | ContextLine

  /** The branch the parser takes on the trimmed line `t`, tested in the
      original's order: the header pattern first, then `+`, then `-`. */
  function Classify(t: string): LineKind
  {
    match MatchHeader(t)
    case Some(start) => HunkHeaderLine(start)
    case None =>
      if StartsWith(t, "+") && !StartsWith(t, "+++") then AddedLine(t[1..])
      else if StartsWith(t, "-") && !StartsWith(t, "---") then RemovedLine(t[1..])
      else if !StartsWith(t, "+++") && !StartsWith(t, "---") && t != NoNewlineMarker then ContextLine
      else IgnoredLine
  }

  /** The five cases, stated on the line itself: a header exactly when the
      pattern matches anywhere (whatever the first character), numbered by
      capture group 1 of the leftmost match; otherwise added or removed when
      the line starts with one `+` or `-` not followed by two more, the text
      being the rest of the line; ignored for `+++`, `---` and the marker;
      context for everything else, the empty line included. */
  lemma ClassifyMeaning(t: string)
    ensures Classify(t).HunkHeaderLine? <==> HeaderMatches(t)
    ensures Classify(t).HunkHeaderLine? ==> exists at: nat, m ::
      IsLeftmostMatch(t, at, m) && Classify(t).start == OldStart(t, m)
    ensures Classify(t).AddedLine? <==>
      !HeaderMatches(t) && |t| >= 1 && t[0] == '+' && !StartsWith(t[1..], "++")
    ensures Classify(t).AddedLine? ==> t == ['+'] + Classify(t).text
    ensures Classify(t).RemovedLine? <==>
      !HeaderMatches(t) && |t| >= 1 && t[0] == '-' && !StartsWith(t[1..], "--")
    ensures Classify(t).RemovedLine? ==> t == ['-'] + Classify(t).text
    ensures Classify(t).IgnoredLine? <==>
      !HeaderMatches(t) && (StartsWith(t, "+++") || StartsWith(t, "---") || t == NoNewlineMarker)
    ensures Classify(t).ContextLine? <==>
      !HeaderMatches(t) && (t == [] || (t[0] != '+' && t[0] != '-')) && t != NoNewlineMarker
  {
    MatchHeaderSpec(t);
    if |t| >= 1 {
      StartsWithCons(t, '+', "++");
      StartsWithCons(t, '-', "--");
      StartsWithCons(t, '+', "");
      StartsWithCons(t, '-', "");
      assert t == [t[0]] + t[1..];
    }
  }

  lemma ClassifyHeader(t: string)
    requires MatchHeader(t).Some?
    ensures Classify(t) == HunkHeaderLine(MatchHeader(t).value)
  {
  }

  lemma ClassifyAdded(t: string)
    requires MatchHeader(t).None? && StartsWith(t, "+") && !StartsWith(t, "+++")
    ensures Classify(t) == AddedLine(t[1..])
  {
  }

  lemma ClassifyRemoved(t: string)
    requires MatchHeader(t).None? && !(StartsWith(t, "+") && !StartsWith(t, "+++"))
    requires StartsWith(t, "-") && !StartsWith(t, "---")
    ensures Classify(t) == RemovedLine(t[1..])
  {
  }

  lemma ClassifyContext(t: string)
    requires MatchHeader(t).None? && !(StartsWith(t, "+") && !StartsWith(t, "+++"))
    requires !(StartsWith(t, "-") && !StartsWith(t, "---"))
    requires !StartsWith(t, "+++") && !StartsWith(t, "---") && t != NoNewlineMarker
    ensures Classify(t) == ContextLine
  {
  }

  lemma ClassifyIgnored(t: string)
    requires MatchHeader(t).None?
    requires StartsWith(t, "+++") || StartsWith(t, "---") || t == NoNewlineMarker
    ensures Classify(t) == IgnoredLine
  {
    // A line that starts with `---` or is the marker does not start with `+`.
    StartsWithCons(t, '+', "");
    StartsWithCons(t, '-', "--");
  }

  /** The parser's variables between two lines: `currLineNo`, the shared cursor;
      `addCurrLineNo` and `delCurrLineNo`, the offsets within the current hunk;
      and the records emitted so far. */
  datatype Parser = Parser(currLineNo: int, addCurrLineNo: int, delCurrLineNo: int, result: seq<Change>)

  const Start := Parser(1, 0, 0, [])

  /** The effect of one classified line. */
  function Effect(p: Parser, k: LineKind): Parser {
    match k
    case HunkHeaderLine(start) => Parser(start, 0, 0, p.result)
    case AddedLine(text) =>
      p.(addCurrLineNo := p.addCurrLineNo + 1,
         result := p.result + [Change(Added, text, p.currLineNo + p.addCurrLineNo)])
    case RemovedLine(text) =>
      p.(delCurrLineNo := p.delCurrLineNo + 1,
         result := p.result + [Change(Removed, text, p.currLineNo + p.delCurrLineNo)])
    case IgnoredLine => p
    case ContextLine => p.(currLineNo := p.currLineNo + 1)
  }

  /** The effect of a sequence of classified lines, read in order. */
  function Run(p: Parser, ks: seq<LineKind>): Parser {
    if ks == [] then p else Effect(Run(p, ks[..|ks| - 1]), ks[|ks| - 1])
  }

  /** Each line trimmed and classified. */
  function Kinds(lines: seq<string>): (ks: seq<LineKind>)
    ensures |ks| == |lines|
  {
    seq(|lines|, k requires 0 <= k < |lines| => Classify(Trim(lines[k])))
  }

  /** The records for a list of lines: the first two lines (the file headers)
      are skipped, the rest read in order from the start state. */
  function ParseLines(lines: seq<string>): seq<Change> {
    if |lines| <= 2 then [] else Run(Start, Kinds(lines[2..])).result
  }

  /** What `parseDiffOutput` returns for `diffOutput`. */
  function Parse(diffOutput: string): seq<Change> {
    ParseLines(Split(diffOutput, '\n'))
  }

  /** Reading one more line is one more step. */
  lemma RunNext(lines: seq<string>, i: nat)
    requires 2 <= i < |lines|
    ensures Run(Start, Kinds(lines[2..i + 1])) == Effect(Run(Start, Kinds(lines[2..i])), Classify(Trim(lines[i])))
  {
    var ks := Kinds(lines[2..i + 1]);
    assert ks[..i - 2] == Kinds(lines[2..i]);
  }

  /** One pass of the loop body on the raw line `raw`: trim it, then take the
      first branch whose test succeeds. */
  method ReadLine(raw: string, currLineNo: int, addCurrLineNo: int, delCurrLineNo: int, result: seq<Change>)
    returns (curr: int, add: int, del: int, records: seq<Change>)
    ensures Parser(curr, add, del, records) ==
      Effect(Parser(currLineNo, addCurrLineNo, delCurrLineNo, result), Classify(Trim(raw)))
  {
    curr, add, del, records := currLineNo, addCurrLineNo, delCurrLineNo, result;
    var line := Trim(raw);
    var header := MatchHeader(line);
    if header.Some? {
      curr := header.value;
      add := 0;
      del := 0;
      ClassifyHeader(line);
    } else if StartsWith(line, "+") && !StartsWith(line, "+++") {
      records := records + [Change(Added, line[1..], curr + add)];
      add := add + 1;
      ClassifyAdded(line);
    } else if StartsWith(line, "-") && !StartsWith(line, "---") {
      records := records + [Change(Removed, line[1..], curr + del)];
      del := del + 1;
      ClassifyRemoved(line);
    } else if !StartsWith(line, "+++") && !StartsWith(line, "---") && line != NoNewlineMarker {
      curr := curr + 1;
      ClassifyContext(line);
    } else {
      ClassifyIgnored(line);
    }
  }

  /** `parseDiffOutput`: split into lines and read every line after the first
      two, keeping the three counters and the records between lines. */
  method ParseDiffOutput(diffOutput: string) returns (result: seq<Change>)
    ensures result == Parse(diffOutput)
  {
    var lines := Split(diffOutput, '\n');
    result := [];
    var currLineNo, addCurrLineNo, delCurrLineNo := 1, 0, 0;
    var i := 2;
    while i < |lines|
      invariant 2 <= i && (i <= |lines| || i == 2)
      invariant i <= |lines| ==>
        Parser(currLineNo, addCurrLineNo, delCurrLineNo, result) == Run(Start, Kinds(lines[2..i]))
      invariant |lines| <= 2 ==> result == []
    {
      RunNext(lines, i);
      currLineNo, addCurrLineNo, delCurrLineNo, result :=
        ReadLine(lines[i], currLineNo, addCurrLineNo, delCurrLineNo, result);
      i := i + 1;
    }
    assert |lines| > 2 ==> lines[2..i] == lines[2..];
  }
}
