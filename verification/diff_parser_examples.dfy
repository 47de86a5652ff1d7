/**
  What the parser makes of the lines `diff -u` writes, one line at a time, and
  the records of a worked example. Each fact is stated for every text of the
  given shape rather than for one literal line.
 */
module DiffParserExamples {
  import opened Text
  import opened HunkHeader
  import opened DiffParser
  import opened DiffParserProperties

  /** `lead` is made of white space only. */
  predicate Blank(lead: string) {
    forall k :: 0 <= k < |lead| ==> IsWhitespace(lead[k])
  }

  /** A header line, with or without counts, is read as a header numbered by its
      old-file start; the new-file start plays no part. */
  lemma HeaderLineKind(oldStart: nat, oldCount: Option<nat>, newStart: nat, newCount: Option<nat>)
    ensures Classify(Trim(HeaderText(oldStart, oldCount, newStart, newCount))) == HunkHeaderLine(oldStart)
  {
    var t := HeaderText(oldStart, oldCount, newStart, newCount);
    assert t[0] == '@' && t[|t| - 1] == '@';
    TrimKeepsTrimmed(t);
    HeaderRoundTrip(oldStart, oldCount, newStart, newCount, "");
    assert t + "" == t;
  }

  /** A line `+text`, after any white space, is an added line carrying `text`,
      when `text` holds no `@`, does not start with `++` and does not end in
      white space. With a leading blank this is a context line whose text
      starts with `+`, which the parser reports as added. */
  lemma AddedLineKind(lead: string, text: string)
    requires Blank(lead)
    requires '@' !in text && !StartsWith(text, "++")
    requires text == [] || !IsWhitespace(text[|text| - 1])
    ensures Classify(Trim(lead + "+" + text)) == AddedLine(text)
  {
    var t := "+" + text;
    assert lead + "+" + text == lead + t;
    assert Trimmed(t);
    assert StripsTo(lead + t, |lead|, t);
    TrimUnique(lead + t, |lead|, t);
    assert '@' !in t;
    NoHeaderWithoutAt(t);
    StartsWithCons(t, '+', "++");
    StartsWithCons(t, '+', "");
    assert t[1..] == text;
    ClassifyAdded(t);
  }

  /** Likewise a line `-text`, after any white space, is a removed line
      carrying `text`. */
  lemma RemovedLineKind(lead: string, text: string)
    requires Blank(lead)
    requires '@' !in text && !StartsWith(text, "--")
    requires text == [] || !IsWhitespace(text[|text| - 1])
    ensures Classify(Trim(lead + "-" + text)) == RemovedLine(text)
  {
    var t := "-" + text;
    assert lead + "-" + text == lead + t;
    assert Trimmed(t);
    assert StripsTo(lead + t, |lead|, t);
    TrimUnique(lead + t, |lead|, t);
    assert '@' !in t;
    NoHeaderWithoutAt(t);
    StartsWithCons(t, '-', "--");
    StartsWithCons(t, '-', "");
    StartsWithCons(t, '+', "");
    StartsWithCons(t, '+', "++");
    assert t[1..] == text;
    ClassifyRemoved(t);
  }

  /** A context line ` text` moves the cursor, when `text` holds no `@`, is not
      the marker, and starts and ends with a character other than white space,
      `+` and `-`. */
  lemma ContextLineKind(text: string)
    requires '@' !in text && text != NoNewlineMarker
    requires |text| >= 1 && Trimmed(text) && text[0] != '+' && text[0] != '-'
    ensures Classify(Trim(" " + text)) == ContextLine
  {
    TrimUnique(" " + text, 1, text);
    NoHeaderWithoutAt(text);
    StartsWithCons(text, '+', "++");
    StartsWithCons(text, '+', "");
    StartsWithCons(text, '-', "--");
    StartsWithCons(text, '-', "");
    ClassifyContext(text);
  }

  /** A line that is empty or blank is a context line too. */
  lemma BlankLineKind(lead: string)
    requires Blank(lead)
    ensures Classify(Trim(lead)) == ContextLine
  {
    assert StripsTo(lead, |lead|, []);
    TrimUnique(lead, |lead|, []);
    NoHeaderWithoutAt([]);
    ClassifyContext([]);
  }

  /** An added line whose text starts with `++` is taken for a file header and
      dropped: it yields no record and moves no counter. */
  lemma TripleSignLineKind(sign: char, text: string)
    requires sign == '+' || sign == '-'
    requires '@' !in text && (text == [] || !IsWhitespace(text[|text| - 1]))
    ensures Classify(Trim([sign, sign, sign] + text)) == IgnoredLine
  {
    var t := [sign, sign, sign] + text;
    assert Trimmed(t);
    TrimKeepsTrimmed(t);
    assert '@' !in t;
    NoHeaderWithoutAt(t);
    assert t[..3] == [sign, sign, sign];
    ClassifyIgnored(t);
  }

  /** The hunk of a one-line edit, once classified: the header `@@ -n,… @@`,
      one context line, one removed line and two added lines. The removed line
      and the first added line both get line `n + 1`, the line after the
      context line; the second added line gets `n + 2`. With `n = 1` and the
      lines ` unchanged`, `-old line`, `+new line`, `+another new line` this
      is removed "old line" at 2, added "new line" at 2, added "another new
      line" at 3. */
  lemma OneEditRun(n: nat, removed: string, new1: string, new2: string)
    ensures Run(Start, [HunkHeaderLine(n), ContextLine, RemovedLine(removed), AddedLine(new1), AddedLine(new2)]).result
      == [Change(Removed, removed, n + 1), Change(Added, new1, n + 1), Change(Added, new2, n + 2)]
  {
    var k1 := [HunkHeaderLine(n)];
    var k2 := k1 + [ContextLine];
    var k3 := k2 + [RemovedLine(removed)];
    var k4 := k3 + [AddedLine(new1)];
    RunAppend(Start, [], [HunkHeaderLine(n)]);
    RunAppend(Start, k1, [ContextLine]);
    RunAppend(Start, k2, [RemovedLine(removed)]);
    RunAppend(Start, k3, [AddedLine(new1)]);
    RunAppend(Start, k4, [AddedLine(new2)]);
    assert k4 + [AddedLine(new2)] == [HunkHeaderLine(n), ContextLine, RemovedLine(removed), AddedLine(new1), AddedLine(new2)];
  }

  /** A header followed directly by an added line numbers it with the header's
      old-file start, not its new-file start: after `@@ -10,2 +12,2 @@` the
      line `+x` is reported at line 10. */
  lemma HeaderThenAddedRun(n: nat, text: string)
    ensures Run(Start, [HunkHeaderLine(n), AddedLine(text)]).result == [Change(Added, text, n)]
  {
    RunAppend(Start, [], [HunkHeaderLine(n)]);
    RunAppend(Start, [HunkHeaderLine(n)], [AddedLine(text)]);
    assert [HunkHeaderLine(n)] + [AddedLine(text)] == [HunkHeaderLine(n), AddedLine(text)];
  }
}
