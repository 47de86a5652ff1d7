/**
  What the parser promises about the records it returns: where each record
  comes from, which line number it carries, which lines leave no trace, and
  what happens to short inputs and to the two file-header lines.
 */
module DiffParserProperties {
  import opened Text
  import opened DiffParser

  /* ---------- Classified lines ---------- */

  /** The three kinds of line that move a counter. */
  datatype Tag = ContextTag | AddedTag | RemovedTag

  predicate HasTag(k: LineKind, tag: Tag) {
    match tag
    case ContextTag => k.ContextLine?
    case AddedTag => k.AddedLine?
    case RemovedTag => k.RemovedLine?
  }

  /** Number of lines of kind `tag` in `ks`. */
  function Count(ks: seq<LineKind>, tag: Tag): nat {
    if ks == [] then 0
    else Count(ks[..|ks| - 1], tag) + (if HasTag(ks[|ks| - 1], tag) then 1 else 0)
  }

  /** No hunk header among `ks`: all of them belong to one hunk. */
  predicate HeaderFree(ks: seq<LineKind>) {
    forall i :: 0 <= i < |ks| ==> !ks[i].HunkHeaderLine?
  }

  /** The record a changed line gives rise to, whatever its number. */
  predicate Produces(k: LineKind, c: Change) {
    || (k.AddedLine? && c.kind == Added && c.line == k.text)
    || (k.RemovedLine? && c.kind == Removed && c.line == k.text)
  }

  /** Positions of the added and removed lines of `ks`, in order. */
  function Origins(ks: seq<LineKind>): seq<nat> {
    if ks == [] then []
    else
      var last := ks[|ks| - 1];
      Origins(ks[..|ks| - 1]) + (if last.AddedLine? || last.RemovedLine? then [|ks| - 1] else [])
  }

  /* ---------- Reading lines one after another ---------- */

  /** Reading `a` and then `b` is reading `a + b`. */
  lemma {:induction false} RunAppend(p: Parser, a: seq<LineKind>, b: seq<LineKind>)
    ensures Run(p, a + b) == Run(Run(p, a), b)
    decreases |b|
  {
    if b == [] {
      assert a + b == a;
    } else {
      var init := b[..|b| - 1];
      assert (a + b)[..|a + b| - 1] == a + init;
      assert (a + b)[|a + b| - 1] == b[|b| - 1];
      RunAppend(p, a, init);
    }
  }

  /** Records are only ever appended: the earlier ones stay as they were, and
      one more is added for each added or removed line. */
  lemma {:induction false} RecordsAppendOnly(p: Parser, ks: seq<LineKind>)
    ensures p.result <= Run(p, ks).result
    ensures |Run(p, ks).result| == |p.result| + Count(ks, AddedTag) + Count(ks, RemovedTag)
  {
    if ks != [] {
      RecordsAppendOnly(p, ks[..|ks| - 1]);
    }
  }

  /** Within one hunk the three counters are closed-form: the cursor has moved
      by the number of context lines, each offset by the number of lines of
      its kind. */
  lemma {:induction false} HunkCounters(p: Parser, ks: seq<LineKind>)
    requires HeaderFree(ks)
    ensures Run(p, ks).currLineNo == p.currLineNo + Count(ks, ContextTag)
    ensures Run(p, ks).addCurrLineNo == p.addCurrLineNo + Count(ks, AddedTag)
    ensures Run(p, ks).delCurrLineNo == p.delCurrLineNo + Count(ks, RemovedTag)
  {
    if ks != [] {
      assert !ks[|ks| - 1].HunkHeaderLine?;
      HunkCounters(p, ks[..|ks| - 1]);
    }
  }

  /** After a header `@@ -n…` and the lines `mid` of its hunk, the cursor is `n`
      plus the context lines of `mid` and the offsets count the added and
      removed lines of `mid`: nothing from before the header survives. */
  lemma AfterHeader(p: Parser, pre: seq<LineKind>, n: nat, mid: seq<LineKind>)
    requires HeaderFree(mid)
    ensures Run(p, pre + [HunkHeaderLine(n)] + mid).currLineNo == n + Count(mid, ContextTag)
    ensures Run(p, pre + [HunkHeaderLine(n)] + mid).addCurrLineNo == Count(mid, AddedTag)
    ensures Run(p, pre + [HunkHeaderLine(n)] + mid).delCurrLineNo == Count(mid, RemovedTag)
  {
    RunAppend(p, pre + [HunkHeaderLine(n)], mid);
    RunAppend(p, pre, [HunkHeaderLine(n)]);
    HunkCounters(Run(p, pre + [HunkHeaderLine(n)]), mid);
  }

  /** The number an added line gets: the old-file start `n` of its hunk, plus
      the context lines and the added lines read since the header. */
  lemma AddedLineNumber(p: Parser, pre: seq<LineKind>, n: nat, mid: seq<LineKind>, text: string)
    requires HeaderFree(mid)
    ensures Run(p, pre + [HunkHeaderLine(n)] + mid + [AddedLine(text)]).result ==
      Run(p, pre + [HunkHeaderLine(n)] + mid).result
        + [Change(Added, text, n + Count(mid, ContextTag) + Count(mid, AddedTag))]
  {
    AfterHeader(p, pre, n, mid);
    RunAppend(p, pre + [HunkHeaderLine(n)] + mid, [AddedLine(text)]);
  }

  /** The number a removed line gets: the old-file start `n` of its hunk, plus
      the context lines and the removed lines read since the header. */
  lemma RemovedLineNumber(p: Parser, pre: seq<LineKind>, n: nat, mid: seq<LineKind>, text: string)
    requires HeaderFree(mid)
    ensures Run(p, pre + [HunkHeaderLine(n)] + mid + [RemovedLine(text)]).result ==
      Run(p, pre + [HunkHeaderLine(n)] + mid).result
        + [Change(Removed, text, n + Count(mid, ContextTag) + Count(mid, RemovedTag))]
  {
    AfterHeader(p, pre, n, mid);
    RunAppend(p, pre + [HunkHeaderLine(n)] + mid, [RemovedLine(text)]);
  }

  /** Before any header, numbering starts from line 1. */
  lemma NumberBeforeAnyHeader(ks: seq<LineKind>, k: LineKind)
    requires HeaderFree(ks) && (k.AddedLine? || k.RemovedLine?)
    ensures Run(Start, ks + [k]).result ==
      Run(Start, ks).result + [Change(if k.AddedLine? then Added else Removed, k.text,
        1 + Count(ks, ContextTag) + Count(ks, if k.AddedLine? then AddedTag else RemovedTag))]
  {
    HunkCounters(Start, ks);
    RunAppend(Start, ks, [k]);
  }

  /** A `+++`/`---` line or the no-newline marker leaves no trace: the run is
      the same as without it. */
  lemma IgnoredLineTransparent(p: Parser, a: seq<LineKind>, b: seq<LineKind>)
    ensures Run(p, a + [IgnoredLine] + b) == Run(p, a + b)
  {
    RunAppend(p, a + [IgnoredLine], b);
    RunAppend(p, a, [IgnoredLine]);
    RunAppend(p, a, b);
  }

  /** A header starts afresh: what follows it depends on the earlier lines only
      through the records already emitted. */
  lemma HeaderForgetsCounters(p: Parser, q: Parser, n: nat, b: seq<LineKind>)
    requires p.result == q.result
    ensures Run(p, [HunkHeaderLine(n)] + b) == Run(q, [HunkHeaderLine(n)] + b)
  {
    RunAppend(p, [HunkHeaderLine(n)], b);
    RunAppend(q, [HunkHeaderLine(n)], b);
  }

  /* ---------- Where each record comes from ---------- */

  /** `Origins` lists exactly the added and removed lines, each once, in the
      order they were read. */
  lemma {:induction false} OriginsSpec(ks: seq<LineKind>)
    ensures forall r :: 0 <= r < |Origins(ks)| ==>
      Origins(ks)[r] < |ks| && (ks[Origins(ks)[r]].AddedLine? || ks[Origins(ks)[r]].RemovedLine?)
    ensures forall r, s :: 0 <= r < s < |Origins(ks)| ==> Origins(ks)[r] < Origins(ks)[s]
    ensures forall i :: 0 <= i < |ks| && (ks[i].AddedLine? || ks[i].RemovedLine?) ==> i in Origins(ks)
  {
    if ks != [] {
      var init := ks[..|ks| - 1];
      var last := ks[|ks| - 1];
      var o := Origins(init);
      OriginsSpec(init);
      assert forall i :: 0 <= i < |init| ==> init[i] == ks[i];
      if last.AddedLine? || last.RemovedLine? {
        assert Origins(ks) == o + [|ks| - 1];
      } else {
        assert Origins(ks) == o;
      }
    }
  }

  /** The `r`-th new record is produced by the line at `Origins(ks)[r]`: same
      kind, and the line's text without its `+` or `-`. */
  lemma {:induction false} RecordsFromOrigins(p: Parser, ks: seq<LineKind>)
    ensures |Run(p, ks).result| == |p.result| + |Origins(ks)|
    ensures Run(p, ks).result[..|p.result|] == p.result
    ensures forall r :: 0 <= r < |Origins(ks)| ==>
      Origins(ks)[r] < |ks| && Produces(ks[Origins(ks)[r]], Run(p, ks).result[|p.result| + r])
  {
    OriginsSpec(ks);
    if ks != [] {
      var init := ks[..|ks| - 1];
      RecordsFromOrigins(p, init);
      var before := Run(p, init).result;
      var after := Run(p, ks).result;
      assert before <= after;
      assert forall r :: 0 <= r < |Origins(init)| ==> Origins(ks)[r] == Origins(init)[r];
      assert forall i :: 0 <= i < |init| ==> init[i] == ks[i];
    }
  }

  /* ---------- Numbers grow within a hunk ---------- */

  /** The offset that numbers records of `kind`. */
  function Offset(q: Parser, kind: ChangeType): int {
    if kind == Added then q.addCurrLineNo else q.delCurrLineNo
  }

  /** Inside one hunk, successive records of the same kind have strictly
      increasing numbers, for added and for removed records each on their own;
      all of them lie below the next number that kind would get. */
  lemma {:induction false} NumbersIncreaseWithinHunk(p: Parser, ks: seq<LineKind>, kind: ChangeType)
    requires HeaderFree(ks)
    ensures forall r :: |p.result| <= r < |Run(p, ks).result| && Run(p, ks).result[r].kind == kind ==>
      Run(p, ks).result[r].lineNo < Run(p, ks).currLineNo + Offset(Run(p, ks), kind)
    ensures forall r, s ::
      (|p.result| <= r < s < |Run(p, ks).result|
       && Run(p, ks).result[r].kind == kind && Run(p, ks).result[s].kind == kind) ==>
      Run(p, ks).result[r].lineNo < Run(p, ks).result[s].lineNo
  {
    if ks != [] {
      var init := ks[..|ks| - 1];
      var last := ks[|ks| - 1];
      assert !last.HunkHeaderLine?;
      assert HeaderFree(init) by {
        assert forall i :: 0 <= i < |init| ==> init[i] == ks[i];
      }
      NumbersIncreaseWithinHunk(p, init, kind);
      RecordsAppendOnly(p, init);
      var q0 := Run(p, init);
      var q := Run(p, ks);
      assert q == Effect(q0, last);
      assert q0.result <= q.result;
      assert q0.currLineNo + Offset(q0, kind) <= q.currLineNo + Offset(q, kind);
    }
  }

  /* ---------- Whole inputs ---------- */

  /** An input with fewer than two newlines has at most two lines, both taken
      for file headers: the result is empty (in particular for ""). */
  lemma ShortInputIsEmpty(diffOutput: string)
    requires Occurrences(diffOutput, '\n') < 2
    ensures Parse(diffOutput) == []
  {
    SplitCount(diffOutput, '\n');
  }

  /** The first two lines are never read: replacing them changes nothing. */
  lemma FirstTwoLinesIgnored(a: seq<string>, b: seq<string>, rest: seq<string>)
    requires |a| == 2 && |b| == 2
    ensures ParseLines(a + rest) == ParseLines(b + rest)
  {
    assert (a + rest)[2..] == rest == (b + rest)[2..];
  }

  /** Parsing text made of newline-free lines is parsing those lines. */
  lemma ParseJoin(lines: seq<string>)
    requires |lines| >= 1
    requires forall k :: 0 <= k < |lines| ==> '\n' !in lines[k]
    ensures Parse(Join(lines, '\n')) == ParseLines(lines)
  {
    SplitJoin(lines, '\n');
  }

  /** Whatever the two header lines say, the records are those of the body. */
  lemma FileHeadersIgnored(oldHeader: string, newHeader: string, body: string)
    requires '\n' !in oldHeader && '\n' !in newHeader
    ensures Parse(oldHeader + "\n" + newHeader + "\n" + body) ==
      Run(Start, Kinds(Split(body, '\n'))).result
  {
    var text := oldHeader + "\n" + newHeader + "\n" + body;
    assert text == oldHeader + ['\n'] + (newHeader + ['\n'] + body);
    SplitFirstLine(oldHeader, newHeader + ['\n'] + body, '\n');
    SplitFirstLine(newHeader, body, '\n');
    var lines := [oldHeader] + ([newHeader] + Split(body, '\n'));
    assert lines[2..] == Split(body, '\n');
  }

  /** Parsing is reading, from the start state, the classes of the lines after
      the first two: whatever the lines, once each is known to fall in a class,
      the records are those of the classes. */
  lemma ParseLinesByKinds(lines: seq<string>, ks: seq<LineKind>)
    requires |lines| >= 2 && |ks| == |lines| - 2
    requires forall i :: 2 <= i < |lines| ==> Classify(Trim(lines[i])) == ks[i - 2]
    ensures ParseLines(lines) == Run(Start, ks).result
  {
    if |lines| > 2 {
      assert Kinds(lines[2..]) == ks;
    }
  }

  /** Each line after the first two is classified on its own. */
  lemma KindsOfLines(lines: seq<string>)
    requires |lines| > 2
    ensures forall i :: 2 <= i < |lines| ==> Kinds(lines[2..])[i - 2] == Classify(Trim(lines[i]))
  {
    forall i | 2 <= i < |lines|
      ensures Kinds(lines[2..])[i - 2] == Classify(Trim(lines[i]))
    {
      assert lines[2..][i - 2] == lines[i];
    }
  }

  /** Record `r` of the result comes from line `2 + Origins(…)[r]` of the
      input: the records follow the input order, each changed line after the
      first two yields exactly one record, and nothing else yields one. */
  lemma ParseProvenance(lines: seq<string>)
    requires |lines| > 2
    ensures var os := Origins(Kinds(lines[2..]));
      && |ParseLines(lines)| == |os|
      && (forall r :: 0 <= r < |os| ==>
            2 + os[r] < |lines| && Produces(Classify(Trim(lines[2 + os[r]])), ParseLines(lines)[r]))
      && (forall r, s :: 0 <= r < s < |os| ==> os[r] < os[s])
      && (forall i :: 2 <= i < |lines| && (Classify(Trim(lines[i])).AddedLine? || Classify(Trim(lines[i])).RemovedLine?)
            ==> i - 2 in os)
  {
    var ks := Kinds(lines[2..]);
    RecordsFromOrigins(Start, ks);
    OriginsSpec(ks);
    KindsOfLines(lines);
  }
}
