/**
  The hunk-header recogniser of the diff parser: the regular expression
  `@@\s*-(\d+)(?:,(\d+))?\s*\+(\d+)(?:,(\d+))?\s*@@`, without anchors, as used
  by `RegExp.prototype.test` and `String.prototype.match` (no `g` flag), and
  `Number` applied to its first capture group (the old-file start line).

  `IsMatchAt` is the meaning of the pattern: where each of its parts ends when
  it matches at a given position. `ScanAt` is a deterministic scanner; it finds
  a match at a position exactly when one exists, and that match is the only
  one there, so backtracking cannot give a different capture group.
 */
module HunkHeader {
  import opened Text

  datatype Option<T> = None | Some(value: T)

  predicate IsDigit(c: char) {
    '0' <= c <= '9'
  }

  /** `Number` applied to a non-empty string of decimal digits. */
  function DecimalValue(ds: string): (n: nat)
    requires forall k :: 0 <= k < |ds| ==> IsDigit(ds[k])
  {
    if ds == [] then 0
    else
      assert IsDigit(ds[|ds| - 1]);
      10 * DecimalValue(ds[..|ds| - 1]) + (ds[|ds| - 1] as int - '0' as int)
  }

  /** The decimal numeral of `n`, without leading zeros. */
  function DecimalString(n: nat): (ds: string)
    ensures |ds| >= 1
    ensures forall k :: 0 <= k < |ds| ==> IsDigit(ds[k])
  {
    (if n < 10 then [] else DecimalString(n / 10)) + [('0' as int + n % 10) as char]
  }

  /** Reading a numeral back gives the number: every line number a header can
      declare is read exactly. */
  lemma {:induction false} DecimalRoundTrip(n: nat)
    ensures DecimalValue(DecimalString(n)) == n
  {
    var q, r := n / 10, n % 10;
    var digit := ('0' as int + r) as char;
    var init := if n < 10 then [] else DecimalString(q);
    var ds := init + [digit];
    assert DecimalString(n) == ds;
    assert ds[..|ds| - 1] == init && ds[|ds| - 1] == digit;
    if n >= 10 {
      DecimalRoundTrip(q);
    }
    assert DecimalValue(init) == q;
    assert DecimalValue(ds) == 10 * q + r;
  }

  /** The first position at or after `from` that is not white space. */
  function SkipWhitespace(s: string, from: nat): (j: nat)
    requires from <= |s|
    ensures from <= j <= |s|
    decreases |s| - from
  {
    if from < |s| && IsWhitespace(s[from]) then SkipWhitespace(s, from + 1) else from
  }

  /** `SkipWhitespace` stops at the end of the run of white space. */
  lemma {:induction false} SkipWhitespaceSpec(s: string, from: nat)
    requires from <= |s|
    ensures WhitespaceBetween(s, from, SkipWhitespace(s, from))
    ensures SkipWhitespace(s, from) < |s| ==> !IsWhitespace(s[SkipWhitespace(s, from)])
    decreases |s| - from
  {
    if from < |s| && IsWhitespace(s[from]) {
      SkipWhitespaceSpec(s, from + 1);
    }
  }

  /** The first position at or after `from` that is not a decimal digit. */
  function SkipDigits(s: string, from: nat): (j: nat)
    requires from <= |s|
    ensures from <= j <= |s|
    decreases |s| - from
  {
    if from < |s| && IsDigit(s[from]) then SkipDigits(s, from + 1) else from
  }

  /** `SkipDigits` stops at the end of the run of digits. */
  lemma {:induction false} SkipDigitsSpec(s: string, from: nat)
    requires from <= |s|
    ensures forall k :: from <= k < SkipDigits(s, from) ==> IsDigit(s[k])
    ensures SkipDigits(s, from) < |s| ==> !IsDigit(s[SkipDigits(s, from)])
    decreases |s| - from
  {
    if from < |s| && IsDigit(s[from]) {
      SkipDigitsSpec(s, from + 1);
    }
  }

  /** Where each part of the pattern ends in one match:
      `@@\s*` ends at `minus` (the `-`), `(\d+)` at `oldEnd`, `(?:,(\d+))?` at
      `oldCountEnd`, `\s*` at `plus` (the `+`), `(\d+)` at `newEnd`,
      `(?:,(\d+))?` at `newCountEnd`, `\s*` at `close` (the closing `@@`). */
  datatype Match = Match(
    minus: nat, oldEnd: nat, oldCountEnd: nat,
    plus: nat, newEnd: nat, newCountEnd: nat, close: nat)

  ghost predicate WhitespaceBetween(s: string, lo: nat, hi: nat)
    requires lo <= hi <= |s|
  {
    forall k :: lo <= k < hi ==> IsWhitespace(s[k])
  }

  /** `\d+` matches `s[lo..hi]`. */
  ghost predicate DigitsBetween(s: string, lo: nat, hi: nat)
    requires lo <= hi <= |s|
  {
    lo < hi && forall k :: lo <= k < hi ==> IsDigit(s[k])
  }

  /** `(?:,(\d+))?` matches `s[lo..hi]`. */
  ghost predicate OptionalCountBetween(s: string, lo: nat, hi: nat)
    requires lo <= hi <= |s|
  {
    lo == hi || (s[lo] == ',' && DigitsBetween(s, lo + 1, hi))
  }

  /** `c(\d+)(?:,(\d+))?` matches `s[sign..countEnd]`, the first number ending at `numEnd`. */
  ghost predicate IsNumberAt(s: string, sign: nat, c: char, numEnd: nat, countEnd: nat) {
    && sign < numEnd <= countEnd <= |s|
    && s[sign] == c
    && DigitsBetween(s, sign + 1, numEnd)
    && OptionalCountBetween(s, numEnd, countEnd)
  }

  /** The pattern matches `s` starting at position `at`, its parts ending as `m` says. */
  ghost predicate IsMatchAt(s: string, at: nat, m: Match) {
    && at + 2 <= m.minus <= m.oldCountEnd <= m.plus <= m.newCountEnd <= m.close
    && m.close + 2 <= |s|
    && s[at] == '@' && s[at + 1] == '@'
    && WhitespaceBetween(s, at + 2, m.minus)
    && IsNumberAt(s, m.minus, '-', m.oldEnd, m.oldCountEnd)
    && WhitespaceBetween(s, m.oldCountEnd, m.plus)
    && IsNumberAt(s, m.plus, '+', m.newEnd, m.newCountEnd)
    && WhitespaceBetween(s, m.newCountEnd, m.close)
    && s[m.close] == '@' && s[m.close + 1] == '@'
  }

  /** The end of `(?:,(\d+))?` starting at `from`, or `None` when a comma is not
      followed by a digit (then nothing that follows in the pattern can match). */
  function SkipCount(s: string, from: nat): (r: Option<nat>)
    requires from <= |s|
    ensures r.Some? ==> from <= r.value <= |s|
  {
    if from < |s| && s[from] == ',' then
      var e := SkipDigits(s, from + 1);
      if e == from + 1 then None else Some(e)
    else
      Some(from)
  }

  /** Scans `c(\d+)(?:,(\d+))?` at `sign`: where the number and the count end. */
  function ScanNumber(s: string, sign: nat, c: char): (r: Option<(nat, nat)>)
    requires sign <= |s|
    ensures r.Some? ==> sign < r.value.0 <= r.value.1 <= |s|
  {
    if sign == |s| || s[sign] != c then None
    else
      var numEnd := SkipDigits(s, sign + 1);
      if numEnd == sign + 1 then None
      else match SkipCount(s, numEnd)
        case None => None
        case Some(countEnd) => Some((numEnd, countEnd))
  }

  /** The deterministic scan for a match starting at `at`. */
  function ScanAt(s: string, at: nat): (r: Option<Match>)
  {
    if at + 2 > |s| || s[at] != '@' || s[at + 1] != '@' then None
    else
      var minus := SkipWhitespace(s, at + 2);
      match ScanNumber(s, minus, '-')
      case None => None
      case Some((oldEnd, oldCountEnd)) =>
        var plus := SkipWhitespace(s, oldCountEnd);
        match ScanNumber(s, plus, '+')
        case None => None
        case Some((newEnd, newCountEnd)) =>
          var close := SkipWhitespace(s, newCountEnd);
          if close + 2 > |s| || s[close] != '@' || s[close + 1] != '@' then None
          else Some(Match(minus, oldEnd, oldCountEnd, plus, newEnd, newCountEnd, close))
  }

  lemma ScanNumberSound(s: string, sign: nat, c: char)
    requires sign <= |s|
    requires ScanNumber(s, sign, c).Some?
    ensures var (numEnd, countEnd) := ScanNumber(s, sign, c).value;
      IsNumberAt(s, sign, c, numEnd, countEnd)
      && (countEnd < |s| ==> !IsDigit(s[countEnd]))
  {
    var numEnd := SkipDigits(s, sign + 1);
    SkipDigitsSpec(s, sign + 1);
    if numEnd < |s| && s[numEnd] == ',' {
      SkipDigitsSpec(s, numEnd + 1);
    }
  }

  /** Whatever the scan returns is a match. */
  lemma ScanAtSound(s: string, at: nat)
    requires ScanAt(s, at).Some?
    ensures IsMatchAt(s, at, ScanAt(s, at).value)
  {
    var m := ScanAt(s, at).value;
    SkipWhitespaceSpec(s, at + 2);
    ScanNumberSound(s, m.minus, '-');
    SkipWhitespaceSpec(s, m.oldCountEnd);
    ScanNumberSound(s, m.plus, '+');
    SkipWhitespaceSpec(s, m.newCountEnd);
  }

  /** `s[from..j]` is a maximal run of white space. */
  lemma SkipWhitespaceExact(s: string, from: nat, j: nat)
    requires from <= j <= |s|
    requires WhitespaceBetween(s, from, j)
    requires j < |s| ==> !IsWhitespace(s[j])
    ensures SkipWhitespace(s, from) == j
  {
    SkipWhitespaceSpec(s, from);
  }

  /** `s[from..j]` is a maximal run of digits. */
  lemma SkipDigitsExact(s: string, from: nat, j: nat)
    requires from <= j <= |s|
    requires forall k :: from <= k < j ==> IsDigit(s[k])
    requires j < |s| ==> !IsDigit(s[j])
    ensures SkipDigits(s, from) == j
  {
    SkipDigitsSpec(s, from);
  }

  lemma WhitespaceIsNoDelimiter(c: char)
    requires IsWhitespace(c)
    ensures !IsDigit(c) && c != ',' && c != '-' && c != '+' && c != '@'
  {
  }

  /** A number followed by white space and then `next` (`+` or `@`) is scanned whole. */
  lemma ScanNumberComplete(s: string, sign: nat, c: char, numEnd: nat, countEnd: nat, next: nat)
    requires IsNumberAt(s, sign, c, numEnd, countEnd)
    requires countEnd <= next < |s| && WhitespaceBetween(s, countEnd, next)
    requires s[next] == '+' || s[next] == '@'
    ensures ScanNumber(s, sign, c) == Some((numEnd, countEnd))
  {
    if countEnd < next {
      WhitespaceIsNoDelimiter(s[countEnd]);
    }
    SkipDigitsExact(s, sign + 1, numEnd);
    if countEnd > numEnd {
      SkipDigitsExact(s, numEnd + 1, countEnd);
    }
  }

  /** The scan finds every match: at each position there is at most one way for
      the pattern to match, and `ScanAt` returns it. */
  lemma ScanAtComplete(s: string, at: nat, m: Match)
    requires IsMatchAt(s, at, m)
    ensures ScanAt(s, at) == Some(m)
  {
    ScanOldComplete(s, at, m);
    ScanNewComplete(s, at, m);
  }

  /** The scan finds the `@@`, the white space and the old-file range of a match. */
  lemma ScanOldComplete(s: string, at: nat, m: Match)
    requires IsMatchAt(s, at, m)
    ensures SkipWhitespace(s, at + 2) == m.minus
    ensures ScanNumber(s, m.minus, '-') == Some((m.oldEnd, m.oldCountEnd))
  {
    if m.minus > at + 2 {
      WhitespaceIsNoDelimiter(s[at + 2]);
    }
    SkipWhitespaceExact(s, at + 2, m.minus);
    ScanNumberComplete(s, m.minus, '-', m.oldEnd, m.oldCountEnd, m.plus);
  }

  /** The scan finds the new-file range and the closing `@@` of a match. */
  lemma ScanNewComplete(s: string, at: nat, m: Match)
    requires IsMatchAt(s, at, m)
    ensures SkipWhitespace(s, m.oldCountEnd) == m.plus
    ensures ScanNumber(s, m.plus, '+') == Some((m.newEnd, m.newCountEnd))
    ensures SkipWhitespace(s, m.newCountEnd) == m.close
  {
    SkipWhitespaceExact(s, m.oldCountEnd, m.plus);
    ScanNumberComplete(s, m.plus, '+', m.newEnd, m.newCountEnd, m.close);
    SkipWhitespaceExact(s, m.newCountEnd, m.close);
  }

  /** The pattern matches at `at` and at no earlier position: the match that
      `test` reports and `match` returns. */
  ghost predicate IsLeftmostMatch(s: string, at: nat, m: Match) {
    IsMatchAt(s, at, m) && forall k: nat, m' :: k < at ==> !IsMatchAt(s, k, m')
  }

  /** The first position at or after `from` where the pattern matches. */
  function LeftmostFrom(s: string, from: nat): (r: Option<nat>)
    requires from <= |s|
    ensures r.Some? ==> from <= r.value <= |s|
    decreases |s| - from
  {
    if ScanAt(s, from).Some? then Some(from)
    else if from == |s| then None
    else LeftmostFrom(s, from + 1)
  }

  /** The search stops only where the scanner succeeds. */
  lemma {:induction false} LeftmostFromFound(s: string, from: nat)
    requires from <= |s|
    ensures LeftmostFrom(s, from).Some? ==> ScanAt(s, LeftmostFrom(s, from).value).Some?
    decreases |s| - from
  {
    if ScanAt(s, from).None? && from < |s| {
      LeftmostFromFound(s, from + 1);
    }
  }

  /** The scanner fails everywhere the search passed over. */
  lemma {:induction false} LeftmostFromFirst(s: string, from: nat)
    requires from <= |s|
    ensures forall k: nat :: from <= k <= |s| && (LeftmostFrom(s, from).None? || k < LeftmostFrom(s, from).value) ==>
      ScanAt(s, k).None?
    decreases |s| - from
  {
    var here := ScanAt(s, from);
    if here.None? && from < |s| {
      assert LeftmostFrom(s, from) == LeftmostFrom(s, from + 1);
      LeftmostFromFirst(s, from + 1);
    }
  }

  /** The search finds the first position where the scanner succeeds. */
  lemma LeftmostFromSpec(s: string, from: nat)
    requires from <= |s|
    ensures LeftmostFrom(s, from).None? ==> forall k: nat :: from <= k <= |s| ==> ScanAt(s, k).None?
    ensures LeftmostFrom(s, from).Some? ==> ScanAt(s, LeftmostFrom(s, from).value).Some?
    ensures LeftmostFrom(s, from).Some? ==>
      forall k: nat :: from <= k < LeftmostFrom(s, from).value ==> ScanAt(s, k).None?
  {
    LeftmostFromFound(s, from);
    LeftmostFromFirst(s, from);
  }

  /** `Number(line.match(reg)[1])` when `reg.test(line)`, and `None` otherwise. */
  function MatchHeader(line: string): Option<nat>
  {
    match LeftmostFrom(line, 0)
    case None => None
    case Some(at) =>
      LeftmostFromFound(line, 0);
      var m := ScanAt(line, at).value;
      ScanAtSound(line, at);
      Some(OldStart(line, m))
  }

  /** The header test succeeds exactly when the pattern matches somewhere in the
      line, and then yields the old-file start of the leftmost match. */
  lemma MatchHeaderSpec(line: string)
    ensures MatchHeader(line).None? <==> forall at: nat, m :: !IsMatchAt(line, at, m)
    ensures MatchHeader(line).Some? ==> exists at: nat, m ::
      IsLeftmostMatch(line, at, m) && MatchHeader(line).value == OldStart(line, m)
  {
    var first := LeftmostFrom(line, 0);
    LeftmostFromSpec(line, 0);
    assert forall k: nat, m :: IsMatchAt(line, k, m) ==>
        k <= |line| && ScanAt(line, k).Some? && (first.Some? ==> first.value <= k) by {
      forall k: nat, m | IsMatchAt(line, k, m)
        ensures k <= |line| && ScanAt(line, k).Some?
      {
        ScanAtComplete(line, k, m);
      }
    }
    if first.Some? {
      var at := first.value;
      var m := ScanAt(line, at).value;
      ScanAtSound(line, at);
      assert IsLeftmostMatch(line, at, m);
    }
  }

  /** `reg.test(line)`: the pattern matches somewhere in the line. */
  ghost predicate HeaderMatches(line: string) {
    exists at: nat, m :: IsMatchAt(line, at, m)
  }

  /** Every match begins with `@@`, so a line without `@` is never a header. */
  lemma NoHeaderWithoutAt(line: string)
    requires '@' !in line
    ensures !HeaderMatches(line) && MatchHeader(line).None?
  {
    MatchHeaderSpec(line);
    forall at: nat, m | IsMatchAt(line, at, m)
      ensures false
    {
    }
  }

  /** The value of capture group 1 of a match: the old-file start line. */
  function OldStart(line: string, m: Match): nat
    requires m.minus < m.oldEnd <= |line|
    requires forall k :: m.minus + 1 <= k < m.oldEnd ==> IsDigit(line[k])
  {
    DecimalValue(line[m.minus + 1..m.oldEnd])
  }

  /** Every character of `ds` is a decimal digit. */
  predicate AllDigits(ds: string) {
    forall k :: 0 <= k < |ds| ==> IsDigit(ds[k])
  }

  /** The `,count` part of a header line; the count is omitted when absent. */
  function CountText(count: Option<nat>): (t: string)
    ensures t == [] || (|t| >= 2 && t[0] == ',' && AllDigits(t[1..]))
  {
    match count
    case None => ""
    case Some(n) => var ds := DecimalString(n); assert ("," + ds)[1..] == ds; "," + ds
  }

  /** A hunk header line as `diff -u` writes it: `@@ -a[,b] +c[,d] @@`. */
  function HeaderText(oldStart: nat, oldCount: Option<nat>, newStart: nat, newCount: Option<nat>): string {
    "@@ -" + DecimalString(oldStart) + CountText(oldCount)
      + " +" + DecimalString(newStart) + CountText(newCount) + " @@"
  }

  /** A numeral written at `lo` is matched there by `\d+`. */
  lemma DigitsAt(s: string, lo: nat, ds: string)
    requires lo + |ds| <= |s| && s[lo..lo + |ds|] == ds
    requires |ds| >= 1 && AllDigits(ds)
    ensures DigitsBetween(s, lo, lo + |ds|)
  {
    assert forall k :: lo <= k < lo + |ds| ==> s[k] == ds[k - lo];
  }

  /** `c`, a numeral and a count written at `sign` are matched by `c(\d+)(?:,(\d+))?`. */
  lemma NumberTextAt(s: string, sign: nat, c: char, ds: string, ct: string)
    requires |ds| >= 1 && AllDigits(ds)
    requires ct == [] || (|ct| >= 2 && ct[0] == ',' && AllDigits(ct[1..]))
    requires sign + 1 + |ds| + |ct| <= |s|
    requires s[sign..sign + 1 + |ds| + |ct|] == [c] + ds + ct
    ensures IsNumberAt(s, sign, c, sign + 1 + |ds|, sign + 1 + |ds| + |ct|)
    ensures s[sign + 1..sign + 1 + |ds|] == ds
  {
    var numEnd := sign + 1 + |ds|;
    var t := s[sign..numEnd + |ct|];
    assert s[sign] == t[0] == c;
    assert s[sign + 1..numEnd] == t[1..1 + |ds|] == ds;
    DigitsAt(s, sign + 1, ds);
    if ct != [] {
      assert s[numEnd] == t[1 + |ds|] == ct[0];
      assert s[numEnd + 1..numEnd + |ct|] == t[2 + |ds|..] == ct[1..];
      DigitsAt(s, numEnd + 1, ct[1..]);
    }
  }

  /** Where the parts of the pattern end in a header line built from the numerals
      `a` to `d`. */
  function PartsMatch(a: string, b: string, c: string, d: string): Match {
    Match(3, 4 + |a|, 4 + |a| + |b|, 5 + |a| + |b|, 6 + |a| + |b| + |c|,
          6 + |a| + |b| + |c| + |d|, 7 + |a| + |b| + |c| + |d|)
  }

  /** `s` holds the characters of a header line built from `a` to `d` at the
      positions `PartsMatch` names. */
  ghost predicate Laid(s: string, a: string, b: string, c: string, d: string) {
    var m := PartsMatch(a, b, c, d);
    && m.close + 2 <= |s|
    && s[0] == '@' && s[1] == '@' && s[2] == ' '
    && s[m.minus..m.oldCountEnd] == ['-'] + a + b
    && s[m.oldCountEnd] == ' '
    && s[m.plus..m.newCountEnd] == ['+'] + c + d
    && s[m.newCountEnd] == ' '
    && s[m.close] == '@' && s[m.close + 1] == '@'
  }

  lemma PartsLaid(a: string, b: string, c: string, d: string, tail: string)
    ensures Laid("@@ -" + a + b + " +" + c + d + " @@" + tail, a, b, c, d)
  {
    var s := "@@ -" + a + b + " +" + c + d + " @@" + tail;
    var oldNum, newNum := ['-'] + a + b, ['+'] + c + d;
    assert s == "@@ " + oldNum + " " + newNum + " @@" + tail;
  }

  /** A header line built from numerals matches the pattern at its start. */
  lemma PartsMatchAt(s: string, a: string, b: string, c: string, d: string)
    requires |a| >= 1 && AllDigits(a) && |c| >= 1 && AllDigits(c)
    requires b == [] || (|b| >= 2 && b[0] == ',' && AllDigits(b[1..]))
    requires d == [] || (|d| >= 2 && d[0] == ',' && AllDigits(d[1..]))
    requires Laid(s, a, b, c, d)
    ensures IsMatchAt(s, 0, PartsMatch(a, b, c, d)) && s[4..4 + |a|] == a
  {
    var m := PartsMatch(a, b, c, d);
    NumberTextAt(s, m.minus, '-', a, b);
    NumberTextAt(s, m.plus, '+', c, d);
  }

  /** Reading a header written the way `diff -u` writes it, with any text after it,
      gives back the old-file start, whether or not the counts are written. */
  lemma HeaderRoundTrip(oldStart: nat, oldCount: Option<nat>, newStart: nat, newCount: Option<nat>, tail: string)
    ensures MatchHeader(HeaderText(oldStart, oldCount, newStart, newCount) + tail) == Some(oldStart)
  {
    var a, b, c, d := DecimalString(oldStart), CountText(oldCount), DecimalString(newStart), CountText(newCount);
    var s := HeaderText(oldStart, oldCount, newStart, newCount) + tail;
    assert s == "@@ -" + a + b + " +" + c + d + " @@" + tail;
    PartsLaid(a, b, c, d, tail);
    PartsMatchAt(s, a, b, c, d);
    ScanAtComplete(s, 0, PartsMatch(a, b, c, d));
    DecimalRoundTrip(oldStart);
  }
}
