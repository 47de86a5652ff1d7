/**
  The string operations the diff parser relies on: JavaScript's
  `String.prototype.trim`, `startsWith` and `split` with a one-character
  separator. Strings are sequences of characters.
 */
module Text {

  /** The characters ECMAScript counts as WhiteSpace or LineTerminator: the set
      `trim` removes and the regular-expression class `\s` matches. */
  predicate IsWhitespace(c: char) {
    || c == '\t' || c == '\n' || c == '\U{000B}' || c == '\U{000C}' || c == '\r'
    || c == ' ' || c == '\U{00A0}' || c == '\U{1680}'
    || ('\U{2000}' <= c <= '\U{200A}')
    || c == '\U{2028}' || c == '\U{2029}' || c == '\U{202F}' || c == '\U{205F}'
    || c == '\U{3000}' || c == '\U{FEFF}'
  }

  predicate StartsWith(s: string, prefix: string) {
    |prefix| <= |s| && s[..|prefix|] == prefix
  }

  /** A prefix starting with `c` is `c` followed by a prefix of the rest. */
  lemma StartsWithCons(s: string, c: char, rest: string)
    requires |s| >= 1
    ensures StartsWith(s, [c] + rest) <==> s[0] == c && StartsWith(s[1..], rest)
  {
    if |rest| + 1 <= |s| {
      assert s[..|rest| + 1] == [s[0]] + s[1..][..|rest|];
    }
  }

  /** Number of white-space characters at the front of `s`. */
  function LeadingWhitespace(s: string): (n: nat)
    ensures n <= |s|
  {
    if s != [] && IsWhitespace(s[0]) then 1 + LeadingWhitespace(s[1..]) else 0
  }

  /** Number of white-space characters at the end of `s`. */
  function TrailingWhitespace(s: string): (n: nat)
    ensures n <= |s|
  {
    if s != [] && IsWhitespace(s[|s| - 1]) then 1 + TrailingWhitespace(s[..|s| - 1]) else 0
  }

  /** The count is the longest white-space prefix. */
  lemma {:induction false} LeadingWhitespaceSpec(s: string)
    ensures forall k :: 0 <= k < LeadingWhitespace(s) ==> IsWhitespace(s[k])
    ensures LeadingWhitespace(s) < |s| ==> !IsWhitespace(s[LeadingWhitespace(s)])
  {
    if s != [] && IsWhitespace(s[0]) {
      LeadingWhitespaceSpec(s[1..]);
    }
  }

  /** The count is the longest white-space suffix. */
  lemma {:induction false} TrailingWhitespaceSpec(s: string)
    ensures forall k :: |s| - TrailingWhitespace(s) <= k < |s| ==> IsWhitespace(s[k])
    ensures TrailingWhitespace(s) < |s| ==> !IsWhitespace(s[|s| - TrailingWhitespace(s) - 1])
  {
    if s != [] && IsWhitespace(s[|s| - 1]) {
      TrailingWhitespaceSpec(s[..|s| - 1]);
    }
  }

  /** `r` is `s` with the first `i` characters and everything after `r` removed,
      and every removed character is white space. */
  ghost predicate StripsTo(s: string, i: nat, r: string) {
    && i + |r| <= |s|
    && s[i..i + |r|] == r
    && (forall k :: 0 <= k < i ==> IsWhitespace(s[k]))
    && (forall k :: i + |r| <= k < |s| ==> IsWhitespace(s[k]))
  }

  /** `r` neither starts nor ends with white space. */
  predicate Trimmed(r: string) {
    r == [] || (!IsWhitespace(r[0]) && !IsWhitespace(r[|r| - 1]))
  }

  /** `String.prototype.trim`: remove white space from both ends. */
  function Trim(s: string): string {
    var i := LeadingWhitespace(s);
    s[i..|s| - TrailingWhitespace(s[i..])]
  }

  /** `trim` removes only white space, and leaves none at either end. */
  lemma TrimSpec(s: string)
    ensures exists i: nat :: StripsTo(s, i, Trim(s))
    ensures Trimmed(Trim(s))
  {
    var i := LeadingWhitespace(s);
    var j := |s| - TrailingWhitespace(s[i..]);
    LeadingWhitespaceSpec(s);
    TrailingWhitespaceSpec(s[i..]);
    assert Trim(s) == s[i..j];
    assert StripsTo(s, i, Trim(s));
  }

  /** There is only one way to strip white space from both ends of `s` so that
      none is left: `trim` is that way. */
  lemma TrimUnique(s: string, i: nat, r: string)
    requires StripsTo(s, i, r) && Trimmed(r)
    ensures r == Trim(s)
  {
    var lead := LeadingWhitespace(s);
    LeadingWhitespaceSpec(s);
    if r == [] {
      assert forall k :: 0 <= k < |s| ==> IsWhitespace(s[k]);
      assert lead == |s|;
    } else {
      assert s[i] == r[0];
      assert i == lead;
      var t := s[lead..];
      TrailingWhitespaceSpec(t);
      assert t[|r| - 1] == r[|r| - 1];
      assert TrailingWhitespace(t) == |t| - |r|;
    }
  }

  /** Trimming a string that has no white space at either end leaves it alone;
      in particular trimming twice is trimming once. */
  lemma TrimKeepsTrimmed(s: string)
    requires Trimmed(s)
    ensures Trim(s) == s
  {
    assert StripsTo(s, 0, s);
    TrimUnique(s, 0, s);
  }

  lemma TrimIdempotent(s: string)
    ensures Trim(Trim(s)) == Trim(s)
  {
    TrimSpec(s);
    TrimKeepsTrimmed(Trim(s));
  }

  /** Number of occurrences of `c` in `s`. */
  function Occurrences(s: string, c: char): nat {
    if s == [] then 0 else (if s[0] == c then 1 else 0) + Occurrences(s[1..], c)
  }

  lemma {:induction false} OccurrencesAppend(a: string, b: string, c: char)
    ensures Occurrences(a + b, c) == Occurrences(a, c) + Occurrences(b, c)
  {
    if a == [] {
      assert a + b == b;
    } else {
      assert (a + b)[1..] == a[1..] + b;
      OccurrencesAppend(a[1..], b, c);
    }
  }

  /** `parts` joined with `sep` between consecutive parts. */
  function Join(parts: seq<string>, sep: char): (s: string)
    requires |parts| >= 1
  {
    if |parts| == 1 then parts[0] else parts[0] + [sep] + Join(parts[1..], sep)
  }

  /** A join holds one separator between each two parts, and those in the parts. */
  lemma {:induction false} JoinOccurrences(parts: seq<string>, sep: char)
    requires |parts| >= 1
    requires forall k :: 0 <= k < |parts| ==> sep !in parts[k]
    ensures Occurrences(Join(parts, sep), sep) == |parts| - 1
  {
    NoOccurrences(parts[0], sep);
    if |parts| > 1 {
      JoinOccurrences(parts[1..], sep);
      OccurrencesAppend(parts[0] + [sep], Join(parts[1..], sep), sep);
      OccurrencesAppend(parts[0], [sep], sep);
    }
  }

  lemma {:induction false} NoOccurrences(s: string, c: char)
    requires c !in s
    ensures Occurrences(s, c) == 0
  {
    if s != [] {
      NoOccurrences(s[1..], c);
    }
  }

  /** `String.prototype.split` with a one-character separator: the maximal
      separator-free pieces, in order, including empty ones at either end. */
  function Split(s: string, sep: char): (parts: seq<string>)
    ensures |parts| >= 1
  {
    if s == [] then [[]]
    else
      var rest := Split(s[1..], sep);
      if s[0] == sep then [[]] + rest else [[s[0]] + rest[0]] + rest[1..]
  }

  /** The pieces `split` returns hold no separator, and joining them with the
      separator gives the text back. */
  lemma {:induction false} JoinSplit(s: string, sep: char)
    ensures forall k :: 0 <= k < |Split(s, sep)| ==> sep !in Split(s, sep)[k]
    ensures Join(Split(s, sep), sep) == s
  {
    if s != [] {
      var rest := Split(s[1..], sep);
      JoinSplit(s[1..], sep);
      assert s == [s[0]] + s[1..];
      if s[0] == sep {
        assert ([[]] + rest)[1..] == rest;
      } else {
        JoinExtendFirst(s[0], rest, sep);
      }
    }
  }

  /** Putting a character in front of the first piece puts it in front of the join. */
  lemma JoinExtendFirst(c: char, parts: seq<string>, sep: char)
    requires |parts| >= 1
    ensures Join([[c] + parts[0]] + parts[1..], sep) == [c] + Join(parts, sep)
  {
    var ext := [[c] + parts[0]] + parts[1..];
    if |parts| > 1 {
      assert ext[1..] == parts[1..];
    }
  }

  /** `split` returns one more piece than there are separators in the text. */
  lemma SplitCount(s: string, sep: char)
    ensures |Split(s, sep)| == Occurrences(s, sep) + 1
  {
    JoinSplit(s, sep);
    JoinOccurrences(Split(s, sep), sep);
  }

  /** Splitting undoes joining, for pieces that do not contain the separator. */
  lemma {:induction false} SplitJoin(parts: seq<string>, sep: char)
    requires |parts| >= 1
    requires forall k :: 0 <= k < |parts| ==> sep !in parts[k]
    ensures Split(Join(parts, sep), sep) == parts
  {
    var s := Join(parts, sep);
    var r := Split(s, sep);
    JoinSplit(s, sep);
    // Both sides are separator-free pieces whose joins agree; compare them piece by piece.
    JoinInjective(r, parts, sep);
  }

  /** Two separator-free piece lists with the same join are equal. */
  lemma {:induction false} JoinInjective(a: seq<string>, b: seq<string>, sep: char)
    requires |a| >= 1 && |b| >= 1
    requires forall k :: 0 <= k < |a| ==> sep !in a[k]
    requires forall k :: 0 <= k < |b| ==> sep !in b[k]
    requires Join(a, sep) == Join(b, sep)
    ensures a == b
  {
    var s := Join(a, sep);
    if |a| == 1 && |b| == 1 {
    } else if |a| == 1 || |b| == 1 {
      // One side joins at least one separator, the other none.
      JoinOccurrences(a, sep);
      JoinOccurrences(b, sep);
    } else {
      var ra, rb := Join(a[1..], sep), Join(b[1..], sep);
      assert s == a[0] + [sep] + ra == b[0] + [sep] + rb;
      FirstPieceUnique(a[0], ra, b[0], rb, sep);
      assert ra == rb by {
        assert ra == s[|a[0]| + 1..];
        assert rb == s[|b[0]| + 1..];
      }
      JoinInjective(a[1..], b[1..], sep);
      assert a == [a[0]] + a[1..] && b == [b[0]] + b[1..];
    }
  }

  lemma FirstPieceUnique(x: string, xs: string, y: string, ys: string, sep: char)
    requires sep !in x && sep !in y
    requires x + [sep] + xs == y + [sep] + ys
    ensures x == y
  {
    var s := x + [sep] + xs;
    assert forall k :: 0 <= k < |x| ==> s[k] == x[k];
    assert forall k :: 0 <= k < |y| ==> s[k] == y[k];
    assert s[|x|] == sep && s[|y|] == sep;
    assert |x| == |y|;
    assert x == s[..|x|] && y == s[..|y|];
  }

  /** Splitting text whose first line is `first`: that line, then the rest. */
  lemma SplitFirstLine(first: string, rest: string, sep: char)
    requires sep !in first
    ensures Split(first + [sep] + rest, sep) == [first] + Split(rest, sep)
  {
    JoinSplit(rest, sep);
    var parts := [first] + Split(rest, sep);
    assert parts[1..] == Split(rest, sep);
    assert Join(parts, sep) == first + [sep] + rest;
    SplitJoin(parts, sep);
  }
}
