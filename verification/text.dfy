/** The .NET string operations the console program relies on, with the
    semantics of the base library: ordinal `Contains`, `Split(char)`,
    `Split(string[], StringSplitOptions.None)` on line breaks, `Trim()` and
    `ToLower()` (ASCII letters only, see README). */
module Text {

  // ---------------------------------------------------------------------------
  // Ordinal substring search: string.Contains(string)
  // ---------------------------------------------------------------------------

  /** `sub` occurs in `s` starting at index `i`. */
  predicate OccursAt(s: string, sub: string, i: nat) {
    i + |sub| <= |s| && s[i..i + |sub|] == sub
  }

  /** Ordinal containment, as `string.Contains(string)`. */
  predicate Contains(s: string, sub: string) {
    exists i: nat | i <= |s| :: OccursAt(s, sub, i)
  }

  /** An occurrence of `prefix + sub` is an occurrence of `sub`, |prefix| further on. */
  lemma {:induction false} ContainsSuffixOf(s: string, prefix: string, sub: string)
    requires Contains(s, prefix + sub)
    ensures Contains(s, sub)
  {
    var i: nat :| i <= |s| && OccursAt(s, prefix + sub, i);
    assert s[i + |prefix|..i + |prefix| + |sub|] == (prefix + sub)[|prefix|..];
    assert OccursAt(s, sub, i + |prefix|);
  }

  // ---------------------------------------------------------------------------
  // Characters: index search and counting
  // ---------------------------------------------------------------------------

  /** The first index at or after `from` that holds `c`, or `|s|` when there is none. */
  function IndexOf(s: string, c: char, from: nat): (k: nat)
    requires from <= |s|
    ensures from <= k <= |s|
    ensures forall j :: from <= j < k ==> s[j] != c
    ensures k < |s| ==> s[k] == c
    decreases |s| - from
  {
    if from == |s| then |s|
    else if s[from] == c then from
    else IndexOf(s, c, from + 1)
  }

  /** The contract of IndexOf determines its value. */
  lemma {:induction false} IndexOfUnique(s: string, c: char, from: nat, k: nat)
    requires from <= k <= |s|
    requires forall j :: from <= j < k ==> s[j] != c
    requires k < |s| ==> s[k] == c
    ensures IndexOf(s, c, from) == k
  {
  }

  /** Searching a suffix is searching the whole string, shifted. */
  lemma {:induction false} IndexOfShift(s: string, c: char, k: nat, from: nat)
    requires k + from <= |s|
    ensures IndexOf(s[k..], c, from) + k == IndexOf(s, c, k + from)
  {
    var m := IndexOf(s[k..], c, from);
    forall j | k + from <= j < m + k ensures s[j] != c {
      assert s[j] == s[k..][j - k];
    }
    if m + k < |s| {
      assert s[m + k] == s[k..][m];
    }
    IndexOfUnique(s, c, k + from, m + k);
  }

  /** The number of occurrences of `c` in `s`. */
  function CountChar(s: string, c: char): (n: nat)
    ensures n <= |s|
    ensures n == 0 <==> c !in s
  {
    if s == [] then 0
    else (if s[0] == c then 1 else 0) + CountChar(s[1..], c)
  }

  // ---------------------------------------------------------------------------
  // string.Split(char), which keeps empty pieces
  // ---------------------------------------------------------------------------

  /** `s.Split(c)`: the maximal pieces of `s` free of `c`, empty pieces included. */
  function SplitOn(s: string, c: char): (pieces: seq<string>)
    ensures |pieces| >= 1
    decreases |s|
  {
    if s == [] then [[]]
    else
      var rest := SplitOn(s[1..], c);
      if s[0] == c then [[]] + rest else [[s[0]] + rest[0]] + rest[1..]
  }

  /** `string.Join(c, pieces)`. */
  function JoinWith(pieces: seq<string>, c: char): (s: string)
    requires |pieces| >= 1
    decreases |pieces|
  {
    if |pieces| == 1 then pieces[0] else pieces[0] + [c] + JoinWith(pieces[1..], c)
  }

  /** Split yields exactly one more piece than there are separators. */
  lemma {:induction false} SplitOnLength(s: string, c: char)
    ensures |SplitOn(s, c)| == CountChar(s, c) + 1
    decreases |s|
  {
    if s != [] {
      SplitOnLength(s[1..], c);
    }
  }

  /** No piece holds the separator, and joining the pieces back restores `s`. */
  lemma {:induction false} SplitOnJoin(s: string, c: char)
    ensures forall k :: 0 <= k < |SplitOn(s, c)| ==> c !in SplitOn(s, c)[k]
    ensures JoinWith(SplitOn(s, c), c) == s
    decreases |s|
  {
    if s != [] {
      var rest := SplitOn(s[1..], c);
      SplitOnJoin(s[1..], c);
      if s[0] != c {
        var pieces := SplitOn(s, c);
        assert pieces == [[s[0]] + rest[0]] + rest[1..];
        if |rest| == 1 {
          assert JoinWith(pieces, c) == [s[0]] + rest[0];
        } else {
          assert pieces[1..] == rest[1..];
          assert JoinWith(pieces, c) == [s[0]] + rest[0] + [c] + JoinWith(rest[1..], c);
          assert JoinWith(rest, c) == rest[0] + [c] + JoinWith(rest[1..], c);
        }
        assert s == [s[0]] + s[1..];
      }
    }
  }

  /** Splitting a text that starts with something other than the separator
      adds that character to the first piece. */
  lemma {:induction false} SplitOnCons(s: string, c: char)
    requires s != [] && s[0] != c
    ensures SplitOn(s, c)[0] == [s[0]] + SplitOn(s[1..], c)[0]
    ensures SplitOn(s, c)[1..] == SplitOn(s[1..], c)[1..]
  {
  }

  /** The first piece runs up to the first separator; the other pieces are the
      split of what follows it. */
  lemma {:induction false} SplitOnFirst(s: string, c: char)
    ensures SplitOn(s, c)[0] == s[..IndexOf(s, c, 0)]
    ensures IndexOf(s, c, 0) < |s| ==> SplitOn(s, c)[1..] == SplitOn(s[IndexOf(s, c, 0) + 1..], c)
    ensures IndexOf(s, c, 0) == |s| ==> SplitOn(s, c) == [s]
    decreases |s|
  {
    if s != [] && s[0] != c {
      var tail := s[1..];
      var rest := SplitOn(tail, c);
      var k := IndexOf(s, c, 0);
      var m := IndexOf(tail, c, 0);
      SplitOnFirst(tail, c);
      SplitOnCons(s, c);
      IndexOfShift(s, c, 1, 0);
      assert k == IndexOf(s, c, 1);
      assert m + 1 == k;
      assert rest[0] == tail[..m];
      assert tail[..m] == s[1..k];
      assert s[..k] == [s[0]] + s[1..k];
      if k < |s| {
        assert tail[m + 1..] == s[k + 1..];
      } else {
        assert |rest| == 1;
        assert s[..k] == s;
      }
    }
  }

  /** With a separator present, the second piece runs from just after the
      first separator to the next one, or to the end. */
  lemma {:induction false} SplitOnSecond(s: string, c: char)
    requires c in s
    ensures IndexOf(s, c, 0) < |s|
    ensures |SplitOn(s, c)| >= 2
    ensures SplitOn(s, c)[1] == s[IndexOf(s, c, 0) + 1..IndexOf(s, c, IndexOf(s, c, 0) + 1)]
  {
    var i := IndexOf(s, c, 0);
    assert i < |s| by {
      var w :| 0 <= w < |s| && s[w] == c;
    }
    var rest := s[i + 1..];
    var pieces := SplitOn(s, c);
    SplitOnFirst(s, c);
    assert pieces[1..] == SplitOn(rest, c);
    assert |pieces| >= 2;
    assert pieces[1] == SplitOn(rest, c)[0];
    SplitOnFirst(rest, c);
    var m := IndexOf(rest, c, 0);
    IndexOfShift(s, c, i + 1, 0);
    var j := IndexOf(s, c, i + 1);
    assert m + (i + 1) == j;
    assert rest[..m] == s[i + 1..j];
  }

  // ---------------------------------------------------------------------------
  // string.Split(new[] { "\r\n", "\r", "\n" }, StringSplitOptions.None)
  // ---------------------------------------------------------------------------

  /** The three line-break conventions, in the order they are tried. */
  predicate IsLineBreak(sep: string) {
    sep == "\r\n" || sep == "\r" || sep == "\n"
  }

  /** A line never holds a carriage return or a line feed. */
  predicate IsLine(line: string) {
    '\r' !in line && '\n' !in line
  }

  /** The lines of `s`: at every position the separators are tried in order,
      so "\r\n" is one break; empty lines are kept. */
  function SplitLines(s: string): (lines: seq<string>)
    ensures |lines| >= 1
    decreases |s|
  {
    if s == [] then [[]]
    else if |s| >= 2 && s[0] == '\r' && s[1] == '\n' then [[]] + SplitLines(s[2..])
    else if s[0] == '\r' || s[0] == '\n' then [[]] + SplitLines(s[1..])
    else
      var rest := SplitLines(s[1..]);
      [[s[0]] + rest[0]] + rest[1..]
  }

  /** The line breaks SplitLines consumed, in order. */
  function LineBreaks(s: string): (breaks: seq<string>)
    decreases |s|
  {
    if s == [] then []
    else if |s| >= 2 && s[0] == '\r' && s[1] == '\n' then ["\r\n"] + LineBreaks(s[2..])
    else if s[0] == '\r' || s[0] == '\n' then [[s[0]]] + LineBreaks(s[1..])
    else LineBreaks(s[1..])
  }

  /** Lines interleaved with the breaks between them. */
  function JoinLines(lines: seq<string>, breaks: seq<string>): (s: string)
    requires |lines| == |breaks| + 1
    decreases |breaks|
  {
    if breaks == [] then lines[0] else lines[0] + breaks[0] + JoinLines(lines[1..], breaks[1..])
  }

  /** "\r" is used as a break only where no "\n" follows it in the text. */
  predicate MaximalBreaks(lines: seq<string>, breaks: seq<string>)
    requires |lines| == |breaks| + 1
  {
    forall k :: 0 <= k < |breaks| - 1 && breaks[k] == "\r" && lines[k + 1] == [] ==> breaks[k + 1] != "\n"
  }

  /** There is one more line than there are breaks. */
  lemma {:induction false} SplitLinesLength(s: string)
    ensures |SplitLines(s)| == |LineBreaks(s)| + 1
    decreases |s|
  {
    if s == [] {
    } else if |s| >= 2 && s[0] == '\r' && s[1] == '\n' {
      SplitLinesLength(s[2..]);
    } else if s[0] == '\r' || s[0] == '\n' {
      SplitLinesLength(s[1..]);
    } else {
      SplitLinesLength(s[1..]);
    }
  }

  /** No line holds a break character, and every break is one of the three
      conventions. */
  lemma {:induction false} SplitLinesWellFormed(s: string)
    ensures forall k :: 0 <= k < |SplitLines(s)| ==> IsLine(SplitLines(s)[k])
    ensures forall k :: 0 <= k < |LineBreaks(s)| ==> IsLineBreak(LineBreaks(s)[k])
    decreases |s|
  {
    if s == [] {
    } else if |s| >= 2 && s[0] == '\r' && s[1] == '\n' {
      SplitLinesWellFormed(s[2..]);
    } else if s[0] == '\r' || s[0] == '\n' {
      SplitLinesWellFormed(s[1..]);
    } else {
      SplitLinesWellFormed(s[1..]);
      var rest := SplitLines(s[1..]);
      assert SplitLines(s)[0] == [s[0]] + rest[0];
      assert forall k :: 1 <= k < |SplitLines(s)| ==> SplitLines(s)[k] == rest[k];
    }
  }

  /** A text that does not start with a line feed splits into a first line
      that is non-empty or ends in a break other than "\n". */
  lemma {:induction false} SplitLinesNoLeadingFeed(s: string)
    requires s == [] || s[0] != '\n'
    ensures SplitLines(s)[0] == [] && LineBreaks(s) != [] ==> LineBreaks(s)[0] != "\n"
  {
  }

  /** "\r\n" is always taken as one break: a "\r" break is never followed by
      an empty line ended by "\n". */
  lemma {:induction false} SplitLinesMaximal(s: string)
    ensures |SplitLines(s)| == |LineBreaks(s)| + 1
    ensures MaximalBreaks(SplitLines(s), LineBreaks(s))
    decreases |s|
  {
    SplitLinesLength(s);
    if s == [] {
    } else if |s| >= 2 && s[0] == '\r' && s[1] == '\n' {
      SplitLinesMaximal(s[2..]);
      assert SplitLines(s)[1..] == SplitLines(s[2..]);
      assert LineBreaks(s)[1..] == LineBreaks(s[2..]);
    } else if s[0] == '\r' || s[0] == '\n' {
      SplitLinesMaximal(s[1..]);
      assert SplitLines(s)[1..] == SplitLines(s[1..]);
      assert LineBreaks(s)[1..] == LineBreaks(s[1..]);
      if s[0] == '\r' {
        SplitLinesNoLeadingFeed(s[1..]);
      }
    } else {
      SplitLinesMaximal(s[1..]);
      var rest := SplitLines(s[1..]);
      assert forall k :: 1 <= k < |SplitLines(s)| ==> SplitLines(s)[k] == rest[k];
    }
  }

  /** Prepending a character to the first line prepends it to the joined text. */
  lemma {:induction false} JoinLinesCons(ch: char, lines: seq<string>, breaks: seq<string>)
    requires |lines| == |breaks| + 1
    ensures JoinLines([[ch] + lines[0]] + lines[1..], breaks) == [ch] + JoinLines(lines, breaks)
  {
    var longer := [[ch] + lines[0]] + lines[1..];
    if breaks != [] {
      assert longer[1..] == lines[1..];
    }
  }

  /** An empty first line followed by a break joins to that break. */
  lemma {:induction false} JoinLinesBreak(brk: string, lines: seq<string>, breaks: seq<string>)
    requires |lines| == |breaks| + 1
    ensures JoinLines([[]] + lines, [brk] + breaks) == brk + JoinLines(lines, breaks)
  {
    assert ([[]] + lines)[1..] == lines;
    assert ([brk] + breaks)[1..] == breaks;
  }

  /** The text after a leading break of `n` characters joins back onto it. */
  lemma {:induction false} SplitLinesJoinBreak(s: string, n: nat)
    requires 1 <= n <= |s|
    requires SplitLines(s) == [[]] + SplitLines(s[n..])
    requires LineBreaks(s) == [s[..n]] + LineBreaks(s[n..])
    requires |SplitLines(s[n..])| == |LineBreaks(s[n..])| + 1
    requires JoinLines(SplitLines(s[n..]), LineBreaks(s[n..])) == s[n..]
    ensures JoinLines(SplitLines(s), LineBreaks(s)) == s
  {
    JoinLinesBreak(s[..n], SplitLines(s[n..]), LineBreaks(s[n..]));
    assert s[..n] + s[n..] == s;
  }

  /** Joining the lines with the breaks between them restores the text, so
      splitting loses and reorders nothing. */
  lemma {:induction false} SplitLinesJoin(s: string)
    ensures |SplitLines(s)| == |LineBreaks(s)| + 1
    ensures JoinLines(SplitLines(s), LineBreaks(s)) == s
    decreases |s|
  {
    SplitLinesLength(s);
    if s == [] {
    } else if |s| >= 2 && s[0] == '\r' && s[1] == '\n' {
      SplitLinesJoin(s[2..]);
      assert s[..2] == "\r\n";
      SplitLinesJoinBreak(s, 2);
    } else if s[0] == '\r' || s[0] == '\n' {
      SplitLinesJoin(s[1..]);
      assert s[..1] == [s[0]];
      SplitLinesJoinBreak(s, 1);
    } else {
      SplitLinesJoin(s[1..]);
      JoinLinesCons(s[0], SplitLines(s[1..]), LineBreaks(s[1..]));
      assert s == [s[0]] + s[1..];
    }
  }

  // ---------------------------------------------------------------------------
  // string.Trim()
  // ---------------------------------------------------------------------------

  /** `Char.IsWhiteSpace`: the Unicode separators and the control characters
      U+0009..U+000D and U+0085. */
  predicate IsWhiteSpace(ch: char) {
    || ('\U{0009}' <= ch <= '\U{000D}')
    || ch == ' ' || ch == '\U{0085}' || ch == '\U{00A0}' || ch == '\U{1680}'
    || ('\U{2000}' <= ch <= '\U{200A}')
    || ch == '\U{2028}' || ch == '\U{2029}' || ch == '\U{202F}' || ch == '\U{205F}' || ch == '\U{3000}'
  }

  /** `s.TrimStart()`: the suffix left after dropping leading white space. */
  function TrimStart(s: string): (r: string)
    ensures |r| <= |s| && r == s[|s| - |r|..]
    ensures forall i :: 0 <= i < |s| - |r| ==> IsWhiteSpace(s[i])
    ensures r == [] || !IsWhiteSpace(r[0])
    decreases |s|
  {
    if s != [] && IsWhiteSpace(s[0]) then TrimStart(s[1..]) else s
  }

  /** `s.TrimEnd()`: the prefix left after dropping trailing white space. */
  function TrimEnd(s: string): (r: string)
    ensures |r| <= |s| && r == s[..|r|]
    ensures forall i :: |r| <= i < |s| ==> IsWhiteSpace(s[i])
    ensures r == [] || !IsWhiteSpace(r[|r| - 1])
    decreases |s|
  {
    if s != [] && IsWhiteSpace(s[|s| - 1]) then TrimEnd(s[..|s| - 1]) else s
  }

  /** `s.Trim()`. */
  function Trim(s: string): (r: string)
    ensures r == [] || (!IsWhiteSpace(r[0]) && !IsWhiteSpace(r[|r| - 1]))
  {
    TrimEnd(TrimStart(s))
  }

  /** Trimming twice is trimming once. */
  lemma {:induction false} TrimIdempotent(s: string)
    ensures Trim(Trim(s)) == Trim(s)
  {
    var r := Trim(s);
    if r != [] {
      assert TrimStart(r) == r;
      assert TrimEnd(r) == r;
    }
  }

  /** Trim empties exactly the strings made only of white space. */
  lemma {:induction false} TrimEmpty(s: string)
    ensures Trim(s) == [] <==> forall i :: 0 <= i < |s| ==> IsWhiteSpace(s[i])
  {
    var t := TrimStart(s);
    if t != [] {
      assert !IsWhiteSpace(s[|s| - |t|]);
    }
  }

  /** Trim empties a slice exactly when every character in it is white space. */
  lemma {:induction false} TrimSliceEmpty(s: string, a: nat, b: nat)
    requires a <= b <= |s|
    ensures Trim(s[a..b]) == [] <==> forall j :: a <= j < b ==> IsWhiteSpace(s[j])
  {
    var middle := s[a..b];
    TrimEmpty(middle);
    forall j | a <= j < b ensures s[j] == middle[j - a] {}
  }

  // ---------------------------------------------------------------------------
  // string.ToLower()
  // ---------------------------------------------------------------------------

  /** Lower-case of one character; only 'A'..'Z' change. */
  function LowerChar(ch: char): (r: char)
    ensures 'A' <= ch <= 'Z' ==> 'a' <= r <= 'z'
  {
    if 'A' <= ch <= 'Z' then (ch as int - 'A' as int + 'a' as int) as char else ch
  }

  /** `s.ToLower()`, character by character. */
  function ToLower(s: string): (r: string)
    ensures |r| == |s|
    ensures forall i :: 0 <= i < |s| ==> r[i] == LowerChar(s[i])
  {
    seq(|s|, i requires 0 <= i < |s| => LowerChar(s[i]))
  }
}
