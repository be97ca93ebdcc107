/**
 * The parts of Python's `str` that the chunker and the clients rely on:
 * `strip()`, `sep.join(...)`, `split(sep)`, `splitlines()`, `title()`,
 * case-insensitive comparison and the regex word characters.
 *
 * Case folding, title casing and word characters are ASCII-only here;
 * whitespace and line boundaries follow Python's full tables.
 */
module Text {

  import opened Wrappers

  // ---------------------------------------------------------------------
  // Character classes
  // ---------------------------------------------------------------------

  /** Python's `str.isspace()`: the characters `strip()` removes. */
  predicate IsSpace(c: char) {
    || c == ' '
    || ('\t' <= c <= '\r')                   // \t \n \x0b \x0c \r
    || ('\U{1C}' <= c <= '\U{1F}')           // file, group, record, unit separators
    || c == '\U{85}' || c == '\U{A0}' || c == '\U{1680}'
    || ('\U{2000}' <= c <= '\U{200A}')
    || c == '\U{2028}' || c == '\U{2029}' || c == '\U{202F}'
    || c == '\U{205F}' || c == '\U{3000}'
  }

  /** The line boundaries of Python's `str.splitlines()` (`\r\n` is handled in `SplitLines`). */
  predicate IsLineBreak(c: char) {
    || c == '\n' || c == '\r' || c == '\U{0B}' || c == '\U{0C}'
    || c == '\U{1C}' || c == '\U{1D}' || c == '\U{1E}' || c == '\U{85}'
    || c == '\U{2028}' || c == '\U{2029}'
  }

  predicate IsUpper(c: char) { 'A' <= c <= 'Z' }

  predicate IsLower(c: char) { 'a' <= c <= 'z' }

  predicate IsLetter(c: char) { IsUpper(c) || IsLower(c) }

  predicate IsDigit(c: char) { '0' <= c <= '9' }

  /** A regex word character (`\w`): a letter, a digit or `_`. */
  predicate IsWordChar(c: char) { IsLetter(c) || IsDigit(c) || c == '_' }

  function Lower(c: char): (d: char)
    ensures IsLetter(c) <==> IsLetter(d)
    ensures !IsUpper(d)
    ensures !IsLetter(c) ==> d == c
  {
    if IsUpper(c) then (c as int + 32) as char else c
  }

  function Upper(c: char): (d: char)
    ensures IsLetter(c) <==> IsLetter(d)
    ensures !IsLower(d)
    ensures !IsLetter(c) ==> d == c
  {
    if IsLower(c) then (c as int - 32) as char else c
  }

  /** Two strings equal up to letter case, as `re.IGNORECASE` compares a literal. */
  predicate EqualsIgnoreCase(a: string, b: string) {
    |a| == |b| && forall i :: 0 <= i < |a| ==> Lower(a[i]) == Lower(b[i])
  }

  // ---------------------------------------------------------------------
  // strip()
  // ---------------------------------------------------------------------

  /** Neither end of `s` is whitespace. */
  predicate Stripped(s: string) {
    s == [] || (!IsSpace(s[0]) && !IsSpace(s[|s| - 1]))
  }

  /** Number of whitespace characters at the start of `s`. */
  function LeadingSpace(s: string): (n: nat)
    ensures n <= |s|
    ensures forall k :: 0 <= k < n ==> IsSpace(s[k])
    ensures n < |s| ==> !IsSpace(s[n])
  {
    if s == [] || !IsSpace(s[0]) then 0 else 1 + LeadingSpace(s[1..])
  }

  /** Index where the whitespace run at the end of `s` begins. */
  function TrailingSpace(s: string): (n: nat)
    ensures n <= |s|
    ensures forall k :: n <= k < |s| ==> IsSpace(s[k])
    ensures n > 0 ==> !IsSpace(s[n - 1])
  {
    if s == [] || !IsSpace(s[|s| - 1]) then |s| else TrailingSpace(s[..|s| - 1])
  }

  /** Python's `s.strip()`: the longest whitespace prefix and suffix removed. */
  function Strip(s: string): (r: string)
    ensures Stripped(r)
    ensures exists i, j ::
              && 0 <= i <= j <= |s| && r == s[i..j]
              && (forall k :: 0 <= k < i ==> IsSpace(s[k]))
              && (forall k :: j <= k < |s| ==> IsSpace(s[k]))
    ensures r == [] <==> forall k :: 0 <= k < |s| ==> IsSpace(s[k])
  {
    var i := LeadingSpace(s);
    var j := TrailingSpace(s);
    if i == |s| then
      assert s[i..i] == [];
      []
    else
      assert i < j;
      assert s[i..j][0] == s[i] && s[i..j][j - i - 1] == s[j - 1];
      s[i..j]
  }

  // ---------------------------------------------------------------------
  // sep.join(xs)
  // ---------------------------------------------------------------------

  /** Python's `sep.join(xs)`. */
  function JoinWith(xs: seq<string>, sep: string): string {
    if |xs| == 0 then ""
    else if |xs| == 1 then xs[0]
    else xs[0] + sep + JoinWith(xs[1..], sep)
  }

  // ---------------------------------------------------------------------
  // s.split(sep)
  // ---------------------------------------------------------------------

  /** `sep` occurs in `s` starting at index `j`. */
  predicate OccursAt(s: string, sep: string, j: int) {
    0 <= j && j + |sep| <= |s| && s[j..j + |sep|] == sep
  }

  /** Python's `s.find(sep)`, as an option: the leftmost occurrence. */
  function IndexOf(s: string, sep: string): (r: Option<nat>)
    ensures r.Some? ==> OccursAt(s, sep, r.value)
    ensures r.Some? ==> forall j :: 0 <= j < r.value ==> !OccursAt(s, sep, j)
    ensures r.None? ==> forall j :: !OccursAt(s, sep, j)
  {
    if |s| < |sep| then None
    else if s[..|sep|] == sep then Some(0)
    else
      OccursShift(s, sep);
      match IndexOf(s[1..], sep)
      case None => None
      case Some(i) => Some(i + 1)
  }

  /** An occurrence after the first character is an occurrence in the rest of the string. */
  lemma OccursShift(s: string, sep: string)
    requires s != []
    ensures forall j :: 1 <= j ==> (OccursAt(s, sep, j) <==> OccursAt(s[1..], sep, j - 1))
  {
    forall j | 1 <= j
      ensures OccursAt(s, sep, j) <==> OccursAt(s[1..], sep, j - 1)
    {
      if j + |sep| <= |s| {
        var a, b := s[j..j + |sep|], s[1..][j - 1..j - 1 + |sep|];
        assert |a| == |b|;
        forall k | 0 <= k < |a| ensures a[k] == b[k] {
          assert a[k] == s[j + k];
          assert b[k] == s[1..][j - 1 + k];
        }
        assert a == b;
      }
    }
  }

  /** Python's `s.split(sep)` for a non-empty separator: leftmost, non-overlapping cuts. */
  function SplitOn(s: string, sep: string): (r: seq<string>)
    requires sep != []
    ensures |r| >= 1
    decreases |s|
  {
    match IndexOf(s, sep)
    case None => [s]
    case Some(i) => [s[..i]] + SplitOn(s[i + |sep|..], sep)
  }

  /** Splitting loses nothing: joining the pieces with the separator gives back `s`. */
  lemma {:induction false} SplitOnJoin(s: string, sep: string)
    requires sep != []
    ensures JoinWith(SplitOn(s, sep), sep) == s
    decreases |s|
  {
    var found := IndexOf(s, sep);
    if found.Some? {
      var i := found.value;
      var rest := s[i + |sep|..];
      SplitOnJoin(rest, sep);
      var tail := SplitOn(rest, sep);
      assert SplitOn(s, sep) == [s[..i]] + tail;
      assert JoinWith([s[..i]] + tail, sep) == s[..i] + sep + JoinWith(tail, sep) by {
        assert ([s[..i]] + tail)[1..] == tail;
      }
      CutAround(s, i, i + |sep|);
    }
  }

  lemma CutAround(s: string, i: nat, j: nat)
    requires i <= j <= |s|
    ensures s == s[..i] + s[i..j] + s[j..]
  {
  }

  /** No piece of a split contains the separator. */
  lemma {:induction false} SplitOnPiecesFree(s: string, sep: string)
    requires sep != []
    ensures forall p, j :: p in SplitOn(s, sep) ==> !OccursAt(p, sep, j)
    decreases |s|
  {
    match IndexOf(s, sep)
    case None =>
    case Some(i) =>
      SplitOnPiecesFree(s[i + |sep|..], sep);
      forall j | OccursAt(s[..i], sep, j) ensures false {
        assert s[..i][j..j + |sep|] == s[j..j + |sep|];
        assert OccursAt(s, sep, j);
      }
  }

  /**
   * Splitting a join gives the pieces back when no piece contains the
   * separator's first character (so no occurrence can start inside a piece).
   */
  lemma {:induction false} SplitOnOfJoin(xs: seq<string>, sep: string)
    requires sep != [] && xs != []
    requires forall x :: x in xs ==> sep[0] !in x
    ensures SplitOn(JoinWith(xs, sep), sep) == xs
  {
    var s := JoinWith(xs, sep);
    var x := xs[0];
    FirstPieceFree(xs, sep);
    if |xs| == 1 {
      assert forall j :: !OccursAt(s, sep, j);
    } else {
      var rest := JoinWith(xs[1..], sep);
      SeparatorAfterFirst(xs, sep);
      assert IndexOf(s, sep) == Some(|x|);
      assert s[..|x|] == x && s[|x| + |sep|..] == rest;
      forall y | y in xs[1..] ensures sep[0] !in y { assert y in xs; }
      SplitOnOfJoin(xs[1..], sep);
      assert [x] + xs[1..] == xs;
    }
  }

  /** No occurrence of the separator starts inside the first piece of a join. */
  lemma FirstPieceFree(xs: seq<string>, sep: string)
    requires sep != [] && xs != []
    requires sep[0] !in xs[0]
    ensures forall j :: 0 <= j < |xs[0]| ==> !OccursAt(JoinWith(xs, sep), sep, j)
    ensures |xs| == 1 ==> JoinWith(xs, sep) == xs[0]
  {
    var s := JoinWith(xs, sep);
    var x := xs[0];
    assert x <= s;
    forall j | 0 <= j < |x| ensures !OccursAt(s, sep, j) {
      assert s[j] == x[j] && x[j] != sep[0];
      if j + |sep| <= |s| {
        assert s[j..j + |sep|][0] == s[j];
      }
    }
  }

  /** In a join of several pieces the separator follows the first piece. */
  lemma SeparatorAfterFirst(xs: seq<string>, sep: string)
    requires |xs| > 1
    ensures var s := JoinWith(xs, sep);
            && OccursAt(s, sep, |xs[0]|)
            && s[..|xs[0]|] == xs[0]
            && s[|xs[0]| + |sep|..] == JoinWith(xs[1..], sep)
  {
    var s := JoinWith(xs, sep);
    assert s == xs[0] + sep + JoinWith(xs[1..], sep);
    assert s[|xs[0]|..|xs[0]| + |sep|] == sep;
  }

  // ---------------------------------------------------------------------
  // s.splitlines()
  // ---------------------------------------------------------------------

  /** Index of the first line boundary in `s`, or `|s|` when there is none. */
  function FirstBreak(s: string): (n: nat)
    ensures n <= |s|
    ensures forall j :: 0 <= j < n ==> !IsLineBreak(s[j])
    ensures n < |s| ==> IsLineBreak(s[n])
  {
    if s == [] || IsLineBreak(s[0]) then 0 else 1 + FirstBreak(s[1..])
  }

  predicate NoLineBreak(s: string) {
    forall j :: 0 <= j < |s| ==> !IsLineBreak(s[j])
  }

  /** The index just past the boundary at `i`: `"\r\n"` counts as one boundary. */
  function BreakEnd(s: string, i: nat): (next: nat)
    requires i < |s|
    ensures i < next <= |s|
  {
    if s[i] == '\r' && i + 1 < |s| && s[i + 1] == '\n' then i + 2 else i + 1
  }

  /**
   * Python's `s.splitlines()`: cut at every line boundary, `\r\n` counting
   * as one; the boundaries are dropped and a final boundary opens no line.
   */
  function SplitLines(s: string): (lines: seq<string>)
    ensures forall l :: l in lines ==> NoLineBreak(l)
    ensures s == [] <==> lines == []
    decreases |s|
  {
    if s == [] then []
    else
      var i := FirstBreak(s);
      if i == |s| then [s]
      else
        var next := BreakEnd(s, i);
        [s[..i]] + SplitLines(s[next..])
  }

  /** A line boundary as `splitlines` consumes it: one boundary character, or `"\r\n"`. */
  predicate IsBoundary(b: string) {
    b == "\r\n" || (|b| == 1 && IsLineBreak(b[0]))
  }

  /**
   * The boundaries `SplitLines(s)` drops, one per line: the boundary that
   * ends that line, or `""` after a last line that has none.
   */
  function Boundaries(s: string): seq<string>
    decreases |s|
  {
    if s == [] then []
    else
      var i := FirstBreak(s);
      if i == |s| then [""]
      else
        var next := BreakEnd(s, i);
        [s[i..next]] + Boundaries(s[next..])
  }

  /** `lines[0] + bs[0] + lines[1] + bs[1] + ...` */
  function Interleave(lines: seq<string>, bs: seq<string>): string
    requires |lines| == |bs|
  {
    if lines == [] then [] else lines[0] + bs[0] + Interleave(lines[1..], bs[1..])
  }

  lemma SplitLinesStep(s: string)
    requires s != [] && FirstBreak(s) < |s|
    ensures var i := FirstBreak(s);
            var next := BreakEnd(s, i);
            SplitLines(s) == [s[..i]] + SplitLines(s[next..])
  {
  }

  lemma BoundariesStep(s: string)
    requires s != [] && FirstBreak(s) < |s|
    ensures var i := FirstBreak(s);
            var next := BreakEnd(s, i);
            Boundaries(s) == [s[i..next]] + Boundaries(s[next..])
  {
  }

  /** What `BreakEnd` cuts out at a boundary character is one boundary, and a lone `"\r"` is not followed by `"\n"`. */
  lemma BoundaryAt(s: string, i: nat)
    requires i < |s| && IsLineBreak(s[i])
    ensures IsBoundary(s[i..BreakEnd(s, i)])
    ensures s[i..BreakEnd(s, i)] == "\r" ==> BreakEnd(s, i) == |s| || s[BreakEnd(s, i)] != '\n'
  {
    var next := BreakEnd(s, i);
    if next == i + 2 {
      assert s[i..next] == [s[i], s[i + 1]];
    } else {
      assert s[i..next] == [s[i]];
    }
  }

  /** One step of `SplitLines` and `Boundaries`: the first line, its boundary and the rest. */
  lemma LinesStep(s: string) returns (i: nat, next: nat)
    requires s != [] && FirstBreak(s) < |s|
    ensures i == FirstBreak(s) < next <= |s|
    ensures SplitLines(s) == [s[..i]] + SplitLines(s[next..])
    ensures Boundaries(s) == [s[i..next]] + Boundaries(s[next..])
    ensures s == s[..i] + s[i..next] + s[next..]
    ensures IsBoundary(s[i..next])
    ensures s[i..next] == "\r" ==> s[next..] == [] || s[next..][0] != '\n'
  {
    i := FirstBreak(s);
    next := BreakEnd(s, i);
    SplitLinesStep(s);
    BoundariesStep(s);
    BoundaryAt(s, i);
    assert s == s[..i] + s[i..next] + s[next..];
  }

  /** The first line of a non-empty text, followed by its boundary, starts the text. */
  lemma FirstLineStarts(s: string)
    requires s != []
    ensures |SplitLines(s)| == |Boundaries(s)| > 0
    ensures SplitLines(s)[0] + Boundaries(s)[0] <= s
    ensures Boundaries(s)[0] != [] || SplitLines(s)[0] != []
  {
    if FirstBreak(s) < |s| {
      var i, next := LinesStep(s);
      SplitLinesRejoin(s[next..]);
    } else {
      assert SplitLines(s) == [s] && Boundaries(s) == [""];
    }
  }

  /** The text is its lines, in order, each followed by the boundary that ended it. */
  lemma {:induction false} SplitLinesRejoin(s: string)
    ensures |Boundaries(s)| == |SplitLines(s)|
    ensures Interleave(SplitLines(s), Boundaries(s)) == s
    decreases |s|
  {
    if s != [] && FirstBreak(s) < |s| {
      var i, next := LinesStep(s);
      SplitLinesRejoin(s[next..]);
    }
  }

  /** Every boundary is a real one, except that a non-empty last line may have none. */
  lemma {:induction false} BoundariesWellFormed(s: string)
    ensures |Boundaries(s)| == |SplitLines(s)|
    ensures var lines, bs := SplitLines(s), Boundaries(s);
            forall k :: 0 <= k < |bs| ==>
              IsBoundary(bs[k]) || (k == |bs| - 1 && bs[k] == "" && lines[k] != [])
    decreases |s|
  {
    SplitLinesRejoin(s);
    if s != [] && FirstBreak(s) < |s| {
      var i, next := LinesStep(s);
      var t := s[next..];
      BoundariesWellFormed(t);
      var lines, bs := SplitLines(s), Boundaries(s);
      forall k | 1 <= k < |bs|
        ensures IsBoundary(bs[k]) || (k == |bs| - 1 && bs[k] == "" && lines[k] != [])
      {
        assert bs[k] == Boundaries(t)[k - 1] && lines[k] == SplitLines(t)[k - 1];
      }
    }
  }

  /** A lone `"\r"` boundary is never followed by an empty line that `"\n"` ends. */
  lemma {:induction false} LoneCarriageReturn(s: string)
    ensures |Boundaries(s)| == |SplitLines(s)|
    ensures var lines, bs := SplitLines(s), Boundaries(s);
            forall k :: 0 <= k < |bs| - 1 && bs[k] == "\r" ==>
              !(lines[k + 1] == [] && bs[k + 1] != [] && bs[k + 1][0] == '\n')
    decreases |s|
  {
    SplitLinesRejoin(s);
    if s != [] && FirstBreak(s) < |s| {
      var i, next := LinesStep(s);
      var t := s[next..];
      LoneCarriageReturn(t);
      var lines, bs := SplitLines(s), Boundaries(s);
      if bs[0] == "\r" && 1 < |bs| {
        FirstLineStarts(t);
        assert lines[1] == SplitLines(t)[0] && bs[1] == Boundaries(t)[0];
        assert (lines[1] + bs[1])[0] == t[0];
      }
      forall k | 1 <= k < |bs| - 1 && bs[k] == "\r"
        ensures !(lines[k + 1] == [] && bs[k + 1] != [] && bs[k + 1][0] == '\n')
      {
        assert bs[k] == Boundaries(t)[k - 1] && lines[k + 1] == SplitLines(t)[k];
        assert bs[k + 1] == Boundaries(t)[k];
      }
    }
  }

  /**
   * Splitting loses nothing: the text is its lines, in order, each followed
   * by the boundary that ended it. Every boundary is one boundary character
   * or `"\r\n"`, except that the last line, when non-empty, may have none; a
   * lone `"\r"` is never followed by an empty line that a `"\n"` ends (that
   * pair is one `"\r\n"` boundary).
   */
  lemma SplitLinesMeaning(s: string)
    ensures |Boundaries(s)| == |SplitLines(s)|
    ensures Interleave(SplitLines(s), Boundaries(s)) == s
    ensures var lines, bs := SplitLines(s), Boundaries(s);
            forall k :: 0 <= k < |bs| ==>
              IsBoundary(bs[k]) || (k == |bs| - 1 && bs[k] == "" && lines[k] != [])
    ensures var lines, bs := SplitLines(s), Boundaries(s);
            forall k :: 0 <= k < |bs| - 1 && bs[k] == "\r" ==>
              !(lines[k + 1] == [] && bs[k + 1] != [] && bs[k + 1][0] == '\n')
  {
    SplitLinesRejoin(s);
    BoundariesWellFormed(s);
    LoneCarriageReturn(s);
  }

  /**
   * Pages without line boundaries, joined with `"\n"`, split back into the
   * same pages, provided the last one is not empty (a trailing empty page
   * leaves only a final `"\n"`, which opens no line).
   */
  lemma {:induction false} SplitLinesOfJoined(pages: seq<string>)
    requires forall p :: p in pages ==> NoLineBreak(p)
    requires pages != [] ==> pages[|pages| - 1] != []
    ensures SplitLines(JoinWith(pages, "\n")) == pages
  {
    if |pages| == 1 {
      assert pages[0] in pages;
      assert FirstBreak(pages[0]) == |pages[0]|;
    } else if |pages| > 1 {
      var p := pages[0];
      var rest := JoinWith(pages[1..], "\n");
      var s := p + "\n" + rest;
      assert JoinWith(pages, "\n") == s;
      assert s[|p|] == '\n';
      assert pages[0] in pages;
      assert forall j :: 0 <= j < |p| ==> s[j] == p[j];
      assert forall j :: 0 <= j < |p| ==> !IsLineBreak(s[j]);
      assert FirstBreak(s) == |p|;
      assert forall q :: q in pages[1..] ==> q in pages;
      assert s[..|p|] == p;
      assert s[|p| + 1..] == rest;
      assert pages[1..][|pages[1..]| - 1] == pages[|pages| - 1];
      SplitLinesOfJoined(pages[1..]);
      assert [p] + pages[1..] == pages;
    }
  }

  // ---------------------------------------------------------------------
  // s.title()
  // ---------------------------------------------------------------------

  /**
   * Python's `s.title()` on ASCII text: a letter is upper-cased when the
   * character before it is not a letter and lower-cased otherwise, so
   * "materials and methods" becomes "Materials And Methods".
   */
  function TitleCase(s: string): (r: string)
    ensures |r| == |s|
  {
    seq(|s|, k requires 0 <= k < |s| => if k > 0 && IsLetter(s[k - 1]) then Lower(s[k]) else Upper(s[k]))
  }

  lemma UpperOfLower(c: char)
    ensures Upper(Lower(c)) == Upper(c)
  {
  }

  /** Title case works word by word: a non-letter separates the words on each side. */
  lemma TitleCaseWords(a: string, c: char, b: string)
    requires !IsLetter(c)
    ensures TitleCase(a + [c] + b) == TitleCase(a) + [c] + TitleCase(b)
  {
    var s := a + [c] + b;
    var r := TitleCase(a) + [c] + TitleCase(b);
    forall k | 0 <= k < |s| ensures TitleCase(s)[k] == r[k] {
      if k < |a| {
        assert s[k] == a[k];
        if k > 0 { assert s[k - 1] == a[k - 1]; }
      } else if k > |a| + 1 {
        assert s[k] == b[k - |a| - 1] && s[k - 1] == b[k - |a| - 2];
      } else if k == |a| + 1 {
        assert s[k] == b[0] && s[k - 1] == c;
      }
    }
  }

  /** Title casing forgets the case of its input: case variants have one title form. */
  lemma TitleCaseIgnoresCase(a: string, b: string)
    requires EqualsIgnoreCase(a, b)
    ensures TitleCase(a) == TitleCase(b)
  {
    forall k | 0 <= k < |a| ensures TitleCase(a)[k] == TitleCase(b)[k] {
      UpperOfLower(a[k]);
      UpperOfLower(b[k]);
      if k > 0 {
        assert Lower(a[k - 1]) == Lower(b[k - 1]);
        assert IsLetter(a[k - 1]) == IsLetter(b[k - 1]) by {
          assert IsLetter(Lower(a[k - 1])) == IsLetter(a[k - 1]);
        }
      }
    }
  }

  // ---------------------------------------------------------------------
  // s[:n]
  // ---------------------------------------------------------------------

  /** Python's `s[:n]` for `n >= 0`: the first `n` characters, or all of a shorter string. */
  function Prefix(s: string, n: nat): (r: string)
    ensures |r| <= n && r <= s
    ensures |s| >= n ==> |r| == n
    ensures |s| < n ==> r == s
  {
    if |s| <= n then s else s[..n]
  }
}
