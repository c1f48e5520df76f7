/**
 * The Python `str` operations the note store relies on, over `seq<char>`:
 * `in` and `find`, `strip()`, `split("\n")`, slicing, `replace(pat, "")` and `lower()`.
 * Whitespace is Python's `str.isspace()` restricted to code points below U+0080,
 * and case mapping is ASCII only.
 */
module Text {
  import opened Wrappers

  /** `c.isspace()` for c below U+0080: tab, LF, VT, FF, CR, the four separators U+001C..U+001F, space. */
  predicate IsSpace(c: char) {
    c == ' ' || '\t' <= c <= '\r' || '\U{1C}' <= c <= '\U{1F}'
  }

  predicate AllSpace(s: string) {
    forall i :: 0 <= i < |s| ==> IsSpace(s[i])
  }

  /** `pat` occurs in `s` starting at index `i`. */
  predicate IsAt(s: string, pat: string, i: nat) {
    i + |pat| <= |s| && s[i..i + |pat|] == pat
  }

  /** Python's `pat in s`. */
  predicate Contains(s: string, pat: string) {
    exists i: nat :: i + |pat| <= |s| && IsAt(s, pat, i)
  }

  predicate StartsWith(s: string, prefix: string) {
    IsAt(s, prefix, 0)
  }

  /** The first occurrence of `pat` in `s` at or after `k`. */
  function FindFrom(s: string, pat: string, k: nat): (r: Option<nat>)
    decreases |s| - k
    ensures r.Some? ==> k <= r.value && IsAt(s, pat, r.value)
    ensures r.Some? ==> forall j: nat :: k <= j < r.value ==> !IsAt(s, pat, j)
    ensures r.None? ==> forall j: nat :: k <= j ==> !IsAt(s, pat, j)
  {
    if |s| < k + |pat| then None
    else if IsAt(s, pat, k) then Some(k)
    else FindFrom(s, pat, k + 1)
  }

  /** Python's `s.find(pat)`, with `None` for -1: the index of the first occurrence. */
  function Find(s: string, pat: string): (r: Option<nat>)
    ensures r.Some? <==> Contains(s, pat)
    ensures r.Some? ==> IsAt(s, pat, r.value)
    ensures r.Some? ==> forall j: nat :: j < r.value ==> !IsAt(s, pat, j)
  {
    FindFrom(s, pat, 0)
  }

  /** When `a` does not hold the first character of `pat`, the first occurrence of `pat` in `a + pat + b` is right after `a`. */
  lemma {:induction false} FindAfterFree(a: string, pat: string, b: string)
    requires pat != [] && pat[0] !in a
    ensures Find(a + pat + b, pat) == Some(|a|)
  {
    var s := a + pat + b;
    assert s[|a|..|a| + |pat|] == pat;
    assert IsAt(s, pat, |a|);
    forall j: nat | j < |a|
      ensures !IsAt(s, pat, j)
    {
      assert s[j] == a[j] != pat[0];
      assert j + |pat| <= |s| ==> s[j..j + |pat|][0] == s[j];
    }
  }

  /** An occurrence with none before it is the one `Find` returns. */
  lemma FindFirst(s: string, pat: string, i: nat)
    requires IsAt(s, pat, i)
    requires forall j: nat :: j < i ==> !IsAt(s, pat, j)
    ensures Find(s, pat) == Some(i)
  {
    assert Contains(s, pat);
  }

  /** Replacing what follows the first occurrence of `pat` leaves that occurrence first. */
  lemma FindKeepsPrefix(s: string, pat: string, t: string)
    requires Find(s, pat).Some?
    ensures var i := Find(s, pat).value;
            Find(s[..i + |pat|] + t, pat) == Some(i)
  {
    var i := Find(s, pat).value;
    var u := s[..i + |pat|] + t;
    assert u[i..i + |pat|] == s[i..i + |pat|];
    forall j: nat | j < i
      ensures !IsAt(u, pat, j)
    {
      assert !IsAt(s, pat, j);
      assert u[j..j + |pat|] == s[j..j + |pat|];
    }
    FindFirst(u, pat, i);
  }

  function Min(a: int, b: int): int {
    if a <= b then a else b
  }

  /** Python's `s[:n]`. */
  function Take(s: string, n: nat): (r: string)
    ensures |r| == if |s| <= n then |s| else n
    ensures r == s[..|r|]
  {
    if |s| <= n then s else s[..n]
  }

  /** The index of the first non-whitespace character of `s` at or after `i`, or `|s|`. */
  function SkipSpace(s: string, i: nat): (j: nat)
    requires i <= |s|
    ensures i <= j <= |s| && (j < |s| ==> !IsSpace(s[j]))
    decreases |s| - i
  {
    if i < |s| && IsSpace(s[i]) then SkipSpace(s, i + 1) else i
  }

  /** The end of `s[..j]` once the whitespace before `j`, down to `lo`, is dropped. */
  function SkipSpaceBack(s: string, lo: nat, j: nat): (k: nat)
    requires lo <= j <= |s|
    ensures lo <= k <= j && (lo < k ==> !IsSpace(s[k - 1]))
  {
    if lo < j && IsSpace(s[j - 1]) then SkipSpaceBack(s, lo, j - 1) else j
  }

  /** `SkipSpace` passes over whitespace only. */
  lemma {:induction false} SkipSpaceSpaces(s: string, i: nat)
    requires i <= |s|
    ensures AllSpace(s[i..SkipSpace(s, i)])
    decreases |s| - i
  {
    if i < |s| && IsSpace(s[i]) {
      SkipSpaceSpaces(s, i + 1);
      assert s[i..SkipSpace(s, i)] == [s[i]] + s[i + 1..SkipSpace(s, i + 1)];
    }
  }

  /** `SkipSpaceBack` passes over whitespace only. */
  lemma {:induction false} SkipSpaceBackSpaces(s: string, lo: nat, j: nat)
    requires lo <= j <= |s|
    ensures AllSpace(s[SkipSpaceBack(s, lo, j)..j])
  {
    if lo < j && IsSpace(s[j - 1]) {
      SkipSpaceBackSpaces(s, lo, j - 1);
      assert s[SkipSpaceBack(s, lo, j)..j] == s[SkipSpaceBack(s, lo, j - 1)..j - 1] + [s[j - 1]];
    }
  }

  /** `s.strip()`: the slice of `s` between its leading and its trailing run of whitespace. */
  function Strip(s: string): (r: string)
    ensures |r| <= |s|
    ensures r == [] || (!IsSpace(r[0]) && !IsSpace(r[|r| - 1]))
  {
    var a := SkipSpace(s, 0);
    s[a..SkipSpaceBack(s, a, |s|)]
  }

  /** `strip` keeps a slice of `s` and removes only whitespace on either side of it. */
  lemma StripFrame(s: string)
    ensures var a := SkipSpace(s, 0); var b := SkipSpaceBack(s, a, |s|);
      Strip(s) == s[a..b] && AllSpace(s[..a]) && AllSpace(s[b..])
  {
    var a := SkipSpace(s, 0);
    var b := SkipSpaceBack(s, a, |s|);
    SkipSpaceSpaces(s, 0);
    SkipSpaceBackSpaces(s, a, |s|);
    assert s[0..a] == s[..a];
    assert s[b..|s|] == s[b..];
  }

  /** No whitespace at either end. */
  predicate Unpadded(s: string) {
    s == [] || (!IsSpace(s[0]) && !IsSpace(s[|s| - 1]))
  }

  /** Stripping leaves an unpadded string as it is, and the result of stripping is unpadded. */
  lemma StripUnpadded(s: string)
    ensures Unpadded(Strip(s))
    ensures Unpadded(s) ==> Strip(s) == s
  {
  }

  /** `s.split('\n', 1)[0]`: everything before the first line feed. */
  function FirstLine(s: string): (r: string)
    ensures |r| <= |s| && r == s[..|r|] && '\n' !in r
    ensures |r| < |s| ==> s[|r|] == '\n'
  {
    if s == [] || s[0] == '\n' then [] else [s[0]] + FirstLine(s[1..])
  }

  /**
   * The characters `str.splitlines()` breaks at: LF, VT, FF, CR, the separators
   * U+001C..U+001E, NEXT LINE, LINE SEPARATOR and PARAGRAPH SEPARATOR.
   */
  predicate IsLineBoundary(c: char) {
    '\n' <= c <= '\r' || '\U{1C}' <= c <= '\U{1E}' || c == '\U{85}' || c == '\U{2028}' || c == '\U{2029}'
  }

  /** `s.splitlines()[0]` for a non-empty `s`: everything before the first line boundary. */
  function FirstSplitLine(s: string): (r: string)
    ensures |r| <= |s| && r == s[..|r|]
    ensures forall i :: 0 <= i < |r| ==> !IsLineBoundary(r[i])
    ensures |r| < |s| ==> IsLineBoundary(s[|r|])
  {
    if s == [] || IsLineBoundary(s[0]) then [] else [s[0]] + FirstSplitLine(s[1..])
  }

  /** `"\n".join(lines)`. */
  function JoinLines(lines: seq<string>): (r: string)
    ensures lines != [] ==> |lines[0]| <= |r| && r[..|lines[0]|] == lines[0]
  {
    if lines == [] then ""
    else if |lines| == 1 then lines[0]
    else lines[0] + "\n" + JoinLines(lines[1..])
  }

  /** `s.split("\n")`: the pieces between line feeds, never an empty list. */
  function Lines(s: string): (r: seq<string>)
    decreases |s|
    ensures |r| >= 1 && r[0] == FirstLine(s)
  {
    var first := FirstLine(s);
    if |first| == |s| then [s]
    else [first] + Lines(s[|first| + 1..])
  }

  /** The pieces hold no line feed. */
  lemma {:induction false} LinesNoNewline(s: string)
    ensures forall i :: 0 <= i < |Lines(s)| ==> '\n' !in Lines(s)[i]
    decreases |s|
  {
    var first := FirstLine(s);
    if |first| < |s| {
      var rest := s[|first| + 1..];
      LinesNoNewline(rest);
      var r := Lines(s);
      assert r == [first] + Lines(rest);
      forall i | 0 <= i < |r|
        ensures '\n' !in r[i]
      {
        if i > 0 {
          assert r[i] == Lines(rest)[i - 1];
        }
      }
    }
  }

  /** Joining the pieces with line feeds gives `s` back. */
  lemma {:induction false} LinesJoin(s: string)
    ensures JoinLines(Lines(s)) == s
    decreases |s|
  {
    var first := FirstLine(s);
    if |first| < |s| {
      var rest := s[|first| + 1..];
      LinesJoin(rest);
      JoinLinesCons(first, Lines(rest));
      FirstLineSplits(s);
    }
  }

  lemma JoinLinesCons(line: string, lines: seq<string>)
    requires lines != []
    ensures JoinLines([line] + lines) == line + "\n" + JoinLines(lines)
  {
    assert ([line] + lines)[1..] == lines;
  }

  /** A line feed ends the first line: `s` is that line, the line feed and the rest. */
  lemma FirstLineSplits(s: string)
    requires |FirstLine(s)| < |s|
    ensures s == FirstLine(s) + "\n" + s[|FirstLine(s)| + 1..]
  {
    var n := |FirstLine(s)|;
    assert s == s[..n] + [s[n]] + s[n + 1..];
  }

  /** Splitting a line-feed-free prefix off. */
  lemma {:induction false} LinesCons(a: string, b: string)
    requires '\n' !in a
    ensures Lines(a + "\n" + b) == [a] + Lines(b)
  {
    var s := a + "\n" + b;
    FirstLineBeforeNewline(a, b);
    assert s[|a| + 1..] == b;
  }

  /** A string without a line feed is a single line. */
  lemma {:induction false} LinesSingle(a: string)
    requires '\n' !in a
    ensures Lines(a) == [a]
    decreases |a|
  {
    if a != [] {
      assert '\n' !in a[1..];
      LinesSingle(a[1..]);
    }
  }

  /** The first line of `a + "\n" + b` is `a` when `a` holds no line feed. */
  lemma {:induction false} FirstLineBeforeNewline(a: string, b: string)
    requires '\n' !in a
    ensures FirstLine(a + "\n" + b) == a
    decreases |a|
  {
    var s := a + "\n" + b;
    if a != [] {
      assert s[1..] == a[1..] + "\n" + b;
      assert '\n' !in a[1..];
      FirstLineBeforeNewline(a[1..], b);
      assert s[0] == a[0] != '\n';
      assert a == [a[0]] + a[1..];
    }
  }

  /** `s.replace(pat, "")`: Python scans left to right and removes each non-overlapping occurrence. */
  function RemoveAll(s: string, pat: string): (r: string)
    requires pat != []
    decreases |s|
    ensures |r| <= |s|
  {
    if |s| < |pat| then s
    else if IsAt(s, pat, 0) then RemoveAll(s[|pat|..], pat)
    else [s[0]] + RemoveAll(s[1..], pat)
  }

  /** Removing a pattern that does not occur leaves the string as it was. */
  lemma {:induction false} RemoveAllAbsent(s: string, pat: string)
    requires pat != [] && !Contains(s, pat)
    ensures RemoveAll(s, pat) == s
    decreases |s|
  {
    if |pat| <= |s| {
      assert !IsAt(s, pat, 0);
      forall i: nat | i + |pat| <= |s| - 1
        ensures !IsAt(s[1..], pat, i)
      {
        assert !IsAt(s, pat, i + 1);
        assert IsAt(s[1..], pat, i) <==> IsAt(s, pat, i + 1);
      }
      RemoveAllAbsent(s[1..], pat);
      assert s == [s[0]] + s[1..];
    }
  }

  /** A pattern made of one repeated character, like `---` or a blank line's `\n\n`. */
  predicate IsRun(pat: string) {
    pat != [] && forall i :: 0 <= i < |pat| ==> pat[i] == pat[0]
  }

  /** A slice of `a + b` that lies inside `a` or inside `b`. */
  lemma SliceOfConcat(a: string, b: string, i: nat, j: nat)
    requires i <= j <= |a| + |b|
    ensures j <= |a| ==> (a + b)[i..j] == a[i..j]
    ensures |a| <= i ==> (a + b)[i..j] == b[i - |a|..j - |a|]
  {
  }

  /** A run cannot straddle a boundary unless the character repeats on both sides of it. */
  lemma {:induction false} RunNotAcross(a: string, b: string, pat: string)
    requires IsRun(pat) && !Contains(a, pat) && !Contains(b, pat)
    requires a == [] || b == [] || a[|a| - 1] != pat[0] || b[0] != pat[0]
    ensures !Contains(a + b, pat)
  {
    var s := a + b;
    forall i: nat | i + |pat| <= |s|
      ensures !IsAt(s, pat, i)
    {
      SliceOfConcat(a, b, i, i + |pat|);
      if i + |pat| <= |a| {
        assert !IsAt(a, pat, i);
      } else if |a| <= i {
        var k: nat := i - |a|;
        assert !IsAt(b, pat, k);
      } else {
        assert s[i..i + |pat|][|a| - 1 - i] == s[|a| - 1] == a[|a| - 1];
        assert s[i..i + |pat|][|a| - i] == s[|a|] == b[0];
      }
    }
  }

  /** A string that lacks the pattern's first character does not contain it. */
  lemma CharAbsent(s: string, pat: string)
    requires pat != [] && pat[0] !in s
    ensures !Contains(s, pat)
  {
    forall i: nat | i + |pat| <= |s|
      ensures !IsAt(s, pat, i)
    {
      assert s[i..i + |pat|][0] == s[i] != pat[0];
    }
  }

  /** Lines that do not contain a run of some character other than a line feed do not contain it once joined. */
  lemma {:induction false} JoinLinesNoRun(lines: seq<string>, pat: string)
    requires IsRun(pat) && pat[0] != '\n'
    requires forall i :: 0 <= i < |lines| ==> !Contains(lines[i], pat)
    ensures !Contains(JoinLines(lines), pat)
    decreases |lines|
  {
    if |lines| > 1 {
      var rest := lines[1..];
      JoinLinesNoRun(rest, pat);
      CharAbsent("\n", pat);
      RunNotAcross(lines[0], "\n", pat);
      RunNotAcross(lines[0] + "\n", JoinLines(rest), pat);
    }
  }

  /** Non-empty lines without line feeds, once joined, hold no blank line. */
  lemma {:induction false} JoinLinesNoBlank(lines: seq<string>)
    requires forall i :: 0 <= i < |lines| ==> lines[i] != [] && '\n' !in lines[i]
    ensures !Contains(JoinLines(lines), "\n\n")
    decreases |lines|
  {
    if lines != [] {
      CharAbsent(lines[0], "\n\n");
    }
    if |lines| > 1 {
      var rest := lines[1..];
      JoinLinesNoBlank(rest);
      var l := lines[0];
      assert l[|l| - 1] in l;
      RunNotAcross(l, "\n", "\n\n");
      assert JoinLines(rest)[0] == rest[0][0];
      RunNotAcross(l + "\n", JoinLines(rest), "\n\n");
    }
  }

  // ---------------------------------------------------------------- text-mode reads

  /**
   * What a file opened in text mode reads back for the stored characters `s`: universal
   * newlines turn every "\r\n" and every lone "\r" into "\n".
   */
  function ReadNewlines(s: string): (r: string)
    ensures |r| <= |s|
  {
    if s == [] then []
    else if s[0] == '\r' then "\n" + ReadNewlines(if |s| > 1 && s[1] == '\n' then s[2..] else s[1..])
    else [s[0]] + ReadNewlines(s[1..])
  }

  /** Text without a carriage return reads back unchanged. */
  lemma {:induction false} ReadNewlinesPlain(s: string)
    requires '\r' !in s
    ensures ReadNewlines(s) == s
  {
    if s != [] {
      ReadNewlinesPlain(s[1..]);
    }
  }

  /** No carriage return survives a text-mode read, so reading twice is reading once. */
  lemma {:induction false} ReadNewlinesClean(s: string)
    ensures '\r' !in ReadNewlines(s)
    ensures ReadNewlines(ReadNewlines(s)) == ReadNewlines(s)
  {
    if s != [] {
      var rest := if s[0] == '\r' && |s| > 1 && s[1] == '\n' then s[2..] else s[1..];
      ReadNewlinesClean(rest);
    }
    ReadNewlinesPlain(ReadNewlines(s));
  }

  /** A read splits at any point that does not fall between the two characters of a "\r\n". */
  lemma {:induction false} ReadNewlinesAppend(a: string, b: string)
    requires a == [] || a[|a| - 1] != '\r'
    ensures ReadNewlines(a + b) == ReadNewlines(a) + ReadNewlines(b)
  {
    if a == [] {
      assert a + b == b;
    } else if a[0] != '\r' {
      assert (a + b)[1..] == a[1..] + b;
      ReadNewlinesAppend(a[1..], b);
    } else {
      assert |a| > 1 && (a + b)[1] == a[1];
      var n := if a[1] == '\n' then 2 else 1;
      assert (a + b)[n..] == a[n..] + b;
      ReadNewlinesAppend(a[n..], b);
    }
  }

  /** A "\r\n" at the start reads as one "\n". */
  lemma ReadCrLf(b: string)
    ensures ReadNewlines("\r\n" + b) == "\n" + ReadNewlines(b)
  {
    var t := "\r\n" + b;
    assert t[0] == '\r' && |t| > 1 && t[1] == '\n' && t[2..] == b;
  }

  /** A "\r" at the start, not followed by "\n", reads as one "\n". */
  lemma ReadLoneCr(b: string)
    requires b == [] || b[0] != '\n'
    ensures ReadNewlines("\r" + b) == "\n" + ReadNewlines(b)
  {
    var t := "\r" + b;
    assert t[0] == '\r' && t[1..] == b;
  }

  /** The translation itself: a "\r\n" reads as one "\n"... */
  lemma ReadNewlinesCrLf(a: string, b: string)
    requires a == [] || a[|a| - 1] != '\r'
    ensures ReadNewlines(a + "\r\n" + b) == ReadNewlines(a) + "\n" + ReadNewlines(b)
  {
    var t := "\r\n" + b;
    assert a + "\r\n" + b == a + t;
    ReadNewlinesAppend(a, t);
    ReadCrLf(b);
    assert ReadNewlines(a) + ("\n" + ReadNewlines(b)) == ReadNewlines(a) + "\n" + ReadNewlines(b);
  }

  /** ...and so does a "\r" not followed by "\n". */
  lemma ReadNewlinesLoneCr(a: string, b: string)
    requires a == [] || a[|a| - 1] != '\r'
    requires b == [] || b[0] != '\n'
    ensures ReadNewlines(a + "\r" + b) == ReadNewlines(a) + "\n" + ReadNewlines(b)
  {
    var t := "\r" + b;
    assert a + "\r" + b == a + t;
    ReadNewlinesAppend(a, t);
    ReadLoneCr(b);
    assert ReadNewlines(a) + ("\n" + ReadNewlines(b)) == ReadNewlines(a) + "\n" + ReadNewlines(b);
  }

  function LowerChar(c: char): char {
    if 'A' <= c <= 'Z' then (c as int + 32) as char else c
  }

  /** `s.lower()` for ASCII letters. */
  function Lower(s: string): (r: string)
    ensures |r| == |s|
    ensures forall i :: 0 <= i < |s| ==> r[i] == LowerChar(s[i])
  {
    seq(|s|, i requires 0 <= i < |s| => LowerChar(s[i]))
  }
}
