/**
 * Listing notes: Python's string order, `sorted(..., reverse=True)` on the timestamp
 * (app.py:127), `sorted` on label names (app.py:23) and the two filters of `notes_route`
 * (app.py:227-238).
 */
module Listing {
  import opened Wrappers
  import opened Text
  import opened NoteFormat

  // ---------------------------------------------------------------- string order

  /** Python's `a < b` on strings: code point by code point, a proper prefix first. */
  predicate LexLt(a: string, b: string)
    decreases |a|
  {
    if a == [] then b != []
    else if b == [] then false
    else if a[0] != b[0] then a[0] < b[0]
    else LexLt(a[1..], b[1..])
  }

  predicate LexLe(a: string, b: string) {
    a == b || LexLt(a, b)
  }

  lemma {:induction false} LexLtIrreflexive(a: string)
    ensures !LexLt(a, a)
    decreases |a|
  {
    if a != [] {
      LexLtIrreflexive(a[1..]);
    }
  }

  lemma {:induction false} LexLtTransitive(a: string, b: string, c: string)
    requires LexLt(a, b) && LexLt(b, c)
    ensures LexLt(a, c)
    decreases |a|
  {
    if a != [] && a[0] == b[0] && b[0] == c[0] {
      LexLtTransitive(a[1..], b[1..], c[1..]);
    }
  }

  /** Any two strings are equal or ordered one way: the order is total. */
  lemma {:induction false} LexTotal(a: string, b: string)
    ensures a == b || LexLt(a, b) || LexLt(b, a)
    decreases |a|
  {
    if a != [] && b != [] && a[0] == b[0] {
      LexTotal(a[1..], b[1..]);
      if a[1..] == b[1..] {
        assert a == [a[0]] + a[1..] && b == [b[0]] + b[1..];
      }
    }
  }

  /** At most one of two strings is below the other. */
  lemma {:induction false} LexLtAsymmetric(a: string, b: string)
    ensures !(LexLt(a, b) && LexLt(b, a))
    decreases |a|
  {
    if a != [] && b != [] && a[0] == b[0] {
      LexLtAsymmetric(a[1..], b[1..]);
    }
  }

  lemma LexLeTransitive(a: string, b: string, c: string)
    requires LexLe(a, b) && LexLe(b, c)
    ensures LexLe(a, c)
  {
    if a != b && b != c {
      LexLtTransitive(a, b, c);
    }
  }

  // ---------------------------------------------------------------- generic filtering

  /** A list comprehension `[x for x in s if keep(x)]`. */
  function Filter<T>(s: seq<T>, keep: T -> bool): (r: seq<T>)
    ensures |r| <= |s|
    ensures forall x :: x in r ==> keep(x)
  {
    if s == [] then []
    else if keep(s[0]) then [s[0]] + Filter(s[1..], keep)
    else Filter(s[1..], keep)
  }

  /** `sub` is `s` with some elements left out, the rest in their order. */
  ghost predicate IsSubsequence<T>(sub: seq<T>, s: seq<T>)
    decreases |s|
  {
    if sub == [] then true
    else if s == [] then false
    else (sub[0] == s[0] && IsSubsequence(sub[1..], s[1..])) || IsSubsequence(sub, s[1..])
  }

  /** A comprehension keeps each element as often as the input holds it, if it passes, and never otherwise. */
  lemma {:induction false} FilterCounts<T>(s: seq<T>, keep: T -> bool, x: T)
    ensures multiset(Filter(s, keep))[x] == if keep(x) then multiset(s)[x] else 0
    decreases |s|
  {
    if s != [] {
      FilterCounts(s[1..], keep, x);
      assert s == [s[0]] + s[1..];
    }
  }

  /** So an element is in the output iff it is in the input and passes. */
  lemma FilterMembers<T>(s: seq<T>, keep: T -> bool, x: T)
    ensures x in Filter(s, keep) <==> x in s && keep(x)
  {
    FilterCounts(s, keep, x);
  }

  /** The output of a comprehension is a subsequence of its input. */
  lemma {:induction false} FilterIsSubsequence<T>(s: seq<T>, keep: T -> bool)
    ensures IsSubsequence(Filter(s, keep), s)
    decreases |s|
  {
    if s != [] {
      FilterIsSubsequence(s[1..], keep);
      if keep(s[0]) {
        assert ([s[0]] + Filter(s[1..], keep))[1..] == Filter(s[1..], keep);
      }
    }
  }

  lemma {:induction false} SubsequenceReflexive<T>(s: seq<T>)
    ensures IsSubsequence(s, s)
    decreases |s|
  {
    if s != [] {
      SubsequenceReflexive(s[1..]);
    }
  }

  /** Every element of a subsequence is an element of the sequence. */
  lemma {:induction false} SubsequenceMembers<T>(sub: seq<T>, s: seq<T>, x: T)
    requires IsSubsequence(sub, s) && x in sub
    ensures x in s
    decreases |s|
  {
    if IsSubsequence(sub, s[1..]) {
      SubsequenceMembers(sub, s[1..], x);
    } else if x != sub[0] {
      assert x in sub[1..];
      SubsequenceMembers(sub[1..], s[1..], x);
    }
  }

  /** A subsequence of a subsequence is a subsequence: the filters compose. */
  lemma {:induction false} SubsequenceTransitive<T>(a: seq<T>, b: seq<T>, c: seq<T>)
    requires IsSubsequence(a, b) && IsSubsequence(b, c)
    ensures IsSubsequence(a, c)
    decreases |c|
  {
    if a != [] {
      if IsSubsequence(b, c[1..]) {
        SubsequenceTransitive(a, b, c[1..]);
      } else if IsSubsequence(a, b[1..]) {
        SubsequenceTransitive(a, b[1..], c[1..]);
      } else {
        SubsequenceTransitive(a[1..], b[1..], c[1..]);
      }
    }
  }

  // ---------------------------------------------------------------- newest first

  /** Every note is at least as new as every note after it, by timestamp string. */
  predicate NewestFirst(s: seq<Note>) {
    forall i, j :: 0 <= i < j < |s| ==> LexLe(s[j].timestamp, s[i].timestamp)
  }

  /** The notes of `s` stamped `t`, in order. */
  function AtTime(s: seq<Note>, t: string): (r: seq<Note>)
    ensures forall n :: n in r ==> n.timestamp == t
  {
    if s == [] then []
    else if s[0].timestamp == t then [s[0]] + AtTime(s[1..], t)
    else AtTime(s[1..], t)
  }

  /** Places `x` before the first note no newer than it: ahead of notes with its own timestamp. */
  function InsertNewest(x: Note, s: seq<Note>): (r: seq<Note>)
    ensures |r| == |s| + 1
  {
    if s == [] then [x]
    else if LexLe(s[0].timestamp, x.timestamp) then [x] + s
    else [s[0]] + InsertNewest(x, s[1..])
  }

  /** `sorted(notes, key=timestamp, reverse=True)`, a stable sort (app.py:127). */
  function SortNewestFirst(s: seq<Note>): (r: seq<Note>)
    ensures |r| == |s|
  {
    if s == [] then [] else InsertNewest(s[0], SortNewestFirst(s[1..]))
  }

  lemma {:induction false} InsertNewestOrdered(x: Note, s: seq<Note>)
    requires NewestFirst(s)
    ensures NewestFirst(InsertNewest(x, s))
    ensures forall n :: n in InsertNewest(x, s) <==> n == x || n in s
    decreases |s|
  {
    if s != [] {
      var r := InsertNewest(x, s);
      if LexLe(s[0].timestamp, x.timestamp) {
        forall j | 0 < j < |r|
          ensures LexLe(r[j].timestamp, x.timestamp)
        {
          assert r[j] == s[j - 1];
          LexLeTransitive(s[j - 1].timestamp, s[0].timestamp, x.timestamp);
        }
      } else {
        InsertNewestOrdered(x, s[1..]);
        var tail := InsertNewest(x, s[1..]);
        LexTotal(s[0].timestamp, x.timestamp);
        forall j | 0 <= j < |tail|
          ensures LexLe(tail[j].timestamp, s[0].timestamp)
        {
          assert tail[j] in tail;
          if tail[j] != x {
            var k :| 0 <= k < |s[1..]| && s[1..][k] == tail[j];
            assert s[k + 1] == tail[j];
          }
        }
        assert r == [s[0]] + tail;
      }
    }
  }

  lemma {:induction false} InsertNewestPermutes(x: Note, s: seq<Note>)
    ensures multiset(InsertNewest(x, s)) == multiset(s) + multiset{x}
    decreases |s|
  {
    if s != [] && !LexLe(s[0].timestamp, x.timestamp) {
      InsertNewestPermutes(x, s[1..]);
      assert s == [s[0]] + s[1..];
    }
  }

  /** The timestamp order is newest first and the notes are the same notes, each as often. */
  lemma {:induction false} SortNewestFirstCorrect(s: seq<Note>)
    ensures NewestFirst(SortNewestFirst(s))
    ensures multiset(SortNewestFirst(s)) == multiset(s)
    decreases |s|
  {
    if s != [] {
      SortNewestFirstCorrect(s[1..]);
      InsertNewestOrdered(s[0], SortNewestFirst(s[1..]));
      InsertNewestPermutes(s[0], SortNewestFirst(s[1..]));
      assert s == [s[0]] + s[1..];
    }
  }

  lemma {:induction false} InsertNewestAtTime(x: Note, s: seq<Note>, t: string)
    ensures AtTime(InsertNewest(x, s), t) == if x.timestamp == t then [x] + AtTime(s, t) else AtTime(s, t)
    decreases |s|
  {
    if s != [] {
      if LexLe(s[0].timestamp, x.timestamp) {
        assert ([x] + s)[1..] == s;
      } else {
        InsertNewestAtTime(x, s[1..], t);
        assert s[0].timestamp != x.timestamp;
        assert ([s[0]] + InsertNewest(x, s[1..]))[1..] == InsertNewest(x, s[1..]);
      }
    }
  }

  /** Stability: notes with equal timestamps keep the order in which they were read. */
  lemma {:induction false} SortNewestFirstStable(s: seq<Note>, t: string)
    ensures AtTime(SortNewestFirst(s), t) == AtTime(s, t)
    decreases |s|
  {
    if s != [] {
      SortNewestFirstStable(s[1..], t);
      InsertNewestAtTime(s[0], SortNewestFirst(s[1..]), t);
    }
  }

  lemma NewestFirstTail(s: seq<Note>)
    requires s != [] && NewestFirst(s)
    ensures NewestFirst(s[1..])
    ensures forall n :: n in s[1..] ==> LexLe(n.timestamp, s[0].timestamp)
  {
    forall i, j | 0 <= i < j < |s[1..]|
      ensures LexLe(s[1..][j].timestamp, s[1..][i].timestamp)
    {
      assert s[1..][i] == s[i + 1] && s[1..][j] == s[j + 1];
    }
    forall n | n in s[1..]
      ensures LexLe(n.timestamp, s[0].timestamp)
    {
      var k :| 0 <= k < |s[1..]| && s[1..][k] == n;
      assert s[k + 1] == n;
    }
  }

  /** A subsequence of a newest-first list is newest first: the filters keep the order. */
  lemma {:induction false} SubsequenceNewestFirst(sub: seq<Note>, s: seq<Note>)
    requires IsSubsequence(sub, s) && NewestFirst(s)
    ensures NewestFirst(sub)
    decreases |s|
  {
    if sub != [] {
      NewestFirstTail(s);
      if IsSubsequence(sub, s[1..]) {
        SubsequenceNewestFirst(sub, s[1..]);
      } else {
        SubsequenceNewestFirst(sub[1..], s[1..]);
        forall j | 0 < j < |sub|
          ensures LexLe(sub[j].timestamp, sub[0].timestamp)
        {
          assert sub[1..][j - 1] == sub[j];
          SubsequenceMembers(sub[1..], s[1..], sub[j]);
        }
        forall i, j | 0 < i < j < |sub|
          ensures LexLe(sub[j].timestamp, sub[i].timestamp)
        {
          assert sub[1..][i - 1] == sub[i] && sub[1..][j - 1] == sub[j];
        }
      }
    }
  }

  // ---------------------------------------------------------------- the filters of notes_route

  /** `label_filter and label_filter != 'all'`: the label filter applies (app.py:228). */
  predicate LabelFilterActive(labelFilter: Option<string>) {
    labelFilter.Some? && labelFilter.value != "" && labelFilter.value != "all"
  }

  /** The search test of app.py:232-237: the lower-cased term in the content, the title or a non-empty label. */
  predicate MatchesSearch(note: Note, term: string) {
    var t := Lower(term);
    Contains(Lower(note.content), t) || Contains(Lower(note.title), t)
    || (note.labelName != "" && Contains(Lower(note.labelName), t))
  }

  /** The test of the label comprehension, app.py:229. */
  function HasLabel(labelName: string): Note -> bool {
    (n: Note) => n.labelName == labelName
  }

  /** The test of the search comprehension, app.py:233-238. */
  function Matches(term: string): Note -> bool {
    (n: Note) => MatchesSearch(n, term)
  }

  /** The notes `notes_route` returns for the query parameters `label` and `search` (app.py:222-240). */
  function FilterNotes(notes: seq<Note>, labelFilter: Option<string>, search: Option<string>): (r: seq<Note>)
    ensures |r| <= |notes|
  {
    var byLabel := if LabelFilterActive(labelFilter) then Filter(notes, HasLabel(labelFilter.value)) else notes;
    if search.Some? && search.value != "" then Filter(byLabel, Matches(search.value)) else byLabel
  }

  /** The note passes the filters that are active. */
  predicate Selected(n: Note, labelFilter: Option<string>, search: Option<string>) {
    (LabelFilterActive(labelFilter) ==> n.labelName == labelFilter.value)
    && (search.Some? && search.value != "" ==> MatchesSearch(n, search.value))
  }

  /**
   * The filters keep exactly the notes that pass, each as often as it was listed, in the
   * listed order; an absent, empty or `all` label and an absent or empty search keep everything.
   */
  lemma FilterNotesSpec(notes: seq<Note>, labelFilter: Option<string>, search: Option<string>)
    ensures var r := FilterNotes(notes, labelFilter, search);
            IsSubsequence(r, notes) &&
            (forall n :: multiset(r)[n] == if Selected(n, labelFilter, search) then multiset(notes)[n] else 0) &&
            (forall n :: n in r <==> n in notes && Selected(n, labelFilter, search))
    ensures !LabelFilterActive(labelFilter) && (search.None? || search.value == "") ==> FilterNotes(notes, labelFilter, search) == notes
  {
    var byLabel := if LabelFilterActive(labelFilter) then Filter(notes, HasLabel(labelFilter.value)) else notes;
    var r := FilterNotes(notes, labelFilter, search);
    if LabelFilterActive(labelFilter) {
      FilterIsSubsequence(notes, HasLabel(labelFilter.value));
    } else {
      SubsequenceReflexive(notes);
    }
    if search.Some? && search.value != "" {
      FilterIsSubsequence(byLabel, Matches(search.value));
      SubsequenceTransitive(r, byLabel, notes);
    }
    forall n
      ensures multiset(r)[n] == if Selected(n, labelFilter, search) then multiset(notes)[n] else 0
    {
      if LabelFilterActive(labelFilter) {
        FilterCounts(notes, HasLabel(labelFilter.value), n);
      }
      if search.Some? && search.value != "" {
        FilterCounts(byLabel, Matches(search.value), n);
      }
    }
  }

  /** The listing `notes_route` returns is still newest first. */
  lemma FilterNotesNewestFirst(notes: seq<Note>, labelFilter: Option<string>, search: Option<string>)
    requires NewestFirst(notes)
    ensures NewestFirst(FilterNotes(notes, labelFilter, search))
  {
    FilterNotesSpec(notes, labelFilter, search);
    SubsequenceNewestFirst(FilterNotes(notes, labelFilter, search), notes);
  }

  // ---------------------------------------------------------------- sorted label names

  /** Strictly ascending: sorted and without repeats, as `sorted` of distinct directory names is. */
  predicate StrictlyAscending(s: seq<string>) {
    forall i, j :: 0 <= i < j < |s| ==> LexLt(s[i], s[j])
  }

  /** Adds `x` to an ascending list at its place; a name already present is not repeated. */
  function InsertLabel(x: string, s: seq<string>): (r: seq<string>)
    requires StrictlyAscending(s)
    ensures StrictlyAscending(r)
    ensures forall y :: y in r <==> y == x || y in s
    decreases |s|
  {
    if s == [] then [x]
    else if x == s[0] then s
    else if LexLt(x, s[0]) then
      var r := [x] + s;
      assert forall j :: 0 < j < |r| ==> LexLt(x, r[j]) by {
        forall j | 0 < j < |r|
          ensures LexLt(x, r[j])
        {
          if j > 1 {
            LexLtTransitive(x, s[0], s[j - 1]);
          }
        }
      }
      r
    else
      var tail := InsertLabel(x, s[1..]);
      var r := [s[0]] + tail;
      LexTotal(x, s[0]);
      assert forall j :: 0 < j < |r| ==> LexLt(s[0], r[j]) by {
        forall j | 0 < j < |r|
          ensures LexLt(s[0], r[j])
        {
          assert r[j] == tail[j - 1] && r[j] in tail;
          if r[j] != x {
            var k :| 0 <= k < |s[1..]| && s[1..][k] == r[j];
            assert s[k + 1] == r[j];
          }
        }
      }
      r
  }

  /** The first name of an ascending list is below every other name in it. */
  lemma AscendingHead(s: seq<string>, x: string)
    requires StrictlyAscending(s) && s != [] && x in s
    ensures LexLe(s[0], x)
    ensures x != s[0] ==> x in s[1..]
  {
    var k :| 0 <= k < |s| && s[k] == x;
    if k > 0 {
      assert s[1..][k - 1] == x;
    }
  }

  /** Two strictly ascending lists of the same names are the same list: `sorted` has one answer. */
  lemma {:induction false} StrictlyAscendingUnique(a: seq<string>, b: seq<string>)
    requires StrictlyAscending(a) && StrictlyAscending(b)
    requires forall x :: x in a <==> x in b
    ensures a == b
    decreases |a|
  {
    if a != [] {
      assert a[0] in a && a[0] in b;
      AscendingHead(a, b[0]);
      AscendingHead(b, a[0]);
      LexLtAsymmetric(a[0], b[0]);
      assert a[0] == b[0];
      forall x
        ensures x in a[1..] <==> x in b[1..]
      {
        LexLtIrreflexive(x);
        if x in a[1..] {
          var k :| 0 <= k < |a[1..]| && a[1..][k] == x;
          assert a[k + 1] == x && LexLt(a[0], x);
          AscendingHead(b, x);
        }
        if x in b[1..] {
          var k :| 0 <= k < |b[1..]| && b[1..][k] == x;
          assert b[k + 1] == x && LexLt(b[0], x);
          AscendingHead(a, x);
        }
      }
      StrictlyAscendingUnique(a[1..], b[1..]);
      assert a == [a[0]] + a[1..] && b == [b[0]] + b[1..];
    } else {
      forall x
        ensures multiset(b)[x] == 0
      {
        assert x !in a;
      }
      assert multiset(b) == multiset{};
    }
  }
}
