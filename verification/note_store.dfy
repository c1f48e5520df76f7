/**
 * The note store of app.py over an abstract data directory: `DATA_DIR` either exists or not,
 * and holds label directories, each holding files with a text and a modification time.
 * `Store` is the directory; its methods are `ensure_data_dir_and_label`, `get_current_labels`,
 * `save_note`, `get_notes`, `delete_note_file`, `update_note_content`, the checks of
 * `add_label_route` and the filters of `notes_route`. The clock, the uuid and file
 * modification times are parameters.
 */
module NoteStore {
  import opened Wrappers
  import opened Text
  import opened NoteFormat
  import opened Listing

  /** A file in a label directory: its text and the `isoformat()` of its modification time. */
  datatype FileEntry = FileEntry(text: string, mtime: string)

  /** Why `add_label_route` refuses a name (app.py:185-192). */
  datatype LabelError = EmptyName | InvalidCharacters | AlreadyExists

  /** Label directory name to file name to file. */
  type Dirs = map<string, map<string, FileEntry>>

  /** A name `DATA_DIR / name` resolves to an entry of its own: not empty, not `.` or `..`, no `/`. */
  predicate IsPathComponent(name: string) {
    name != "" && name != "." && name != ".." && '/' !in name
  }

  /** Every label directory and every file in one has a plain name. */
  predicate WellNamed(dirs: Dirs) {
    forall l :: l in dirs ==> IsPathComponent(l) && forall f :: f in dirs[l] ==> IsPathComponent(f)
  }

  // ---------------------------------------------------------------- the directory changes, as values

  /** The directories after `label_dir.mkdir(exist_ok=True)`: `""`, `.` and `..` name existing directories. */
  function Ensured(dirs: Dirs, labelName: string): (r: Dirs)
    ensures r.Keys == if IsPathComponent(labelName) then dirs.Keys + {labelName} else dirs.Keys
    ensures forall l :: l in dirs ==> r[l] == dirs[l]
    ensures labelName in r ==> (labelName in dirs && r[labelName] == dirs[labelName]) || r[labelName] == map[]
  {
    if IsPathComponent(labelName) && labelName !in dirs then dirs[labelName := map[]] else dirs
  }

  /** The directories after writing `entry` to `labelName/filename`, replacing any file there. */
  function Written(dirs: Dirs, labelName: string, filename: string, entry: FileEntry): (r: Dirs)
    requires labelName in dirs
    ensures r.Keys == dirs.Keys
    ensures filename in r[labelName] && r[labelName][filename] == entry
    ensures r[labelName].Keys == dirs[labelName].Keys + {filename}
    ensures forall l, f :: l in dirs && f in dirs[l] && (l, f) != (labelName, filename) ==> f in r[l] && r[l][f] == dirs[l][f]
    ensures forall l :: l in dirs && l != labelName ==> r[l] == dirs[l]
  {
    dirs[labelName := dirs[labelName][filename := entry]]
  }

  /** The directories after unlinking `labelName/filename` and removing the directory if it is left empty. */
  function Removed(dirs: Dirs, labelName: string, filename: string): Dirs
    requires labelName in dirs
  {
    var rest := dirs[labelName] - {filename};
    if rest.Keys == {} then dirs - {labelName} else dirs[labelName := rest]
  }

  /**
   * Deleting removes that one file and nothing else, and its label directory disappears
   * exactly when no other file was left in it (app.py:133-138).
   */
  lemma RemovedSpec(dirs: Dirs, labelName: string, filename: string)
    requires labelName in dirs
    ensures var r := Removed(dirs, labelName, filename);
            (forall l :: l in r <==> l in dirs && (l != labelName || dirs[labelName].Keys - {filename} != {})) &&
            (forall l, f :: l in r && f in r[l] <==> l in dirs && f in dirs[l] && (l, f) != (labelName, filename)) &&
            (forall l, f :: l in r && f in r[l] ==> r[l][f] == dirs[l][f])
  {
    var rest := dirs[labelName] - {filename};
    assert rest.Keys == dirs[labelName].Keys - {filename};
  }

  /** Deleting a freshly saved note gives back the directories as they were, when its label already held other files or did not exist. */
  lemma SaveThenDelete(dirs: Dirs, labelName: string, filename: string, entry: FileEntry)
    requires IsPathComponent(labelName)
    requires labelName in dirs ==> filename !in dirs[labelName] && dirs[labelName].Keys != {}
    ensures var saved := Written(Ensured(dirs, labelName), labelName, filename, entry);
            Removed(saved, labelName, filename) == dirs
  {
    var saved := Written(Ensured(dirs, labelName), labelName, filename, entry);
    var rest := saved[labelName] - {filename};
    if labelName in dirs {
      assert rest == dirs[labelName];
      assert rest.Keys != {};
    } else {
      assert rest.Keys == {};
      assert saved - {labelName} == dirs;
    }
  }

  // ---------------------------------------------------------------- update_note_content's new text

  /**
   * The text `update_note_content` writes over `current` (app.py:153-167), or `None` where it
   * fails: a text starting with `---` and holding `---` plus a blank line keeps everything
   * through the first such delimiter; any other text gets a fresh header whose title is the
   * first line of the new content cut to 50, which fails for empty content (`splitlines()[0]`).
   */
  function Rewrite(current: string, labelName: string, newContent: string, now: string): (r: Option<string>)
    ensures r.None? <==> newContent == "" && !(StartsWith(current, "---") && Contains(current, "---\n\n"))
    ensures r.Some? ==> StartsWith(r.value, "---") && |newContent| <= |r.value| && r.value[|r.value| - |newContent|..] == newContent
  {
    if StartsWith(current, "---") && Contains(current, "---\n\n") then
      var r := current[..Find(current, "---\n\n").value + 5] + newContent;
      assert r[..3] == current[..3];
      Some(r)
    else if newContent == "" then None
    else
      var r := Layout(now, labelName, Take(FirstSplitLine(newContent), InferredTitleLimit), newContent);
      assert r[..3] == "---";
      Some(r)
  }

  /** Where `---` and a blank line starts, so does a `---` line. */
  lemma ClosingDelimiterOpensLine(s: string, i: nat)
    requires IsAt(s, "---\n\n", i)
    ensures IsAt(s, "---\n", i) && Contains(s, "---\n")
  {
    assert s[i..i + 4] == s[i..i + 5][..4];
    assert IsAt(s, "---\n", i);
  }

  /** Text through the first closing delimiter, then a new body, splits into the same metadata and the new body. */
  lemma KeptSplit(current: string, newContent: string)
    requires Contains(current, "---\n\n")
    ensures var r := current[..Find(current, "---\n\n").value + 5] + newContent;
            SplitHeader(r) == Split(SplitHeader(current).metadata, newContent) && Contains(r, "---\n")
  {
    var i := Find(current, "---\n\n").value;
    var r := current[..i + 5] + newContent;
    FindKeepsPrefix(current, "---\n\n", newContent);
    assert r[..i] == current[..i] && r[i + 5..] == newContent;
    ClosingDelimiterOpensLine(r, i);
  }

  /**
   * Keeping the header: `update_note_content` reads the stored text in text mode, and when it
   * keeps the header the updated text splits into the same metadata and the new body. Read
   * back, it decodes to the same label, the new content and, when the header stores them, the
   * same timestamp and title. A header without a timestamp line takes the file's new
   * modification time instead.
   */
  lemma RewriteKeepsHeader(stored: string, labelName: string, newContent: string, now: string,
                           dirLabel: string, filename: string, mtimeBefore: string, mtimeAfter: string)
    requires var current := ReadNewlines(stored);
             StartsWith(current, "---") && Contains(current, "---\n\n")
    ensures var current := ReadNewlines(stored);
            var r := Rewrite(current, labelName, newContent, now);
            r.Some? && SplitHeader(r.value) == Split(SplitHeader(current).metadata, newContent)
    ensures var current := ReadNewlines(stored);
            var r := Rewrite(current, labelName, newContent, now).value;
            var kept := Metadata(SplitHeader(current).metadata);
            var before := Decode(current, dirLabel, filename, mtimeBefore);
            var after := Decode(ReadNewlines(r), dirLabel, filename, mtimeAfter);
            after.timestamp == (if "timestamp" in kept then before.timestamp else mtimeAfter) &&
            after.labelName == before.labelName &&
            after.content == Strip(ReadNewlines(newContent)) &&
            ("title" in kept ==> after.title == before.title)
  {
    var current := ReadNewlines(stored);
    ReadNewlinesClean(stored);
    var i := Find(current, "---\n\n").value;
    var prefix := current[..i + 5];
    assert '\r' !in prefix && prefix[|prefix| - 1] == '\n';
    ReadNewlinesAppend(prefix, newContent);
    ReadNewlinesPlain(prefix);
    KeptSplit(current, newContent);
    KeptSplit(current, ReadNewlines(newContent));
    ClosingDelimiterOpensLine(current, i);
  }

  /**
   * A fresh header: the updated text is the layout `save_note` writes, with the given label,
   * the update time and the first line of the new content cut to 50 characters as title; so
   * it decodes to those values when they are safe header values.
   */
  lemma RewriteFreshHeader(current: string, labelName: string, newContent: string, now: string,
                           dirLabel: string, filename: string, mtime: string)
    requires !(StartsWith(current, "---") && Contains(current, "---\n\n")) && newContent != ""
    ensures var title := Take(FirstSplitLine(newContent), InferredTitleLimit);
            Rewrite(current, labelName, newContent, now) == Some(Layout(now, labelName, title, newContent))
    ensures var title := Take(FirstSplitLine(newContent), InferredTitleLimit);
            SafeValue(now) && SafeValue(labelName) && SafeValue(title) && title != "" ==>
            Decode(Rewrite(current, labelName, newContent, now).value, dirLabel, filename, mtime)
            == Note(now, labelName, title, Strip(newContent), filename)
    ensures var title := Take(FirstSplitLine(newContent), InferredTitleLimit);
            SafeValue(now) && SafeValue(labelName) && SafeValue(title) && title != "" &&
            '\r' !in now && '\r' !in labelName ==>
            Decode(ReadNewlines(Rewrite(current, labelName, newContent, now).value), dirLabel, filename, mtime)
            == Note(now, labelName, title, Strip(ReadNewlines(newContent)), filename)
  {
    var title := Take(FirstSplitLine(newContent), InferredTitleLimit);
    if SafeValue(now) && SafeValue(labelName) && SafeValue(title) && title != "" {
      DecodeLayout(now, labelName, title, newContent, dirLabel, filename, mtime);
      if '\r' !in now && '\r' !in labelName {
        assert '\r' !in title by {
          assert forall i :: 0 <= i < |title| ==> title[i] == FirstSplitLine(newContent)[i];
        }
        ReadLayout(now, labelName, title, newContent);
        DecodeLayout(now, labelName, title, ReadNewlines(newContent), dirLabel, filename, mtime);
      }
    }
  }

  /** Updating twice where the header is kept is updating once with the second content. */
  lemma RewriteTwice(current: string, labelName: string, first: string, second: string, now1: string, now2: string)
    requires StartsWith(current, "---") && Contains(current, "---\n\n")
    ensures var once := Rewrite(current, labelName, first, now1).value;
            Rewrite(once, labelName, second, now2) == Rewrite(current, labelName, second, now1)
  {
    var i := Find(current, "---\n\n").value;
    var once := current[..i + 5] + first;
    FindKeepsPrefix(current, "---\n\n", first);
    assert once[..i + 5] == current[..i + 5];
    assert once[..3] == current[..3];
    assert IsAt(once, "---\n\n", i);
  }

  /**
   * Two calls of `update_note_content` on a note with a kept header: the second reads back
   * what the first wrote, and writes what one update with the second content would.
   */
  lemma UpdateTwice(stored: string, labelName: string, first: string, second: string, now1: string, now2: string)
    requires var current := ReadNewlines(stored);
             StartsWith(current, "---") && Contains(current, "---\n\n")
    ensures var current := ReadNewlines(stored);
            var once := Rewrite(current, labelName, first, now1).value;
            Rewrite(ReadNewlines(once), labelName, second, now2) == Rewrite(current, labelName, second, now1)
  {
    var current := ReadNewlines(stored);
    ReadNewlinesClean(stored);
    var i := Find(current, "---\n\n").value;
    var prefix := current[..i + 5];
    assert '\r' !in prefix && prefix[|prefix| - 1] == '\n';
    ReadNewlinesAppend(prefix, first);
    ReadNewlinesPlain(prefix);
    RewriteTwice(current, labelName, ReadNewlines(first), second, now1, now2);
  }

  // ---------------------------------------------------------------- add_label_route's checks

  /** The checks of app.py:184-192 on the raw `label_name`, giving the stripped name when it may be added. */
  function CheckNewLabel(raw: string, existing: set<string>): (r: Result<string, LabelError>)
    ensures r.Ok? <==> Strip(raw) != "" && '/' !in Strip(raw) && '\\' !in Strip(raw) && Strip(raw) !in existing
    ensures r.Ok? ==> r.value == Strip(raw)
    ensures r == Err(EmptyName) <==> Strip(raw) == ""
    ensures r == Err(InvalidCharacters) <==> Strip(raw) != "" && ('/' in Strip(raw) || '\\' in Strip(raw))
    ensures r == Err(AlreadyExists) <==>
              Strip(raw) != "" && '/' !in Strip(raw) && '\\' !in Strip(raw) && Strip(raw) in existing
  {
    var name := Strip(raw);
    if name == "" then Err(EmptyName)
    else if '/' in name || '\\' in name then Err(InvalidCharacters)
    else if name in existing then Err(AlreadyExists)
    else Ok(name)
  }

  /**
   * Adding a label that passed the checks makes a second attempt fail as already existing,
   * except for `.` and `..`, which pass the checks but name no new directory.
   */
  lemma AddLabelTwice(raw: string, dirs: Dirs)
    requires CheckNewLabel(raw, dirs.Keys).Ok?
    ensures var name := Strip(raw);
            CheckNewLabel(raw, Ensured(dirs, name).Keys) == if IsPathComponent(name) then Err(AlreadyExists) else Ok(name)
  {
  }

  // ---------------------------------------------------------------- listing the directory

  /** What the decoder makes of file `f` in label directory `l`, read back in text mode (app.py:72-73). */
  function DecodeAt(dirs: Dirs, l: string, f: string): Note
    requires l in dirs && f in dirs[l]
  {
    Decode(ReadNewlines(dirs[l][f].text), l, f, dirs[l][f].mtime)
  }

  /**
   * `found` is what the loops of app.py:67-123 append while visiting `paths`: every `*.md`
   * file of every label directory once, label directories in sorted order, files within one
   * in whatever order `glob` yields them.
   */
  ghost predicate IsScan(dirs: Dirs, paths: seq<(string, string)>, found: seq<Note>) {
    Decodes(dirs, paths, found) &&
    (forall k :: 0 <= k < |paths| ==> IsNoteFile(paths[k].1)) &&
    (forall l, f :: l in dirs && f in dirs[l] && IsNoteFile(f) ==> (l, f) in paths) &&
    (forall j, k :: 0 <= j < k < |paths| ==> paths[j] != paths[k]) &&
    (forall j, k :: 0 <= j < k < |paths| ==> LexLe(paths[j].0, paths[k].0))
  }

  /** `notes` is what the inner loop of app.py:70-123 appends for directory `l`, visiting `files`. */
  ghost predicate DirScan(dirs: Dirs, l: string, files: seq<string>, notes: seq<Note>) {
    l in dirs && Decodes(dirs, PathsIn(l, files), notes) &&
    (forall k :: 0 <= k < |files| ==> IsNoteFile(files[k])) &&
    (forall f :: f in dirs[l] && IsNoteFile(f) ==> f in files) &&
    (forall j, k :: 0 <= j < k < |files| ==> files[j] != files[k])
  }

  /** The paths of `files` in directory `l`. */
  function PathsIn(l: string, files: seq<string>): (r: seq<(string, string)>)
    ensures |r| == |files| && forall k :: 0 <= k < |r| ==> r[k] == (l, files[k])
  {
    seq(|files|, k requires 0 <= k < |files| => (l, files[k]))
  }

  /** Each path names a file of the store, and the note beside it is that file decoded. */
  ghost predicate Decodes(dirs: Dirs, paths: seq<(string, string)>, found: seq<Note>) {
    |found| == |paths| &&
    forall k :: 0 <= k < |paths| ==>
      paths[k].0 in dirs && paths[k].1 in dirs[paths[k].0] && found[k] == DecodeAt(dirs, paths[k].0, paths[k].1)
  }

  /** Each visited path is a note file of a visited label, and its note is that file decoded. */
  ghost predicate ScanEntries(dirs: Dirs, visited: seq<string>, paths: seq<(string, string)>, found: seq<Note>) {
    Decodes(dirs, paths, found) &&
    forall k :: 0 <= k < |paths| ==> paths[k].0 in visited && IsNoteFile(paths[k].1)
  }

  /** Every note file of a visited label has been visited. */
  ghost predicate ScanCovers(dirs: Dirs, visited: seq<string>, paths: seq<(string, string)>) {
    forall l, f :: l in dirs && l in visited && f in dirs[l] && IsNoteFile(f) ==> (l, f) in paths
  }

  /** No path twice, labels in ascending order. */
  ghost predicate ScanOrdered(paths: seq<(string, string)>) {
    (forall j, k :: 0 <= j < k < |paths| ==> paths[j] != paths[k]) &&
    (forall j, k :: 0 <= j < k < |paths| ==> LexLe(paths[j].0, paths[k].0))
  }

  /** The outer loop of app.py:67-123 has visited the first `i` labels. */
  ghost predicate ScannedUpTo(dirs: Dirs, labels: seq<string>, i: nat, paths: seq<(string, string)>, found: seq<Note>)
    requires i <= |labels|
  {
    ScanEntries(dirs, labels[..i], paths, found) && ScanCovers(dirs, labels[..i], paths) && ScanOrdered(paths)
  }

  /** Decodings of two runs of paths concatenate. */
  lemma DecodesAppend(dirs: Dirs, paths: seq<(string, string)>, found: seq<Note>,
                      more: seq<(string, string)>, notes: seq<Note>)
    requires Decodes(dirs, paths, found) && Decodes(dirs, more, notes)
    ensures Decodes(dirs, paths + more, found + notes)
  {
    var paths', found' := paths + more, found + notes;
    forall k | 0 <= k < |paths'|
      ensures paths'[k].0 in dirs && paths'[k].1 in dirs[paths'[k].0] &&
              found'[k] == DecodeAt(dirs, paths'[k].0, paths'[k].1)
    {
      if k < |paths| {
        assert paths'[k] == paths[k] && found'[k] == found[k];
      } else {
        assert paths'[k] == more[k - |paths|] && found'[k] == notes[k - |paths|];
      }
    }
  }

  /** Decoding one more file of directory `l`. */
  lemma DecodesNext(dirs: Dirs, l: string, files: seq<string>, notes: seq<Note>, f: string, note: Note)
    requires Decodes(dirs, PathsIn(l, files), notes)
    requires l in dirs && f in dirs[l] && note == DecodeAt(dirs, l, f)
    ensures Decodes(dirs, PathsIn(l, files + [f]), notes + [note])
  {
    assert Decodes(dirs, [(l, f)], [note]);
    DecodesAppend(dirs, PathsIn(l, files), notes, [(l, f)], [note]);
    assert PathsIn(l, files + [f]) == PathsIn(l, files) + [(l, f)];
  }

  lemma ScanStepEntries(dirs: Dirs, visited: seq<string>, l: string, paths: seq<(string, string)>, found: seq<Note>,
                        files: seq<string>, notes: seq<Note>)
    requires ScanEntries(dirs, visited, paths, found) && DirScan(dirs, l, files, notes)
    ensures ScanEntries(dirs, visited + [l], paths + PathsIn(l, files), found + notes)
  {
    DecodesAppend(dirs, paths, found, PathsIn(l, files), notes);
    var paths' := paths + PathsIn(l, files);
    forall k | 0 <= k < |paths'|
      ensures paths'[k].0 in visited + [l] && IsNoteFile(paths'[k].1)
    {
      if k < |paths| {
        assert paths'[k] == paths[k];
      } else {
        assert paths'[k] == (l, files[k - |paths|]);
      }
    }
  }

  lemma ScanStepCovers(dirs: Dirs, visited: seq<string>, l: string, paths: seq<(string, string)>,
                       files: seq<string>, notes: seq<Note>)
    requires ScanCovers(dirs, visited, paths) && DirScan(dirs, l, files, notes)
    ensures ScanCovers(dirs, visited + [l], paths + PathsIn(l, files))
  {
    var paths' := paths + PathsIn(l, files);
    forall l2, f | l2 in dirs && l2 in visited + [l] && f in dirs[l2] && IsNoteFile(f)
      ensures (l2, f) in paths'
    {
      if l2 == l {
        var k :| 0 <= k < |files| && files[k] == f;
        assert paths'[|paths| + k] == (l, f);
      } else {
        assert (l2, f) in paths;
      }
    }
  }

  lemma ScanStepOrdered(visited: seq<string>, l: string, paths: seq<(string, string)>,
                        files: seq<string>)
    requires ScanOrdered(paths)
    requires forall k :: 0 <= k < |paths| ==> paths[k].0 in visited
    requires forall x :: x in visited ==> LexLt(x, l)
    requires forall j, k :: 0 <= j < k < |files| ==> files[j] != files[k]
    ensures ScanOrdered(paths + PathsIn(l, files))
  {
    var paths' := paths + PathsIn(l, files);
    forall j, k | 0 <= j < k < |paths'|
      ensures paths'[j] != paths'[k] && LexLe(paths'[j].0, paths'[k].0)
    {
      if k < |paths| {
        assert paths'[j] == paths[j] && paths'[k] == paths[k];
      } else if j < |paths| {
        assert paths'[j] == paths[j] && paths[j].0 in visited;
        assert paths'[k].0 == l;
        LexLtIrreflexive(l);
      } else {
        assert paths'[j] == (l, files[j - |paths|]) && paths'[k] == (l, files[k - |paths|]);
      }
    }
  }

  /** Appending the scan of the next label directory keeps the outer loop's account. */
  lemma ScanStep(dirs: Dirs, labels: seq<string>, i: nat, paths: seq<(string, string)>, found: seq<Note>,
                 files: seq<string>, notes: seq<Note>)
    requires StrictlyAscending(labels) && i < |labels|
    requires ScannedUpTo(dirs, labels, i, paths, found)
    requires DirScan(dirs, labels[i], files, notes)
    ensures ScannedUpTo(dirs, labels, i + 1, paths + PathsIn(labels[i], files), found + notes)
  {
    var l := labels[i];
    assert labels[..i + 1] == labels[..i] + [l];
    assert forall x :: x in labels[..i] ==> LexLt(x, l) by {
      forall x | x in labels[..i]
        ensures LexLt(x, l)
      {
        var m :| 0 <= m < i && labels[m] == x;
      }
    }
    ScanStepEntries(dirs, labels[..i], l, paths, found, files, notes);
    ScanStepCovers(dirs, labels[..i], l, paths, files, notes);
    ScanStepOrdered(labels[..i], l, paths, files);
  }

  /** Once every label is visited, the outer loop's account is a scan of the whole store. */
  lemma ScanComplete(dirs: Dirs, labels: seq<string>, paths: seq<(string, string)>, found: seq<Note>)
    requires forall l :: l in labels <==> l in dirs
    requires ScannedUpTo(dirs, labels, |labels|, paths, found)
    ensures IsScan(dirs, paths, found)
  {
    assert labels[..|labels|] == labels;
  }

  /** A note is listed iff it is the decoding of some `*.md` file in some label directory. */
  lemma ScanMembers(dirs: Dirs, paths: seq<(string, string)>, found: seq<Note>, n: Note)
    requires IsScan(dirs, paths, found)
    ensures n in found <==> exists l, f :: l in dirs && f in dirs[l] && IsNoteFile(f) && n == DecodeAt(dirs, l, f)
  {
    if n in found {
      var k :| 0 <= k < |found| && found[k] == n;
      assert n == DecodeAt(dirs, paths[k].0, paths[k].1);
    }
    if exists l, f :: l in dirs && f in dirs[l] && IsNoteFile(f) && n == DecodeAt(dirs, l, f) {
      var l, f :| l in dirs && f in dirs[l] && IsNoteFile(f) && n == DecodeAt(dirs, l, f);
      var k :| 0 <= k < |paths| && paths[k] == (l, f);
      assert found[k] == n;
    }
  }

  /**
   * What `notes_route` answers: newest first, and a note is in it iff it decodes some
   * `*.md` file of the store and passes the active filters.
   */
  lemma ListingSpec(dirs: Dirs, paths: seq<(string, string)>, found: seq<Note>,
                    labelFilter: Option<string>, search: Option<string>)
    requires IsScan(dirs, paths, found)
    ensures var r := FilterNotes(SortNewestFirst(found), labelFilter, search);
            NewestFirst(r) &&
            forall n :: n in r <==>
              (exists l, f :: l in dirs && f in dirs[l] && IsNoteFile(f) && n == DecodeAt(dirs, l, f)) &&
              Selected(n, labelFilter, search)
  {
    var sorted := SortNewestFirst(found);
    ScanListing(dirs, paths, found);
    FilterNotesNewestFirst(sorted, labelFilter, search);
    FilterNotesSpec(sorted, labelFilter, search);
  }

  /** What `get_notes` returns: newest first, and a note is in it iff it decodes some `*.md` file of the store. */
  lemma ScanListing(dirs: Dirs, paths: seq<(string, string)>, found: seq<Note>)
    requires IsScan(dirs, paths, found)
    ensures var sorted := SortNewestFirst(found);
            NewestFirst(sorted) &&
            forall n :: n in sorted <==> exists l, f :: l in dirs && f in dirs[l] && IsNoteFile(f) && n == DecodeAt(dirs, l, f)
  {
    var sorted := SortNewestFirst(found);
    SortNewestFirstCorrect(found);
    forall n
      ensures n in sorted <==> exists l, f :: l in dirs && f in dirs[l] && IsNoteFile(f) && n == DecodeAt(dirs, l, f)
    {
      assert n in sorted <==> multiset(sorted)[n] > 0;
      assert n in found <==> multiset(found)[n] > 0;
      ScanMembers(dirs, paths, found, n);
    }
  }

  /** A note saved with safe header values is listed as what was saved, its content stripped. */
  lemma SavedNoteListed(dirs: Dirs, content: string, labelName: string, now: string, uuidHex: string,
                        paths: seq<(string, string)>, found: seq<Note>)
    requires IsPathComponent(labelName) && IsUuidHex(uuidHex)
    requires SafeValue(now) && SafeValue(labelName) && SafeValue(SavedTitle(content)) && SavedTitle(content) != ""
    requires '\r' !in now && '\r' !in labelName && '\r' !in SavedTitle(content)
    requires var filename := NoteFilename(now, uuidHex);
             var entry := FileEntry(Layout(now, labelName, SavedTitle(content), content), now);
             IsScan(Written(Ensured(dirs, labelName), labelName, filename, entry), paths, found)
    ensures Note(now, labelName, SavedTitle(content), Strip(ReadNewlines(content)), NoteFilename(now, uuidHex)) in found
  {
    var filename := NoteFilename(now, uuidHex);
    var title := SavedTitle(content);
    var entry := FileEntry(Layout(now, labelName, title, content), now);
    var saved := Written(Ensured(dirs, labelName), labelName, filename, entry);
    ReadLayout(now, labelName, title, content);
    DecodeLayout(now, labelName, title, ReadNewlines(content), labelName, filename, now);
    assert DecodeAt(saved, labelName, filename) == Note(now, labelName, title, Strip(ReadNewlines(content)), filename);
    ScanMembers(saved, paths, found, Note(now, labelName, title, Strip(ReadNewlines(content)), filename));
  }

  // ---------------------------------------------------------------- the store

  class Store {
    /** Whether `DATA_DIR` exists. */
    var rootExists: bool
    /** The label directories under `DATA_DIR` and their files. */
    var dirs: Dirs

    ghost predicate Valid()
      reads this
    {
      (!rootExists ==> dirs == map[]) && WellNamed(dirs)
    }

    /** A store whose data directory does not exist yet. */
    constructor ()
      ensures Valid() && !rootExists && dirs == map[]
    {
      rootExists := false;
      dirs := map[];
    }

    /** `ensure_data_dir_and_label` (app.py:25-29): the data directory, then the label directory, made if missing. */
    method EnsureLabel(labelName: string)
      requires Valid() && '/' !in labelName
      modifies this
      ensures Valid() && rootExists
      ensures dirs == Ensured(old(dirs), labelName)
    {
      rootExists := true;
      if IsPathComponent(labelName) && labelName !in dirs {
        dirs := dirs[labelName := map[]];
      }
    }

    /** `get_current_labels` (app.py:19-23): the label directory names, sorted; none without a data directory. */
    method CurrentLabels() returns (labels: seq<string>)
      requires Valid()
      ensures StrictlyAscending(labels)
      ensures forall l :: l in labels <==> l in dirs
      ensures !rootExists ==> labels == []
    {
      labels := [];
      if !rootExists {
        return;
      }
      var remaining := dirs.Keys;
      while remaining != {}
        invariant remaining <= dirs.Keys
        invariant StrictlyAscending(labels)
        invariant forall l :: l in labels <==> l in dirs && l !in remaining
        decreases |remaining|
      {
        var l :| l in remaining;
        labels := InsertLabel(l, labels);
        remaining := remaining - {l};
      }
    }

    /**
     * `save_note` (app.py:43-62) at time `now` with `uuid4().hex` equal to `uuidHex`: makes the
     * label directory if needed and writes the layout to the new file name.
     */
    method Save(content: string, labelName: string, now: string, uuidHex: string) returns (timestamp: string, filename: string)
      requires Valid() && IsPathComponent(labelName) && IsUuidHex(uuidHex) && '/' !in now
      modifies this
      ensures Valid() && rootExists
      ensures timestamp == now && filename == NoteFilename(now, uuidHex)
      ensures dirs == Written(Ensured(old(dirs), labelName), labelName, filename,
                              FileEntry(Layout(now, labelName, SavedTitle(content), content), now))
    {
      EnsureLabel(labelName);
      timestamp := now;
      filename := NoteFilename(now, uuidHex);
      var title := SavedTitle(content);
      dirs := dirs[labelName := dirs[labelName][filename := FileEntry(Layout(timestamp, labelName, title, content), now)]];
    }

    /**
     * `get_notes` (app.py:64-127): every `*.md` file of every label directory decoded, label
     * directories in sorted order, then sorted newest first.
     */
    method GetNotes() returns (notes: seq<Note>, ghost found: seq<Note>, ghost paths: seq<(string, string)>)
      requires Valid()
      ensures IsScan(dirs, paths, found)
      ensures notes == SortNewestFirst(found)
      ensures NewestFirst(notes)
      ensures forall n :: n in notes <==>
                exists l, f :: l in dirs && f in dirs[l] && IsNoteFile(f) && n == DecodeAt(dirs, l, f)
    {
      var labels := CurrentLabels();
      var acc: seq<Note> := [];
      paths := [];
      var i := 0;
      while i < |labels|
        invariant 0 <= i <= |labels|
        invariant ScannedUpTo(dirs, labels, i, paths, acc)
      {
        var dirNotes, files := ScanDirectory(labels[i]);
        ScanStep(dirs, labels, i, paths, acc, files, dirNotes);
        acc := acc + dirNotes;
        paths := paths + PathsIn(labels[i], files);
        i := i + 1;
      }
      ScanComplete(dirs, labels, paths, acc);
      ScanListing(dirs, paths, acc);
      found := acc;
      notes := SortNewestFirst(acc);
    }

    /** The inner loop of app.py:70-123: every `*.md` file of directory `l` read and decoded, in `glob` order. */
    method ScanDirectory(l: string) returns (notes: seq<Note>, ghost files: seq<string>)
      requires l in dirs
      ensures DirScan(dirs, l, files, notes)
    {
      notes, files := [], [];
      var remaining := dirs[l].Keys;
      while remaining != {}
        invariant remaining <= dirs[l].Keys
        invariant Decodes(dirs, PathsIn(l, files), notes)
        invariant forall k :: 0 <= k < |files| ==> IsNoteFile(files[k]) && files[k] !in remaining
        invariant forall f :: f in dirs[l] && IsNoteFile(f) && f !in remaining ==> f in files
        invariant forall j, k :: 0 <= j < k < |files| ==> files[j] != files[k]
        decreases |remaining|
      {
        var f :| f in remaining;
        remaining := remaining - {f};
        if IsNoteFile(f) {
          var text := ReadNewlines(dirs[l][f].text);
          var note := DecodeNote(text, l, f, dirs[l][f].mtime);
          DecodesNext(dirs, l, files, notes, f, note);
          assert f !in files;
          notes := notes + [note];
          files := files + [f];
        }
      }
    }

    /** `notes_route` (app.py:220-240): the listing, filtered by the optional `label` and `search` parameters. */
    method ListNotes(labelFilter: Option<string>, search: Option<string>)
      returns (notes: seq<Note>, ghost found: seq<Note>, ghost paths: seq<(string, string)>)
      requires Valid()
      ensures IsScan(dirs, paths, found)
      ensures notes == FilterNotes(SortNewestFirst(found), labelFilter, search)
      ensures NewestFirst(notes)
      ensures forall n :: n in notes <==>
                (exists l, f :: l in dirs && f in dirs[l] && IsNoteFile(f) && n == DecodeAt(dirs, l, f)) &&
                Selected(n, labelFilter, search)
    {
      var all;
      all, found, paths := GetNotes();
      notes := FilterNotes(all, labelFilter, search);
      ListingSpec(dirs, paths, found, labelFilter, search);
    }

    /**
     * `delete_note_file` (app.py:129-143): false when the file does not exist; otherwise the
     * file is removed, and so is its label directory if it is left empty.
     */
    method Delete(labelName: string, filename: string) returns (ok: bool)
      requires Valid() && IsPathComponent(labelName) && IsPathComponent(filename)
      modifies this
      ensures Valid() && rootExists == old(rootExists)
      ensures ok <==> labelName in old(dirs) && filename in old(dirs)[labelName]
      ensures dirs == if ok then Removed(old(dirs), labelName, filename) else old(dirs)
    {
      if labelName in dirs && filename in dirs[labelName] {
        var rest := dirs[labelName] - {filename};
        if rest.Keys == {} {
          dirs := dirs - {labelName};
        } else {
          dirs := dirs[labelName := rest];
        }
        ok := true;
      } else {
        ok := false;
      }
    }

    /**
     * `update_note_content` (app.py:146-173) at time `now`: false when the file does not exist
     * or the new text cannot be built; otherwise the file gets the rewritten text. The file
     * stays in its label directory and no directory appears or disappears.
     */
    method Update(labelName: string, filename: string, newContent: string, now: string) returns (ok: bool)
      requires Valid() && IsPathComponent(labelName) && IsPathComponent(filename)
      modifies this
      ensures Valid() && rootExists == old(rootExists) && dirs.Keys == old(dirs).Keys
      ensures ok <==> labelName in old(dirs) && filename in old(dirs)[labelName] &&
                      Rewrite(ReadNewlines(old(dirs)[labelName][filename].text), labelName, newContent, now).Some?
      ensures dirs == if ok then Written(old(dirs), labelName, filename,
                                         FileEntry(Rewrite(ReadNewlines(old(dirs)[labelName][filename].text), labelName, newContent, now).value, now))
                      else old(dirs)
    {
      ok := false;
      if labelName in dirs && filename in dirs[labelName] {
        var current := ReadNewlines(dirs[labelName][filename].text);
        var rewritten := Rewrite(current, labelName, newContent, now);
        if rewritten.Some? {
          dirs := dirs[labelName := dirs[labelName][filename := FileEntry(rewritten.value, now)]];
          ok := true;
        }
      }
    }

    /**
     * `add_label_route` (app.py:181-196) on the raw `label_name`: the checks, then the label
     * directory is made and the sorted labels returned.
     */
    method AddLabel(raw: string) returns (r: Result<seq<string>, LabelError>)
      requires Valid()
      modifies this
      ensures Valid()
      ensures CheckNewLabel(raw, old(dirs).Keys).Err? ==>
                r == Err(CheckNewLabel(raw, old(dirs).Keys).error) && dirs == old(dirs) && rootExists == old(rootExists)
      ensures CheckNewLabel(raw, old(dirs).Keys).Ok? ==>
                r.Ok? && rootExists && dirs == Ensured(old(dirs), Strip(raw)) &&
                StrictlyAscending(r.value) && (forall l :: l in r.value <==> l in dirs)
    {
      var name := Strip(raw);
      if name == "" {
        return Err(EmptyName);
      }
      if '/' in name || '\\' in name {
        return Err(InvalidCharacters);
      }
      var labels := CurrentLabels();
      if name in labels {
        return Err(AlreadyExists);
      }
      EnsureLabel(name);
      labels := CurrentLabels();
      r := Ok(labels);
    }
  }
}
