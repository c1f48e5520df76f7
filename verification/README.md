# Note store of a Flask note-taking app, in Dafny

This project models the note store of `app.py`. The store is a data directory that holds one
directory per label, and each label directory holds Markdown note files. The model covers:

- how `save_note` names a note file, titles it and lays out its text;
- how `get_notes` reads every `*.md` file back into a note, falling back to defaults for
  malformed files, and sorts the notes newest first;
- how `notes_route` filters the notes by label and by a case-insensitive search term;
- the store operations: `ensure_data_dir_and_label`, `get_current_labels`, `delete_note_file`,
  `update_note_content`, and the name checks of `add_label_route`.

The current time, the `uuid4().hex` value and each file's modification time are parameters.

Modules:

- `Wrappers` (`wrappers.dfy`): `Option` and `Result`.
- `Text` (`text.dfy`): the Python `str` operations the store relies on, over `seq<char>`:
  - `in` and `find`, slicing, `strip()`;
  - `split("\n")` and `"\n".join`, and the first element of `splitlines()`;
  - `replace(pat, "")` and `lower()`;
  - the newline translation of a file read in text mode.
- `NoteFormat` (`note_format.dfy`): encoding a note and decoding a note file, including
  - the header-parsing loop as a method;
  - the round trip: what `save_note` writes decodes back to what was saved;
  - every fallback of the decoder.
- `Listing` (`listing.dfy`): Python's string order; the stable `sorted(..., reverse=True)` on
  timestamps; `sorted` on label names; the two list comprehensions of `notes_route`, with
  ordering and subsequence properties.
- `NoteStore` (`note_store.dfy`):
  - class `Store`, whose fields are whether the data directory exists and a map from label to
    file name to file (text and modification time);
  - one method per store operation, each proved against a pure function on that map;
  - lemmas about those functions: what a deletion removes, a delete undoing a save, an update
    keeping the header, a second add of the same label.

Behaviour of the code that the model keeps as written:

- The fallback at app.py:97-99 that takes the whole text as body is modelled. It is never
  reached, because app.py:75 has already found `"---\n"` (`NoteFormat.SplitHeaderDropsDelimiter`).
- A title inferred from the body always gets `"..."` appended, even when it was not cut.
- A fresh header written by `update_note_content` cuts the title to 50 characters with no
  `"..."`, whereas `save_note` cuts a first line longer than 70 characters to 70 and adds
  `"..."`.
- On POSIX systems, where `os.linesep` is `"\n"`, files are written unchanged but read back
  in text mode (app.py:72-73, app.py:150-151): every `"\r\n"` and every lone `"\r"`
  becomes `"\n"` (`Text.ReadNewlines`). So a listed note's content has its line endings
  translated, and a saved first line holding a carriage return is listed with a different
  title.
- `add_label_route` accepts `.` and `..`: they pass every check, yet `mkdir` makes no new
  directory for them, so no label is added and a second attempt succeeds again
  (`NoteStore.AddLabelTwice`).

## Model

| member | source | states |
|---|---|---|
| Text.Find | app.py:75 | The result is the first index where the pattern occurs, and it exists iff the pattern is `in` the text |
| Text.FindKeepsPrefix | app.py:157-158 | Keeping a text through the first occurrence of a pattern and replacing the rest leaves that occurrence first |
| Text.Strip | app.py:89 | `strip()` leaves no whitespace at either end and is never longer than the text |
| Text.StripFrame | app.py:89 | `strip()` yields the slice of the text between a leading and a trailing run of whitespace |
| Text.StripUnpadded | app.py:109 | Stripping gives an unpadded string, and leaves one unchanged |
| Text.FirstLine | app.py:51 | `split('\n', 1)[0]` is the longest prefix without a line feed, and a line feed follows it unless it is the whole text |
| Text.FirstSplitLine | app.py:160 | `splitlines()[0]` is the longest prefix without a line boundary, and a boundary follows it unless it is the whole text |
| Text.Lines | app.py:104 | `split("\n")` gives at least one piece, the first being the text before the first line feed |
| Text.LinesNoNewline | app.py:104 | No piece of `split("\n")` holds a line feed |
| Text.LinesJoin | app.py:104 | Joining the pieces of `split("\n")` with line feeds gives back the text |
| Text.ReadNewlines | app.py:72-73 | A text-mode read is never longer than the stored text |
| Text.ReadNewlinesPlain | app.py:72-73 | A stored text without a carriage return reads back unchanged |
| Text.ReadNewlinesClean | app.py:72-73 | No carriage return survives a read, so reading the result again changes nothing |
| Text.ReadNewlinesAppend | app.py:150-151 | Reading a concatenation is reading each part, when the first part does not end in a carriage return |
| Text.ReadNewlinesCrLf | app.py:72-73 | A `"\r\n"` reads as one `"\n"`, and the text on either side reads as it would alone |
| Text.ReadNewlinesLoneCr | app.py:72-73 | A `"\r"` not followed by `"\n"` reads as one `"\n"`, and the text on either side reads as it would alone |
| Text.LinesCons | app.py:104 | Splitting `a + "\n" + b` gives `a` followed by the pieces of `b` when `a` has no line feed |
| Text.RemoveAllAbsent | app.py:89 | `replace("---", "")` leaves a text without `---` unchanged |
| NoteFormat.LastDot | app.py:81 | The index found holds a `.` with none after it, and none is found only when there is no `.` |
| NoteFormat.NoteFileStem | app.py:81 | The stem of a `*.md` file name is the name without `.md` |
| NoteFormat.SanitizeTimestamp | app.py:48 | Every `:` and `.` becomes `-`, every other character is kept, and the length is unchanged |
| NoteFormat.NoteFilename | app.py:48 | The name ends in `.md`, is 12 characters longer than the timestamp, and its stem is the sanitised timestamp, `-` and the first 8 hex digits |
| NoteFormat.SavedTitle | app.py:51-52 | A first line of at most 70 characters is the title; a longer one gives its first 70 characters and `...`; no line feed |
| NoteFormat.Layout | app.py:54-61 | The text starts with `---\n` and ends with the content, unmodified |
| NoteFormat.SplitHeader | app.py:87-99 | The body is always a suffix of the text |
| NoteFormat.ParseLineSplits | app.py:105-109 | A line gives a field iff it contains `": "`, and the field is the stripped text before and after the first `": "` |
| NoteFormat.ParseHeaderLine | app.py:105-109 | A line `key: value` with unpadded key and value, and no `:` in the key, parses to exactly that key and value |
| NoteFormat.ApplyKey | app.py:109 | One line sets a key iff it defines it, and otherwise leaves the key as it was |
| NoteFormat.FieldsHasKey | app.py:102-109 | A key is in the header dictionary iff some header line defines it |
| NoteFormat.FieldsLastWins | app.py:102-109 | A key's value is the one on the last line that defines it |
| NoteFormat.InferredTitle | app.py:114 | For a non-empty body: exactly the first `min(len, 50)` characters of its first line, then `...`. Otherwise: exactly the first `min(len, 50)` characters of the file stem |
| NoteFormat.ParseMetadata | app.py:102-109 | The loop fills the same dictionary as the header lines applied in order |
| NoteFormat.DecodeNote | app.py:73-123 | The imperative decoder yields the same note as `Decode` |
| NoteFormat.LayoutDelimiter | app.py:55-60 | In a saved text with safe header values, the first `---` plus blank line is the one closing the header |
| NoteFormat.BlockWithoutDashes | app.py:89 | Removing every `---` from the written header leaves the three header lines framed by line feeds |
| NoteFormat.LayoutMetadataText | app.py:89 | The stripped metadata of a saved text is exactly its three header lines |
| NoteFormat.HeaderTextFields | app.py:102-109 | The three header lines parse back to the timestamp, label and title written |
| NoteFormat.LayoutSplit | app.py:88 | A saved text splits into its header lines and the original content |
| NoteFormat.ReadLayout | app.py:54-61 | A saved text whose header values hold no carriage return reads back as the same layout around the read content |
| NoteFormat.DecodeLayout | app.py:54-61 | Round trip: decoding what `save_note` wrote gives its timestamp, label and title, and the content stripped. Needs header values with no line feed, no `---` and no surrounding whitespace, and a non-empty title |
| NoteFormat.DecodeHeaderless | app.py:75-85 | A text without `---\n` gives the modification time, the directory label, the stem cut to 50, and the whole text as content |
| NoteFormat.SplitHeaderDropsDelimiter | app.py:97-99 | Once `---\n` is present the body is at least 4 characters shorter than the text, so the whole-text fallback is never used |
| NoteFormat.DecodeUnterminated | app.py:90-96 | With no closing delimiter, the body is everything after the first `---\n`, and every field takes its default |
| NoteFormat.DecodeMissingFields | app.py:112-114 | A field no header line defines falls back to the modification time, the directory label, or the inferred title |
| NoteFormat.DecodeDefinedField | app.py:104-114 | A field some header line defines takes the value on the last line that defines it |
| Listing.LexLtIrreflexive | app.py:127 | No string is below itself |
| Listing.LexLtTransitive | app.py:127 | The string order is transitive |
| Listing.LexTotal | app.py:127 | Any two different strings are ordered one way |
| Listing.LexLtAsymmetric | app.py:127 | No two strings are each below the other |
| Listing.FilterCounts | app.py:229 | A comprehension keeps each passing element exactly as often as the input holds it, and drops every other element |
| Listing.FilterMembers | app.py:229 | An element is in a comprehension's output iff it is in the input and passes |
| Listing.FilterIsSubsequence | app.py:229 | A comprehension's output is a subsequence of its input |
| Listing.SubsequenceTransitive | app.py:228-238 | The two filters compose into a subsequence of the listing |
| Listing.SortNewestFirst | app.py:127 | `sorted` keeps the length of the listing. Its order, contents and stability are stated by the next two rows |
| Listing.SortNewestFirstCorrect | app.py:127 | The sorted listing is newest first by timestamp string and holds the same notes, each as often |
| Listing.SortNewestFirstStable | app.py:127 | Notes with equal timestamps keep the order in which they were read |
| Listing.SubsequenceNewestFirst | app.py:228-238 | A subsequence of a newest-first listing is newest first |
| Listing.FilterNotes | app.py:222-240 | The filtered listing is never longer than the listing. What it keeps is stated by `Listing.FilterNotesSpec` |
| Listing.FilterNotesSpec | app.py:222-240 | The result is a subsequence of the listing. It keeps each note passing the active filters, as often as listed, and no other note. Exact label match unless the label is absent, empty or `all`. Lower-cased term in the content, the title, or a non-empty label, unless the search is absent or empty. With no active filter the listing is unchanged |
| Listing.FilterNotesNewestFirst | app.py:227-240 | Filtering keeps the listing newest first |
| Listing.InsertLabel | app.py:23 | Inserting a name into a strictly ascending list keeps it strictly ascending, and adds exactly that name |
| Listing.StrictlyAscendingUnique | app.py:23 | Two strictly ascending lists of the same names are equal, so the sorted label list is determined |
| NoteStore.Ensured | app.py:27-29 | `mkdir(exist_ok=True)` adds the label directory iff it names a new entry, and keeps every existing directory with its files |
| NoteStore.Written | app.py:54-61 | Writing a file sets that file, and leaves every other file and the set of directories unchanged. Every other label directory is exactly as it was |
| NoteStore.RemovedSpec | app.py:133-138 | Deleting removes exactly that file, keeps every other file's text, and removes the label directory iff no other file was left |
| NoteStore.SaveThenDelete | app.py:43-62 | Deleting a just-saved note restores the store, when its label already held other files or did not exist |
| NoteStore.Rewrite | app.py:153-167 | Fails iff the text has no kept header and the new content is empty. Otherwise the new text starts with `---` and ends with the new content |
| NoteStore.RewriteKeepsHeader | app.py:150-158 | The stored text is read in text mode. A kept header leaves the same metadata, and the new content as body. Read back, the label decodes unchanged, and so do a stored timestamp and a stored title. A header without a timestamp line takes the new modification time. The content is the new content, read in text mode and stripped |
| NoteStore.RewriteFreshHeader | app.py:159-162 | Without a kept header the new text is the `save_note` layout, with the update time, the given label and the first line cut to 50 as title. When those values are safe and hold no carriage return, reading it back in text mode decodes to them, with the new content read in text mode and stripped |
| NoteStore.RewriteTwice | app.py:155-158 | On the text itself, without the read between: rewriting a text with a kept header twice equals rewriting it once with the second content |
| NoteStore.UpdateTwice | app.py:150-167 | Two updates of a stored note with a kept header, the second reading back what the first wrote in text mode, write what one update with the second content writes |
| NoteStore.CheckNewLabel | app.py:184-192 | A name passes iff, stripped, it is non-empty, has no `/` or `\`, and is not an existing label. Each refusal has its own error: an empty name; a name holding `/` or `\`; otherwise an existing label |
| NoteStore.AddLabelTwice | app.py:184-196 | After a successful add the same name is refused as already existing, except `.` and `..` |
| NoteStore.ScanMembers | app.py:67-123 | A note is listed iff it decodes some `*.md` file of some label directory |
| NoteStore.ListingSpec | app.py:220-240 | The answer of `notes_route` is newest first, and holds a note iff it decodes a stored `*.md` file and passes the filters |
| NoteStore.SavedNoteListed | app.py:43-127 | After a save with safe header values, every scan of the store (the unfiltered listing) contains the saved note, whose content is the saved content read back in text mode and stripped |
| NoteStore.Store.constructor | app.py:12 | A store whose data directory does not exist |
| NoteStore.Store.EnsureLabel | app.py:25-29 | The data directory exists afterwards, and the label directories are as `Ensured` gives them |
| NoteStore.Store.CurrentLabels | app.py:19-23 | The label names, strictly ascending, exactly the directories present; none without a data directory |
| NoteStore.Store.Save | app.py:43-62 | Returns the timestamp and the file name, and the store gains that file with the layout text, in a label directory created if needed |
| NoteStore.ScanListing | app.py:64-127 | The sorted scan is newest first, and holds a note iff it decodes some `*.md` file of some label directory |
| NoteStore.Store.GetNotes | app.py:64-127 | The notes are a scan of the store, with each `*.md` file decoded once and labels in sorted order, then sorted newest first. So they are newest first, and a note is returned iff it decodes a stored `*.md` file |
| NoteStore.Store.ScanDirectory | app.py:70-123 | Each `*.md` file of one label directory decoded once, in some order |
| NoteStore.Store.ListNotes | app.py:220-240 | The answer is the filters applied to the sorted scan. It is newest first, and holds a note iff it decodes a stored `*.md` file and passes the filters |
| NoteStore.Store.Delete | app.py:129-143 | Succeeds iff the file exists, and then the store is `Removed`. Otherwise nothing changes |
| NoteStore.Store.Update | app.py:146-173 | Succeeds iff the file exists and the new text can be built from the text read back in text mode, and then only that file changes. The set of label directories never changes |
| NoteStore.Store.AddLabel | app.py:181-196 | A refused name returns its error and changes nothing. An accepted one makes the directory and returns the sorted labels |

## Left out

- Flask is not modelled: routing, `request.json`, `jsonify`, templates and status codes.
  - The presence checks of the `/save`, `/delete` and `/update` routes are left out.
  - The `index` route's creation of the `idea` label is left out.
  - Labels and the error message are returned, but not the rest of each JSON payload. In
    particular the `"Label already exists"` reply also carries the current labels
    (app.py:192), which `AlreadyExists` does not.
- Real file-system calls are replaced by the map held in `Store`. Failures of `open`, `mkdir`,
  `unlink` and `rmdir` are left out, and so are:
  - the per-file `except` that skips an unreadable note (app.py:124-126);
  - the failure branches of delete and update (app.py:140-142, app.py:170-172).
- Entries in the data directory that are files, and subdirectories inside label directories,
  are left out.
- The timestamp of a saved note equals the file's modification time in the model. Each file
  stores the time of its last save or update.
- Strings are Python strings over all of Unicode, but two operations are exact only below
  U+0080:
  - `strip()` treats as whitespace only the characters below U+0080 that `str.isspace()`
    accepts;
  - `lower()` maps only A-Z.
  `splitlines()` is exact for every character: it also breaks at U+0085, U+2028 and U+2029.
- Writes in text mode on systems whose `os.linesep` is not `"\n"` (app.py:54, app.py:165)
  are left out: the model writes every text as given.
- Logging and the unused `markdown` and `json` imports are left out.
- Moving a note to another label on update is not modelled: the code does not implement it
  (app.py:262-268).
- Concurrency and the debug server are left out.
- NoteStore.Store.Save: requires a label that is one plain path component and a clock text
  without `/`. Labels holding `/`, or equal to `.` or `..`, address a directory other than a
  label directory, so they are outside the model.
- NoteStore.Store.EnsureLabel: requires a name without `/`, for the same reason.
- NoteStore.Store.Delete: requires a label and a file name that are plain path components, for the same reason.
- NoteStore.Store.Update: requires a label and a file name that are plain path components, for the same reason.
- NoteStore.SavedNoteListed: requires a timestamp, a label and a saved title without a
  carriage return. The read turns a carriage return in a header line into a line break, so
  such a header no longer decodes to the values written.
- NoteFormat.SplitHeader: its own contract states only that the body is a suffix. The split
  of saved texts and of unterminated headers is stated by `NoteFormat.LayoutSplit` and
  `NoteFormat.DecodeUnterminated`.
