/**
 * How one note is written to its file and read back (app.py `save_note` and the body of the
 * loop in `get_notes`). Encoding builds the file name, the title and the text layout;
 * decoding never fails and falls back to directory, file-name and modification-time defaults.
 */
module NoteFormat {
  import opened Wrappers
  import opened Text

  /** A listed note, as the dictionaries `get_notes` returns. */
  datatype Note = Note(timestamp: string, labelName: string, title: string, content: string, filename: string)

  /** The part of a note file before the body and the body itself, as split by the decoder. */
  datatype Split = Split(metadata: string, body: string)

  /** A header line `key: value`, both sides stripped. */
  datatype Field = Field(key: string, value: string)

  /** A saved title keeps at most this many characters of the first line. */
  const SavedTitleLimit := 70
  /** A title or stem inferred while reading keeps at most this many characters. */
  const InferredTitleLimit := 50

  // ---------------------------------------------------------------- file names

  predicate IsHexDigit(c: char) {
    '0' <= c <= '9' || 'a' <= c <= 'f'
  }

  /** `uuid.uuid4().hex`: 32 lower-case hexadecimal digits. */
  predicate IsUuidHex(s: string) {
    |s| == 32 && forall i :: 0 <= i < |s| ==> IsHexDigit(s[i])
  }

  /** The file extension `glob("*.md")` selects. */
  predicate IsNoteFile(name: string) {
    |name| >= 3 && name[|name| - 3..] == ".md"
  }

  /** The index of the last `.` in `name`. */
  function LastDot(name: string): (r: Option<nat>)
    ensures r.Some? ==> r.value < |name| && name[r.value] == '.'
    ensures r.Some? ==> forall i :: r.value < i < |name| ==> name[i] != '.'
    ensures r.None? ==> '.' !in name
  {
    if name == [] then None
    else if name[|name| - 1] == '.' then Some(|name| - 1)
    else
      var r := LastDot(name[..|name| - 1]);
      assert r.None? ==> name == name[..|name| - 1] + [name[|name| - 1]];
      r
  }

  /** `Path(name).stem`: the name without its last suffix; a leading or trailing dot is no suffix. */
  function Stem(name: string): string {
    match LastDot(name)
    case Some(i) => if 0 < i < |name| - 1 then name[..i] else name
    case None => name
  }

  /** The stem of a note file is its name without `.md` (unless the name is `.md` itself). */
  lemma NoteFileStem(name: string)
    requires IsNoteFile(name) && |name| > 3
    ensures Stem(name) == name[..|name| - 3]
  {
    assert name[|name| - 3] == '.' && name[|name| - 2] == 'm' && name[|name| - 1] == 'd';
    assert LastDot(name) == Some(|name| - 3);
  }

  /** `timestamp.replace(':', '-').replace('.', '-')`. */
  function SanitizeTimestamp(timestamp: string): (r: string)
    ensures |r| == |timestamp| && ':' !in r && '.' !in r
    ensures forall i :: 0 <= i < |r| && timestamp[i] != ':' && timestamp[i] != '.' ==> r[i] == timestamp[i]
    ensures forall i :: 0 <= i < |r| && (timestamp[i] == ':' || timestamp[i] == '.') ==> r[i] == '-'
  {
    seq(|timestamp|, i requires 0 <= i < |timestamp| =>
      if timestamp[i] == ':' || timestamp[i] == '.' then '-' else timestamp[i])
  }

  /** The name `save_note` gives a new note file (app.py:48). */
  function NoteFilename(timestamp: string, uuidHex: string): (r: string)
    requires IsUuidHex(uuidHex)
    ensures IsNoteFile(r) && |r| == |timestamp| + 12
    ensures Stem(r) == SanitizeTimestamp(timestamp) + "-" + uuidHex[..8]
    ensures ':' !in r && '.' !in Stem(r)
  {
    var stem := SanitizeTimestamp(timestamp) + "-" + uuidHex[..8];
    var r := stem + ".md";
    assert r[|r| - 3..] == ".md" && r[..|r| - 3] == stem;
    NoteFileStem(r);
    assert forall i :: 0 <= i < 8 ==> IsHexDigit(uuidHex[i]);
    r
  }

  // ---------------------------------------------------------------- encoding

  /** The title `save_note` stores: the first line, cut to 70 characters plus `...` when longer (app.py:51-52). */
  function SavedTitle(content: string): (r: string)
    ensures '\n' !in r && |r| <= SavedTitleLimit + 3
    ensures |FirstLine(content)| <= SavedTitleLimit ==> r == FirstLine(content)
    ensures |FirstLine(content)| > SavedTitleLimit ==> |r| == SavedTitleLimit + 3 && r[SavedTitleLimit..] == "..."
    ensures var n := if |r| < SavedTitleLimit then |r| else SavedTitleLimit; r[..n] == content[..n]
  {
    var line := FirstLine(content);
    if |line| > SavedTitleLimit then line[..SavedTitleLimit] + "..." else line
  }

  /** The header `save_note` writes, up to the closing delimiter line (app.py:55-59). */
  function MetadataBlock(timestamp: string, labelName: string, title: string): string {
    "---\n" + "timestamp: " + timestamp + "\n" + "label: " + labelName + "\n" + "title: " + title + "\n"
  }

  /** The whole text `save_note` writes: header, `---`, a blank line, then the content unchanged (app.py:54-61). */
  function Layout(timestamp: string, labelName: string, title: string, content: string): (r: string)
    ensures StartsWith(r, "---\n")
    ensures |content| <= |r| && r[|r| - |content|..] == content
  {
    var r := MetadataBlock(timestamp, labelName, title) + "---\n\n" + content;
    assert r[..4] == "---\n";
    r
  }

  /** A header without carriage returns reads back unchanged, so only the content is translated. */
  lemma ReadLayout(timestamp: string, labelName: string, title: string, content: string)
    requires '\r' !in timestamp && '\r' !in labelName && '\r' !in title
    ensures ReadNewlines(Layout(timestamp, labelName, title, content)) == Layout(timestamp, labelName, title, ReadNewlines(content))
  {
    var head := MetadataBlock(timestamp, labelName, title) + "---\n\n";
    assert '\r' !in head;
    assert head[|head| - 1] == '\n';
    ReadNewlinesAppend(head, content);
    ReadNewlinesPlain(head);
  }

  // ---------------------------------------------------------------- decoding

  /**
   * The split of app.py:87-99: at the first `---\n\n` (metadata with every `---` removed and
   * stripped, body after it); failing that, body after the first `---\n` and no metadata;
   * failing that too, the whole text as body.
   */
  function SplitHeader(text: string): (r: Split)
    ensures |r.body| <= |text| && r.body == text[|text| - |r.body|..]
  {
    match Find(text, "---\n\n")
    case Some(i) => Split(Strip(RemoveAll(text[..i], "---")), text[i + 5..])
    case None =>
      match Find(text, "---\n")
      case Some(k) => Split("", text[k + 4..])
      case None => Split("", text)
  }

  /** A header line split at its first `": "`, or nothing for a line without one (app.py:105-108). */
  function ParseLine(line: string): Option<Field> {
    match Find(line, ": ")
    case Some(k) => Some(Field(Strip(line[..k]), Strip(line[k + 2..])))
    case None => None
  }

  /** A line gives a field iff it contains `": "`; the key and the value are the stripped text on either side of the first one. */
  lemma ParseLineSplits(line: string)
    ensures ParseLine(line).Some? <==> Contains(line, ": ")
    ensures ParseLine(line).Some? ==> exists k: nat ::
      IsAt(line, ": ", k) && (forall j: nat :: j < k ==> !IsAt(line, ": ", j)) &&
      ParseLine(line).value == Field(Strip(line[..k]), Strip(line[k + 2..]))
  {
  }

  predicate Defines(line: string, key: string) {
    ParseLine(line).Some? && ParseLine(line).value.key == key
  }

  /** One header line applied to the dictionary built so far. */
  function Apply(fields: map<string, string>, line: string): map<string, string> {
    match ParseLine(line)
    case Some(f) => fields[f.key := f.value]
    case None => fields
  }

  /** What one line does to one key: it sets the key iff it defines it, and leaves it alone otherwise. */
  lemma ApplyKey(fields: map<string, string>, line: string, key: string)
    ensures key in Apply(fields, line) <==> key in fields || Defines(line, key)
    ensures Defines(line, key) ==> Apply(fields, line)[key] == ParseLine(line).value.value
    ensures !Defines(line, key) && key in fields ==> Apply(fields, line)[key] == fields[key]
  {
  }

  /** The dictionary the header lines build, in order, a later key overwriting an earlier one. */
  function Fields(lines: seq<string>): map<string, string>
    decreases |lines|
  {
    if lines == [] then map[] else Apply(Fields(lines[..|lines| - 1]), lines[|lines| - 1])
  }

  predicate DefinedIn(lines: seq<string>, key: string) {
    exists i :: 0 <= i < |lines| && Defines(lines[i], key)
  }

  lemma DefinedInSnoc(lines: seq<string>, key: string)
    requires lines != []
    ensures DefinedIn(lines, key) <==> DefinedIn(lines[..|lines| - 1], key) || Defines(lines[|lines| - 1], key)
  {
    assert forall i :: 0 <= i < |lines| - 1 ==> lines[..|lines| - 1][i] == lines[i];
  }

  /** A key is in the dictionary iff some header line defines it. */
  lemma {:induction false} FieldsHasKey(lines: seq<string>, key: string)
    ensures key in Fields(lines) <==> DefinedIn(lines, key)
    decreases |lines|
  {
    if lines != [] {
      var n := |lines| - 1;
      FieldsHasKey(lines[..n], key);
      ApplyKey(Fields(lines[..n]), lines[n], key);
      DefinedInSnoc(lines, key);
    }
  }

  /** The value of a key is the one on the last line that defines it: a later duplicate overwrites. */
  lemma {:induction false} FieldsLastWins(lines: seq<string>, key: string, i: nat)
    requires i < |lines| && Defines(lines[i], key)
    requires forall j :: i < j < |lines| ==> !Defines(lines[j], key)
    ensures key in Fields(lines) && Fields(lines)[key] == ParseLine(lines[i]).value.value
    decreases |lines|
  {
    var n := |lines| - 1;
    var init := lines[..n];
    if i < n {
      assert forall j :: i < j < n ==> init[j] == lines[j];
      FieldsLastWins(init, key, i);
    }
    ApplyKey(Fields(init), lines[n], key);
  }

  /** The lines the header loop visits: none for empty metadata (app.py:103-104). */
  function MetadataLines(metadata: string): seq<string> {
    if metadata == "" then [] else Lines(metadata)
  }

  /** The dictionary app.py:102-109 fills from the metadata text. */
  function Metadata(metadata: string): map<string, string> {
    Fields(MetadataLines(metadata))
  }

  /** `dict.get(key, default)`. */
  function Get(m: map<string, string>, key: string, default: string): string {
    if key in m then m[key] else default
  }

  /** The title inferred when the header has none (app.py:114). */
  function InferredTitle(body: string, filename: string): (r: string)
    ensures body != "" ==> |r| >= 3 && r[|r| - 3..] == "..."
    ensures body != "" ==> |r| - 3 == Min(|FirstLine(body)|, InferredTitleLimit) && r[..|r| - 3] == FirstLine(body)[..|r| - 3]
    ensures body != "" ==> |r| - 3 <= |body| && r[..|r| - 3] == body[..|r| - 3] && '\n' !in r[..|r| - 3]
    ensures body == "" ==> |r| == Min(|Stem(filename)|, InferredTitleLimit) && r == Stem(filename)[..|r|]
  {
    if body != "" then Take(FirstLine(body), InferredTitleLimit) + "..."
    else Take(Stem(filename), InferredTitleLimit)
  }

  /** What `get_notes` makes of the text of `dirLabel/filename` whose modification time reads `mtime` (app.py:73-123). */
  function Decode(text: string, dirLabel: string, filename: string, mtime: string): Note {
    if !Contains(text, "---\n") then
      Note(mtime, dirLabel, Take(Stem(filename), InferredTitleLimit), text, filename)
    else
      var split := SplitHeader(text);
      var fields := Metadata(split.metadata);
      Note(Get(fields, "timestamp", mtime), Get(fields, "label", dirLabel),
           Get(fields, "title", InferredTitle(split.body, filename)), Strip(split.body), filename)
  }

  /** The header loop of app.py:102-109, filling the dictionary line by line. */
  method ParseMetadata(metadata: string) returns (fields: map<string, string>)
    ensures fields == Metadata(metadata)
  {
    fields := map[];
    if metadata != "" {
      var lines := Lines(metadata);
      var i := 0;
      while i < |lines|
        invariant 0 <= i <= |lines|
        invariant fields == Fields(lines[..i])
      {
        assert lines[..i + 1] == lines[..i] + [lines[i]];
        FieldsSnoc(lines[..i], lines[i]);
        var parsed := ParseLine(lines[i]);
        if parsed.Some? {
          fields := fields[parsed.value.key := parsed.value.value];
        }
        i := i + 1;
      }
      assert lines[..|lines|] == lines;
    }
  }

  /** One iteration of the `get_notes` file loop: read the header into a dictionary, then fill in defaults. */
  method DecodeNote(text: string, dirLabel: string, filename: string, mtime: string) returns (note: Note)
    ensures note == Decode(text, dirLabel, filename, mtime)
  {
    if !Contains(text, "---\n") {
      return Note(mtime, dirLabel, Take(Stem(filename), InferredTitleLimit), text, filename);
    }
    var split := SplitHeader(text);
    var fields := ParseMetadata(split.metadata);
    var timestamp := if "timestamp" in fields then fields["timestamp"] else mtime;
    var labelName := if "label" in fields then fields["label"] else dirLabel;
    var title := if "title" in fields then fields["title"] else InferredTitle(split.body, filename);
    note := Note(timestamp, labelName, title, Strip(split.body), filename);
  }

  // ---------------------------------------------------------------- round trip

  /** A header value that survives the layout: one line, no `---`, no surrounding whitespace. */
  predicate SafeValue(v: string) {
    '\n' !in v && !Contains(v, "---") && Unpadded(v)
  }

  /** The three header lines once the delimiters are removed and the text stripped. */
  function HeaderText(timestamp: string, labelName: string, title: string): string {
    JoinLines(["timestamp: " + timestamp, "label: " + labelName, "title: " + title])
  }

  /** A header line contains no `---` when its value does not. */
  lemma HeaderLineNoDashes(prefix: string, v: string)
    requires '-' !in prefix && SafeValue(v)
    ensures !Contains(prefix + v, "---")
  {
    CharAbsent(prefix, "---");
    assert prefix != [] ==> prefix[|prefix| - 1] in prefix;
    RunNotAcross(prefix, v, "---");
  }

  /** The header text holds no `---` when no value does. */
  lemma HeaderTextNoDashes(timestamp: string, labelName: string, title: string)
    requires SafeValue(timestamp) && SafeValue(labelName) && SafeValue(title)
    ensures !Contains(HeaderText(timestamp, labelName, title), "---")
  {
    var lines := ["timestamp: " + timestamp, "label: " + labelName, "title: " + title];
    HeaderLineNoDashes("timestamp: ", timestamp);
    HeaderLineNoDashes("label: ", labelName);
    HeaderLineNoDashes("title: ", title);
    JoinLinesNoRun(lines, "---");
  }

  /** Each header line parses back to its key and value. */
  lemma ParseHeaderLine(prefix: string, key: string, v: string)
    requires prefix == key + ": " && ':' !in key && key != [] && Unpadded(key) && Unpadded(v)
    ensures ParseLine(prefix + v) == Some(Field(key, v))
  {
    var line := key + ": " + v;
    assert prefix + v == line;
    StripUnpadded(key);
    StripUnpadded(v);
    FindAfterFree(key, ": ", v);
    assert line[..|key|] == key && line[|key| + 2..] == v;
  }

  lemma JoinThree(a: string, b: string, c: string)
    ensures JoinLines([a, b, c]) == a + "\n" + (b + "\n" + c)
  {
    assert [a, b, c][1..] == [b, c];
    assert [b, c][1..] == [c];
    assert JoinLines([c]) == c;
    assert JoinLines([b, c]) == b + "\n" + c;
  }

  /** The header of a saved note up to the closing `---` holds no blank line. */
  lemma HeaderNoBlank(timestamp: string, labelName: string, title: string)
    requires SafeValue(timestamp) && SafeValue(labelName) && SafeValue(title)
    ensures !Contains("---\n" + HeaderText(timestamp, labelName, title) + "\n---", "\n\n")
  {
    var h := HeaderText(timestamp, labelName, title);
    var lines := ["timestamp: " + timestamp, "label: " + labelName, "title: " + title];
    JoinThree(lines[0], lines[1], lines[2]);
    assert forall i :: 0 <= i < |lines| ==> lines[i] != [] && '\n' !in lines[i];
    JoinLinesNoBlank(lines);
    CharAbsent("---", "\n\n");
    RunNotAcross("---", "\n", "\n\n");
    RunNotAcross("---\n", h, "\n\n");
    if title == "" {
      assert h[|h| - 1] == ' ';
    } else {
      assert h[|h| - 1] == title[|title| - 1] && title[|title| - 1] in title;
    }
    RunNotAcross("\n", "---", "\n\n");
    assert "\n" + "---" == "\n---";
    RunNotAcross("---\n" + h, "\n---", "\n\n");
  }

  /** After a prefix ending in `---` and holding no blank line, `---` plus a blank line first occurs at the prefix's end. */
  lemma FindClosing(prefix: string, rest: string)
    requires |prefix| >= 3 && prefix[|prefix| - 3..] == "---" && !Contains(prefix, "\n\n")
    ensures Find(prefix + "\n\n" + rest, "---\n\n") == Some(|prefix| - 3)
  {
    var text := prefix + "\n\n" + rest;
    var pat := "---\n\n";
    var n := |prefix|;
    assert text[n - 3..n + 2] == pat;
    forall j: nat | j < n - 3
      ensures !IsAt(text, pat, j)
    {
      if j + 4 < n {
        assert text[j + 3..j + 5] == prefix[j + 3..j + 5];
        assert !IsAt(prefix, "\n\n", j + 3);
        assert text[j..j + 5][3..5] == text[j + 3..j + 5];
      } else {
        assert text[j..j + 5][3] == prefix[n - 1] == '-';
      }
    }
    FindFirst(text, pat, n - 3);
  }

  /** The first `---` and a blank line in a saved note is the one closing the header. */
  lemma LayoutDelimiter(timestamp: string, labelName: string, title: string, content: string)
    requires SafeValue(timestamp) && SafeValue(labelName) && SafeValue(title)
    ensures Find(Layout(timestamp, labelName, title, content), "---\n\n") == Some(|MetadataBlock(timestamp, labelName, title)|)
  {
    var block := MetadataBlock(timestamp, labelName, title);
    var h := HeaderText(timestamp, labelName, title);
    BlockShape(timestamp, labelName, title);
    var prefix := "---\n" + h + "\n---";
    assert block + "---" == prefix;
    assert Layout(timestamp, labelName, title, content) == prefix + "\n\n" + content;
    HeaderNoBlank(timestamp, labelName, title);
    FindClosing(prefix, content);
  }

  /** The header block is `---`, a line feed, the header text and a line feed. */
  lemma BlockShape(timestamp: string, labelName: string, title: string)
    ensures MetadataBlock(timestamp, labelName, title) == "---" + ("\n" + HeaderText(timestamp, labelName, title) + "\n")
  {
    JoinThree("timestamp: " + timestamp, "label: " + labelName, "title: " + title);
  }

  lemma FramedNoDashes(h: string)
    requires !Contains(h, "---")
    ensures !Contains("\n" + h + "\n", "---")
  {
    CharAbsent("\n", "---");
    RunNotAcross("\n", h, "---");
    RunNotAcross("\n" + h, "\n", "---");
  }

  lemma RemoveLeadingDashes(inner: string)
    requires !Contains(inner, "---")
    ensures RemoveAll("---" + inner, "---") == inner
  {
    RemoveAllAbsent(inner, "---");
    assert ("---" + inner)[3..] == inner;
    assert IsAt("---" + inner, "---", 0);
  }

  /** Removing every `---` from the header block leaves only the leading delimiter out. */
  lemma BlockWithoutDashes(timestamp: string, labelName: string, title: string)
    requires SafeValue(timestamp) && SafeValue(labelName) && SafeValue(title)
    ensures RemoveAll(MetadataBlock(timestamp, labelName, title), "---") == "\n" + HeaderText(timestamp, labelName, title) + "\n"
  {
    BlockShape(timestamp, labelName, title);
    HeaderTextNoDashes(timestamp, labelName, title);
    FramedNoDashes(HeaderText(timestamp, labelName, title));
    RemoveLeadingDashes("\n" + HeaderText(timestamp, labelName, title) + "\n");
  }

  /** Stripping the header text framed by two line feeds gives the header text. */
  lemma {:induction false} StripFramedHeader(timestamp: string, labelName: string, title: string)
    requires SafeValue(title) && title != ""
    ensures Strip("\n" + HeaderText(timestamp, labelName, title) + "\n") == HeaderText(timestamp, labelName, title)
  {
    var h := HeaderText(timestamp, labelName, title);
    var inner := "\n" + h + "\n";
    JoinThree("timestamp: " + timestamp, "label: " + labelName, "title: " + title);
    assert h[0] == 't';
    assert h[|h| - 1] == title[|title| - 1];
    assert inner[1] == h[0] && inner[|inner| - 2] == h[|h| - 1];
    assert SkipSpace(inner, 0) == 1;
    assert SkipSpaceBack(inner, 1, |inner|) == |inner| - 1;
    assert inner[1..|inner| - 1] == h;
  }

  /** With the delimiters removed and the text stripped, the header is the three `key: value` lines. */
  lemma LayoutMetadataText(timestamp: string, labelName: string, title: string)
    requires SafeValue(timestamp) && SafeValue(labelName) && SafeValue(title) && title != ""
    ensures Strip(RemoveAll(MetadataBlock(timestamp, labelName, title), "---")) == HeaderText(timestamp, labelName, title)
  {
    BlockWithoutDashes(timestamp, labelName, title);
    StripFramedHeader(timestamp, labelName, title);
  }

  /** The header text splits back into its three lines. */
  lemma HeaderTextLines(timestamp: string, labelName: string, title: string)
    requires SafeValue(timestamp) && SafeValue(labelName) && SafeValue(title)
    ensures Lines(HeaderText(timestamp, labelName, title))
         == ["timestamp: " + timestamp, "label: " + labelName, "title: " + title]
  {
    var l1, l2, l3 := "timestamp: " + timestamp, "label: " + labelName, "title: " + title;
    JoinThree(l1, l2, l3);
    LinesSingle(l3);
    LinesCons(l2, l3);
    LinesCons(l1, l2 + "\n" + l3);
  }

  /** Appending a line applies it to the dictionary of the lines before. */
  lemma FieldsSnoc(lines: seq<string>, line: string)
    ensures Fields(lines + [line]) == Apply(Fields(lines), line)
  {
    assert (lines + [line])[..|lines|] == lines;
  }

  /** A line that parses to a field sets that field. */
  lemma ApplySome(fields: map<string, string>, line: string, f: Field)
    requires ParseLine(line) == Some(f)
    ensures Apply(fields, line) == fields[f.key := f.value]
  {
  }

  /** Appending a line that parses to a field sets that field in the dictionary of the lines before. */
  lemma FieldsStep(lines: seq<string>, line: string, f: Field)
    requires ParseLine(line) == Some(f)
    ensures Fields(lines + [line]) == Fields(lines)[f.key := f.value]
  {
    FieldsSnoc(lines, line);
    ApplySome(Fields(lines), line, f);
  }

  /** Three parsed lines build the dictionary of their three fields, in order. */
  lemma ThreeFields(l1: string, l2: string, l3: string, f1: Field, f2: Field, f3: Field)
    requires ParseLine(l1) == Some(f1) && ParseLine(l2) == Some(f2) && ParseLine(l3) == Some(f3)
    ensures Fields([l1, l2, l3]) == map[f1.key := f1.value][f2.key := f2.value][f3.key := f3.value]
  {
    var empty: seq<string> := [];
    FieldsStep(empty, l1, f1);
    assert empty + [l1] == [l1];
    FieldsStep([l1], l2, f2);
    assert [l1] + [l2] == [l1, l2];
    FieldsStep([l1, l2], l3, f3);
    assert [l1, l2] + [l3] == [l1, l2, l3];
    assert Fields(empty) == map[];
  }

  // ParseHeaderLine for each of the three keys. Each instance is a lemma of its own so that
  // the facts about its literal key are proved apart from the others.

  lemma TimestampLine(v: string)
    requires Unpadded(v)
    ensures ParseLine("timestamp: " + v) == Some(Field("timestamp", v))
  {
    ParseHeaderLine("timestamp: ", "timestamp", v);
  }

  lemma LabelLine(v: string)
    requires Unpadded(v)
    ensures ParseLine("label: " + v) == Some(Field("label", v))
  {
    ParseHeaderLine("label: ", "label", v);
  }

  lemma TitleLine(v: string)
    requires Unpadded(v)
    ensures ParseLine("title: " + v) == Some(Field("title", v))
  {
    ParseHeaderLine("title: ", "title", v);
  }

  /** The three header lines, parsed in order, give back the three values. */
  lemma HeaderLineFields(timestamp: string, labelName: string, title: string)
    requires Unpadded(timestamp) && Unpadded(labelName) && Unpadded(title)
    ensures Fields(["timestamp: " + timestamp, "label: " + labelName, "title: " + title])
         == map["timestamp" := timestamp, "label" := labelName, "title" := title]
  {
    TimestampLine(timestamp);
    LabelLine(labelName);
    TitleLine(title);
    ThreeFields("timestamp: " + timestamp, "label: " + labelName, "title: " + title,
                Field("timestamp", timestamp), Field("label", labelName), Field("title", title));
  }

  lemma HeaderTextNonEmpty(timestamp: string, labelName: string, title: string)
    ensures HeaderText(timestamp, labelName, title) != ""
  {
    JoinThree("timestamp: " + timestamp, "label: " + labelName, "title: " + title);
  }

  /** The header text gives back the three values. */
  lemma HeaderTextFields(timestamp: string, labelName: string, title: string)
    requires SafeValue(timestamp) && SafeValue(labelName) && SafeValue(title)
    ensures Metadata(HeaderText(timestamp, labelName, title))
         == map["timestamp" := timestamp, "label" := labelName, "title" := title]
  {
    HeaderTextLines(timestamp, labelName, title);
    HeaderLineFields(timestamp, labelName, title);
    HeaderTextNonEmpty(timestamp, labelName, title);
  }

  /** A saved note splits into its header text and its content. */
  lemma LayoutSplit(timestamp: string, labelName: string, title: string, content: string)
    requires SafeValue(timestamp) && SafeValue(labelName) && SafeValue(title) && title != ""
    ensures SplitHeader(Layout(timestamp, labelName, title, content))
         == Split(HeaderText(timestamp, labelName, title), content)
  {
    var text := Layout(timestamp, labelName, title, content);
    var block := MetadataBlock(timestamp, labelName, title);
    LayoutDelimiter(timestamp, labelName, title, content);
    assert text == block + "---\n\n" + content;
    assert text[..|block|] == block && text[|block| + 5..] == content;
    LayoutMetadataText(timestamp, labelName, title);
  }

  /** A text with a header whose three fields are all present decodes to those fields. */
  lemma DecodeFullHeader(text: string, dirLabel: string, filename: string, mtime: string,
                         timestamp: string, labelName: string, title: string)
    requires Contains(text, "---\n")
    requires Metadata(SplitHeader(text).metadata) == map["timestamp" := timestamp, "label" := labelName, "title" := title]
    ensures Decode(text, dirLabel, filename, mtime)
         == Note(timestamp, labelName, title, Strip(SplitHeader(text).body), filename)
  {
    var fields := Metadata(SplitHeader(text).metadata);
    assert Get(fields, "timestamp", mtime) == timestamp;
    assert Get(fields, "label", dirLabel) == labelName;
    assert Get(fields, "title", InferredTitle(SplitHeader(text).body, filename)) == title;
  }

  /**
   * Round trip: decoding what `save_note` wrote gives back its timestamp, label and title,
   * and the content without surrounding whitespace, whatever directory and file the text sits in.
   */
  lemma DecodeLayout(timestamp: string, labelName: string, title: string, content: string,
                     dirLabel: string, filename: string, mtime: string)
    requires SafeValue(timestamp) && SafeValue(labelName) && SafeValue(title) && title != ""
    ensures Decode(Layout(timestamp, labelName, title, content), dirLabel, filename, mtime)
         == Note(timestamp, labelName, title, Strip(content), filename)
  {
    var text := Layout(timestamp, labelName, title, content);
    assert IsAt(text, "---\n", 0);
    LayoutSplit(timestamp, labelName, title, content);
    HeaderTextFields(timestamp, labelName, title);
    DecodeFullHeader(text, dirLabel, filename, mtime, timestamp, labelName, title);
  }

  // ---------------------------------------------------------------- decoding defaults

  /** A text without `---\n` is all content, labelled by its directory and titled by its file stem (app.py:75-85). */
  lemma DecodeHeaderless(text: string, dirLabel: string, filename: string, mtime: string)
    requires !Contains(text, "---\n")
    ensures Decode(text, dirLabel, filename, mtime)
         == Note(mtime, dirLabel, Take(Stem(filename), InferredTitleLimit), text, filename)
  {
  }

  /**
   * Once `---\n` is present the body is strictly shorter than the text: the fallback of
   * app.py:97-99 that takes the whole text as body is never reached from the decoder.
   */
  lemma SplitHeaderDropsDelimiter(text: string)
    requires Contains(text, "---\n")
    ensures |SplitHeader(text).body| + 4 <= |text|
  {
  }

  /**
   * A header never closed by `---` and a blank line gives no metadata and the body after
   * the first `---\n`, so every field takes its default (app.py:90-96, 112-114).
   */
  lemma DecodeUnterminated(text: string, dirLabel: string, filename: string, mtime: string)
    requires Contains(text, "---\n") && !Contains(text, "---\n\n")
    ensures var k := Find(text, "---\n").value;
            Decode(text, dirLabel, filename, mtime) == Note(mtime, dirLabel, InferredTitle(text[k + 4..], filename), Strip(text[k + 4..]), filename)
  {
  }

  /** A field no header line defines takes its default: modification time, directory, inferred title (app.py:112-114). */
  lemma DecodeMissingFields(text: string, dirLabel: string, filename: string, mtime: string)
    requires Contains(text, "---\n")
    ensures var lines := MetadataLines(SplitHeader(text).metadata);
            var r := Decode(text, dirLabel, filename, mtime);
            (!DefinedIn(lines, "timestamp") ==> r.timestamp == mtime) &&
            (!DefinedIn(lines, "label") ==> r.labelName == dirLabel) &&
            (!DefinedIn(lines, "title") ==> r.title == InferredTitle(SplitHeader(text).body, filename))
  {
    var lines := MetadataLines(SplitHeader(text).metadata);
    FieldsHasKey(lines, "timestamp");
    FieldsHasKey(lines, "label");
    FieldsHasKey(lines, "title");
  }

  /** A field some header line defines takes the value of the last such line (app.py:104-113). */
  lemma DecodeDefinedField(text: string, dirLabel: string, filename: string, mtime: string, i: nat)
    requires Contains(text, "---\n")
    requires var lines := MetadataLines(SplitHeader(text).metadata);
             i < |lines| && ParseLine(lines[i]).Some? &&
             forall j :: i < j < |lines| ==> !Defines(lines[j], ParseLine(lines[i]).value.key)
    ensures var f := ParseLine(MetadataLines(SplitHeader(text).metadata)[i]).value;
            var r := Decode(text, dirLabel, filename, mtime);
            (f.key == "timestamp" ==> r.timestamp == f.value) &&
            (f.key == "label" ==> r.labelName == f.value) &&
            (f.key == "title" ==> r.title == f.value)
  {
    var lines := MetadataLines(SplitHeader(text).metadata);
    FieldsLastWins(lines, ParseLine(lines[i]).value.key, i);
  }
}
