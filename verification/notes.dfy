/** The markdown note the backend writes for each entry, its filename, and
    how the entry listing reads title, preview, timestamp and id back from a
    stored note (`create_note_content`, the filename built in
    `process_transcript`, and the per-file parsing in `list_entries`). */
module Notes {
  import opened Results
  import opened PyStr
  import opened Timestamps

  /** The line that frames the transcript in a note. */
  const Separator: string := "---"

  /** `create_note_content(transcript, timestamp, title, folder, summary)`,
      given the human-readable date `strftime` makes of the timestamp: the
      header, a separator line, and the transcript framed by blank lines and
      the closing paragraph. The summary is accepted but not written. */
  function NoteContent(transcript: string, formattedDate: string, title: string,
                       folder: string, summary: string): string
  {
    Header(formattedDate, title, folder) + (Separator + Body(transcript))
  }

  /** The first line of a note. */
  function TitleLine(title: string): string {
    "# " + title
  }

  /** The date and folder lines under the title, and the blank line after them. */
  function Details(formattedDate: string, folder: string): string {
    "\n\n**Date:** " + formattedDate + "\n**Folder:** " + folder + "\n\n"
  }

  /** The header of a note, before its first separator. */
  function Header(formattedDate: string, title: string, folder: string): string {
    TitleLine(title) + Details(formattedDate, folder)
  }

  /** The paragraph after the transcript's closing separator. */
  const Paragraph: string := Separator + "\n\n*Captured with Cortex*"

  /** What follows the transcript in a note. */
  const Closing: string := "\n\n" + Paragraph + "\n"

  /** The text following the header separator of a note. */
  function Body(transcript: string): string {
    "\n\n" + (transcript + Closing)
  }

  /** `f"{dt.strftime('%Y-%m-%d_%H-%M-%S')}_{slug}.md"`. */
  function NoteFilename(dt: DateTime, slug: string): string {
    FileStamp(dt) + "_" + slug + ".md"
  }

  /** `PurePath(name).stem`: the name without its last suffix. */
  function Stem(name: string): (r: string)
    ensures r <= name
    ensures r == name || (0 < |r| < |name| - 1 && name[|r|] == '.' && '.' !in name[|r| + 1..])
    ensures (forall i :: 0 < i < |name| - 1 ==> name[i] != '.') ==> r == name
    ensures (exists i :: 0 < i < |name| - 1 && name[i] == '.' && '.' !in name[i + 1..]) ==> r != name
  {
    OccursAtChar(name, '.');
    var i := RFind(name, ".");
    if 0 < i < |name| - 1 then
      NoneAfter(name, '.', i + 1);
      name[..i]
    else name
  }

  /** The characters `lstrip("# ")` removes from the title line. */
  const TitleMarks: set<char> := {'#', ' '}

  /** `lines[0].lstrip("# ").strip() if lines else "Untitled"` with
      `lines = content.split("\n")`. */
  function TitleOf(content: string): string {
    var lines := Split(content, '\n');
    if |lines| > 0 then Strip(LStripChars(lines[0], TitleMarks)) else "Untitled"
  }

  /** The stripped text after the first separator, when that separator does
      not stand at the very start of the content. */
  function AfterSeparator(content: string): (r: Option<string>)
    ensures r.Some? <==> Find(content, Separator) > 0
  {
    var i := Find(content, Separator);
    if i > 0 then Some(Strip(content[i + |Separator|..])) else None
  }

  /** The listing's preview text as `list_entries` computes it: a second
      separator at index 0 of the remaining text is treated like a missing
      one. */
  function PreviewTextAsWritten(content: string): string {
    match AfterSeparator(content)
    case None => Prefix(content, 100)
    case Some(after) =>
      var second := Find(after, Separator);
      if second > 0 then Strip(after[..second]) else Prefix(after, 100)
  }

  /** The listing's preview text with a second separator at index 0 taken as
      an empty paragraph. */
  function PreviewText(content: string): string {
    match AfterSeparator(content)
    case None => Prefix(content, 100)
    case Some(after) =>
      var second := Find(after, Separator);
      if second >= 0 then Strip(after[..second]) else Prefix(after, 100)
  }

  /** `stem.split("_")`: the date and the time with `-` turned into `:` when
      there are two parts, otherwise the file's modification time. */
  function TimestampOf(stem: string, modified: string): string {
    var parts := Split(stem, '_');
    if |parts| >= 2 then parts[0] + "T" + ReplaceChar(parts[1], '-', ':') else modified
  }

  /** A note file as the listing finds it: the folder it lies in, its name,
      its text as a text-mode read returns it (see `ReadText`; None when
      reading fails) and the ISO text of its modification time. */
  datatype StoredNote = StoredNote(folder: string, name: string, content: Option<string>, modified: string)

  datatype EntryInfo = EntryInfo(id: string, preview: string, folder: string, timestamp: string, title: string)

  /** The body of the loop in `list_entries` for one file. */
  function EntryOf(f: StoredNote): (r: Option<EntryInfo>)
    ensures r.Some? <==> f.content.Some?
    ensures r.Some? ==> r.value.folder == f.folder && |r.value.preview| <= 100
    ensures r.Some? ==> r.value.id <= Stem(f.name)
    ensures r.Some? ==> |r.value.id| == if |Stem(f.name)| < 8 then |Stem(f.name)| else 8
  {
    match f.content
    case None => None
    case Some(text) =>
      var stem := Stem(f.name);
      Some(EntryInfo(Prefix(stem, 8), Prefix(PreviewTextAsWritten(text), 100), f.folder,
                     TimestampOf(stem, f.modified), TitleOf(text)))
  }

  /** The entries of the files read, in order. */
  function Entries(files: seq<StoredNote>): (r: seq<Option<EntryInfo>>)
    ensures |r| == |files| && forall i :: 0 <= i < |files| ==> r[i] == EntryOf(files[i])
  {
    seq(|files|, i requires 0 <= i < |files| => EntryOf(files[i]))
  }

  /** The files of one folder, in order. */
  function InFolder(files: seq<StoredNote>, folder: string): (r: seq<StoredNote>)
    ensures forall f :: f in r <==> f in files && f.folder == folder
    ensures |r| <= |files|
  {
    if |files| == 0 then []
    else
      var rest := InFolder(files[1..], folder);
      assert forall f :: f in files <==> f == files[0] || f in files[1..];
      if files[0].folder == folder then [files[0]] + rest else rest
  }

  /** Selecting a folder's files keeps their order: the selection of a
      joined list is the joined selections. */
  lemma {:induction false} InFolderConcat(s: seq<StoredNote>, t: seq<StoredNote>, folder: string)
    ensures InFolder(s + t, folder) == InFolder(s, folder) + InFolder(t, folder)
    decreases |s|
  {
    if |s| == 0 {
      assert s + t == t;
    } else {
      assert (s + t)[0] == s[0];
      assert (s + t)[1..] == s[1..] + t;
      InFolderConcat(s[1..], t, folder);
    }
  }

  /** The files `list_entries` looks at: those of the requested folder when
      a non-empty one is given, otherwise all of them. */
  function Chosen(files: seq<StoredNote>, folder: Option<string>): seq<StoredNote> {
    if folder.Some? && folder.value != "" then InFolder(files, folder.value) else files
  }

  /** `list_entries(folder, limit)` over the data directory's note files,
      given newest first: the entries of the first `limit` chosen files
      that can be read, in that order. */
  function ListEntries(files: seq<StoredNote>, folder: Option<string>, limit: int): (r: seq<EntryInfo>)
    ensures limit >= 0 ==> |r| <= limit
    ensures |r| <= |files|
    ensures forall e :: e in r ==> |e.preview| <= 100 && |e.id| <= 8
    ensures folder.Some? && folder.value != "" ==> forall e :: e in r ==> e.folder == folder.value
    ensures forall e :: e in r <==>
              exists f :: f in Prefix(Chosen(files, folder), limit) && EntryOf(f) == Some(e)
    ensures (forall f :: f in Chosen(files, folder) ==> f.content.Some?) ==>
              var taken := Prefix(Chosen(files, folder), limit);
              |r| == |taken| && forall i :: 0 <= i < |r| ==> Some(r[i]) == EntryOf(taken[i])
  {
    var taken := Prefix(Chosen(files, folder), limit);
    EntriesOfFiles(taken);
    ReadableTaken(Chosen(files, folder), taken);
    Somes(Entries(taken))
  }

  /** The entries are exactly what the files read give. */
  lemma EntriesOfFiles(files: seq<StoredNote>)
    ensures forall o :: o in Entries(files) <==> exists f :: f in files && EntryOf(f) == o
  {
    var entries := Entries(files);
    forall o | o in entries ensures exists f :: f in files && EntryOf(f) == o {
      var i :| 0 <= i < |entries| && entries[i] == o;
      assert files[i] in files;
    }
  }

  /** Files taken from readable ones are readable, and so are their entries. */
  lemma ReadableTaken(chosen: seq<StoredNote>, taken: seq<StoredNote>)
    requires taken <= chosen
    ensures (forall f :: f in chosen ==> f.content.Some?) ==> forall o :: o in Entries(taken) ==> o.Some?
  {
    if forall f :: f in chosen ==> f.content.Some? {
      forall o | o in Entries(taken) ensures o.Some? {
        var i :| 0 <= i < |taken| && Entries(taken)[i] == o;
        assert taken[i] == chosen[i];
        assert chosen[i] in chosen;
      }
    }
  }

  /** The stem of a note filename is the stamp and the slug, whatever the
      slug contains. */
  lemma StemOfNoteFilename(dt: DateTime, slug: string)
    ensures Stem(NoteFilename(dt, slug)) == FileStamp(dt) + "_" + slug
  {
    var name := NoteFilename(dt, slug);
    var n := |name|;
    OccursAtChar(name, '.');
    assert name[n - 3] == '.' && name[n - 2] == 'm' && name[n - 1] == 'd';
    assert RFind(name, ".") == n - 3;
    assert name[..n - 3] == FileStamp(dt) + "_" + slug;
  }

  /** The digits of a padded number hold no separator. */
  lemma PadHasNo(n: nat, width: nat, c: char)
    requires !IsDigit(c)
    ensures c !in Pad(n, width)
  {
  }

  /** The date and time in a filename hold no `_`. */
  lemma StampPartsHaveNoUnderscore(dt: DateTime)
    ensures '_' !in DateText(dt) && '_' !in FileTimeText(dt)
  {
    PadHasNo(dt.year, 4, '_');
    PadHasNo(dt.month, 2, '_');
    PadHasNo(dt.day, 2, '_');
    PadHasNo(dt.hour, 2, '_');
    PadHasNo(dt.minute, 2, '_');
    PadHasNo(dt.second, 2, '_');
  }

  /** Splitting a stem at `_` gives the date first and the time second. */
  lemma StemParts(dt: DateTime, slug: string)
    ensures var parts := Split(FileStamp(dt) + "_" + slug, '_');
            |parts| >= 2 && parts[0] == DateText(dt) && parts[1] == FileTimeText(dt)
  {
    var date, time := DateText(dt), FileTimeText(dt);
    StampPartsHaveNoUnderscore(dt);
    assert FileStamp(dt) + "_" + slug == date + ['_'] + (time + ['_'] + slug);
    SplitAtFirst(date, '_', time + ['_'] + slug);
    SplitAtFirst(time, '_', slug);
  }

  /** Turning the time's hyphens into colons touches nothing else. */
  lemma TimeWithColons(a: string, b: string, c: string)
    requires '-' !in a && '-' !in b && '-' !in c
    ensures ReplaceChar(a + "-" + b + "-" + c, '-', ':') == a + ":" + b + ":" + c
  {
    var s, r := a + "-" + b + "-" + c, a + ":" + b + ":" + c;
    forall i | 0 <= i < |s| ensures ReplaceChar(s, '-', ':')[i] == r[i] {
      if i < |a| {
        assert s[i] == a[i] == r[i];
      } else if i == |a| || i == |a| + 1 + |b| {
      } else if i < |a| + 1 + |b| {
        assert s[i] == b[i - |a| - 1] == r[i];
      } else {
        assert s[i] == c[i - |a| - |b| - 2] == r[i];
      }
    }
  }

  /** The timestamp the listing recovers from a note's filename is the ISO
      8601 combined date-time of the components it was written from,
      whatever the slug. */
  lemma TimestampRecovered(dt: DateTime, slug: string, modified: string)
    ensures TimestampOf(Stem(NoteFilename(dt, slug)), modified) == IsoText(dt)
  {
    var stem := Stem(NoteFilename(dt, slug));
    StemOfNoteFilename(dt, slug);
    StemParts(dt, slug);
    var parts := Split(stem, '_');
    assert parts[0] == DateText(dt) && parts[1] == FileTimeText(dt);
    var h, m, s := Pad(dt.hour, 2), Pad(dt.minute, 2), Pad(dt.second, 2);
    PadHasNo(dt.hour, 2, '-');
    PadHasNo(dt.minute, 2, '-');
    PadHasNo(dt.second, 2, '-');
    TimeWithColons(h, m, s);
    assert TimestampOf(stem, modified) == parts[0] + "T" + ReplaceChar(parts[1], '-', ':');
    IsoJoin(DateText(dt), h, m, s);
  }

  /** The ISO text laid out as the date, `T` and the time with colons. */
  lemma IsoJoin(d: string, h: string, m: string, s: string)
    ensures d + "T" + (h + ":" + m + ":" + s) == d + "T" + h + ":" + m + ":" + s
  {
  }

  /** The listed id is the first eight characters of the stem: the year and
      month, shared by every note of that month. */
  lemma IdIsYearMonth(dt: DateTime, slug: string)
    ensures Prefix(Stem(NoteFilename(dt, slug)), 8) == Pad(dt.year, 4) + "-" + Pad(dt.month, 2) + "-"
  {
    StemOfNoteFilename(dt, slug);
  }

  /** The first line of a text is the part before its first line break. */
  lemma FirstLine(a: string, b: string, c: string)
    requires '\n' !in a && |b| > 0 && b[0] == '\n'
    ensures Split(a + b + c, '\n')[0] == a
  {
    assert a + b + c == a + ['\n'] + (b[1..] + c);
    SplitAtFirst(a, '\n', b[1..] + c);
  }

  /** The title line of a note gives back the title, less leading `#` and
      spaces and surrounding white space. */
  lemma TitleRecovered(transcript: string, formattedDate: string, title: string,
                       folder: string, summary: string)
    requires '\n' !in title
    ensures TitleOf(NoteContent(transcript, formattedDate, title, folder, summary))
            == Strip(LStripChars(title, TitleMarks))
  {
    var line, details := TitleLine(title), Details(formattedDate, folder);
    assert '\n' !in line;
    assert details[0] == '\n';
    FirstLine(line, details, Separator + Body(transcript));
    LStripCharsDrops("# ", title, TitleMarks);
  }

  /** A title already clean of leading marks and surrounding white space is
      recovered exactly. */
  lemma CleanTitleRecovered(transcript: string, formattedDate: string, title: string,
                            folder: string, summary: string)
    requires '\n' !in title
    requires |title| == 0 || title[0] !in TitleMarks
    requires Strip(title) == title
    ensures TitleOf(NoteContent(transcript, formattedDate, title, folder, summary)) == title
  {
    TitleRecovered(transcript, formattedDate, title, folder, summary);
  }

  /** Three pieces joined at seams foreign to the pattern. */
  lemma AbsentJoin(a: string, x: string, b: string, p: string)
    requires Absent(a, p) && Absent(x, p) && Absent(b, p)
    requires |a| > 0 && a[|a| - 1] !in p && |b| > 0 && b[0] !in p
    ensures Absent(a + x + b, p)
  {
    AbsentConcat(a, x, p);
    assert (a + x)[|a + x| - 1] == (if |x| == 0 then a[|a| - 1] else x[|x| - 1]);
    AbsentConcat(a + x, b, p);
  }

  /** With no `---` in its fields, the header holds none either. */
  lemma HeaderAbsent(formattedDate: string, title: string, folder: string)
    requires Absent(title, Separator) && Absent(formattedDate, Separator) && Absent(folder, Separator)
    ensures Absent(Header(formattedDate, title, folder), Separator)
  {
    var s1, s2, s3, s4 := "# ", "\n\n**Date:** ", "\n**Folder:** ", "\n\n";
    AbsentWithoutChar(s1, Separator);
    AbsentWithoutChar(s2, Separator);
    AbsentWithoutChar(s3, Separator);
    AbsentWithoutChar(s4, Separator);
    AbsentJoin(s1, title, s2, Separator);
    AbsentJoin(s2, formattedDate, s3, Separator);
    AbsentJoin(s3, folder, s4, Separator);
    var a := s1 + title + s2;
    var b := formattedDate + s3;
    var c := folder + s4;
    AbsentConcat(formattedDate, s3, Separator);
    AbsentConcat(folder, s4, Separator);
    AbsentConcat(a, b, Separator);
    assert (a + b)[|a + b| - 1] == ' ';
    AbsentConcat(a + b, c, Separator);
    assert Header(formattedDate, title, folder) == a + b + c;
  }

  /** Content whose first separator follows a separator-free header is
      split right there. */
  lemma AfterFirstSeparator(head: string, body: string)
    requires Absent(head, Separator) && |head| > 0 && head[|head| - 1] !in Separator
    ensures AfterSeparator(head + (Separator + body)) == Some(Strip(body))
  {
    var rest := Separator + body;
    assert rest[..3] == Separator;
    FindAfter(head, rest, Separator);
    assert (head + rest)[|head| + 3..] == body;
  }

  /** With no `---` in the fields, the first separator closes the header. */
  lemma AfterSeparatorOfNote(transcript: string, formattedDate: string, title: string,
                             folder: string, summary: string)
    requires Absent(title, Separator) && Absent(formattedDate, Separator) && Absent(folder, Separator)
    ensures AfterSeparator(NoteContent(transcript, formattedDate, title, folder, summary))
            == Some(Strip(Body(transcript)))
  {
    var head := Header(formattedDate, title, folder);
    HeaderAbsent(formattedDate, title, folder);
    assert head[|head| - 1] == '\n';
    AfterFirstSeparator(head, Body(transcript));
  }

  /** The blank line framing the transcript is white space without hyphens. */
  lemma BlankLineIsSpace()
    ensures forall i :: 0 <= i < |"\n\n"| ==> IsSpace("\n\n"[i]) && "\n\n"[i] != '-'
  {
  }

  /** White space before a text that is not blank is dropped. */
  lemma LStripAfterBlank(w: string, t: string, tail: string)
    requires forall i :: 0 <= i < |w| ==> IsSpace(w[i])
    requires LStrip(t) != ""
    ensures LStrip(w + (t + tail)) == LStrip(t) + tail
  {
    LStripSpaces(w, t + tail);
    LStripKeeps(t, tail);
  }

  /** Trailing space after a paragraph that ends in no space is dropped. */
  lemma RStripAfterParagraph(l: string, p: string)
    requires |p| > 0 && !IsSpace(p[|p| - 1])
    ensures RStrip(l + ("\n\n" + p + "\n")) == l + "\n\n" + p
  {
    var w := l + "\n\n" + p;
    assert l + ("\n\n" + p + "\n") == w + "\n";
    RStripSpaces(w, "\n");
    assert RStrip(w) == w;
  }

  /** The closing paragraph starts with a separator and is framed by no space. */
  lemma ParagraphShape()
    ensures |Paragraph| > 0 && !IsSpace(Paragraph[0]) && !IsSpace(Paragraph[|Paragraph| - 1])
    ensures OccursAt(Paragraph, Separator, 0)
  {
    assert Paragraph[0] == '-' && Paragraph[|Paragraph| - 1] == '*';
    assert Paragraph[..3] == Separator;
  }

  /** A paragraph between blank lines and a final newline strips to itself. */
  lemma StripFramed(x: string)
    requires |x| > 0 && !IsSpace(x[0]) && !IsSpace(x[|x| - 1])
    ensures Strip("\n\n" + x + "\n") == x
  {
    LStripSpaces("\n\n", x + "\n");
    assert "\n\n" + x + "\n" == "\n\n" + (x + "\n");
    assert LStrip(x + "\n") == x + "\n";
    RStripSpaces(x, "\n");
  }

  /** The stripped body of a transcript that is not blank: its text from the
      first non-space on, a blank line, and the closing paragraph. */
  lemma StripAroundText(t: string)
    requires Strip(t) != ""
    ensures Strip(Body(t)) == LStrip(t) + "\n\n" + Paragraph
  {
    var l, p := LStrip(t), Paragraph;
    StripOfBlankStart(t);
    assert l != "";
    BlankLineIsSpace();
    LStripAfterBlank("\n\n", t, "\n\n" + p + "\n");
    ParagraphShape();
    RStripAfterParagraph(l, p);
    assert Body(t) == "\n\n" + (t + ("\n\n" + p + "\n"));
  }

  /** White space in front of a text does not change how it strips. */
  lemma StripPastSpaces(w: string, t: string, c: string)
    requires forall i :: 0 <= i < |w| ==> IsSpace(w[i])
    requires forall i :: 0 <= i < |t| ==> IsSpace(t[i])
    ensures Strip(w + (t + c)) == Strip(c)
  {
    LStripSpaces(w, t + c);
    LStripSpaces(t, c);
  }

  /** Blank text before a framed paragraph strips away with the frame. */
  lemma StripBlankThenFramed(w: string, t: string, x: string)
    requires forall i :: 0 <= i < |w| ==> IsSpace(w[i])
    requires forall i :: 0 <= i < |t| ==> IsSpace(t[i])
    requires |x| > 0 && !IsSpace(x[0]) && !IsSpace(x[|x| - 1])
    ensures Strip(w + (t + ("\n\n" + x + "\n"))) == x
  {
    StripPastSpaces(w, t, "\n\n" + x + "\n");
    StripFramed(x);
  }

  /** The stripped body of a blank transcript is the closing paragraph. */
  lemma StripAroundBlank(t: string)
    requires Strip(t) == ""
    ensures Strip(Body(t)) == Paragraph
  {
    var p := Paragraph;
    assert LStrip(t) == "";
    ParagraphShape();
    assert forall i :: 0 <= i < |t| ==> IsSpace(t[i]);
    BlankLineIsSpace();
    StripBlankThenFramed("\n\n", t, p);
    assert Body(t) == "\n\n" + (t + ("\n\n" + p + "\n"));
  }

  /** Stripping a text with a gap of white space after it gives the text
      right-stripped. */
  lemma StripBeforeGap(l: string, g: string)
    requires l != "" && !IsSpace(l[0])
    requires forall i :: 0 <= i < |g| ==> IsSpace(g[i])
    ensures Strip(l + g) == RStrip(l)
  {
    LStripKeeps(l, g);
    assert LStrip(l) == l;
    RStripSpaces(l, g);
  }

  /** Text with no separator and no leading space, a gap of white space
      without hyphens, then a paragraph opening with a separator: the
      separator is found after the gap, and the text before it strips to the
      text right-stripped. */
  lemma GapBeforeSeparator(l: string, g: string, p: string)
    requires Absent(l, Separator) && l != "" && !IsSpace(l[0])
    requires |g| > 0 && forall i :: 0 <= i < |g| ==> IsSpace(g[i]) && g[i] != '-'
    requires OccursAt(p, Separator, 0)
    ensures Find(l + g + p, Separator) == |l| + |g|
    ensures Strip((l + g + p)[..|l| + |g|]) == RStrip(l)
  {
    assert g[|g| - 1] !in Separator;
    AbsentWithoutChar(g, Separator);
    AbsentConcat(l, g, Separator);
    FindAfter(l + g, p, Separator);
    assert (l + g + p)[..|l| + |g|] == l + g;
    StripBeforeGap(l, g);
  }

  /** The paragraph between the separators of a non-blank transcript. */
  lemma NonBlankPreview(transcript: string)
    requires Absent(transcript, Separator) && Strip(transcript) != ""
    ensures var after := Strip(Body(transcript));
            && Find(after, Separator) == |LStrip(transcript)| + 2
            && Strip(after[..|LStrip(transcript)| + 2]) == Strip(transcript)
  {
    var l, p := LStrip(transcript), Paragraph;
    StripAroundText(transcript);
    ParagraphShape();
    StripOfBlankStart(transcript);
    assert l != "" && !IsSpace(l[0]);
    AbsentSuffix(transcript, |transcript| - |l|, Separator);
    assert Absent(l, Separator);
    BlankLineIsSpace();
    GapBeforeSeparator(l, "\n\n", p);
  }

  /** The stripped body of a blank transcript starts with the closing separator. */
  lemma BlankBody(transcript: string)
    requires Strip(transcript) == ""
    ensures var after := Strip(Body(transcript));
            after == Paragraph && Find(after, Separator) == 0
  {
    StripAroundBlank(transcript);
    ParagraphShape();
    AbsentWithoutChar("", Separator);
    FindAfter("", Paragraph, Separator);
    assert "" + Paragraph == Paragraph;
  }

  /** For a note whose fields hold no `---`, the listing's preview text is the
      stripped transcript, blank or not. */
  lemma PreviewRecovered(transcript: string, formattedDate: string, title: string,
                         folder: string, summary: string)
    requires Absent(title, Separator) && Absent(formattedDate, Separator)
    requires Absent(folder, Separator) && Absent(transcript, Separator)
    ensures PreviewText(NoteContent(transcript, formattedDate, title, folder, summary))
            == Strip(transcript)
  {
    AfterSeparatorOfNote(transcript, formattedDate, title, folder, summary);
    if Strip(transcript) == "" {
      BlankBody(transcript);
    } else {
      NonBlankPreview(transcript);
    }
  }

  /** As written, a note with a blank transcript is previewed as its own
      closing separator and footer. */
  lemma PreviewAsWrittenOfBlank(transcript: string, formattedDate: string, title: string,
                                folder: string, summary: string)
    requires Absent(title, Separator) && Absent(formattedDate, Separator) && Absent(folder, Separator)
    requires Strip(transcript) == ""
    ensures PreviewTextAsWritten(NoteContent(transcript, formattedDate, title, folder, summary))
            == Paragraph
  {
    AfterSeparatorOfNote(transcript, formattedDate, title, folder, summary);
    BlankBody(transcript);
  }

  /** As written and corrected previews agree on every other note. */
  lemma PreviewAsWrittenOfNonBlank(transcript: string, formattedDate: string, title: string,
                                   folder: string, summary: string)
    requires Absent(title, Separator) && Absent(formattedDate, Separator)
    requires Absent(folder, Separator) && Absent(transcript, Separator)
    requires Strip(transcript) != ""
    ensures PreviewTextAsWritten(NoteContent(transcript, formattedDate, title, folder, summary))
            == Strip(transcript)
  {
    AfterSeparatorOfNote(transcript, formattedDate, title, folder, summary);
    NonBlankPreview(transcript);
  }

  /** A note written from fields without `\r` holds none. */
  lemma NoteWithoutReturn(transcript: string, formattedDate: string, title: string, folder: string,
                          summary: string)
    requires '\r' !in title && '\r' !in formattedDate && '\r' !in folder && '\r' !in transcript
    ensures '\r' !in NoteContent(transcript, formattedDate, title, folder, summary)
  {
    assert '\r' !in TitleLine(title);
    assert '\r' !in Details(formattedDate, folder);
    assert '\r' !in Body(transcript);
  }

  /** A note the backend wrote is listed with the year and month as its id,
      as its preview the stripped transcript (or, for a blank transcript, the
      closing paragraph), its folder, the ISO text of the date and time it
      was named from, and its title after `lstrip("# ")` and `strip()`. */
  lemma NoteListsBack(transcript: string, formattedDate: string, title: string, folder: string,
                      summary: string, dt: DateTime, slug: string, modified: string)
    requires '\n' !in title
    requires '\r' !in title && '\r' !in formattedDate && '\r' !in folder && '\r' !in transcript
    requires Absent(title, Separator) && Absent(formattedDate, Separator)
    requires Absent(folder, Separator) && Absent(transcript, Separator)
    ensures EntryOf(StoredNote(folder, NoteFilename(dt, slug),
                               Some(ReadText(NoteContent(transcript, formattedDate, title, folder, summary))),
                               modified))
            == Some(EntryInfo(Pad(dt.year, 4) + "-" + Pad(dt.month, 2) + "-",
                              if Strip(transcript) == "" then Paragraph else Prefix(Strip(transcript), 100),
                              folder, IsoText(dt), Strip(LStripChars(title, TitleMarks))))
  {
    var content := NoteContent(transcript, formattedDate, title, folder, summary);
    NoteWithoutReturn(transcript, formattedDate, title, folder, summary);
    ReadTextWithoutReturn(content);
    var stem := Stem(NoteFilename(dt, slug));
    var preview := Prefix(PreviewTextAsWritten(content), 100);
    assert EntryOf(StoredNote(folder, NoteFilename(dt, slug), Some(content), modified))
           == Some(EntryInfo(Prefix(stem, 8), preview, folder, TimestampOf(stem, modified), TitleOf(content)));
    IdIsYearMonth(dt, slug);
    TimestampRecovered(dt, slug, modified);
    TitleRecovered(transcript, formattedDate, title, folder, summary);
    if Strip(transcript) == "" {
      PreviewAsWrittenOfBlank(transcript, formattedDate, title, folder, summary);
      assert |Paragraph| <= 100;
    } else {
      PreviewAsWrittenOfNonBlank(transcript, formattedDate, title, folder, summary);
    }
  }
}
