# Cortex backend: the string logic of notes, folders and model replies

Cortex records a voice note, transcribes it, asks a language model where the
note belongs, and stores it as a markdown file in a folder of a data
directory. This project is a functional Dafny model of the deterministic
part of the backend (`backend/main.py`), with its properties proved:

- **Reading the model's reply** (`parse_ai_response`). It takes the text from
  the first `{` through the last `}`, decodes it, and fills each of the four
  fields `folder`, `title`, `summary` and `slug` with its default when it is
  missing.
- **The replies the backend makes up itself** (`call_ai`). There is a mock
  record when no API key is set and a fallback record when the call fails.
  Both go back through the parser unchanged.
- **Folders** (`create_folder`, `list_folders`). A name is lower-cased and
  every space becomes a hyphen. An existing name is refused. The listing
  hides dot-names, puts `inbox` first and sorts the rest in code-point order.
- **Saving a note** (`process_transcript`, `create_note_content`). It builds
  the filename `YYYY-MM-DD_HH-MM-SS_<slug>.md` and the markdown text, then
  answers with id, preview, folder and title.
- **Listing entries** (`list_entries`). It reads title, preview, timestamp
  and id back from a stored file. The timestamp is the ISO 8601 combined
  date and time in extended format (`YYYY-MM-DDThh:mm:ss`, section 4.3.2 of
  ISO 8601:2004).

The modules, one per file:

- `Results`: `Option`/`Result`.
- `PyStr`: the Python `str` operations the code uses. These are find, rfind,
  the strips, split, slicing, ASCII lower-casing, replace and code-point
  order.
- `Timestamps`: date-time components, their zero-padded digit layout, and
  the ISO 8601 text with a reference parser for it.
- `AiReply`: the reply parser and the made-up records.
- `Folders`: folder names and the folder listing.
- `Notes`: note text, filename, and per-file parsing in the listing.
- `Process`: the `/api/process` handler.

JSON is abstract:

- `decode` maps a text to a string-keyed object or fails.
- `encode` renders an object.
- `Inverts(encode, decode)` says that decoding reads back what encoding
  writes, as `json.loads(json.dumps(d)) == d` does.

Things outside the model's reach are parameters:

- `datetime.fromisoformat` is a partial function from text to components.
- `strftime("%B %d, %Y at %I:%M %p")` is a function from components to text.
- The UUID is a given string.
- The outcome of the HTTP call is an `AiCall` value.

The data directory is a sequence of entries. The notes the listing visits
are a sequence of stored files, already in newest-first order.

## Model

| member | source | states |
|---|---|---|
| Results.Somes | backend/main.py:423-462 | The entries kept when unreadable files are skipped are exactly the successful reads, never more than the files visited, and all of them when every read succeeds |
| Results.SomesConcat | backend/main.py:423-460 | Skipping the failed reads keeps the order of the others: the entries of joined file lists are the joined entries |
| PyStr.Find | backend/main.py:433-436 | `str.find` gives the first index where the pattern occurs, or -1 exactly when it occurs nowhere |
| PyStr.RFind | backend/main.py:320 | `str.rfind` gives an occurrence with none after it, or -1 |
| PyStr.Prefix | backend/main.py:423 | `s[:n]` is a prefix of `s` of length min(n, len) for n ≥ 0, and drops the last -n elements for negative n |
| PyStr.LStripChars | backend/main.py:430 | `lstrip("# ")` removes the longest prefix made of `#` and space, and only that |
| PyStr.LStrip | backend/main.py:435 | The result is a suffix whose removed part is all white space and which does not start with white space |
| PyStr.RStrip | backend/main.py:435 | The result is a prefix whose removed part is all white space and which does not end with white space |
| PyStr.LowerAscii | backend/main.py:389 | `lower()` keeps the length and leaves no upper-case ASCII letter in the name |
| PyStr.LowerAsciiIdempotent | backend/main.py:389 | Lower-casing an already lower-cased name changes nothing |
| PyStr.ReplaceChar | backend/main.py:389 | `replace(a, b)` with `a != b` leaves no `a` behind, and leaves a text without `a` unchanged |
| PyStr.ReplaceWith | backend/main.py:213 | `replace("Z", "+00:00")` leaves a text without `Z` alone and leaves no `Z` behind |
| PyStr.ReplaceWithChar | backend/main.py:213 | A single `Z` becomes `+00:00` and any other character stays |
| PyStr.ReplaceWithConcat | backend/main.py:213 | Replacing a joined text is joining the replaced pieces, so with the one-character case every `Z` becomes `+00:00` and nothing else changes |
| PyStr.Split | backend/main.py:429 | `split(sep)` yields at least one part and no part contains the separator |
| PyStr.SplitAtFirst | backend/main.py:443 | Splitting `a + sep + b` with `sep` not in `a` gives `a` followed by the parts of `b` |
| PyStr.ReadText | backend/main.py:425-426 | A text-mode read returns text with no `\r` and no longer than what the file holds |
| PyStr.ReadTextWithoutReturn | backend/main.py:425-426 | A file whose text holds no `\r` reads back exactly as written |
| PyStr.ReadTextUnits | backend/main.py:425-426 | A text-mode read turns `\r\n` and a lone `\r` each into `\n` and keeps every other character |
| PyStr.ReadTextConcat | backend/main.py:425-426 | The read text of two pieces is the pieces read apart, unless the cut splits a `\r\n`; with the units this fixes the translation for every text |
| PyStr.LexLeTotal | backend/main.py:382 | Python's string order relates any two names |
| PyStr.LexLeTransitive | backend/main.py:382 | Python's string order is transitive |
| PyStr.LexLeAntisymmetric | backend/main.py:382 | Names ordered both ways are equal |
| Timestamps.Pad | backend/main.py:214 | A `%Y`/`%m`/`%d`/`%H`/`%M`/`%S` field has exactly its width and is all digits |
| Timestamps.PadValue | backend/main.py:214 | A padded number reads back as the number when it fits its width |
| Timestamps.ValuePad | backend/main.py:214 | Every digit string is the padding of its value |
| Timestamps.ParseIso | backend/main.py:444-447 | The reference reader of `YYYY-MM-DDThh:mm:ss` accepts only 19-character texts of a valid date and time |
| Timestamps.IsoRoundTrip | backend/main.py:444-447 | The ISO text of valid components reads back as the same components |
| Timestamps.IsoParseExact | backend/main.py:444-447 | A text the reader accepts is the ISO text of what it reads |
| AiReply.Defaults | backend/main.py:332-337 | The record for an unreadable reply has the four fields with their defaults |
| AiReply.JsonSlice | backend/main.py:319-321 | There is no slice exactly when the reply has no `{` or no `}` after the first `{`; a slice starts with `{` and ends with `}` |
| AiReply.ParseAiResponse | backend/main.py:315-337 | The result always has exactly the four keys. With no slice or a failed decode it is the default record. Otherwise each field is the decoded one when present and its own default when missing |
| AiReply.SliceIsBetweenBraces | backend/main.py:318-322 | The decoded slice is the reply minus a head without `{` and a tail without `}` |
| AiReply.SliceOfSurrounded | backend/main.py:318-322 | Conversely, an object text between such a head and tail is exactly the slice taken |
| AiReply.SurroundingTextIgnored | backend/main.py:318-328 | Text outside the braces never changes the parsed record |
| AiReply.FallbackRecord | backend/main.py:253-312 | Made-up records use the default folder and slug `note`. The summary is the transcript's first min(len, 100) characters. The title starts with its first 30 characters, is the whole transcript when that is short, and is longer than 30 only for a long transcript without an API key, where it is the first 30 characters followed by `...` |
| AiReply.CallAi | backend/main.py:249-312 | A 200 reply gives the model's message content as it is, text or not; every other outcome gives the encoded made-up record, the mock one exactly when no API key is set. The reply is text except for a 200 reply whose content is not a string |
| AiReply.FullRecordParsesBack | backend/main.py:322-328 | Any four-field record encoded and parsed comes back unchanged |
| AiReply.FallbackParsesBack | backend/main.py:253-312 | Every reply `call_ai` makes up parses back to its own record |
| AiReply.PreviewIsSummary | backend/main.py:234 | The transcript fallback of the response preview is unreachable: the preview is always the parsed summary |
| Folders.Normalize | backend/main.py:389 | The normalised name has the input's length and folds each character on its own |
| Folders.NormalizedShape | backend/main.py:389 | A normalised name has no space and no upper-case ASCII letter, and has a hyphen exactly where the input had a space or a hyphen, so runs are not collapsed |
| Folders.NormalizeIdempotent | backend/main.py:389 | Normalising twice is normalising once |
| Folders.SameFolderName | backend/main.py:389 | Two names give the same folder exactly when they agree per character up to ASCII case and space versus hyphen |
| Folders.CreateFolder | backend/main.py:386-401 | Creation fails exactly when the normalised path exists. Otherwise it adds one directory and reports the normalised name, count 0 and the given description |
| Folders.CreateTwiceRejected | backend/main.py:392-393 | After a creation, any name that normalises the same is refused |
| Folders.CreateAddsOne | backend/main.py:395 | A creation appends one entry, keeps the others, and only when the name was new |
| Folders.VisibleFolders | backend/main.py:372-379 | The listed folders are exactly the directories whose name does not start with `.`, each with its markdown count and an empty description |
| Folders.PrecedesTotal | backend/main.py:382 | The sort key `(name != "inbox", name)` relates any two names |
| Folders.PrecedesTransitive | backend/main.py:382 | The sort key order is transitive |
| Folders.InsertByName | backend/main.py:382 | Insertion keeps a list sorted by the key and adds exactly the one element |
| Folders.SortByName | backend/main.py:382 | The sort yields a permutation sorted by the key |
| Folders.ListFolders | backend/main.py:366-383 | The listing is a permutation of the visible folders, with `inbox` first when present and every other name in ascending order |
| Folders.CreatedFolderListed | backend/main.py:373-401 | A newly created folder is listed with count 0 exactly when its name does not start with `.` |
| Folders.NormalizeExamples | backend/main.py:389 | "My Folder" and "my folder" both give "my-folder", and two spaces give two hyphens |
| Notes.Stem | backend/main.py:442 | `PurePath.stem` is a prefix of the name. It cuts the name just before its last `.` exactly when that dot is neither the first nor the last character, and otherwise keeps the whole name |
| Notes.EntryOf | backend/main.py:424-457 | A file gives an entry exactly when it can be read. The entry carries the file's folder, a preview of at most 100 characters, and as id the first min(8, length) characters of the stem |
| Notes.InFolder | backend/main.py:411-418 | The files of one folder are exactly those whose folder matches |
| Notes.InFolderConcat | backend/main.py:411-418 | Selecting a folder's files keeps their order: the selection of joined file lists is the joined selections |
| Notes.ListEntries | backend/main.py:404-462 | The listed entries are exactly the entries of the readable files among the first `limit` chosen ones (those of the requested folder when one is given, otherwise all). When every chosen file is readable, there is one entry per taken file, in the given newest-first order. At most `limit` entries, previews of at most 100 characters, ids of at most 8 |
| Notes.StemOfNoteFilename | backend/main.py:214 | The stem of a note filename is the date-time stamp, `_` and the slug, whatever the slug holds |
| Notes.PadHasNo | backend/main.py:214 | A padded field holds no non-digit, so no `_` or `-` |
| Notes.StemParts | backend/main.py:443-446 | Splitting a note's stem at `_` gives its date first and its time second |
| Notes.TimeWithColons | backend/main.py:446 | Replacing the time's hyphens with colons touches nothing else |
| Notes.TimestampRecovered | backend/main.py:441-447 | The timestamp listed for a note file is the ISO 8601 text of the components it was named from, whatever the slug |
| Notes.IdIsYearMonth | backend/main.py:452 | The listed id of a note file is `YYYY-MM-` of its date |
| Notes.TitleRecovered | backend/main.py:429-430 | The listed title of a rendered note is its one-line title with leading `#`/spaces removed and then stripped |
| Notes.CleanTitleRecovered | backend/main.py:429-430 | A title already in that clean form is listed unchanged |
| Notes.HeaderAbsent | backend/main.py:351-355 | The header holds no `---` when the title, date and folder hold none |
| Notes.AfterSeparatorOfNote | backend/main.py:433-435 | For a rendered note, the text after the first separator is the stripped framed transcript |
| Notes.NonBlankPreview | backend/main.py:436-437 | After the first separator, a non-blank transcript stands before the second one |
| Notes.BlankBody | backend/main.py:436-437 | After the first separator, a blank transcript leaves the second separator at index 0 |
| Notes.PreviewRecovered | backend/main.py:432-439 | With the corrected guard, the preview of a rendered note is the stripped transcript, blank or not |
| Notes.PreviewAsWrittenOfBlank | backend/main.py:437 | As written, a blank transcript is previewed as the closing separator and footer |
| Notes.PreviewAsWrittenOfNonBlank | backend/main.py:437 | As written, a non-blank transcript is previewed as itself stripped |
| Notes.NoteListsBack | backend/main.py:423-457 | A note file the backend wrote, read back in text mode, is listed with the year-month id, its folder, the ISO text of the components its name was stamped from, and its title cleaned of leading `#`/spaces and stripped. The preview is its stripped transcript, or the closing paragraph when the transcript is blank. This holds when no field holds `---` or `\r` and the title is one line |
| Notes.NoteWithoutReturn | backend/main.py:351-362 | A note rendered from fields without `\r` holds none, so it reads back as written |
| Process.ProcessTranscript | backend/main.py:196-238 | The request is rejected before anything is written exactly when the model's content is not a string, the timestamp does not parse or the parsed folder is not a string. It is answered exactly when title and summary are strings too. The note goes into the parsed folder under the stamped filename. The response repeats that folder, the parsed title and summary, and the UUID's first 8 characters |
| Process.SavedContent | backend/main.py:221-227 | The saved file holds `create_note_content` of the transcript, the formatted date and the answered title and folder |
| Process.FallbackSaved | backend/main.py:204-238 | Without a usable model reply, a note with a valid timestamp is saved into the requested folder under the slug `note` and previewed by the transcript's first 100 characters |
| Process.SavedNoteListsBack | backend/main.py:196-457 | The entry the listing makes of a saved note, read back in text mode, has the answered folder, the `YYYY-MM-DDThh:mm:ss` text of the date and time parsed from the request (any UTC offset or fraction of a second dropped), its year-month id and the cleaned title. Its preview is the stripped transcript, or the closing paragraph when the transcript is blank. This holds when no field holds `---` or `\r` and the title is one line |

## Left out

- Whisper transcription and the temporary audio file of `transcribe_audio`: a foreign ML library and file I/O.
- The HTTP request to the language model, its prompt and the README text sent with it (`get_readme_content`). Only the outcome is modelled, as an `AiCall`: no key, a reply with its status and the decoded message content (any JSON value), or an exception.
- The JSON library: `encode`/`decode` are parameters, related only by `Inverts`.
- `datetime.fromisoformat` and the human-readable `strftime` date line (month names, 12-hour clock) are parameters. Only the digit layout of the filename and the ISO text are modelled.
- `uuid.uuid4()` is a given string, and the `duration` float of the transcription is left out.
- Settings and environment loading, FastAPI routing, static-file mounts and `ensure_directories`/`create_default_readme` at startup.
- Filesystem effects: `mkdir`, `glob`, `exists`, writing and reading files. The data directory is a list of entries, and the listed notes are a list of stored files.
- The modification-time sort in `list_entries` is left out, as is the modification-time fallback timestamp; the files are given newest first and the fallback text is given.
- Path handling inside names is left out. A folder or slug holding `/`, or a folder that does not exist when listed, is not modelled. Neither is a parsed folder of `""` or `.` (the note lands in the data directory itself, which `*/*.md` never lists) or `..` (it lands above the data directory); `Process.SavedNoteListsBack` describes the entry made of the saved file, not whether the listing visits it.
- The absolute `file_path` of the process response.
- Process.ProcessTranscript: folder creation and the write are assumed to succeed, and the only failures modelled are model content that is not a string, a rejected timestamp and non-string fields. A non-string title or summary is taken to be refused by the response model, as pydantic 2 does; pydantic 1 would coerce it.
- Notes.NoteListsBack and Process.SavedNoteListsBack: fields holding `\r` are not covered. The text-mode read turns `\r` into a line break, so such a title is cut at it and such a transcript is previewed with `\n` in its place; `PyStr.ReadText` models the translation, but the read-back of those notes is not stated.
- Folders.CreateFolder: a name the filesystem refuses is not modelled. Examples are a name over 255 bytes, where `exists()` raises `OSError`, and a name holding NUL, where `mkdir` raises `ValueError`; both answer with a server error. The model treats every name as a valid path and reports success whenever the normalised name is new.
- Folders.Normalize: `lower()` is modelled on ASCII letters only; other letters are kept as they are.
- Python strings may hold lone surrogates (for example from the JSON escape `"\ud800"`); a Dafny `char` cannot, so such transcripts, titles and folder names are not modelled.
- Timestamps.Pad: the year is always padded to four digits. `strftime("%Y")` on glibc prints a year below 1000 without leading zeros, so those rare filenames are not modelled.

Folder names are not cleaned of white space beyond this. Each single space becomes a hyphen, runs are kept, and tabs and other white space stay as they are; the model follows the code (`Folders.NormalizeExamples`).

Observations that follow from the model and are not defects:

- The id in the entry listing is the first eight characters of the filename, which is the year and month (`Notes.IdIsYearMonth`). It is shared by every note of that month and differs from the UUID id the process response returns.
- A folder created with a name starting with `.` is never listed (`Folders.CreatedFolderListed`).

## Findings

| source | as written | input that shows it | evidently intended | confidence | as-written member | corrected member |
|---|---|---|---|---|---|---|
| backend/main.py:437 | The preview takes the text before the second separator only when `second_sep > 0`; otherwise it takes the first 100 characters after the first separator | A note saved with a blank transcript (for example `""`): the text after the first separator starts with the second `---`, so the preview is `---\n\n*Captured with Cortex*` | A second separator at index 0 means an empty paragraph, so the guard is `second_sep >= 0` and the preview is empty | not executed | Notes.PreviewAsWrittenOfBlank | Notes.PreviewRecovered |

The entry listing (`Notes.EntryOf`, `Notes.ListEntries`, `Notes.NoteListsBack`) follows the code as written. The corrected guard is `Notes.PreviewText`, and `Notes.PreviewRecovered` proves the intended preview for it.
