/** The `/api/process` handler (`process_transcript` in backend/main.py):
    ask the model (or make up a reply), parse it, build the note's filename
    and text, write it into the chosen folder and answer with the entry's
    id, preview, folder and title. The file system write is the `note` of
    the outcome; the clock-free parts of `datetime`, `uuid` and `strftime`
    are parameters. */
module Process {
  import opened Results
  import opened PyStr
  import opened Timestamps
  import opened AiReply
  import opened Notes

  datatype ProcessRequest = ProcessRequest(transcript: string, folder: string, timestamp: string)

  /** The answer to the client; the absolute `file_path` is left out. */
  datatype ProcessResponse = ProcessResponse(id: string, preview: string, folder: string, title: string)

  /** The note written: the folder it goes into, its filename and its text. */
  datatype NoteFile = NoteFile(folder: string, name: string, content: string)

  /** Why the handler answers with an error instead of a response: the
      model's message content is not a string, so the parser cannot search
      it; `fromisoformat` rejects the timestamp; the parsed folder is not a
      string, so it cannot be joined to the data directory; the parsed title
      or summary is not a string, so the response model refuses it. */
  datatype ProcessError = ContentNotText | InvalidTimestamp | FolderNotText | FieldNotText

  /** Rejected before anything is written, failed after the note was
      written, or saved and answered. */
  datatype ProcessOutcome =
    | Rejected(error: ProcessError)
    | SavedThenFailed(note: NoteFile, error: ProcessError)
    | Saved(note: NoteFile, response: ProcessResponse)

  /** The text `datetime.fromisoformat` is given: every `Z` in the request's
      timestamp spelled `+00:00`. */
  function IsoInput(req: ProcessRequest): string {
    ReplaceWith(req.timestamp, 'Z', "+00:00")
  }

  /** The record `parse_ai_response` makes of the reply `call_ai` gives. */
  function Parsed(req: ProcessRequest, call: AiCall, encode: JsonObject -> string,
                  decode: string -> Option<JsonObject>): JsonObject
  {
    ParseAiResponse(Text(CallAi(req.transcript, req.folder, call, encode)), req.folder, decode)
  }

  /** `process_transcript(request)`. `call` is what the model call does,
      `uuid` the text of the fresh UUID, `fromIso` what `fromisoformat`
      makes of a text and `formatDate` the `strftime` date line of the note. */
  function ProcessTranscript(req: ProcessRequest, call: AiCall,
                             encode: JsonObject -> string, decode: string -> Option<JsonObject>,
                             uuid: string, fromIso: string -> Option<DateTime>,
                             formatDate: DateTime -> string): (r: ProcessOutcome)
    ensures r == Rejected(ContentNotText) <==> ReplyNotText(call)
    ensures r == Rejected(InvalidTimestamp) <==> !ReplyNotText(call) && fromIso(IsoInput(req)).None?
    ensures var parsed := Parsed(req, call, encode, decode);
            r.Rejected? <==> ReplyNotText(call) || fromIso(IsoInput(req)).None? || !parsed["folder"].JStr?
    ensures var parsed := Parsed(req, call, encode, decode);
            r.Saved? <==> !ReplyNotText(call) && fromIso(IsoInput(req)).Some?
                          && parsed["folder"].JStr? && parsed["title"].JStr? && parsed["summary"].JStr?
    ensures !r.Rejected? ==>
              var dt := fromIso(IsoInput(req)).value;
              var parsed := Parsed(req, call, encode, decode);
              r.note.folder == parsed["folder"].str
              && r.note.name == NoteFilename(dt, Text(parsed["slug"]))
              && Stem(r.note.name) == FileStamp(dt) + "_" + Text(parsed["slug"])
    ensures r.Saved? ==>
              var parsed := Parsed(req, call, encode, decode);
              r.response.folder == r.note.folder
              && r.response.preview == parsed["summary"].str
              && r.response.title == parsed["title"].str
              && r.response.id <= uuid && |r.response.id| == if |uuid| < 8 then |uuid| else 8
  {
    var parsed := Parsed(req, call, encode, decode);
    var id := Prefix(uuid, 8);
    if ReplyNotText(call) then Rejected(ContentNotText)
    else match fromIso(IsoInput(req))
    case None => Rejected(InvalidTimestamp)
    case Some(dt) =>
      var name := NoteFilename(dt, Text(parsed["slug"]));
      StemOfNoteFilename(dt, Text(parsed["slug"]));
      if !parsed["folder"].JStr? then Rejected(FolderNotText)
      else
        var folder := parsed["folder"].str;
        var content := NoteContent(req.transcript, formatDate(dt), Text(parsed["title"]), folder,
                                   Text(Get(parsed, "summary", JStr(""))));
        var note := NoteFile(folder, name, content);
        var preview := Get(parsed, "summary", JStr(Prefix(req.transcript, 100)));
        if !parsed["title"].JStr? || !preview.JStr? then SavedThenFailed(note, FieldNotText)
        else Saved(note, ProcessResponse(id, preview.str, folder, parsed["title"].str))
  }

  /** The text a saved note holds, as `create_note_content` renders it. */
  lemma SavedContent(req: ProcessRequest, call: AiCall,
                     encode: JsonObject -> string, decode: string -> Option<JsonObject>,
                     uuid: string, fromIso: string -> Option<DateTime>,
                     formatDate: DateTime -> string)
    ensures var r := ProcessTranscript(req, call, encode, decode, uuid, fromIso, formatDate);
            r.Saved? ==>
              r.note.content == NoteContent(req.transcript, formatDate(fromIso(IsoInput(req)).value),
                                            r.response.title, r.response.folder, r.response.preview)
  {
  }

  /** Without a usable model reply the note goes into the requested folder
      under the slug `note`, and the response previews the transcript's first
      hundred characters; only a rejected timestamp stops it. */
  lemma FallbackSaved(req: ProcessRequest, call: AiCall,
                      encode: JsonObject -> string, decode: string -> Option<JsonObject>,
                      uuid: string, fromIso: string -> Option<DateTime>,
                      formatDate: DateTime -> string)
    requires Inverts(encode, decode)
    requires !(call.HttpReply? && call.status == 200)
    requires fromIso(IsoInput(req)).Some?
    ensures var r := ProcessTranscript(req, call, encode, decode, uuid, fromIso, formatDate);
            r.Saved?
            && r.note.folder == req.folder && r.response.folder == req.folder
            && r.note.name == NoteFilename(fromIso(IsoInput(req)).value, "note")
            && r.response.preview == Prefix(req.transcript, 100)
            && r.response.title == FallbackRecord(req.transcript, req.folder, call.NoApiKey?)["title"].str
  {
    FallbackParsesBack(req.transcript, req.folder, call, encode, decode);
  }

  /** Reading a saved note back in text mode gives an entry with the
      response's folder and title, the parsed date and time of the request in
      ISO 8601 form (without offset or fractions of a second), the year and
      month as its id, and as its preview the stripped transcript, or the
      closing paragraph when the transcript is blank, as long as the title has
      one line and no field contains the separator or a carriage return. */
  lemma {:induction false} SavedNoteListsBack(req: ProcessRequest, call: AiCall,
                                               encode: JsonObject -> string,
                                               decode: string -> Option<JsonObject>,
                                               uuid: string, fromIso: string -> Option<DateTime>,
                                               formatDate: DateTime -> string, modified: string)
    requires var r := ProcessTranscript(req, call, encode, decode, uuid, fromIso, formatDate);
             r.Saved?
             && '\n' !in r.response.title && Absent(r.response.title, Separator)
             && '\r' !in r.response.title && '\r' !in r.response.folder && '\r' !in req.transcript
             && '\r' !in formatDate(fromIso(IsoInput(req)).value)
             && Absent(r.response.folder, Separator) && Absent(req.transcript, Separator)
             && Absent(formatDate(fromIso(IsoInput(req)).value), Separator)
    ensures var r := ProcessTranscript(req, call, encode, decode, uuid, fromIso, formatDate);
            var dt := fromIso(IsoInput(req)).value;
            EntryOf(StoredNote(r.note.folder, r.note.name, Some(ReadText(r.note.content)), modified))
            == Some(EntryInfo(Pad(dt.year, 4) + "-" + Pad(dt.month, 2) + "-",
                              if Strip(req.transcript) == "" then Paragraph
                              else Prefix(Strip(req.transcript), 100),
                              r.response.folder,
                              IsoText(dt),
                              Strip(LStripChars(r.response.title, TitleMarks))))
  {
    var r := ProcessTranscript(req, call, encode, decode, uuid, fromIso, formatDate);
    var dt := fromIso(IsoInput(req)).value;
    var parsed := Parsed(req, call, encode, decode);
    SavedContent(req, call, encode, decode, uuid, fromIso, formatDate);
    NoteListsBack(req.transcript, formatDate(dt), r.response.title, r.response.folder,
                  r.response.preview, dt, Text(parsed["slug"]), modified);
  }
}
