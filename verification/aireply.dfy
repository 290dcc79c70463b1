/** Reading the language model's free-text reply into the four fields the
    backend uses, and the fixed-shape replies it makes up itself when the
    model is not configured or not reachable (`parse_ai_response` and the
    fallback branches of `call_ai` in backend/main.py). JSON itself is
    abstract: `decode` stands for `json.loads` restricted to texts that
    start with `{` and end with `}` (which only ever decode to objects), and
    `encode` for `json.dumps`. */
module AiReply {
  import opened Results
  import opened PyStr

  /** A decoded JSON value: a string, or any other value together with the
      text Python's `str()` renders it as. */
  datatype Json = JStr(str: string) | JOther(text: string)

  type JsonObject = map<string, Json>

  /** Python's `str(v)` of a decoded value. */
  function Text(v: Json): string {
    match v
    case JStr(s) => s
    case JOther(t) => t
  }

  /** Python's `d.get(k, default)`. */
  function Get(m: JsonObject, k: string, default: Json): (v: Json)
    ensures k in m ==> v == m[k]
    ensures k !in m ==> v == default
  {
    if k in m then m[k] else default
  }

  const FieldKeys: set<string> := {"folder", "title", "summary", "slug"}

  /** The value `parse_ai_response` gives a field the reply leaves out. */
  function FieldDefault(k: string, defaultFolder: string): Json {
    if k == "folder" then JStr(defaultFolder)
    else if k == "title" then JStr("Untitled")
    else if k == "summary" then JStr("")
    else JStr("note")
  }

  /** The record returned when no JSON object can be read from the reply. */
  function Defaults(defaultFolder: string): (m: JsonObject)
    ensures m.Keys == FieldKeys
    ensures forall k :: k in FieldKeys ==> m[k] == FieldDefault(k, defaultFolder)
  {
    map["folder" := JStr(defaultFolder), "title" := JStr("Untitled"),
        "summary" := JStr(""), "slug" := JStr("note")]
  }

  /** A text that `json.dumps` of an object produces, and the only shape the
      slice below can have. */
  predicate IsObjectText(t: string) {
    |t| >= 2 && t[0] == '{' && t[|t| - 1] == '}'
  }

  /** The slice from the first `{` through the last `}`, when the last `}`
      comes after the first `{`. */
  function JsonSlice(response: string): (r: Option<string>)
    ensures r.None? <==> Find(response, "{") < 0 || RFind(response, "}") < Find(response, "{")
    ensures r.Some? ==> IsObjectText(r.value)
  {
    OccursAtChar(response, '{');
    OccursAtChar(response, '}');
    var start := Find(response, "{");
    var end := RFind(response, "}") + 1;
    if start >= 0 && end > start then Some(response[start..end]) else None
  }

  /** `parse_ai_response(response, default_folder)`. */
  function ParseAiResponse(response: string, defaultFolder: string,
                           decode: string -> Option<JsonObject>): (r: JsonObject)
    ensures r.Keys == FieldKeys
    ensures (JsonSlice(response).None? || decode(JsonSlice(response).value).None?)
              ==> r == Defaults(defaultFolder)
    ensures JsonSlice(response).Some? && decode(JsonSlice(response).value).Some? ==>
              var data := decode(JsonSlice(response).value).value;
              forall k :: k in FieldKeys ==>
                r[k] == (if k in data then data[k] else FieldDefault(k, defaultFolder))
  {
    match JsonSlice(response)
    case None => Defaults(defaultFolder)
    case Some(text) =>
      match decode(text)
      case None => Defaults(defaultFolder)
      case Some(data) =>
        map["folder" := Get(data, "folder", JStr(defaultFolder)),
            "title" := Get(data, "title", JStr("Untitled")),
            "summary" := Get(data, "summary", JStr("")),
            "slug" := Get(data, "slug", JStr("note"))]
  }

  /** The slice is exactly the reply with a `{`-free head and a `}`-free tail
      cut off. */
  lemma SliceIsBetweenBraces(response: string)
    requires JsonSlice(response).Some?
    ensures exists head, tail ::
              && response == head + JsonSlice(response).value + tail
              && '{' !in head && '}' !in tail
  {
    var start := Find(response, "{");
    var end := RFind(response, "}") + 1;
    var head, tail := response[..start], response[end..];
    assert response == head + response[start..end] + tail;
    NoneBefore(response, '{', start);
    NoneAfter(response, '}', end);
    assert response == head + JsonSlice(response).value + tail;
  }

  /** Conversely, text around an object that has no `{` before it and no `}`
      after it is cut off exactly. */
  lemma SliceOfSurrounded(head: string, body: string, tail: string)
    requires '{' !in head && '}' !in tail && IsObjectText(body)
    ensures JsonSlice(head + body + tail) == Some(body)
  {
    var s := head + body + tail;
    OccursAtChar(s, '{');
    OccursAtChar(s, '}');
    assert s[|head|] == '{';
    assert s[|head| + |body| - 1] == '}';
    assert Find(s, "{") == |head|;
    assert RFind(s, "}") == |head| + |body| - 1;
    assert s[|head|..|head| + |body|] == body;
  }

  /** Text outside the braces never affects the parsed record. */
  lemma SurroundingTextIgnored(head: string, body: string, tail: string,
                               defaultFolder: string, decode: string -> Option<JsonObject>)
    requires '{' !in head && '}' !in tail && IsObjectText(body)
    ensures ParseAiResponse(head + body + tail, defaultFolder, decode)
            == ParseAiResponse(body, defaultFolder, decode)
  {
    SliceOfSurrounded(head, body, tail);
    SliceOfSurrounded("", body, "");
    assert "" + body + "" == body;
  }

  /** How `call_ai` ended: no API key configured, an HTTP reply with its
      status and the decoded `choices[0].message.content` (any JSON value,
      `null` and lists included), or an exception (a network failure or a
      reply without the expected `choices` structure). */
  datatype AiCall = NoApiKey | HttpReply(status: int, content: Json) | CallFailed

  /** The record `call_ai` makes up without asking the model. The mock reply
      (no API key) marks a cut title with `...`; the error replies do not. */
  function FallbackRecord(transcript: string, defaultFolder: string, mock: bool): (m: JsonObject)
    ensures m.Keys == FieldKeys
    ensures m["folder"] == JStr(defaultFolder) && m["slug"] == JStr("note")
    ensures m["summary"].JStr? && m["summary"].str <= transcript
    ensures |m["summary"].str| == if |transcript| < 100 then |transcript| else 100
    ensures m["title"].JStr? && Prefix(transcript, 30) <= m["title"].str
    ensures |transcript| <= 30 ==> m["title"].str == transcript
    ensures |m["title"].str| > 30 <==> mock && |transcript| > 30
    ensures mock && |transcript| > 30 ==> m["title"].str == transcript[..30] + "..."
  {
    map["folder" := JStr(defaultFolder),
        "title" := JStr(if mock && |transcript| > 30 then transcript[..30] + "..." else Prefix(transcript, 30)),
        "summary" := JStr(Prefix(transcript, 100)),
        "slug" := JStr("note")]
  }

  /** A 200 reply whose message content is not a string: `call_ai` returns
      it unchecked, and the parser cannot search it for braces. */
  predicate ReplyNotText(call: AiCall) {
    call.HttpReply? && call.status == 200 && !call.content.JStr?
  }

  /** `call_ai(transcript, readme, default_folder)`: the model's message
      content on a 200 reply, otherwise the encoded fallback record. */
  function CallAi(transcript: string, defaultFolder: string, call: AiCall,
                  encode: JsonObject -> string): (r: Json)
    ensures r.JStr? <==> !ReplyNotText(call)
    ensures call.HttpReply? && call.status == 200 ==> r == call.content
    ensures !(call.HttpReply? && call.status == 200) ==>
              r == JStr(encode(FallbackRecord(transcript, defaultFolder, call.NoApiKey?)))
  {
    match call
    case NoApiKey => JStr(encode(FallbackRecord(transcript, defaultFolder, true)))
    case HttpReply(status, content) =>
      if status == 200 then content
      else JStr(encode(FallbackRecord(transcript, defaultFolder, false)))
    case CallFailed => JStr(encode(FallbackRecord(transcript, defaultFolder, false)))
  }

  /** `decode` reads back every object `encode` writes, and `encode` writes
      objects as `{...}` (what `json.loads` and `json.dumps` do). */
  ghost predicate Inverts(encode: JsonObject -> string, decode: string -> Option<JsonObject>) {
    forall m :: decode(encode(m)) == Some(m) && IsObjectText(encode(m))
  }

  /** A record carrying exactly the four fields parses back to itself. */
  lemma {:induction false} FullRecordParsesBack(m: JsonObject, defaultFolder: string,
                                                 encode: JsonObject -> string,
                                                 decode: string -> Option<JsonObject>)
    requires Inverts(encode, decode) && m.Keys == FieldKeys
    ensures ParseAiResponse(encode(m), defaultFolder, decode) == m
  {
    var t := encode(m);
    assert IsObjectText(t);
    SliceOfSurrounded("", t, "");
    assert "" + t + "" == t;
    var r := ParseAiResponse(t, defaultFolder, decode);
    assert forall k :: k in FieldKeys ==> r[k] == m[k];
  }

  /** Every reply `call_ai` makes up itself goes through the parser unchanged. */
  lemma FallbackParsesBack(transcript: string, defaultFolder: string, call: AiCall,
                           encode: JsonObject -> string, decode: string -> Option<JsonObject>)
    requires Inverts(encode, decode)
    requires !(call.HttpReply? && call.status == 200)
    ensures ParseAiResponse(CallAi(transcript, defaultFolder, call, encode).str, defaultFolder, decode)
            == FallbackRecord(transcript, defaultFolder, call.NoApiKey?)
  {
    FullRecordParsesBack(FallbackRecord(transcript, defaultFolder, call.NoApiKey?), defaultFolder, encode, decode);
  }

  /** `parsed.get("summary", transcript[:100])` is always the parsed summary:
      the parser never leaves the key out, so the fallback is unreachable. */
  lemma PreviewIsSummary(response: string, defaultFolder: string, transcript: string,
                         decode: string -> Option<JsonObject>)
    ensures var parsed := ParseAiResponse(response, defaultFolder, decode);
            Get(parsed, "summary", JStr(Prefix(transcript, 100))) == parsed["summary"]
  {
  }
}
