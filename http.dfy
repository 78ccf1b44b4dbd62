/** The JSON reply the servers write (`respond`, src/main.go and
    cmd/skicka.go). */
module Http {
  import opened Wrappers
  import opened Files

  const StatusCreated := 201
  const StatusSeeOther := 303
  const StatusInternalServerError := 500
  const JsonContentType := "application/json"

  /** The outcome of `r.FormFile("file")`: a parse error, or the uploaded
      part's client-supplied file name and its bytes. */
  datatype Request = FormError | FormFile(filename: string, content: seq<byte>)

  /** What a handler writes: Content-Type header, status code and body. */
  datatype Reply = Reply(contentType: Option<string>, status: int, body: string)

  /** Printable ASCII that `json.Marshal` copies verbatim: no quote, no
      backslash, and none of the HTML characters it escapes. All the messages
      the servers send are of this kind. */
  predicate PlainMessage(m: string) {
    forall k :: 0 <= k < |m| ==> PlainChar(m[k])
  }

  predicate PlainChar(c: char) {
    ' ' <= c <= '~' && c != '"' && c != '\\' && c != '<' && c != '>' && c != '&'
  }

  /** `json.Marshal` of a plain message: a JSON string literal. */
  function Marshal(m: string): (b: string)
    requires PlainMessage(m)
    ensures Unquote(b) == Some(m)
  {
    var b := "\"" + m + "\"";
    assert b[1..|b| - 1] == m;
    b
  }

  /** Reading back a JSON string literal without escapes. */
  function Unquote(b: string): (m: Option<string>) {
    if |b| >= 2 && b[0] == '"' && b[|b| - 1] == '"' && PlainMessage(b[1..|b| - 1])
    then Some(b[1..|b| - 1])
    else None
  }

  /** `respond(w, status, payload)`: the JSON content type and the status are
      always set; a nil payload gives an empty body, a message gives a body
      that decodes back to it. The branch for a payload `json.Marshal` cannot
      encode does not arise for string payloads. */
  function Respond(status: int, payload: Option<string>): (r: Reply)
    requires payload.Some? ==> PlainMessage(payload.value)
    ensures r.contentType == Some(JsonContentType) && r.status == status
    ensures payload.None? ==> r.body == []
    ensures payload.Some? ==> Unquote(r.body) == payload
  {
    var body := match payload
      case None => []
      case Some(m) => Marshal(m);
    Reply(Some(JsonContentType), status, body)
  }

  /** The messages both upload handlers send, and the replies they make of
      them. */
  const CreateFailedMessage := "unable to create file on filesystem"
  const CopyFailedMessage := "unable to upload file"
  const UploadedMessage := "file upload successful"

  const CreateFailedReply := Respond(StatusInternalServerError, Some(CreateFailedMessage))
  const CopyFailedReply := Respond(StatusInternalServerError, Some(CopyFailedMessage))
  const UploadedReply := Respond(StatusCreated, Some(UploadedMessage))
}
