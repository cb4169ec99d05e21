/**
  The requests sendMessage and sendDocument build and the way
  handleResponse reads the answer (cmd/pipe2Tel/main.go, lines 88-160).
  A request is modelled by its fields only: the URL, the HTTP call and the
  wire encoding of the form are not part of this model.
*/
module Transport {
  import FilePath

  const ParseMode: string := "MarkdownV2"
  /** The value of both restricted-mode flags. */
  const FlagOn: string := "true"

  /** url.Values: a form whose keys each map to a list of values. */
  class FormValues {
    var values: map<string, seq<string>>

    constructor ()
      ensures values == map[]
    {
      values := map[];
    }

    /** url.Values.Set: the key now holds exactly this one value. */
    method Set(key: string, value: string)
      modifies this
      ensures values == old(values)[key := [value]]
    {
      values := values[key := [value]];
    }
  }

  /** One part of a multipart/form-data body. */
  datatype Part =
    | Field(name: string, value: string)
    | FilePart(name: string, fileName: string, content: string)

  /** multipart.Writer: the parts written so far, in order. */
  class MultipartWriter {
    var parts: seq<Part>

    constructor ()
      ensures parts == []
    {
      parts := [];
    }

    /** Writer.WriteField appends a plain field. */
    method WriteField(name: string, value: string)
      modifies this
      ensures parts == old(parts) + [Field(name, value)]
    {
      parts := parts + [Field(name, value)];
    }

    /** Writer.CreateFormFile followed by io.Copy of the file into the new part. */
    method CreateFormFile(name: string, fileName: string, content: string)
      modifies this
      ensures parts == old(parts) + [FilePart(name, fileName, content)]
    {
      parts := parts + [FilePart(name, fileName, content)];
    }
  }

  /**
    The form sendMessage posts (lines 90-97): chat_id, text and parse_mode
    are always set; the two restricted-mode flags are set, to "true",
    exactly when restricted mode is on; no other key is set.
  */
  ghost predicate IsMessageForm(form: map<string, seq<string>>, chatId: string, text: string, restricted: bool)
  {
    && form.Keys == {"chat_id", "text", "parse_mode"}
                    + (if restricted then {"disable_web_page_preview", "protect_content"} else {})
    && form["chat_id"] == [chatId] && form["text"] == [text] && form["parse_mode"] == [ParseMode]
    && (restricted ==> form["disable_web_page_preview"] == [FlagOn] && form["protect_content"] == [FlagOn])
  }

  /**
    The multipart body sendDocument posts (lines 111-126): chat_id first,
    then the two restricted-mode flags exactly when restricted mode is on,
    then one file part named "document" carrying the file name and content.
  */
  ghost predicate IsDocumentForm(parts: seq<Part>, chatId: string, fileName: string, content: string, restricted: bool)
  {
    && |parts| == (if restricted then 4 else 2)
    && parts[0] == Field("chat_id", chatId)
    && (restricted ==>
          parts[1] == Field("disable_web_page_preview", FlagOn) && parts[2] == Field("protect_content", FlagOn))
    && parts[|parts| - 1] == FilePart("document", fileName, content)
  }

  /** Lines 90-97: sendMessage fills its form with successive Set calls. */
  method MessageForm(chatId: string, text: string, restricted: bool)
    returns (form: map<string, seq<string>>)
    ensures IsMessageForm(form, chatId, text, restricted)
  {
    var data := new FormValues();
    data.Set("chat_id", chatId);
    data.Set("text", text);
    data.Set("parse_mode", ParseMode);
    if restricted {
      data.Set("disable_web_page_preview", FlagOn);
      data.Set("protect_content", FlagOn);
    }
    form := data.values;
  }

  /**
    Lines 111-126: sendDocument writes its fields one by one; the file part
    is named after the base name of the path.
  */
  method DocumentForm(chatId: string, path: string, content: string, restricted: bool)
    returns (parts: seq<Part>)
    ensures IsDocumentForm(parts, chatId, FilePath.Base(path), content, restricted)
  {
    var writer := new MultipartWriter();
    writer.WriteField("chat_id", chatId);
    if restricted {
      writer.WriteField("disable_web_page_preview", FlagOn);
      writer.WriteField("protect_content", FlagOn);
    }
    writer.CreateFormFile("document", FilePath.Base(path), content);
    parts := writer.parts;
  }

  const StatusOK: int := 200

  /** What the HTTP client hands back: an error, or a status and a body. */
  datatype Response = RequestError | Reply(status: int, body: string)

  /** How handleResponse reports the outcome. */
  datatype Report =
    | SendFailed                          // the request itself failed
    | ApiError(status: int, body: string) // the API answered with another status
    | Delivered                           // the API answered 200

  /** Lines 140-160: only status 200 counts as success. */
  function HandleResponse(resp: Response): (r: Report)
    ensures r.Delivered? <==> resp.Reply? && resp.status == StatusOK
    ensures r.SendFailed? <==> resp.RequestError?
    ensures r.ApiError? ==> resp == Reply(r.status, r.body) && r.status != StatusOK
  {
    match resp
    case RequestError => SendFailed
    case Reply(status, body) => if status != StatusOK then ApiError(status, body) else Delivered
  }
}
