/**
  One invocation of pipe2Tel end to end (cmd/pipe2Tel/main.go, lines
  27-74): the decision of Dispatch.Run carried out with the imperative
  escaper and the request builders. The result is the single request the
  program sends, or none when it aborts.
*/
module Pipe2Tel {
  import opened Wrappers
  import opened MarkdownV2
  import opened Dispatch
  import opened Transport
  import FilePath

  /** The request sent to the Bot API, tagged with the token that picks the bot's URL. */
  datatype Request =
    | NoRequest
    | MessagePost(token: string, form: map<string, seq<string>>)
    | DocumentPost(token: string, parts: seq<Part>)

  /**
    Runs main's body after flag parsing. The file system and the process
    environment are inputs: `pathIsFile` answers os.Stat on msg,
    `stdin` is standard input (None if reading it fails), `fileContent`
    is the content of the file msg names, and `tempPath` is the name
    os.CreateTemp gives the temporary file.
  */
  method Invoke(flags: Flags, pathIsFile: bool, stdin: Option<string>, fileContent: string, tempPath: string)
    returns (req: Request)
    ensures match Run(flags, pathIsFile, stdin)
      case Abort => req == NoRequest
      case SendMessage(text) =>
        && req.MessagePost? && req.token == flags.botToken
        && IsMessageForm(req.form, flags.chatId, text, flags.restricted)
      case SendDocument(ExistingFile(path)) =>
        && req.DocumentPost? && req.token == flags.botToken
        && IsDocumentForm(req.parts, flags.chatId, FilePath.Base(path), fileContent, flags.restricted)
      case SendDocument(TempFile(m)) =>
        && req.DocumentPost? && req.token == flags.botToken
        && IsDocumentForm(req.parts, flags.chatId, FilePath.Base(tempPath), m, flags.restricted)
  {
    if flags.botToken == "" || flags.chatId == "" {
      return NoRequest;
    }

    var message, isFile, filePath := "", false, "";
    if flags.msg != "" {
      if pathIsFile {
        filePath, isFile := flags.msg, true;
      } else {
        message := flags.msg;
      }
    } else {
      if stdin.None? {
        return NoRequest;
      }
      message := stdin.value;
    }

    if isFile || |message| > MaxMessageLength {
      var content := fileContent;
      if !isFile {
        // the temporary file holds the raw, unescaped message
        content, filePath := message, tempPath;
      }
      var parts := DocumentForm(flags.chatId, filePath, content, flags.restricted);
      req := DocumentPost(flags.botToken, parts);
    } else {
      var esc := EscapeMarkdownV2(message);
      var form := MessageForm(flags.chatId, esc, flags.restricted);
      req := MessagePost(flags.botToken, form);
    }
  }
}
