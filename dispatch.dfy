/**
  Input resolution and dispatch of main (cmd/pipe2Tel/main.go, lines
  27-74) as a decision function. The filesystem and standard input are
  inputs: `pathIsFile` is os.Stat's answer "msg names something that exists
  and is not a directory", `stdin` is the whole of standard input or None
  when reading it fails.
*/
module Dispatch {
  import opened Wrappers
  import opened MarkdownV2

  /** Above this many bytes a message goes out as a document. */
  const MaxMessageLength: nat := 4080

  /** The command-line flags bot_token, chat_id, rs and msg. */
  datatype Flags = Flags(botToken: string, chatId: string, restricted: bool, msg: string)

  /** What the message resolves to: text, or a file named by msg. */
  datatype Payload = Text(message: string) | FileRef(path: string)

  /** The document sendDocument uploads. */
  datatype Document =
    | ExistingFile(path: string)   // msg named an existing file
    | TempFile(content: string)    // a temporary file holding the raw message

  /** The one thing an invocation does. */
  datatype Action =
    | Abort                        // os.Exit(1) before anything is sent
    | SendMessage(text: string)    // sendMessage with this text
    | SendDocument(doc: Document)  // sendDocument with this document

  /** Lines 40-55: a non-empty msg is a file path or literal text; an empty one reads stdin. */
  function Resolve(msg: string, pathIsFile: bool, stdin: Option<string>): (r: Option<Payload>)
    ensures r.None? <==> msg == "" && stdin.None?
    ensures r.Some? && r.value.FileRef? <==> msg != "" && pathIsFile
    ensures r.Some? && r.value.FileRef? ==> r.value.path == msg
    ensures r.Some? && r.value.Text? ==> r.value.message == if msg != "" then msg else stdin.value
  {
    if msg != "" then
      if pathIsFile then Some(FileRef(msg)) else Some(Text(msg))
    else if stdin.Some? then Some(Text(stdin.value))
    else None
  }

  /** Lines 27-74: credentials first, then resolution, then the size-based choice. */
  function Run(flags: Flags, pathIsFile: bool, stdin: Option<string>): (a: Action)
    ensures a.SendMessage? ==> |a.text| <= 2 * MaxMessageLength
  {
    if flags.botToken == "" || flags.chatId == "" then Abort
    else match Resolve(flags.msg, pathIsFile, stdin)
      case None => Abort
      case Some(FileRef(path)) => SendDocument(ExistingFile(path))
      case Some(Text(message)) =>
        if |message| > MaxMessageLength then SendDocument(TempFile(message))
        else
          EscapeLength(message);
          SendMessage(Escape(message))
  }

  /** The process exit status: 1 on an abort, 0 once a send was attempted. */
  function ExitStatus(a: Action): (code: int)
    ensures code != 0 <==> a.Abort?
  {
    if a.Abort? then 1 else 0
  }

  /** Missing credentials abort with status 1 whatever msg, the file system or stdin say. */
  lemma MissingCredentialsAbort(flags: Flags, pathIsFile: bool, stdin: Option<string>)
    requires flags.botToken == "" || flags.chatId == ""
    ensures Run(flags, pathIsFile, stdin) == Abort
    ensures ExitStatus(Run(flags, pathIsFile, stdin)) == 1
    ensures forall f: bool, s: Option<string> :: Run(flags, f, s) == Run(flags, pathIsFile, stdin)
  {
  }

  /** The three resolution rules of lines 40-55. */
  lemma ResolutionRules(msg: string, pathIsFile: bool, stdin: Option<string>)
    ensures msg != "" && pathIsFile ==> Resolve(msg, pathIsFile, stdin) == Some(FileRef(msg))
    ensures msg != "" && !pathIsFile ==> Resolve(msg, pathIsFile, stdin) == Some(Text(msg))
    ensures msg == "" ==> Resolve(msg, pathIsFile, stdin) == if stdin.None? then None else Some(Text(stdin.value))
    // stdin is read only when msg is empty, and the path is looked up only when it is not
    ensures msg != "" ==> forall s: Option<string> :: Resolve(msg, pathIsFile, s) == Resolve(msg, pathIsFile, stdin)
    ensures msg == "" ==> Resolve(msg, !pathIsFile, stdin) == Resolve(msg, pathIsFile, stdin)
  {
  }

  /**
    Line 58: a document is sent exactly when the input is a file or the
    raw message is longer than the threshold; a message is sent exactly
    when the raw text fits, and then it is the escaped text.
  */
  lemma DispatchRule(flags: Flags, pathIsFile: bool, stdin: Option<string>)
    requires flags.botToken != "" && flags.chatId != ""
    ensures var a := Run(flags, pathIsFile, stdin);
      match Resolve(flags.msg, pathIsFile, stdin)
      case None => a == Abort
      case Some(FileRef(path)) => a == SendDocument(ExistingFile(path))
      case Some(Text(m)) =>
        && (a.SendDocument? <==> |m| > MaxMessageLength)
        && (a.SendMessage? <==> |m| <= MaxMessageLength)
        && (a.SendDocument? ==> a.doc == TempFile(m))
        && (a.SendMessage? ==> a.text == Escape(m) && Unescape(a.text) == m)
  {
    match Resolve(flags.msg, pathIsFile, stdin)
    case None =>
    case Some(FileRef(path)) =>
    case Some(Text(m)) =>
      UnescapeEscape(m);
  }

  /** A message of exactly the threshold length still goes inline. */
  lemma ThresholdIsInclusive(token: string, chat: string, restricted: bool, m: string)
    requires token != "" && chat != "" && |m| == MaxMessageLength
    ensures Run(Flags(token, chat, restricted, ""), false, Some(m)) == SendMessage(Escape(m))
    ensures Run(Flags(token, chat, restricted, ""), false, Some(m + " ")) == SendDocument(TempFile(m + " "))
  {
  }

  /**
    The threshold is checked before escaping, so the escaped inline text
    can be twice the threshold: 4080 exclamation marks go inline as 8160
    characters.
  */
  lemma InlineTextCanDoubleThreshold(token: string, chat: string, restricted: bool)
    requires token != "" && chat != ""
    ensures var m := seq(MaxMessageLength, _ => '!');
      var a := Run(Flags(token, chat, restricted, m), false, None);
      a.SendMessage? && |a.text| == 2 * MaxMessageLength
  {
    var m := seq(MaxMessageLength, _ => '!');
    assert forall i :: 0 <= i < |m| ==> IsSpecial(m[i]);
    AllSpecialDoubles(m);
  }
}
