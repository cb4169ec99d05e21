# pipe2Tel in Dafny

pipe2Tel is a small command-line tool that forwards a message to a Telegram chat
through the Bot API. It reads the message from the `-msg` flag, from a file that
`-msg` names, or from standard input. A message of at most 4080 bytes is sent
inline with `sendMessage`, after it is escaped for Telegram's MarkdownV2 style.
A file, or a longer message written to a temporary file, is uploaded with
`sendDocument`. With `-rs` (restricted mode) both requests also ask Telegram to
disable link previews and to protect the content.

This project models the logic of `cmd/pipe2Tel/main.go` and proves properties of it:

- `escape.dfy`, module `MarkdownV2`: `escapeMarkdownV2` as the program runs it.
  It is a loop of `strings.ReplaceAll` calls over the 16 characters
  `\ [ ] ( ) ~ > # + - = | { } . !`, backslash first. It is proved equal to `Escape`,
  a single left-to-right pass that puts a backslash before every special character.
  From that follow the length law, decoding (`Unescape`), injectivity, and the exact
  condition under which escaping twice changes the text. The set is the one the code uses.
  The comment at main.go:77 says the function escapes all MarkdownV2 special characters,
  but the set at main.go:81 leaves out `_`, `*` and `` ` ``, which Telegram's list includes.
- `dispatch.dfy`, module `Dispatch`: the input resolution and dispatch of `main`, as a
  pure function `Run`. It returns `Abort`, `SendMessage(text)` or `SendDocument(doc)`.
- `transport.dfy`, module `Transport`: the request fields.
  - `url.Values` is a class whose `Set` replaces a key's values.
  - `multipart.Writer` is a class that appends parts.
  - `MessageForm` and `DocumentForm` build the two requests the way `sendMessage` and
    `sendDocument` do.
  - `HandleResponse` is the status check of `handleResponse`.
- `filepath.dfy`, module `FilePath`: Go's `filepath.Base` on Unix, which names the
  uploaded document.
- `pipe2tel.dfy`, module `Pipe2Tel`: `Invoke` runs `main` after flag parsing with the
  imperative escaper and the request builders. It is proved to build exactly the request
  that `Run` decides.
- `wrappers.dfy`: the `Option` datatype.

Strings are `seq<char>` with one character per byte, so `|s|` is Go's `len(s)`. Every
special character is ASCII, so no byte of a multi-byte UTF-8 character is ever escaped.
The file system and standard input are parameters:

- `pathIsFile` is the answer of `os.Stat` on `msg` ("exists and is not a directory").
- `stdin` is standard input, or `None` when reading it fails.
- `fileContent` is the content of the file that `msg` names.
- `tempPath` is the name that `os.CreateTemp` returns.

Two consequences of the code are worth stating:

- A `msg` that names a file is always uploaded as a document, whatever its size.
  Its content never becomes an inline message.
- The 4080-byte threshold is compared with the raw, unescaped length. An inline message
  can therefore be up to 8160 bytes once escaped (`Dispatch.InlineTextCanDoubleThreshold`).

## Model

| member | source | states |
|---|---|---|
| MarkdownV2.ReplaceAll | cmd/pipe2Tel/main.go:83 | strings.ReplaceAll for a one-character pattern (only that case occurs here): every occurrence of the character becomes the replacement; text without it is unchanged, and a replacement without it leaves none behind |
| MarkdownV2.EscapeMarkdownV2 | cmd/pipe2Tel/main.go:79-86 | the loop of ReplaceAll calls over the special characters, backslash first, returns exactly the single-pass escape `Escape(input)` |
| MarkdownV2.ReplaceExtendsEscape | cmd/pipe2Tel/main.go:80-84 | one iteration: replacing a new character c by `\c` in text whose first k special characters are escaped gives the text with k+1 escaped, provided the backslash, if it is c, comes first |
| MarkdownV2.EscapeInNothing | cmd/pipe2Tel/main.go:79-82 | before the first iteration the input counts as escaped for an empty set of characters |
| MarkdownV2.ReplaceAllAppend | cmd/pipe2Tel/main.go:83 | strings.ReplaceAll with a one-character pattern works piecewise over a concatenation |
| MarkdownV2.BackslashLastDoublesEscape | cmd/pipe2Tel/main.go:80-81 | rewriting the backslash after `!` turns "!" into `\\!` instead of `\!`, which is why the backslash goes first |
| MarkdownV2.EscapeAppend | cmd/pipe2Tel/main.go:79-86 | escaping maps each character on its own, so it splits over concatenation |
| MarkdownV2.CountSpecialAppend | cmd/pipe2Tel/main.go:81 | the number of special characters of a concatenation is the sum over its parts |
| MarkdownV2.CountSpecialZeroIff | cmd/pipe2Tel/main.go:81 | the count of special characters is zero exactly when no character is in the set |
| MarkdownV2.EscapeLength | cmd/pipe2Tel/main.go:81-85 | the escaped text is longer by exactly the number of special characters, so it is between once and twice the input length |
| MarkdownV2.EscapeUnchangedIff | cmd/pipe2Tel/main.go:81-85 | escaping leaves a text unchanged if and only if it has no special character |
| MarkdownV2.NoSpecialUnchanged | cmd/pipe2Tel/main.go:81-85 | a text with no special character comes back unchanged |
| MarkdownV2.AllSpecialDoubles | cmd/pipe2Tel/main.go:81-85 | a text made only of special characters doubles in length |
| MarkdownV2.AllSpecialCount | cmd/pipe2Tel/main.go:81 | in a text made only of special characters, every character is counted |
| MarkdownV2.UnescapeEscape | cmd/pipe2Tel/main.go:79-86 | dropping the backslash in front of each escaped character recovers the original text |
| MarkdownV2.EscapeInjective | cmd/pipe2Tel/main.go:79-86 | two texts with the same escape are equal |
| MarkdownV2.EscapeCountsDouble | cmd/pipe2Tel/main.go:81-85 | every special character becomes two special characters, so the escape holds twice as many |
| MarkdownV2.EscapeTwiceIff | cmd/pipe2Tel/main.go:79-86 | escaping is not idempotent: escaping the escaped text again leaves it unchanged iff the original had no special character |
| MarkdownV2.EscapeBangTwice | cmd/pipe2Tel/main.go:79-86 | "!" escapes to `\!` and again to `\\\!`, which differs |
| MarkdownV2.EscapeGreeting | cmd/pipe2Tel/main.go:79-86 | "Hello! #test" escapes to `Hello\! \#test` |
| MarkdownV2.EscapeAroundBangHash | cmd/pipe2Tel/main.go:79-86 | between texts with no special characters, "! #" becomes `\! \#` and the rest is kept |
| FilePath.TrimTrailingSeparators | cmd/pipe2Tel/main.go:120 | the path with its trailing slashes removed: a prefix that does not end in a slash, and only slashes were dropped |
| FilePath.LastElement | cmd/pipe2Tel/main.go:120 | the suffix after the last slash: it holds no slash and is preceded by a slash unless it is the whole path |
| FilePath.Base | cmd/pipe2Tel/main.go:120 | filepath.Base on Unix: the last element after trailing slashes are stripped; "." for the empty path; never empty, and it holds a slash only when it is "/" |
| FilePath.BaseIsOneElement | cmd/pipe2Tel/main.go:120 | the document's file name is never empty, holds a slash only when it is "/", and is "/" exactly for a non-empty path made only of slashes |
| FilePath.BaseOfPlainName | cmd/pipe2Tel/main.go:120 | a path without slashes is its own file name |
| FilePath.BaseInDirectory | cmd/pipe2Tel/main.go:60-70 | a temporary file `dir/name` is uploaded under the name `name` |
| FilePath.LastElementAfterSeparator | cmd/pipe2Tel/main.go:120 | the last element of `dir/name` is `name` when name has no slash |
| Dispatch.Resolve | cmd/pipe2Tel/main.go:40-55 | a non-empty msg is a file reference (to msg) exactly when os.Stat reports a non-directory, else it is the text; an empty msg is the whole of stdin, and nothing is resolved exactly when msg is empty and reading stdin fails |
| Dispatch.Run | cmd/pipe2Tel/main.go:27-74 | the decision of main; an inline text it sends is at most twice the threshold |
| Dispatch.ExitStatus | cmd/pipe2Tel/main.go:27-55 | the exit status is non-zero exactly when the program aborts before sending |
| Dispatch.MissingCredentialsAbort | cmd/pipe2Tel/main.go:27-31 | an empty bot_token or chat_id aborts, with exit status 1, whatever the file system and stdin say, so nothing is sent |
| Dispatch.ResolutionRules | cmd/pipe2Tel/main.go:40-55 | a non-empty msg naming a non-directory is a file path, any other non-empty msg is the message, an empty msg takes all of stdin or aborts if stdin fails; stdin is read only for an empty msg |
| Dispatch.DispatchRule | cmd/pipe2Tel/main.go:57-74 | a file is always uploaded; text is uploaded as a temporary file holding the raw message iff its raw length exceeds 4080, and otherwise sent inline as its escape, which decodes back to it |
| Dispatch.ThresholdIsInclusive | cmd/pipe2Tel/main.go:17-58 | a message of exactly 4080 bytes goes inline and one of 4081 bytes goes as a document |
| Dispatch.InlineTextCanDoubleThreshold | cmd/pipe2Tel/main.go:58-73 | because the threshold is checked before escaping, 4080 exclamation marks go inline as 8160 bytes |
| Transport.FormValues.constructor | cmd/pipe2Tel/main.go:90 | `url.Values{}` starts with no keys |
| Transport.FormValues.Set | cmd/pipe2Tel/main.go:91-96 | url.Values.Set leaves exactly one value under the key and keeps the other keys |
| Transport.MultipartWriter.constructor | cmd/pipe2Tel/main.go:111-112 | `multipart.NewWriter` over an empty buffer starts with no parts |
| Transport.MultipartWriter.WriteField | cmd/pipe2Tel/main.go:114-117 | a field is appended after the parts written before |
| Transport.MultipartWriter.CreateFormFile | cmd/pipe2Tel/main.go:120-125 | the file part, with its field name, file name and the copied content, is appended |
| Transport.MessageForm | cmd/pipe2Tel/main.go:88-97 | the sendMessage form holds chat_id, text and parse_mode=MarkdownV2; disable_web_page_preview=true and protect_content=true are present iff restricted; no other key |
| Transport.DocumentForm | cmd/pipe2Tel/main.go:102-126 | the sendDocument body is chat_id, then the two restricted flags iff restricted, then one "document" file part named by the path's base name |
| Transport.HandleResponse | cmd/pipe2Tel/main.go:140-160 | a transport error is reported as such; only status 200 is success; any other status is an API error carrying that status and body |
| Pipe2Tel.Invoke | cmd/pipe2Tel/main.go:27-74 | exactly the request Run decides is built: none on abort, a sendMessage form with the escaped text, or a sendDocument body carrying the named file or a temporary file holding the raw message |

## Left out

- The HTTP calls (`http.PostForm`, `client.Do`) and the request URL built from the token: network I/O. A request is modelled by its token and fields.
- The wire encoding of the form and of the multipart body, and the Content-Type header: foreign library code.
- The pretty-printing of an error body with `json.Indent`: it only changes console output. `HandleResponse` keeps the raw body.
- All console output, `usageGuide` and flag parsing. The flags arrive as a `Flags` value.
- Reading stdin with `io.Copy`, `os.Stat` and `os.Open`. These are parameters of the model.
- The failure branches that print and return without sending: creating the temporary file, opening the file, creating the form file and creating the request (main.go lines 60-64, 104-108, 121-124, 128-132). The model assumes these steps succeed.
- The ignored errors of `tmpFile.WriteString` (line 66), `writer.WriteField` (lines 114-117), `io.Copy(part, file)` (line 125) and `writer.Close` (line 126): the model assumes they succeed, so the uploaded content is exactly the message or the file.
- Removing the temporary file at exit (`defer os.Remove`): file-system effect outside the model.
- `filepath.Base` is modelled for Unix paths only. Windows volume names and `\` separators are not modelled.
