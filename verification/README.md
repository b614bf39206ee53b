# MediBot relay backend — a Dafny model

MediBot's backend is a small HTTP relay, `medi-bot-backend/server.js`. It
forwards a user's medical question to a locally hosted language model and
returns a cleaned-up answer. It keeps every successful exchange in a JSON
history file, and it can extract text from an uploaded image (OCR) and ask the
model to explain it. This project models the four request handlers as pure
functions. Each takes the request, the outcome of every external call it makes,
and the history log it finds, and returns the reply together with the log it
leaves behind.

Modules, one per file:

- `Wrappers` (`wrappers.dfy`) holds `Option`.
- `Whitespace` (`whitespace.dfy`) holds the answer normalisation.
  - It models `answer.replace(/\s+/g, " ").trim()`.
  - It uses the exact ECMAScript white-space set (`IsWs`) shared by `\s` and `trim()`.
  - `Words`/`Join` give an independent reference reading: the words of a text,
    and words glued by single spaces.
- `History` (`history.dfy`) holds the history file.
  - A file is `Absent`, `Stored(records)` or `Unreadable`.
  - It covers start-up creation and whole-file reads and writes.
  - Each read or write takes a flag saying whether the medium succeeded.
- `Handlers` (`handlers.dfy`) holds `POST /chat`, `GET /history`,
  `POST /clear-history` and `POST /ocr`, with their fixed reply texts.
- `Server` (`server.dfy`) dispatches requests.
  - `Step` routes one `Exchange`: a request plus the outcomes of the model call,
    the OCR engine, the file read and write, and the clock.
  - `Run` serves a sequence of exchanges.
  - The lemmas state what sequences of requests do to the log.

Two behaviours of `server.js` are easy to miss, and the model keeps both:

- **No history on failure:** `/chat` saves history only when everything
  succeeds. It reads, appends and writes the log after the model replies, inside
  the same `try` (lines 59-65). A failed read or write therefore lands in the
  `catch` (lines 69-75). The reply becomes "⚠️ Local AI not responding. Make
  sure Ollama is running.", and nothing is stored even though the model answered.
- **Empty reply gets the fallback:** the fallback "Sorry, I cannot answer right
  now." replaces a missing reply content and also an empty one (lines 52-54),
  because `||` treats `""` as false. Content made only of white space is kept
  and normalises to the empty answer.

## Model

| member | source | states |
|---|---|---|
| Whitespace.TrimStart | medi-bot-backend/server.js:56 | the result does not start with white space, and everything before it in the input is white space |
| Whitespace.TrimStartSuffix | medi-bot-backend/server.js:56 | what `TrimStart` keeps is the end of the input, unchanged; with `TrimStart`'s contract this is exactly the removal of the longest white-space prefix |
| Whitespace.TrimEnd | medi-bot-backend/server.js:56 | the result is a prefix of the input that does not end with white space, and everything dropped is white space |
| Whitespace.Trim | medi-bot-backend/server.js:56 | `trim()` is the input with exactly its leading and its trailing white space removed: the kept middle is an unchanged infix, everything cut off on either side is white space, and it neither starts nor ends with white space |
| Whitespace.Collapse | medi-bot-backend/server.js:56 | the `/\s+/g` → `" "` replacement never lengthens the text, empties it only if it was empty, and turns a leading white-space run into one space |
| Whitespace.CollapseLast | medi-bot-backend/server.js:56 | the replacement ends in a space exactly when the text ends in white space, and otherwise in the text's own last character |
| Whitespace.CollapseIsJoinOfWords | medi-bot-backend/server.js:56 | the exact value of the replacement: the text's words joined by single spaces, with one space in front when the text starts with white space, and one behind when white space follows its last word |
| Whitespace.CollapseShape | medi-bot-backend/server.js:56 | after the replacement, the only white space is ' ' and no two white-space characters are adjacent |
| Whitespace.StripWsCollapse | medi-bot-backend/server.js:56 | the replacement keeps every non-white-space character, in order |
| Whitespace.Normalize | medi-bot-backend/server.js:56 | a normalised answer is trimmed, uses only ' ' as white space and has no two adjacent white-space characters |
| Whitespace.NormalizeKeepsNonWs | medi-bot-backend/server.js:56 | normalising keeps the input's non-white-space characters, in order, and adds none |
| Whitespace.NormalizeFixesIff | medi-bot-backend/server.js:56 | a text is left unchanged by normalisation if and only if it is already trimmed, single-spaced and uses only ' ' |
| Whitespace.NormalizeIdempotent | medi-bot-backend/server.js:56 | normalising twice gives the same text as normalising once |
| Whitespace.NormalizeEmptyIff | medi-bot-backend/server.js:56 | the normalised text is empty exactly when the input is all white space (including the empty input) |
| Whitespace.NormalizeIsJoinOfWords | medi-bot-backend/server.js:56 | normalising equals the reference reading: the input's words, in order, joined by single spaces |
| Whitespace.NormalizeKeepsWords | medi-bot-backend/server.js:56 | the normalised text has exactly the same words as the input |
| Whitespace.WordsOfJoin | medi-bot-backend/server.js:56 | joining words with single spaces and splitting again gives back the words (the round trip behind the reference reading) |
| Whitespace.JoinIsNormal | medi-bot-backend/server.js:56 | words joined by single spaces form a non-empty normal text, i.e. a possible normalised answer |
| Handlers.OrElse | medi-bot-backend/server.js:52-54 | `content \|\| fallback`: a missing or empty content gives the fallback, any other string (white space included) is kept |
| Handlers.ChatAnswer | medi-bot-backend/server.js:52-56 | the chat answer is normal; for missing or empty content it is exactly "Sorry, I cannot answer right now."; otherwise it has the content's words; it is empty exactly for non-empty, all-white-space content |
| Handlers.NoAnswerIsNormal | medi-bot-backend/server.js:52-56 | normalisation leaves the fallback sentence unchanged, so the fallback is sent verbatim |
| Handlers.NoAnswerShape | medi-bot-backend/server.js:54 | the fallback sentence is trimmed and single-spaced |
| Handlers.Chat | medi-bot-backend/server.js:35-77 | the reply is always an answer. The log changes if and only if the model replied, the log was read and the write succeeded. It then gains exactly one record at its end, (question, answer, time), with the earlier records unchanged, and the reply is that answer. Otherwise the log is untouched and the reply is the "Local AI not responding" message |
| Handlers.GetHistory | medi-bot-backend/server.js:80-87 | a successful read returns the stored records in order; any failure returns `[]` |
| Handlers.ClearHistory | medi-bot-backend/server.js:90-97 | `success` is true exactly when the write succeeds. Success leaves a log that reads as `[]`, with message "History cleared". Failure leaves the log untouched, with message "Failed to clear history" |
| Handlers.ClearIdempotent | medi-bot-backend/server.js:92-93 | clearing twice gives the same log and the same reply as clearing once, and an empty log stays empty |
| Handlers.Ocr | medi-bot-backend/server.js:110-158 | no upload gives ("", "No file received"); a failed recognition or model call gives ("", "OCR Failed"); otherwise the recognised text plus the model's content, with "No response" for missing or empty content; no log is involved |
| History.Startup | medi-bot-backend/server.js:20-22 | a missing history file is created as an empty array; an existing one, readable or not, is left alone |
| History.StartupReadsEmpty | medi-bot-backend/server.js:20-22 | before start-up a missing file cannot be read; after it, the file reads as the empty sequence |
| History.ReadLog | medi-bot-backend/server.js:59 | a read succeeds exactly when the medium works and the file holds a record array, and it then yields those records |
| History.WriteLog | medi-bot-backend/server.js:65 | after a successful write, reading gives back exactly the written records; a failed write leaves the file as it was |
| Server.Step | medi-bot-backend/server.js:35-158 | OCR and history requests never change the log. A chat that changes it appends exactly its own record, from a successful exchange, and replies with that record's answer. A clear that changes it leaves `[]` |
| Server.ChatStep | medi-bot-backend/server.js:52-67 | a chat whose model call, read and write all succeed on a readable log replies with its normalised answer and leaves the old records followed by exactly its own record |
| Server.RecordsStayWithoutClear | medi-bot-backend/server.js:59-65 | with no clear among the requests, records once stored stay in place as a prefix, and each request adds at most one |
| Server.SuccessfulChatsAppendInOrder | medi-bot-backend/server.js:59-65 | successful chats served one after another append their records to the log in the order served |
| Server.SuccessfulChatsReplyStored | medi-bot-backend/server.js:56-67 | in such a run, each chat's reply is the answer its record stores |
| Server.ChatRecordsAt | medi-bot-backend/server.js:60-64 | the i-th appended record holds the i-th chat's question, answer and time |
| Server.HistoryAfterChats | medi-bot-backend/server.js:59-83 | a history read after successful chats returns the old records followed by one record per chat, in order |
| Server.ReadOnlyRequestsKeepLog | medi-bot-backend/server.js:80-158 | any number of OCR and history requests leave the log exactly as it was |
| Server.ClearThenRead | medi-bot-backend/server.js:80-97 | a successful clear followed by a successful read returns no records |
| Server.FirstStartReadsEmpty | medi-bot-backend/server.js:19-87 | on a first start with no file, the history reads as empty |

## Left out

- The Express app, CORS, JSON body parsing and the listening port are left out. The model starts at the point where a handler has its inputs.
- The request payloads, the system prompts and the model name sent to the model are left out. The model call is an input, `ModelCall`: either a failure or a reply whose `message.content` may be missing.
- The Tesseract engine and the multer upload parsing are left out. The recognised text is an input, with `None` for a failed recognition. The uploaded bytes reach nothing else.
- The clock is a parameter. `new Date().toISOString()` becomes the `time` string of each exchange.
- Console logging is left out. It has no effect on replies or on the log.
- JSON serialisation details are left out, such as the two-space indentation of the file.
- Concurrency is not modelled. Requests are served one at a time, so the lost update between two overlapping chats' read–modify–write does not appear.
- Handlers.Chat: the question is modelled as a string. A request body without `question` yields a record with no question field, and that case is not modelled.
- Handlers.Chat: the reply content is modelled as an optional string. A non-string content is not modelled. If it is truthy (a number, an object), `replace` at line 56 throws and the request takes the `catch` at lines 69-75. If it is falsy (`0`, `false`), it takes the fallback at lines 52-54. A `null` content is modelled, as missing.
- Handlers.Ocr: the reply content is modelled as an optional string. Line 147 calls no string method, so a truthy non-string content would be returned as the `answer` unchanged, and a falsy one (`0`, `false`) gives "No response". Neither case is modelled; a `null` content is modelled, as missing.
- History.Startup: creating the file always succeeds in the model. In the source, a failing `writeJsonSync` at line 21 throws while the module loads, and the server never starts serving.
- History.ReadLog: a history file holding a JSON array of values that are not records (for example `[1]`) has no `LogFile` value. In the source it reads fine, `GET /history` returns it and `/chat` appends to it.
- Dafny's `char` is a Unicode scalar value, so the lone UTF-16 surrogates a JavaScript string can hold are not modelled.
- History.ReadLog: a history file that parses as JSON but is not an array is treated as `Unreadable`. For such a file `GET /history` would echo it as it is, and `POST /chat` would fail at `push` and reply "Local AI not responding". The model gives `[]` for the first case and matches the second.
- History.WriteLog: a failed write is modelled as leaving the file as it was. A real partial write could leave it truncated (`Unreadable`), and that case is not modelled.
- The mobile client clears the history with `DELETE /clear-history`, but the server registers only `POST`. The client is not part of this model, so only the `POST` route is modelled.
