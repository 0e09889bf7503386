# TATA Nexon document assistant: a Dafny model of its core

The repository is a small chat service about the TATA Nexon SUV. It has four parts:

- A FastAPI server (`app.py`) with routes for health, chat, streamed chat, chat with a
  history, file upload, file listing and file deletion.
- A client for the vendor's hosted assistant (`main.py`). It wraps each question in a
  prompt: a system prompt, a context block picked by a keyword classifier, the question,
  and a closing instruction. It also unwraps the vendor's replies.
- A mock of that client (`main_mock.py`). It answers from four canned texts, or with a
  fallback that echoes the question, and "streams" the answer word by word.
- A browser script (`static/js/app.js`). It refuses blank input and maps the health
  report onto a status light. It shows regular replies, reads the `data: ` lines of a
  stream, and renders every message through `formatMessage`, a tiny markdown-to-HTML
  rewriter.

This project models that core as pure functions and a few methods over immutable data,
and proves properties of it. The modules are:

| module | file | what it models |
|---|---|---|
| `Wrappers` | wrappers.dfy | `Option` and `Result` |
| `Text` | text.dfy | substring search, ASCII case mapping, Python's `split()`, JavaScript's `trim()` and `split('\n')`, single-character `replace` |
| `KeywordRules` | keyword_rules.dfy | first-match keyword routing, shared by both classifiers |
| `Prompt` | prompt.dfy | `main.py`'s classifier and prompt template, with the literal texts |
| `Assistant` | assistant.dfy | `get_response_content`, the requests `chat` and `chat_with_history` send, and `upload_file`'s check that the file exists |
| `Mock` | mock.dfy | the mock's classifier, canned answers, enhancer, word stream and history handling |
| `JsonText` | json_text.dfy | `json.dumps` string escaping (with `ensure_ascii`) and `JSON.parse` of a frame's payload |
| `Relay` | relay.dfy | `generate`, the framer of the streaming route |
| `FileStore` | file_store.dfy | the `uploads` directory as a map, with save, list and delete |
| `Service` | service.dfy | the routes: health, the 503 gate, `ChatResponse`, the streaming route, upload |
| `Client` | client.dfy | the browser's send guard, status light, display of replies, stream reader and `formatMessage` |
| `Wire` | wire.dfy | server and browser together: what the page shows for what the server sent |

Parameters stand in for:

- the vendor's answers;
- whether the assistant could be created at start-up;
- the bytes and time of an upload;
- the way the browser splits the response body into reads.

The model does not perform I/O, read the clock or use randomness.

## Model

| member | source | states |
|---|---|---|
| KeywordRules.FirstMatchPriority | main_mock.py:95-104 | with distinct tags, a family is chosen exactly when one of its keywords occurs and no earlier family's keyword does |
| KeywordRules.FirstMatchFallback | main_mock.py:103-104 | the fallback is chosen exactly when no family's keyword occurs |
| Prompt.ClassifyIsFirstMatch | main.py:198-266 | `Classify`, the if/elif chain over the lower-cased message, is first-match routing over the six keyword families, in source order, with General as fallback |
| Prompt.ClassifyPriority | main.py:205-258 | context block k is used exactly when a keyword of family k occurs in the lower-cased message and none of an earlier family does |
| Prompt.ClassifyGeneral | main.py:259-266 | the general block is used exactly when no keyword of the six families occurs |
| Prompt.SafetyKeywordWins | main.py:205 | writing a safety keyword anywhere in any message selects the safety block, whatever else the message holds |
| Prompt.ClassifyIgnoresCase | main.py:199 | ASCII upper-casing or lower-casing the message never changes its block |
| Prompt.EnhanceUserMessage | main.py:201-271 | the prompt starts with the system prompt, a blank line and the classifier's block, and ends with the question marker, the unmodified question and the closing instruction |
| Prompt.QuestionRoundTrip | main.py:268-271 | the question read back from between the header and the closing instruction is exactly the user's message |
| Assistant.GetResponseContent | main.py:306-324 | a dict with `message` gives `message["content"]`, or the fixed error text when that lookup fails; otherwise an object with `message.content` gives it; anything else gives `str()` of the reply, or the fixed error text when `str()` raises |
| Assistant.ShapesAgree | main.py:317-320 | both vendor reply shapes that carry the same content unwrap to that content |
| Assistant.FallbackIsStr | main.py:321 | a reply of neither shape unwraps to exactly its `str()` when that does not raise |
| Assistant.FallbackCanBeEmpty | main.py:321 | the unwrapped content can be the empty string |
| Assistant.ToVendorEntries | main.py:285-291 | strings become `Message`s and other entries pass through, one for one and in order; unwrapping gives the history back |
| Assistant.ChatWithHistory | main.py:273-300 | the vendor receives the converted history (no system prompt) and the stream flag |
| Assistant.Chat | main.py:159-182 | the vendor receives exactly one message, the enhanced prompt of `_enhance_user_message` for the question: it starts with the system prompt and the classifier's context block and ends with the question and the closing instruction |
| Assistant.UploadFile | main.py:141-157 | a missing path fails with "File not found: " and the path; otherwise the outcome is the vendor's, success for success and its error for failure |
| Assistant.MissingPathSkipsVendor | main.py:142-143 | for a missing path the outcome does not depend on the vendor and is a not-found error |
| Mock.TopicIsFirstMatch | main_mock.py:91-104 | `TopicOf`, the mock's if/elif chain, is first-match routing over its four keyword families |
| Mock.FallbackAnswer | main_mock.py:104 | the fallback is the fixed lead, at most the first 50 characters of the message, then the fixed tail; the echoed part is a prefix of the message |
| Mock.GetMockResponse | main_mock.py:91-104 | the canned answer of the message's topic, or the fallback for an unmatched message |
| Mock.AnswersDistinct | main_mock.py:22-30 | the four canned answers differ from each other and from every fallback answer |
| Mock.MockPriority | main_mock.py:95-102 | canned answer k is returned exactly when a keyword of family k occurs in the lower-cased message and none of an earlier family does |
| Mock.MockFallback | main_mock.py:103-104 | the fallback is returned exactly when no keyword of the four families occurs |
| Mock.SafetyKeywordAnswers | main_mock.py:95-96 | a safety keyword written anywhere selects the safety answer |
| Mock.Enhance | main_mock.py:106-108 | the enhanced message is the fixed prefix followed by the message unchanged |
| Mock.EnhanceKeepsTopic | main_mock.py:50-61 | the prefix never changes which answer a message gets |
| Mock.FallbackEchoesEnhanced | main_mock.py:50-61 | the fallback of `send_message` echoes the prefix and at most 32 characters of the user's message |
| Mock.WordChunks | main_mock.py:73-84 | one chunk per word; the first word is bare and every later word follows one space |
| Mock.StreamChunks | main_mock.py:67-89 | the stream is the word chunks followed by the `[DONE]` sentinel |
| Mock.StreamReassembles | main_mock.py:72-84 | the chunks before the sentinel concatenate to the words joined by single spaces, and splitting that gives back the answer's words |
| Mock.SentinelOnlyLast | main_mock.py:72-89 | for an answer not starting with `[` or a space, no chunk before the last is `[DONE]` |
| Mock.MockAnswerStart | main_mock.py:22-30 | every mock answer begins with `T` or `H` |
| Mock.SendMessage | main_mock.py:40-61 | the whole reply is the answer to the enhanced message; a stream is that answer's word chunks followed by the sentinel, which it holds nowhere else |
| Mock.StreamMatchesContent | main_mock.py:55-61 | the streamed words are the words of the whole-reply content |
| Mock.SendArgument | main_mock.py:40-65 | a string is answered as by `send_message`; a value that cannot be sliced for the log line gives the `{"error": ...}` reply with its error text, and only such a value does |
| Mock.LastMessage | main_mock.py:123-125 | the last item; "Hello" for an empty history; a dict's content, or "Hello" without one; an unsliceable item is passed on as such |
| Mock.SendMessageWithHistory | main_mock.py:110-127 | an empty history is answered as "Hello" (the greeting); a last string item, or a dict's string content, is answered as that message; a dict without content as "Hello"; an error reply exactly when the last item, or its content, cannot be sliced, carrying that error |
| Mock.HelloGreets | main_mock.py:91-108 | the enhanced "Hello" is answered with the greeting |
| Mock.OnlyLastItemMatters | main_mock.py:123-127 | histories ending in the same item get the same reply |
| Mock.HelloIsGreeting | main_mock.py:101-102 | "Hello" selects the greeting and no earlier family |
| Mock.EmptyHistoryGreets | main_mock.py:123-127 | an empty history is answered with the greeting |
| JsonText.Escape | app.py:153 | with `ensure_ascii` the escaped text is printable ASCII, so it never holds a line break |
| JsonText.UnescapeEscape | static/js/app.js:180 | the browser's decoding of a string body gives back exactly the string the server escaped |
| JsonText.Hex4RoundTrip | app.py:153 | the four hex digits of a `\u` escape read back as the code unit written |
| JsonText.Payload | app.py:153 | the payload is printable ASCII, opening with `{` and closing with `}` |
| JsonText.PayloadRoundTrip | static/js/app.js:176-181 | parsing a payload gives back the content it was written from |
| JsonText.PayloadInjective | app.py:153 | different contents give different payloads |
| Relay.ChunkContent | app.py:150-152 | a chunk is forwarded exactly when it is truthy, has a delta with a content, and the content is non-empty |
| Relay.Contents | app.py:149-153 | the forwarded contents are never empty and are no more numerous than the chunks |
| Relay.ContentsAppend | app.py:149-153 | the forwarded contents of two runs of chunks are the contents of each, in order |
| Relay.FrameLine | app.py:153 | a frame line is `data: ` followed by the payload, and holds no line break |
| Relay.Generate | app.py:147-154 | one frame per forwarded chunk in chunk order, then the `[DONE]` frame only when the chunks ran out without an error |
| Relay.FrameCount | app.py:149-153 | there are as many content frames as there are chunks with a non-empty content |
| Service.HealthCheck | app.py:72-79 | the status is "healthy" exactly when the assistant exists, and the flag and the message follow it |
| Service.HealthConsistent | app.py:74-79 | the report never contradicts itself |
| Service.Gate | app.py:84-85 | without an assistant the route is refused with 503 "Assistant not available"; otherwise it answers |
| Service.FromOutcome | app.py:127-138 | success exactly when the chat succeeded and exactly when there is no error; content on success; an empty response and the error text on failure |
| Service.OutcomeRoundTrip | app.py:41-44 | the outcome can be read back from the response |
| Service.ChatOutcome | app.py:123-138 | a vendor failure is reported as such; a string content succeeds; any other content fails the response model's validation |
| Service.ChatRoute | app.py:118-138 | the gate, then the response for the vendor's outcome |
| Service.HistoryRoute | app.py:167-187 | the same handling for a reply to a history |
| Service.RefusalIgnoresVendor | app.py:120-121 | without an assistant the chat routes do not depend on the vendor |
| Service.ReplyReachesUser | app.py:123-130 | a string reply in either vendor shape reaches the user unchanged, marked as a success |
| Service.StreamRoute | app.py:141-164 | the gate, then the framer's frames |
| Service.UploadRoute | app.py:82-115 | the gate; a failing save is answered "Upload failed" with its text and the vendor is not asked; otherwise the file is saved and the route answers |
| Service.UploadOutcome | app.py:87-115 | the upload succeeds exactly when the save and the vendor both do; a failure carries "Upload failed" and the failing step's message; a saved file stays saved when the vendor fails |
| FileStore.Save | app.py:88-97 | after a save the directory exists and holds the file under its name; every other file is untouched |
| FileStore.LastWriteWins | app.py:95-97 | saving twice under one name keeps only the second save |
| FileStore.SavesCommute | app.py:93-97 | saves under different names commute |
| FileStore.List | app.py:190-208 | an empty list without the directory; otherwise one entry per stored file, names distinct, with the file's size and time |
| FileStore.Delete | app.py:215-223 | success exactly when the file exists, with the "File ... deleted" message; otherwise "File not found" and nothing changes; other files are untouched |
| FileStore.DeleteTwice | app.py:218-223 | a second delete finds nothing and changes nothing |
| FileStore.SaveThenDelete | app.py:215-221 | a saved file can be deleted, which restores every other file |
| Text.TrimEmptyIff | static/js/app.js:105 | the trimmed text is empty exactly when every character is whitespace; otherwise it is a slice that neither starts nor ends with whitespace |
| Text.JoinOfSplitOn | static/js/app.js:173 | joining the pieces of `split('\n')` with line breaks gives the text back |
| Text.ReplaceCharIsJoinOfSplit | static/js/app.js:248 | replacing every line break is splitting at line breaks and joining with `<br>` |
| Text.WordsOfJoin | main_mock.py:72 | splitting the words joined by single spaces gives the words back |
| Client.MessageToSend | static/js/app.js:104-106 | nothing is sent exactly when the input is all whitespace; otherwise the trimmed input, a non-empty slice without surrounding whitespace |
| Client.CheckHealth | static/js/app.js:74-87 | Ready (success) exactly for a healthy report with the assistant available; Offline (danger) exactly when no report was read; a warning otherwise |
| Client.DisplayRegular | static/js/app.js:144-148 | the response is shown exactly for a successful reply; otherwise the error, or "Unknown error occurred" when it is missing or empty |
| Client.ReadLine | static/js/app.js:176-187 | a line means what `Client.LineMeaning` says: only a `data: ` line whose payload parses counts, `[DONE]` stops and any other content is appended; the test for blank data changes nothing |
| Client.ReadLines | static/js/app.js:175-196 | a read never appends `[DONE]` |
| Client.FirstStop | static/js/app.js:175-183 | the line loop ends at the first `[DONE]` line, or after the last line when there is none |
| Client.ReadLinesUpToStop | static/js/app.js:175-196 | a read appends exactly the contents of its lines before the first `[DONE]`, in order, and nothing from the lines after it |
| Client.ReadFrameLine | static/js/app.js:176-187 | a frame line is read back as its content, or as the stop for the `[DONE]` frame |
| Client.NoDataNoContent | static/js/app.js:176 | lines without the `data: ` prefix append nothing |
| Client.RefusalShowsNothing | static/js/app.js:172-176 | a one-line JSON refusal body appends nothing |
| Client.FindClose | static/js/app.js:251-253 | the lazy `(.*?)` stops at a closing delimiter, and what it spans holds no line terminator |
| Client.FindCloseComplete | static/js/app.js:251-253 | when the lazy `(.*?)` finds no closing delimiter, none follows any stretch free of line terminators |
| Client.FindCloseShortest | static/js/app.js:251-253 | the lazy match is the shortest one: no delimiter starts earlier |
| Client.RewriteAbsent | static/js/app.js:251-253 | text without the delimiter's first character is left as it is |
| Client.RewriteKeepsAbsent | static/js/app.js:251-253 | a character in neither the text nor the element tags is not in the output |
| Client.RewriteSpan | static/js/app.js:251-253 | in `Rewrite`, the model of a global `replace` of `d(.*?)d`, a delimited span is replaced by its element and the scan resumes after it |
| Client.RewriteNoMatch | static/js/app.js:251-253 | text where the delimiter starts nowhere is left as it is |
| Client.NoLineBreakAfterFormat | static/js/app.js:248 | no line break survives `FormatMessage`, the model of `formatMessage` |
| Client.PlainTextUnchanged | static/js/app.js:244-256 | text without line breaks, asterisks or backquotes is shown as it is |
| Client.BoldFormatted | static/js/app.js:251 | `**x**` becomes `<strong>x</strong>` |
| Client.EmphasisFormatted | static/js/app.js:252 | `*x*` with a non-empty x becomes `<em>x</em>` |
| Client.CodeFormatted | static/js/app.js:253 | `` `x` `` becomes `<code>x</code>` |
| Client.RenderPlain | static/js/app.js:186-187 | `Render`, appending plain contents one by one and re-formatting each time, shows their concatenation |
| Wire.UntilDone | static/js/app.js:181-183 | the contents before the first `[DONE]`: a prefix without it, followed by `[DONE]` when anything is left |
| Wire.FrameLinesRead | static/js/app.js:176-187 | every line the framer writes is read back as the event of its content |
| Wire.SplitTwoLines | static/js/app.js:173 | a frame splits into its line and an empty line |
| Wire.ReadFramesThen | static/js/app.js:173-196 | a run of frames in one read shows the contents up to the first `[DONE]`, then what follows only when there was none |
| Wire.ReadClosingFrame | static/js/app.js:181-183 | the closing frame appends nothing |
| Wire.StreamShownExhausted | app.py:147-154 | a completed stream taken in one read shows the forwarded contents up to the first `[DONE]` |
| Wire.StreamShownRaised | app.py:147-154 | a stream cut short by an error shows the same contents |
| Wire.Deliver | app.py:141-164 | the streaming route and the reader together show the forwarded contents up to the first `[DONE]`, which is all of them when none is `[DONE]` |
| Wire.FramePerRead | static/js/app.js:168-197 | `Client.ReadAll`, the outer read loop: when each read is one frame, `break` ends only that read, and every content except `[DONE]` is shown |
| Wire.StreamShownFramePerRead | static/js/app.js:168-197 | the framer's frames read one per read show the contents without `[DONE]` |
| Wire.HealthIndicator | static/js/app.js:79-83 | the light shows Ready exactly when the server has an assistant, and a warning otherwise |
| Wire.ChatShown | static/js/app.js:144-148 | a refused chat shows "Unknown error occurred"; an answered one shows the content or the error, with "Unknown error occurred" for an empty error |

## Left out

- Network, disk and process I/O are parameters or left out. The vendor's SDK is a
  parameter: its outcome. So is the upload's save: whether it raised, and with what text.
  The stored files are an immutable value. Logging, timers, the DOM and scrolling are
  left out.
- `Service.UploadRoute`: a save that fails leaves the directory as it was. A directory
  that `os.makedirs` created, or a file truncated before a failing write, is not
  modelled.
- `get_assistant_info`, `print_streaming_response`, `main()`, `example.py` and the tests
  are not part of this model.
- The assistant's construction, including the missing-key error, is reduced to one
  boolean: whether an assistant exists.
- Lower-casing is ASCII only. Python's `lower()` maps more characters; the keywords are
  ASCII, but non-ASCII text can lower-case to ASCII in Python and not in this model.
- `Prompt.ClassifyIgnoresCase`: the model's `Upper` and `Lower` are ASCII only, so the
  lemma does not hold for Python's `upper()`. That maps `ß` to `SS`: "ißue" holds no
  keyword and gets the general block, while "ißue".upper() is "ISSUE", which
  lower-cases to "issue" and gets the troubleshooting block.
- `Mock.SendArgument`: of the values that are neither strings nor dicts, only those
  that cannot be sliced (`None`, numbers) are modelled; they reach the mock's `except`
  branch. A sliceable non-string such as a list or a tuple would be answered through its
  `str()` text, and that case is not modelled.
- The text of a `TypeError` is a parameter of the unsliceable item, not derived from the
  value's type.
- `FileStore.StoredFile`: the modification time is an integer. `os.stat` gives
  `st_mtime` as a float, and the routes only copy it, so its fractional part is not
  modelled.
- The system prompt of `_create_system_prompt` (main.py:40-128) is a parameter of
  `Assistant.Chat`; its literal text is not part of this model. Only the context blocks,
  which the classifier chooses between, are copied word for word.
- JSON is modelled only for the frame's one-key document `{"content": "..."}`. A document
  of another shape is treated as one that does not parse. In the browser, a
  valid document without `content` would append the text `undefined`; that is not
  modelled.
- Lone surrogate code points cannot be Dafny `char`s, so strings holding them are not
  modelled.
- The browser's splitting of the body into reads is a parameter. Two cases are proved:
  the whole body in one read, and one frame per read. A frame cut across two reads, which
  the page would drop, is not modelled.
- `innerHTML` serialization is left out. The model feeds back the HTML string it produced,
  where a browser would re-serialize it; this only matters for HTML the formatter did
  not write.
- The mock is not wired through the relay, so the double `[DONE]` it would produce
  there is not modelled.
- `os.path.join` edge cases are not modelled. A name holding `/` or `..` is treated as an
  ordinary key.
- Filesystem exceptions in the list and delete routes, the pydantic error text, and
  the "Failed to send message: " notice for a failed request are not modelled.
- The regular-expression engine is modelled only for the three `d(.*?)d` patterns, as a
  left-to-right scan.

## Where the code differs from its description

- The mock's fallback echoes the first 50 characters of the enhanced message, not of
  the user's message. The prefix "TATA Nexon Query: " takes 18 of them
  (`Mock.FallbackEchoesEnhanced`).
- If the vendor's iterator fails after streaming has started, the route cannot answer
  500. The stream just ends without the `[DONE]` frame (`Relay.Generate`).
- `get_response_content` can return the empty string (`Assistant.FallbackCanBeEmpty`).
- An error whose text is empty is shown as "Unknown error occurred" (`Wire.ChatShown`).
- A content that is literally `[DONE]` ends the display of a stream taken in one
  read (`Wire.Deliver`).
- The server imports its assistant from `main_mock.py` (app.py:11). The mock defines
  only `send_message` and `send_message_with_history`, so every route past the gate
  fails, with an `AttributeError` on `chat`, `chat_with_history` or `upload_file`.
  In the model this is a vendor failure:
  - `/chat` and `/chat/history` answer `success=false` (`Service.ChatOutcome`);
  - the stream ends before its first frame, without `[DONE]` (`Relay.Generate`);
  - `/upload` saves the file and then answers "Upload failed"
    (`Service.UploadOutcome`).
  The mock's own behaviour is modelled as written (`Mock`).
