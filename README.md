# FESTA paper Q&A: a verified model of its core

FESTA is a question-answering service over uploaded papers. The browser
client cuts a user's message into text, code and math blocks. It keeps a
list of chats in local storage and sends each question over a WebSocket. The
server registers each socket and answers each envelope from the documents it
finds. It asks a DeepSeek chat model for the answer. Uploaded files are
checked, named, and reduced to plain text.

This project models that core in Dafny and proves properties of the model:

- `common.dfy` (module `Common`): option and result wrappers. It also holds
  the Python values that parsed JSON and database rows carry (a string,
  `None`, or anything else known by its `str()`), and `dict.get`.
- `strings.dfy` (module `Strings`): JavaScript's `trim` over the ECMAScript
  white-space set, and `join`.
- `blocks.dfy` (module `Blocks`): the client's `extractBlocks`. Both regular
  expressions are written as explicit scanners, and the leftmost-match
  search is written out. `Segments` cuts a message into the spans the two
  passes produce, and `RenderAll` turns spans into blocks. `ExtractBlocks`
  is the imperative two-loop method, proved equal to that specification.
- `chats.dfy` (module `Chats`): the chat list as a class with the current
  chat id. It covers creating, loading, deleting and appending, and the
  title taken from a chat's first user message.
- `server.dfy` (module `Server`): `ConnectionManager` as a class over a
  sequence of socket ids. `websocket_endpoint` becomes `React`, one step
  over an abstract event, and `Run`, the loop over a sequence of events.
  `Serve` is the imperative loop, proved equal to `Run`. The document
  search and the answer generator are collaborators: their outcome (a value
  or an exception message) arrives with the event.
- `llm.dfy` (module `Llm`): the API-key check, the prompt, the request
  payload, and how the reply or the request error becomes the result.
- `documents.dfy` (module `Documents`):
  - `pathlib`'s `name` and `suffix`;
  - the suffix whitelist, the saved name and the upload metadata;
  - the dispatch to an extractor;
  - the two LaTeX `re.sub` passes, written as scanners;
  - the PDF page loop;
  - the fields `process_document` reports.

The client sends `{"type": "message", ...}` (chat.js:188-192). The server
answers only `"question"` envelopes (main.py:60). The model keeps both as
written: `Server.OtherTypesRefused` shows that the client's envelope always
draws the unsupported-type error.

## Model

| member | source | states |
|---|---|---|
| Blocks.ExtractBlocks | backend/static/js/chat.js:203-262 | The blocks are the rendering of the message's spans: the code pass over the whole message, then the math pass over what follows the last code match. Every text block is non-empty and trimmed. Every code block has a language and trimmed content. Every math block is trimmed and has no `$`. No math block comes before a code block. A whitespace-only message gives no blocks. |
| Blocks.CodePass | backend/static/js/chat.js:209-229 | The first loop emits the blocks of the code-pass spans in order. It stops just after the last code match. |
| Blocks.MathPass | backend/static/js/chat.js:232-259 | The second loop emits the blocks of the math-pass spans of the remaining text, ending with the trimmed leftover text. |
| Blocks.CodeMatchAtSound | backend/static/js/chat.js:209 | A code match is three backticks, a language of word characters, a line feed, the body, and the first fence after that line feed (lazy body). |
| Blocks.CodeMatchAtComplete | backend/static/js/chat.js:209 | Conversely, every span of that shape starting at a position is the match found there, with that language and body. |
| Blocks.FindCode | backend/static/js/chat.js:209-212 | A match found from a position starts at or after it, starts with a backtick, and is the match at its start. |
| Blocks.FindCodeLeftmost | backend/static/js/chat.js:209-212 | The match found is the leftmost: no code match starts between the search position and it. When nothing is found, no code match starts anywhere after the position. |
| Blocks.FindDelimiterFirst | backend/static/js/chat.js:209 | The search for a closing delimiter returns the first one: the lazy `*?` ends at the first fence. |
| Blocks.MathMatchAt | backend/static/js/chat.js:232-248 | A math match starts with `$`. Its display flag holds exactly when it starts with `$$`. |
| Blocks.MathMatchAtSound | backend/static/js/chat.js:232 | A display match is `$$`, a body, and the first `$$` after the opening one. An inline match is `$`, a non-empty run with no `$` and no line feed, then `$`. |
| Blocks.MathMatchAtComplete | backend/static/js/chat.js:232 | Conversely, every span of either shape starting at a position is the match found there. The display alternative is preferred. |
| Blocks.FindMath | backend/static/js/chat.js:232-236 | A math match found from a position starts at or after it, starts with `$`, and is the match at its start. |
| Blocks.FindMathLeftmost | backend/static/js/chat.js:232-236 | The math match found is the leftmost. When nothing is found, no math match starts after the position. |
| Blocks.DisplayFlag | backend/static/js/chat.js:248 | `match[0].startsWith('$$')` is exactly the display flag of the match. |
| Blocks.Segments | backend/static/js/chat.js:209-259 | The spans of a message: the code pass from position 0, then the math pass over the text after the last code match. |
| Blocks.Render | backend/static/js/chat.js:214-250 | One span's blocks: a text span gives its trimmed text, or nothing when that is empty. A code span gives its language (`plaintext` when empty) and trimmed body. A math span gives its display flag and trimmed `$`-free text. |
| Blocks.CodeLanguage | backend/static/js/chat.js:222-226 | A code match with an empty language group becomes a code block with language `plaintext`. A non-empty language is kept. The body is trimmed either way. |
| Blocks.RenderAll | backend/static/js/chat.js:212-259 | The blocks of the spans, in span order. |
| Blocks.RemoveDollars | backend/static/js/chat.js:249 | The result holds exactly the characters of the match other than `$`, and text without `$` is returned unchanged. |
| Blocks.RemoveDollarsAppend | backend/static/js/chat.js:249 | Removal works piecewise: the result for `a + b` is the result for `a` followed by the result for `b`. With the clauses on `RemoveDollars`, this keeps the order and the number of the other characters. |
| Blocks.SegmentsCoverMessage | backend/static/js/chat.js:212-259 | The spans, in order, concatenate to exactly the message. Blocks follow source order, matches never overlap, and no text is skipped. |
| Blocks.SegmentsShaped | backend/static/js/chat.js:209-232 | Every span is plain text, a code match of fence shape, or a math match of display or inline shape. |
| Blocks.SegmentsRenderWellFormed | backend/static/js/chat.js:215-250 | Text blocks are non-empty and trimmed. Code blocks have a non-empty language and trimmed content. Math content has no `$` and is trimmed. |
| Blocks.MathOnlyAfterCode | backend/static/js/chat.js:228-236 | Math is looked for only after the last code match, so no math block precedes a code block. |
| Blocks.TextBeforeFirstFenceIsUnsplit | backend/static/js/chat.js:214-219 | The text before the first fence becomes one text block, even when it contains `$...$`. |
| Blocks.BlankMessageHasNoBlocks | backend/static/js/chat.js:256-259 | A message of white space only produces no block. |
| Chats.Shorten | backend/static/js/chat.js:538 | A title never exceeds 33 characters. A title of at most 30 characters is kept. A longer one keeps its first 30 characters followed by `...`. |
| Chats.RawTitle | backend/static/js/chat.js:526-535 | A block array gives the text blocks' contents, with `''` for every other block, joined by spaces and trimmed. A string is used as it is. |
| Chats.TitleOf | backend/static/js/chat.js:526-538 | The raw title, shortened to 30 characters plus `...`. |
| Chats.TitleFromTextBlocks | backend/static/js/chat.js:527-532 | A title built from blocks holds only characters of text blocks and the joining spaces. Code and math contribute nothing. |
| Chats.BlankTitle | backend/static/js/chat.js:527-532 | A title built from blocks is empty exactly when every text block is blank (both directions). |
| Chats.UntitledWithoutText | backend/static/js/chat.js:527-532 | For extracted blocks, the title is empty exactly when the message has no text block. |
| Chats.FindChat | backend/static/js/chat.js:521 | `find` returns the first chat with the id. Nothing is found only when no chat has it. |
| Chats.Without | backend/static/js/chat.js:477 | Deletion keeps exactly the chats whose id differs. |
| Chats.WithoutAppend | backend/static/js/chat.js:477 | The filter keeps the order of the remaining chats: it distributes over concatenation. |
| Chats.WithoutAbsent | backend/static/js/chat.js:477 | Deleting an id that no chat has leaves the list unchanged. |
| Chats.AddMessage | backend/static/js/chat.js:523-538 | The message is appended. The title changes only for a user's first message, and then becomes that message's title. Id and creation time are kept. |
| Chats.Appended | backend/static/js/chat.js:519-523 | With no current chat (null or empty id) nothing changes. Otherwise the length, ids and creation times of all chats stay the same. |
| Chats.AppendedTouchesOnlyCurrent | backend/static/js/chat.js:519-523 | Exactly the first chat with the current id receives the message. Every other chat stays as it was. |
| Chats.FirstUserMessageNamesChat | backend/static/js/chat.js:523-538 | The current chat gains exactly one message. It takes its title from that message only if the chat was empty and the message is the user's. |
| Chats.ChatList.constructor | backend/static/js/chat.js:3-4 | The stored chats, with no current chat. |
| Chats.ChatList.CreateNewChat | backend/static/js/chat.js:381-410 | A chat with the clock's id, title `새로운 대화` and no messages goes to the front. The id is returned and the current chat is unchanged. |
| Chats.ChatList.LoadChat | backend/static/js/chat.js:494-512 | Loading the current chat does nothing. Loading any other id makes it current and shows the first chat with that id, if any. The list is unchanged. |
| Chats.ChatList.DeleteChat | backend/static/js/chat.js:476-486 | Without confirmation nothing changes. With confirmation every chat with the id goes. If it was current, the first remaining chat becomes current, or a new chat is created and made current. |
| Chats.ChatList.UpdateChatWithMessage | backend/static/js/chat.js:518-550 | The new list is `Appended` of the old one and the message. The current id is unchanged. |
| Server.IndexOf | backend/app/main.py:39 | The position found holds the socket, and no earlier position does. |
| Server.RemoveFirstCount | backend/app/main.py:38-39 | `remove` takes away exactly one occurrence when there is one, and changes nothing otherwise. |
| Server.ConnectDisconnectRoundTrip | backend/app/main.py:34-39 | Registering an unregistered socket and then removing it restores the list. |
| Server.ConnectionManager.constructor | backend/app/main.py:31-32 | No connection is registered. |
| Server.ConnectionManager.Connect | backend/app/main.py:34-36 | The socket is appended once at the end, and nothing else changes. |
| Server.ConnectionManager.Disconnect | backend/app/main.py:38-39 | The first occurrence is removed. `ValueError` is raised exactly when the socket is not registered. |
| Server.Titles | backend/app/main.py:74 | The sources are the documents' titles in order, with `제목 없음` when a title is missing. |
| Server.React | backend/app/main.py:56-98 | One pass of the loop body with the handlers around it. A question calls the search with limit 3 and then the generator, and answers or reports the generator's error. Any other type is refused. A disconnect ends the loop without a reply. Malformed JSON, and a search that fails decoding a stored list column, send `잘못된 JSON 형식입니다.` and end the loop. A non-object frame, any other search failure and a failed receive send `오류가 발생했습니다: <detail>` and end the loop. |
| Server.Run | backend/app/main.py:53-98 | Events are handled in order until one ends the loop. The replies and calls are those of each handled event, concatenated. |
| Server.OneReplyPerEvent | backend/app/main.py:50-98 | Every event except the client leaving draws exactly one reply. The loop goes on only after an object frame that is not a question, or a question whose search succeeded. |
| Server.QuestionAnswered | backend/app/main.py:60-75 | A question searches its content (`""` when missing) with limit 3. It asks the generator with the found documents, and sends one answer with the generator's text and the titles. |
| Server.GenerationFailureReported | backend/app/main.py:76-80 | A generator failure sends one error with the `응답 생성 중 오류가 발생했습니다: ` prefix, and the loop continues. |
| Server.OtherTypesRefused | backend/app/main.py:81-85 | Any other or missing type, including the client's `message`, gets `지원하지 않는 메시지 타입입니다.`. No collaborator is called and the loop continues. |
| Server.SearchFailureEndsLoop | backend/app/main.py:64-98 | The search runs outside the inner `try`. A stored `authors`, `tags` or other list column that is not JSON raises `JSONDecodeError`, which draws `잘못된 JSON 형식입니다.` and ends the loop. Any other search exception draws `오류가 발생했습니다: <detail>` and ends it. The generator is never called. |
| Server.RunAnswersEachEvent | backend/app/main.py:53-98 | The loop reads events up to the first one that ends it, or all of them, and sends one reply per event read, except a disconnect. |
| Server.Serve | backend/app/main.py:50-98 | The replies, calls and ending are those of `Run`. A disconnect removes the socket again. After malformed JSON or any other exception, the socket stays registered. |
| Llm.NewClient | backend/app/utils/llm.py:10-19 | Construction fails with `DEEPSEEK_API_KEY가 설정되지 않았습니다.` exactly when the key is absent or empty. Otherwise the client sends `Bearer <key>` to the DeepSeek base URL. |
| Llm.ClientEndpoint | backend/app/utils/llm.py:66-70 | A client built from a non-empty key posts to `https://api.deepseek.com/v1/chat/completions`. |
| Llm.RenderDocument | backend/app/utils/llm.py:41 | `문서: <title>\n<text>`, with the title defaulting to `제목 없음` and the text to `""`, each rendered with `str()`. |
| Llm.RenderDocuments | backend/app/utils/llm.py:40-43 | Each document renders as `문서: <title>\n<text>`. The title defaults to `제목 없음` and the text to `""`. |
| Llm.ContextText | backend/app/utils/llm.py:40-43 | The rendered documents, joined by a blank line. |
| Llm.EmptyDocumentRendering | backend/app/utils/llm.py:41 | A document with neither field renders as `문서: 제목 없음\n`. |
| Llm.ContextTextAppend | backend/app/utils/llm.py:40-43 | The documents keep their order: the context of `a + b` is the context of `a`, a blank line, then the context of `b`. |
| Llm.FullPrompt | backend/app/utils/llm.py:39-52 | With no context (`None` or an empty list), the question unchanged. Otherwise the instruction, a blank line, the context text, `\n\n질문: `, the question and `\n\n답변:`. |
| Llm.PromptFraming | backend/app/utils/llm.py:39-52 | Without context (`None` or empty), the user content is the question itself. With context, it opens with the instruction line and a blank line, and closes with `\n\n질문: `, the question and `\n\n답변:`. |
| Llm.MakePayload | backend/app/utils/llm.py:21-63 | Model `deepseek-chat`. Exactly two messages: the system instruction first, then the user message carrying the full prompt. `max_tokens` and `temperature` are passed through, defaulting to 1000 and 0.7. |
| Llm.DefaultPayload | backend/app/utils/llm.py:24-25 | The server passes only the question and the documents (main.py:68). So the payload it sends always asks for 1000 tokens at temperature 0.7, with the full prompt as the user message. |
| Llm.GenerateResponse | backend/app/utils/llm.py:65-77 | A request error becomes exactly the `DeepSeek API 호출 중 오류 발생: ` error. Otherwise the result is the first choice's content. A reply without choices fails unwrapped. |
| Documents.Suffix | backend/app/utils/document_processor.py:25 | A suffix, when there is one, starts with `.`, has at least one more character, and is shorter than the name. |
| Documents.Name | backend/app/utils/document_processor.py:25 | `PurePosixPath(p).name`: the last non-empty component other than `.`. It never contains `/` and is never `.`. |
| Documents.Lower | backend/app/utils/document_processor.py:25 | Same length as the input. Each ASCII capital becomes its lower-case letter, and every other character is kept. |
| Documents.Extension | backend/app/utils/document_processor.py:55 | `Path(p).suffix.lower()`: the lowered suffix of the path's name. |
| Documents.NameOfJoin | backend/app/utils/document_processor.py:35 | A name placed under a directory is the name of the resulting path. |
| Documents.SuffixOfPrefixed | backend/app/utils/document_processor.py:34 | Prefixing the timestamp keeps the suffix the original name has. |
| Documents.SaveDocument | backend/app/utils/document_processor.py:22-51 | The upload is refused with `지원하지 않는 파일 형식입니다: <ext>` exactly when its lowercased suffix is outside the five allowed. Otherwise the saved name is `timestamp_original` under the papers directory, `file_type` is the suffix without its dot, `upload_date` is that timestamp, and `file_size` is the content length. |
| Documents.ExtractorFor | backend/app/utils/document_processor.py:57-66 | A suffix has an extractor exactly when it is allowed, and the extractor serves that suffix. |
| Documents.Dispatch | backend/app/utils/document_processor.py:53-68 | Extraction is accepted exactly for the allowed lowercased suffixes, with the extractor serving that suffix. It is refused with the unsupported-format error otherwise. |
| Documents.ExtractorPerSuffix | backend/app/utils/document_processor.py:57-66 | Each extractor serves an allowed suffix, and no two extractors serve the same suffix. |
| Documents.SavedFileIsExtractable | backend/app/utils/document_processor.py:25-68 | A file that `save_document` accepted is accepted by `extract_text` under its saved path, with the extractor of its recorded type. |
| Documents.NoPercentLeft | backend/app/utils/document_processor.py:100 | No `%` survives comment removal. |
| Documents.StripLine | backend/app/utils/document_processor.py:100 | On one line, the text before the first `%` is kept and the rest is removed. |
| Documents.StripLines | backend/app/utils/document_processor.py:100 | Lines are treated independently and the newline between them stays. |
| Documents.EscapedPercentStartsComment | backend/app/utils/document_processor.py:100 | An escaped `\%` also starts a comment: `50\% off` becomes `50\`. |
| Documents.StripComments | backend/app/utils/document_processor.py:100 | Every `%` and the rest of its line are removed. The line feed is kept. |
| Documents.CommandAt | backend/app/utils/document_processor.py:102 | A command match starts with a backslash, then one or more ASCII letters, then `{`. The argument that follows contains no `}` and ends just before one. |
| Documents.UnwrapCommands | backend/app/utils/document_processor.py:102 | One left-to-right pass. Each match is replaced by its argument, and scanning resumes after the match. |
| Documents.CommandUnwrapped | backend/app/utils/document_processor.py:102 | `\letters{arg}`, where `arg` has no `}`, is replaced by `arg`, and scanning resumes after the match. |
| Documents.NestedCommandUnwrappedOnce | backend/app/utils/document_processor.py:102 | Only one layer is removed: `\outer{\inner{x}}` becomes `\inner{x}`. |
| Documents.UnwrapKeepsCharacters | backend/app/utils/document_processor.py:102 | The command pass introduces no character that was not in its input. |
| Documents.UnwrapWithoutBackslash | backend/app/utils/document_processor.py:102 | Text without a backslash passes through the command pass unchanged. |
| Documents.ExtractLatex | backend/app/utils/document_processor.py:95-103 | Comments are removed first, then commands are unwrapped. |
| Documents.LatexTextHasNoPercent | backend/app/utils/document_processor.py:95-103 | The extracted LaTeX text contains no `%`. |
| Documents.PagesText | backend/app/utils/document_processor.py:72-77 | Each page's text followed by a newline, in page order. |
| Documents.OnePage | backend/app/utils/document_processor.py:76 | A single page contributes its text followed by exactly one newline. |
| Documents.PagesTextAppend | backend/app/utils/document_processor.py:72-77 | The text of a PDF is the text of its first pages followed by the text of the rest. |
| Documents.PdfText | backend/app/utils/document_processor.py:72-77 | The page loop builds exactly `PagesText` of the pages. |
| Documents.ExtractText | backend/app/utils/document_processor.py:53-68 | Extraction succeeds exactly when dispatch does, and fails with dispatch's error. |
| Documents.ProcessedName | backend/app/utils/document_processor.py:116 | `processed_<name>.txt`, where `<name>` is the name of the source path. |
| Documents.ProcessDocument | backend/app/utils/document_processor.py:110-127 | Processing fails exactly when extraction does. `text_length` is the extracted text's length. The output is `processed_<name>.txt` in the processed directory. |
| Documents.ProcessedFileIsText | backend/app/utils/document_processor.py:116-117 | A processed file always has the `.txt` suffix, so `extract_text` reads it as plain text. |

## Left out

- DOM rendering, `marked`, `hljs`, KaTeX, menus, the typing indicator and the connection status are not modelled. `fetchAvailableModels` is not modelled either. None of them changes the chat list or the blocks.
- Local-storage persistence (`saveChats`) is not modelled: the constructor takes the stored chats as a parameter.
- The WebSocket open, close and reconnect lifecycle and `reconnect_token` are not modelled. The server never reads the token.
- `Date.now()`, `new Date().toISOString()` and `strftime` timestamps are parameters, and so is the user's answer to `confirm`.
- Chats.ChatList: chats are values, not shared JavaScript objects. Each stored chat is a distinct object, so no two list entries alias.
- Chats.Shorten: lengths count Unicode code points. JavaScript's `length` and `substring` count UTF-16 units, so they differ for characters outside the Basic Multilingual Plane, where `substring` may also split a surrogate pair.
- The chat rename handler in `createChatListItem` and the page start-up code are not modelled.
- Server.Serve: the sockets of different connections and the interleaving of their handlers are not modelled. Each handler is modelled alone.
- Server.Serve: sending never fails in the model. A failed send inside the handler would raise an exception of its own.
- Server.React: JSON serialisation of the replies and the `accept` handshake are not modelled.
- Server: the database search is a collaborator, because its SQL is outside this model. Its outcome comes with the event: the documents, a stored list column that is not JSON, or another exception's message.
- Llm: the HTTP request and the parsing of the JSON reply are foreign calls. `ApiReply` says what came back.
- Llm.MakePayload: `temperature` is a real passed through unchanged. No floating-point arithmetic is done on it.
- Documents: directory creation, file writes and file reads are left out, because they are I/O.
- Documents: PyPDF2, `markdown` and BeautifulSoup are foreign libraries. Their output arrives in `Readings`.
- Documents.Lower: only ASCII letters are lowered. Python's `str.lower` is Unicode-aware. Among non-ASCII characters, only the Kelvin sign lowers to a lone ASCII letter (`k`), and no allowed suffix contains `k`. So the accept/refuse decision is the same. The refusal message can differ, though: it quotes the lowered suffix. For `a.PDFÉ`, Python reports `.pdfé` and the model reports `.pdfÉ`.
- Documents.Suffix: follows the rule of `pathlib` in Python 3.12 and earlier, where a trailing dot gives no suffix.
- Documents.JoinPath: joins with one `/`. It does not normalise names that contain `/`, which `pathlib` would split into components. The path lemmas assume names without `/`.
