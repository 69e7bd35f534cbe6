# Chat client core, modelled in Dafny

This project models the logic in `public/chat.js`, the browser side of a small
chat app. Four pieces are modelled:

- **The stream reader in `sendMessage`.** Decoded chunks are appended to a
  `buffer`. The buffer is cut into frames at blank lines (`"\n\n"`), and the
  unfinished last piece is kept. For each line of a frame:
  - lines that start with `data:` lose that prefix and are trimmed;
  - `[DONE]` ends the frame and stops further reads;
  - any other payload is parsed as JSON and gives one text delta: a truthy
    `response`, otherwise a truthy `choices[0].delta.content`, otherwise
    nothing;
  - non-empty deltas are concatenated into `responseText`.
- **The session.** It holds `chatHistory` and `isProcessing`. It covers
  the guard on a blank input or a busy session, the user turn and the request
  carrying the whole history, and committing the reply only after a cycle that
  ran to its end. The error bubble shows on failure, and the flag is reset
  whatever happens.
- **`renderMarkdown`'s string transform.** Non-greedy fenced spans become
  `<pre><code>` blocks of their trimmed interior. The text is then cut at
  blank lines, and every piece without `<pre>` is wrapped in `<p>`.
- **`addCopyButtons`.** Each `<pre>` block gets one copy button, unless it
  already holds one.

Modules:

- `JsStrings` (`js_strings.dfy`) models the JavaScript string operations the
  code relies on: `startsWith`, `includes`, `trim`, `split` and `join`, and
  `IndexOf`, the search for the first occurrence of a text. The code never
  calls `indexOf`; `IndexOf` stands for the lazy `([\s\S]*?)` part of the
  fence regex (public/chat.js:129), which stops at the first closing fence. It proves
  the facts about `split` that the reader relies on. The main one is that
  splitting is stable when text is appended.
- `Sse` (`sse.dfy`) holds the reader.
  - The specification functions are `ScanLines`, `ScanFrames`, `Feed` and
    `Run`. They follow the loops step by step.
  - The methods `ReadStream`, `ReadFrames` and `ReadFrame` are the
    `while`/`for`/`for` loops of the source, proved against those functions.
    They also carry what the reply element shows: after every non-empty
    delta `ReadFrame` renders all the text gathered so far again, and
    `ReadStream` is proved to end with `Shown(responseText)`, the rendering
    of the whole text, or nothing when no delta came.
  - The central theorem is `RunMatchesConcatenation`. What the reader
    gathers is the scan of the complete frames of all the chunks read,
    concatenated, so how the stream is chunked does not matter until
    `[DONE]`.
- `Render` (`render.dfy`) models `renderMarkdown`'s transform as the
  function `Render.RenderMarkdown`, built from `ReplaceFences` (the fence
  regex) and the paragraph wrapping.
- `CopyButtons` (`copy_buttons.dfy`) models `addCopyButtons` over `<pre>`
  elements whose children are updated in place.
- `Session` (`session.dfy`) holds `ChatSession`, the page's state.
  `sendMessage` is cut at its first `await`:
  - `Submit` runs up to the request;
  - `Complete` handles the reply;
  - `SendMessage` runs both with nothing in between.

  The split is what lets `SecondSendWhileBusy` state a second send made
  while a reply is outstanding: it runs `Submit`, `Submit` again, then
  `Complete`.

The transport is an input. A `Reply` is either `HttpError` (a `fetch` that
rejects, or a reply that is not OK or has no body; all three reach the
`catch` block before any chunk is read) or `Stream(chunks, aborted)`: the decoded chunks,
plus whether the read after the last chunk throws. `JSON.parse` is a
parameter `parse: string -> Json`.

### Behaviour worth noting

- A failed cycle adds no entry to `chatHistory`. The error text only goes to
  the page (public/chat.js:102-104).
- A body that is one JSON object rather than SSE frames gives no text, because
  only `data:` lines count (public/chat.js:79).
- `[DONE]` only leaves the line loop. Later frames of the same chunk are still
  scanned, and only the next read is skipped (public/chat.js:69, 81).
- There is no final flush. A trailing frame without a blank line after it is
  never scanned (public/chat.js:71-74).
- After `data:` the whole payload is trimmed, not one space stripped, and
  multi-line `data:` payloads are not joined (public/chat.js:80).
- There is no HTML sanitiser and no CRLF normalisation (public/chat.js:73,
  77, 140).

The way the input is cut at blank lines has one consequence:
`Render.BlankLineInCodeBlock` proves that a blank line inside a fenced block
cuts the block. The part after the blank line is wrapped in `<p>`, closing
tags included.

## Model

| member | source | states |
|---|---|---|
| JsStrings.IndexOfSpec | public/chat.js:129-130 | `indexOf`: the result is an occurrence with no earlier one, and it is None exactly when there is no occurrence |
| JsStrings.IndexOfFirst | public/chat.js:129-130 | an occurrence with none before it is what `indexOf` returns |
| JsStrings.TrimSpec | public/chat.js:80 | `trim` removes white space, and only white space, at both ends, and leaves no white space at either end |
| JsStrings.TrimIdempotent | public/chat.js:33 | trimming an already trimmed message changes nothing |
| JsStrings.JoinSplit | public/chat.js:73 | joining the pieces of `split` with the separator gives back the text |
| JsStrings.SplitPiecesFree | public/chat.js:73 | no piece of `split` contains the separator |
| JsStrings.SplitNone | public/chat.js:73 | a text without the separator is one piece |
| JsStrings.SplitAppend | public/chat.js:72-74 | after text is appended, the pieces completed before stay pieces, and only the last piece is split again with the new text |
| JsStrings.SplitAtFirst | public/chat.js:135 | the first separator ends the first piece when none starts earlier |
| Sse.Delta | public/chat.js:85-87 | the delta is non-empty exactly when `response` or `choices[0].delta.content` is truthy; a truthy `response` wins, otherwise the content is used |
| Sse.ReadStream | public/chat.js:66-98 | the `while (!doneReading)` loop returns the text and the done flag of `Run` over the chunks, and leaves the empty reply element showing the rendering of all the text, or nothing when no delta came |
| Sse.ReadFrames | public/chat.js:73-97 | the loop over the complete frames of one chunk appends their scanned text, reports whether any held `[DONE]`, and leaves the element as it was when no delta came, otherwise showing the rendering of all the text |
| Sse.ReadFrame | public/chat.js:77-96 | the loop over the lines of a frame appends the frame's scanned text, reports `[DONE]`, and after each non-empty delta re-renders the element from all the text, so it ends showing the last rendering |
| Sse.ScanLinesAppend | public/chat.js:78-96 | scanning lines composes over concatenation until `[DONE]`, which absorbs all later lines |
| Sse.OnlyDataLinesCount | public/chat.js:79 | a frame without `data:` lines contributes nothing and sees no `[DONE]` |
| Sse.NonDataLineIgnored | public/chat.js:79 | removing a line that does not start with `data:` changes nothing |
| Sse.InvalidPayloadIgnored | public/chat.js:83-95 | a payload that fails to parse leaves the text unchanged, and the lines after it are still scanned |
| Sse.DoneEndsFrame | public/chat.js:81 | `[DONE]` adds no text, sets done, and the rest of its frame is not looked at |
| Sse.DataLineAddsDelta | public/chat.js:80-92 | a JSON payload appends exactly its delta to the text |
| Sse.ScanFramesAppend | public/chat.js:76-97 | across frames the texts concatenate in order and done is sticky, so frames after a `[DONE]` frame are still scanned |
| Sse.DoneFrameInChunk | public/chat.js:76-81 | a chunk whose frames include a `[DONE]` frame ends reading, and its text still includes every frame of that chunk |
| Sse.FramesAndRest | public/chat.js:73-74 | the frames rejoined with blank lines, plus a blank line and the new buffer, give back the old buffer plus the chunk; with no frame the buffer is the whole text; the buffer never holds a blank line |
| Sse.FramesAppend | public/chat.js:72-74 | the complete frames of a longer text are those of the shorter one followed by those of its buffer plus the addition |
| Sse.RestAppend | public/chat.js:72-74 | the buffer left by a longer text is the one left by the old buffer plus the addition |
| Sse.DoneStopsReading | public/chat.js:69 | once `[DONE]` was seen, further chunks change nothing |
| Sse.RunMatchesConcatenation | public/chat.js:69-98 | the reader reads every chunk unless it stops on `[DONE]`; its text, done flag and buffer are the scan and the rest of the concatenation of the chunks read |
| Sse.ReadsUntilFirstDone | public/chat.js:69-81 | a further chunk is read only while the frames of the text read so far hold no `[DONE]` |
| Sse.RunWhole | public/chat.js:69-98 | a reader that met no `[DONE]` read every chunk, and holds the scan and the buffer of their whole concatenation |
| Sse.FeedMatches | public/chat.js:72-97 | reading one more chunk gives the scan of the longer concatenation |
| Sse.ChunkingIrrelevant | public/chat.js:69-74 | two chunkings of the same text give the same text and buffer when no `[DONE]` occurs |
| Sse.RunBufferHasNoFrameBreak | public/chat.js:73-74 | the buffer kept between reads never holds a blank line |
| Sse.UnterminatedTailIgnored | public/chat.js:70-74 | a last chunk that completes no frame is only buffered, so it is never scanned when the stream ends |
| Render.ReplaceFencesIdentity | public/chat.js:129-132 | text without a fence is left as it is |
| Render.ReplaceFencesSpan | public/chat.js:129-132 | the first opening fence and the first closing fence after it are replaced by `<pre><code>` + trimmed interior + `</code></pre>`, and the rest is processed the same way |
| Render.ReplaceFencesUnclosed | public/chat.js:129-132 | an opening fence without a closing one is kept, with everything after it |
| Render.RenderPlain | public/chat.js:135-138 | one paragraph of plain text comes out wrapped in `<p>` |
| Render.RenderTwoParagraphs | public/chat.js:135-138 | two plain paragraphs separated by a blank line are wrapped one by one and concatenated |
| Render.WrapAllAppend | public/chat.js:135-138 | wrapping and joining works piece by piece |
| Render.RenderCodeBlock | public/chat.js:129-138 | a text that is one fenced span comes out as its code block, not wrapped in `<p>` |
| Render.BlankLineInCodeBlock | public/chat.js:129-138 | a blank line inside a fenced span cuts the code block, and its tail is wrapped in `<p>` |
| CopyButtons.Augmented | public/chat.js:149-173 | after a visit the block holds a button; a block that had one is unchanged, and any other gets one appended |
| CopyButtons.CountButtonsPositive | public/chat.js:149 | a block counts a button exactly when the check for `.copy-btn` finds one |
| CopyButtons.AugmentedIdempotent | public/chat.js:149 | visiting a block twice is the same as visiting it once |
| CopyButtons.AugmentedCount | public/chat.js:149-173 | a visit gives one button where there was none, and otherwise keeps the count |
| CopyButtons.AugmentedTwiceOneButton | public/chat.js:141-149 | a block without a button has exactly one after two visits |
| CopyButtons.PreElement.AppendCopyButton | public/chat.js:173 | `appendChild` puts the button after the existing children |
| CopyButtons.AddCopyButtons | public/chat.js:146-174 | every listed block ends as its augmented children, even when it is listed twice |
| CopyButtons.AddCopyButtonsTwice | public/chat.js:141-149 | two runs give the same result as one, and leave exactly one button on blocks that had none |
| Session.ReplyOutcomeSpec | public/chat.js:56-104 | a failed request gives no text and fails; a stream gives the scan of the complete frames of the chunks read before the loop stopped, and fails exactly when it is aborted after every chunk was read with no `[DONE]` in their frames |
| Session.StreamReadToEnd | public/chat.js:62-71 | without `[DONE]` every chunk is read and the text is the scan of their concatenation; a cycle fails only on an abort before `[DONE]` |
| Session.AppendUser | public/chat.js:43 | appending a trimmed, non-empty user turn keeps the history well formed |
| Session.AppendAssistant | public/chat.js:100 | appending a non-empty reply keeps the history well formed |
| Session.ChatSession.constructor | public/chat.js:10-13 | the history starts as the greeting alone, the session is not busy, and the error bubble's HTML is the rendering of the notice |
| Session.ChatSession.Submit | public/chat.js:32-60 | a blank input or a busy session changes nothing; otherwise the session becomes busy, the input is cleared, exactly one user entry with the trimmed text is appended, the user bubble and an empty reply bubble are shown, and the request is the whole history |
| Session.ChatSession.Complete | public/chat.js:62-111 | the reply is appended to the history exactly when the cycle succeeded with non-empty text; a failure adds only the error bubble; the placeholder bubble is replaced by what the read loop left in it; the session ends not busy |
| Session.ChatSession.SendMessage | public/chat.js:32-111 | one whole send: the guard, the user turn and the committed reply in the history, and on the page the user bubble, the filled reply bubble and, on failure, the error bubble |
| Session.SecondSendWhileBusy | public/chat.js:32-111 | from any idle session with a non-blank message, a second send while the first reply is outstanding is ignored whatever was typed: the history grows by the first turn and its reply only, and the page by the bubbles of the first send only |

## Left out

- `fetch`, `getReader` and `TextDecoder` (public/chat.js:56-72): these are
  foreign I/O. The body arrives as decoded chunks in a `Reply`.
- `JSON.parse` (public/chat.js:84): a foreign call, and a parameter here.
  - The model sees the `response` field and `choices[0].delta.content` only
    as absent or as strings.
  - A non-string truthy value (a number, an object) would be coerced by
    `+=` in the source. That coercion is not modelled.
  - A value whose field read throws, such as `null`, counts as `Invalid`.
- The DOM is not modelled: element creation, classes, styles, scrolling,
  focus, the typing indicator, the textarea resizing and the key and click
  wiring (public/chat.js:5-29, 52-54, 116-123, 142, 151-171). The page is a
  sequence of bubbles holding the HTML each one shows; the empty reply
  element built at public/chat.js:46-51 is the bubble `Bubble(Assistant, "")`
  that `Submit` places and `Complete` fills.
- `userInput.disabled` and `sendButton.disabled` (public/chat.js:37-38,
  107-108) always equal `isProcessing`, so they are not separate fields.
- The clipboard write and the `setTimeout` label reset (public/chat.js:155-160):
  these are asynchronous browser APIs.
- `console.error` (public/chat.js:94, 103): logging only.
- Async interleaving: the only interleaving modelled is a send while a reply is
  outstanding, between `Submit` and `Complete`. A read that throws part-way
  through the stream is modelled as the chunks before it followed by
  `aborted`.
- The `innerHTML` parse of the rendered HTML (public/chat.js:140): this is the
  browser's. `addCopyButtons` works on `<pre>` elements given as objects.
- CopyButtons.HasCopyButton: the nesting inside a `<pre>` block is not
  modelled. `querySelector(".copy-btn")` searches every descendant, so a
  `CopyButton` child stands for any child whose subtree holds a `.copy-btn`
  element, for instance one that unescaped fenced text put inside `<code>`.
- Render: JavaScript strings are UTF-16 and Dafny strings hold code points.
  None of the modelled operations tells the two apart, because all the
  separators and white space lie in the Basic Multilingual Plane.
