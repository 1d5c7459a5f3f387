# Chat client core, modelled in Dafny

This project models the logic of the `App` component in `src/App.jsx`. The component is a chat front end for a streamed chat-completions API. The model covers:

- `removeThinkTags`. It deletes every `<think>…</think>` reasoning span from the reply and trims the result.
- The request body that `fetchApi` builds. It holds the system message, then the transcript of the current render, then the new user message.
- How `fetchApi` decodes the stream. Each decoded chunk is split on `"\n"` on its own. Blank lines and lines that do not start with `data: ` are skipped. One leading `data: ` is removed and the rest goes to `JSON.parse`. A non-empty `choices[0].delta.content` is appended to `fullResponse`, and the last message of the transcript is replaced by `removeThinkTags(fullResponse)`.
- `queryPrompt`. A blank prompt does nothing. Otherwise the trimmed prompt and an empty assistant placeholder are appended and the prompt is cleared. If the request fails, the placeholder is dropped and the error is alerted.

Files, in dependency order:

| file | module | what it holds |
|---|---|---|
| `wrappers.dfy` | `Wrappers` | `Option` |
| `text.dfy` | `Text` | `trim`, `startsWith`, substring search and `split` over `string` |
| `think_tags.dfy` | `ThinkTags` | the scan the regular expression makes, `removeThinkTags`, and its properties |
| `chat.dfy` | `Chat` | roles, messages, the list updates the component uses, and the displayed transcript |
| `frames.dfy` | `Frames` | the line/chunk/stream decoder written as functions, and its properties |
| `api.dfy` | `Api` | the request body, the server's possible responses, and the error message of a failure |
| `chat_client.dfy` | `ChatClient` | the `App` state as a class, whose methods are the handlers, `fetchApi` and its read loop |

The regular expression `/<think>.*?<\/think>/gs` is modelled by the scan it performs, not by a regex engine.

- `ThinkTags.Scan` finds the leftmost `<think>` that has a `</think>` after it and pairs it with the nearest such `</think>`. It records the text before the span and the reasoning inside it, then continues after the close tag.
- `ScanSpells`, `ScanPaired` and `ScanUnique` prove three things about the spans the scan records. Together with the text left after them, they spell the input. They are exactly the leftmost-open, nearest-close ones. No other decomposition has both properties.
- The Scan facts are proved for any two tags that start with `<` and contain no other `<`. They are then applied to `<think>` and `</think>`.

The JSON parser is a parameter, `Frames.Parser`. It maps a payload to `Malformed` or to a frame with an optional content. `Malformed` covers both a `JSON.parse` exception and a missing `choices[0]`; both end in the same `catch`. The server's response is also a parameter, `Api.Response`: a network error, an HTTP error with an optional `message`, or a stream of decoded chunks.

Five things one might expect of this component do not hold of the code, and the model follows the code:

- **Chunk boundaries matter.** The code splits each chunk on its own, so a frame cut across two chunks is lost. `Frames.ChunkBoundaryMatters` shows this for any frame that the parser reads as a non-empty content, such as `{"choices":[{"delta":{"content":"x"}}]}`, when the chunk is cut right after `data: `.
- **`removeThinkTags` is not idempotent.** Deleting a span can join two fragments into a new `<think>`. `ThinkTags.RemoveThinkTagsNotIdempotent` shows this on `<thi<think>x</think>nk>a</think>`.
- **A read error mid-stream is not reported.** `fetchApi` catches it, keeps the partial reply and hides the typing indicator. The turn is not marked as failed. `App.FetchApi` returns no failure for any streamed response.
- **A failed request leaves the typing indicator on.** `queryPrompt` sets `typing` before the request, and only the end of `fetchApi` clears it.
- **`fetchApi` sends the earlier transcript.** It reads `messages` from the render that started the turn, so the request holds the transcript from before the new user message and the placeholder (`App.QueryPrompt`).

## Model

| member | source | states |
|---|---|---|
| Text.TrimFrames | src/App.jsx:31-34 | `trim` yields a slice of its input with only whitespace cut on either side, and yields the empty string exactly when the input is all whitespace |
| Text.TrimUntouched | src/App.jsx:34 | a text whose ends are not whitespace is unchanged by `trim` |
| Text.IndexOfFirst | src/App.jsx:61 | the search finds the first occurrence at or after the start point, or reports correctly that there is none |
| Text.JoinSplit | src/App.jsx:108 | joining the pieces of `split("\n")` with `"\n"` gives back the chunk |
| Text.SplitJoin | src/App.jsx:108 | splitting a join of newline-free lines gives back the lines |
| ThinkTags.ScanSpells | src/App.jsx:61 | the matched spans and the unmatched rest spell the input again |
| ThinkTags.ScanPaired | src/App.jsx:61 | each matched span opens at the leftmost open tag and closes at the nearest close tag, and the rest holds no complete span |
| ThinkTags.ScanUnique | src/App.jsx:61 | any leftmost-open, nearest-close decomposition of the text is the scan's own |
| ThinkTags.RemoveThinkTags | src/App.jsx:60-62 | the result neither starts nor ends with whitespace |
| ThinkTags.StripSpansDeletesPairedSpans | src/App.jsx:61 | the replacement deletes exactly the spans of a leftmost-open, nearest-close decomposition and keeps everything else in order |
| ThinkTags.StripSpansDecomposes | src/App.jsx:61 | every text has such a decomposition, and the replacement keeps what lies outside its spans |
| ThinkTags.StripSpansUnchanged | src/App.jsx:61 | the replacement leaves a text alone exactly when it holds no `<think>` followed later by `</think>`; otherwise the text gets shorter |
| ThinkTags.NoSpanOnlyTrims | src/App.jsx:60-62 | without a complete span, `removeThinkTags` only trims |
| ThinkTags.RemoveThinkTagsEmpty | src/App.jsx:60-62 | the empty text maps to the empty text, so the placeholder shows `""` until something arrives |
| ThinkTags.UnclosedTagKept | src/App.jsx:60-62 | a `<think>` with no `</think>` after it stays in the output, also when complete spans before it are deleted |
| ThinkTags.VisibleShorter | src/App.jsx:61 | deleting spans never lengthens a text, and deleting at least one shortens it |
| ThinkTags.RemoveThinkTagsNotIdempotent | src/App.jsx:60-62 | `<thi<think>x</think>nk>a</think>` maps to `<think>a</think>`, which maps to `""` |
| Chat.RoleName | src/App.jsx:65-68 | the three roles carry the names `system`, `user` and `assistant`, one each, so distinct senders give distinct request roles |
| Chat.ReplaceLast | src/App.jsx:123-126 | `[...prev.slice(0, -1), m]` keeps every message but the last and ends with `m` |
| Chat.DropLast | src/App.jsx:49 | `prev.slice(0, -1)` is the list without its last message, and stays empty when empty |
| Chat.DropLastAppend | src/App.jsx:40-49 | dropping the placeholder just appended gives back the list from before |
| Chat.ReplaceLastTwice | src/App.jsx:123-126 | a later replacement of the last message overrides an earlier one |
| Chat.ShownLast | src/App.jsx:119-126 | from the empty placeholder on, the last message always shows `removeThinkTags(fullResponse)` and the rest of the transcript is untouched |
| Chat.ShownExtend | src/App.jsx:120-126 | replacing the last message after a non-empty delta moves the display from `fullResponse` to `fullResponse + delta` |
| Frames.Payload | src/App.jsx:116 | on a `data: ` line the prefix followed by the payload is the line; any other line passes through unchanged |
| Frames.OnePrefixRemoved | src/App.jsx:116 | only one leading `data: ` is removed |
| Frames.LineDelta | src/App.jsx:113-127 | what a line appends depends on its prefix alone: a line without `data: ` appends nothing, and `data: ` followed by `p` appends the content the parser finds in `p`, so the blank test never decides a `data: ` line |
| Frames.DataLineNotBlank | src/App.jsx:113 | a `data: ` line is never blank |
| Frames.SkippedLineIgnored | src/App.jsx:113 | a blank or non-`data: ` line changes nothing, whatever lines surround it |
| Frames.MalformedLineIgnored | src/App.jsx:117-130 | a payload the parser rejects, or a frame without content, drops only that line |
| Frames.LineIgnored | src/App.jsx:111-131 | a line that appends nothing leaves the lines around it to count as they would alone |
| Frames.StreamDeltaAppend | src/App.jsx:102-132 | chunks are read in order, so a stream appends what its two halves append |
| Frames.StreamDeltaLines | src/App.jsx:107-111 | the stream appends what its lines append, each chunk split on its own |
| Frames.StreamDeltaConcat | src/App.jsx:119-120 | `fullResponse` is the in-order concatenation of the non-empty deltas of every line |
| Frames.ChunkBoundaryMatters | src/App.jsx:107-108 | a one-line frame whose content is non-empty gives that content; the same text cut into the chunks `data: ` and the bare frame gives nothing |
| Api.ChatHistory | src/App.jsx:65-68 | each message becomes one `{ role, content }` entry, in order, its role the name of its sender |
| Api.BuildRequest | src/App.jsx:70-77 | the request names the model, caps the completion at 4096 tokens, streams, and sends the system message, the history and the user message in that order |
| Api.FailureReason | src/App.jsx:91-94 | an HTTP failure always alerts a non-empty reason, and that reason is either the server's own `message` or "API request failed" |
| ChatClient.AfterStreamedTurn | src/App.jsx:30-52 | a streamed turn keeps the old transcript, adds the user's message, and ends with the reply with reasoning removed |
| ChatClient.AfterFailedTurn | src/App.jsx:45-51 | a failed turn keeps only the user's message |
| ChatClient.SameRepliesSameTranscript | src/App.jsx:119-126 | streams whose non-empty deltas concatenate to the same text leave the same transcript |
| ChatClient.App.constructor | src/App.jsx:12-19 | the state starts with an empty prompt, no typing indicator, and the greeting |
| ChatClient.App.ComposePrompt | src/App.jsx:26-28 | the prompt becomes the input's value and nothing else changes |
| ChatClient.App.ReadLine | src/App.jsx:111-130 | one line appends its delta, recomputes the bot message and shows it in place of the last message; any other line changes nothing |
| ChatClient.App.ReadChunk | src/App.jsx:107-131 | one chunk appends the deltas of its lines split on `"\n"` |
| ChatClient.App.ReadStream | src/App.jsx:96-135 | the read loop leaves `fullResponse` equal to the stream's delta, with the bot message and the last message showing it with reasoning removed, and prompt and typing unchanged |
| ChatClient.App.FetchApi | src/App.jsx:64-139 | it sends the request body; a failed response raises its reason and changes nothing; a stream is read to the end and the typing indicator is hidden |
| ChatClient.App.QueryPrompt | src/App.jsx:30-52 | a blank prompt changes nothing; otherwise the request carries the earlier transcript and the trimmed prompt, the prompt is cleared, the transcript becomes the turn's result, and a failure is alerted as "Error: " followed by its reason |

## Left out

- The JSX markup, icons, scrolling of the chat box (`src/App.jsx:138`) and the `Enter` key wiring of `handleKeyDown`: these are presentation and event plumbing with no state logic beyond calling `queryPrompt`.
- `fetch`, the URL, the headers and the API key: the network is not modelled. The server's answer is the `Api.Response` parameter.
- `temperature` and `top_p`: they are real-valued sampling settings that the code passes through unchanged.
- `TextDecoder`: each chunk is given already decoded. A multi-byte character split across chunks is not modelled.
- `JSON.parse` and the lookup of `choices[0].delta?.content`: these are the `Frames.Parser` parameter. A non-string truthy content would be appended by JavaScript's `+=`, and the model has no such value.
- Api.FailureReason: an error body that is not JSON, or the JSON `null`, is not modelled. `response.json()` rejects on the first, and `errorData.message` throws a TypeError on the second. Either error escapes with a message of its own. A truthy `message` that is not a string is not modelled either; it would be turned into a string by `new Error`. The model's error body is either absent or a string `message`.
- `alert` and `console.error`: the alert text is returned as the `alert` out-parameter, and console output is dropped.
- React's scheduling, and turns that overlap: updates within a turn are applied in order, and one turn finishes before the next starts. Each `setMessages` updater is applied to the latest list.
- Text.IsWhitespace: the set is ECMAScript's WhiteSpace and LineTerminator code points as listed. UTF-16 surrogate pairs are treated as single characters.
- ChatClient.App.QueryPrompt: it is stated for one whole turn and does not describe the intermediate renders, for example the transcript with only the user's message.
