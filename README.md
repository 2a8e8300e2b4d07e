# transcript-demo: the transcription worker, modelled in Dafny

The demo receives raw audio frames from a websocket and queues them for one
background worker. The worker appends each frame to an ever-growing buffer.
Once the buffer reaches a moving threshold, the worker sends the whole buffer
to a speech service and moves the threshold one step past the buffer's
length. It then writes the service's final results into an HTML page that
refreshes itself. An end-of-input marker on the queue stops the worker. Every
item it takes, the marker included, is acknowledged.

The model covers the consumer side of `transcript_demo/wazo.py`:

- `rendering.dfy` (module `Rendering`): the page template `TPL`, the
  placeholder page, and `write_result`'s rendering. Rendering turns every
  line break into `</p>` and fills the template's single `{}` field. Pure
  functions, with lemmas about them.
- `recognition.dfy` (module `Recognition`): the response records of the
  speech service and the text assembly of `do_transcription`. The
  method `AssembleTranscript` keeps the source's two nested loops and is
  proved equal to the specification function `Assembled`.
- `buffering.dfy` (module `Buffering`): the worker loop as a state machine
  over values. `Handle` takes one queue item and `Consume` drains a queue.
  `Inv` is the invariant of every reachable state. The lemmas cover buffer
  contents, the firing rule, the threshold, the call log, acknowledgements,
  the end marker and the output page.
- `worker.dfy` (module `Worker`): class `Transcriber`. Its fields are the
  buffer, the threshold, the output file's contents, the acknowledgement
  count and a stopped flag. A ghost log records every chunk sent for
  transcription. `Process` is one turn of `transcribe`'s `while True` loop,
  and it updates the fields in place. `Run` is the loop itself. Both are
  proved against `Handle` and `Consume`, and both keep `Inv`.

The speech service (`streaming_recognize`) is a function-typed parameter,
`recognize: seq<byte> -> seq<Response>`. Its one assumption, `Reliable`, is
that every final result it returns has at least one alternative. The source
reads `alternatives[0]` without checking. The threshold increment `step` is a
parameter with `step > 0`; the source fixes it at `32 * 1024`. The queue is
the sequence of items it will deliver.

## Model

| member | source | states |
|---|---|---|
| `Rendering.TplSplit` | transcript_demo/wazo.py:30-37 | The template is a fixed head, one `{}` field, then a fixed tail. The head contains no brace. |
| `Rendering.Format` | transcript_demo/wazo.py:79 | Defines `str.format` on a template with one `{}` field: the first `{}` is replaced by the argument, and a template without one is returned as it is. See `FormatNoField`, `FormatFillsPair` and `FormatFillsField`. |
| `Rendering.FormatNoField` | transcript_demo/wazo.py:79 | A template with no `{` comes back unchanged. |
| `Rendering.FormatFillsPair` | transcript_demo/wazo.py:79 | Any template either comes back unchanged or has one of its `{}` pairs replaced by the whole argument, with the text before and after the pair kept. |
| `Rendering.FormatFillsField` | transcript_demo/wazo.py:79 | Filling a template whose head has no brace puts the argument exactly where `{}` was. The text around the field is unchanged. |
| `Rendering.ReplaceNewlines` | transcript_demo/wazo.py:79 | The replaced text contains no `'\n'`. |
| `Rendering.ReplaceNewlinesAppend` | transcript_demo/wazo.py:79 | Replacement works piecewise: replacing in `a + b` gives the replacements of `a` and `b`, concatenated. |
| `Rendering.ReplaceNewlinesLength` | transcript_demo/wazo.py:79 | The replaced text is 3 characters longer per line break in the input. |
| `Rendering.ReplaceNewlinesUnchangedIff` | transcript_demo/wazo.py:79 | Replacement leaves a text unchanged if and only if the text has no `'\n'`. |
| `Rendering.NoNewlineUnchanged` | transcript_demo/wazo.py:79 | A text without line breaks passes through replacement unchanged. |
| `Rendering.Render` | transcript_demo/wazo.py:77-79 | The page is the template head, then the transcript with every `'\n'` turned into `</p>`, then the template tail. |
| `Rendering.Placeholder` | transcript_demo/wazo.py:107-108 | The start-up page is the template head, then "Waiting for the transcription to start...", then the tail. No replacement is applied. |
| `Rendering.RenderKeepsTemplate` | transcript_demo/wazo.py:79 | Any two rendered pages share the template's head and tail. The substituted part contains no `'\n'`. |
| `Rendering.RenderTwoLines` | transcript_demo/wazo.py:79 | Two lines joined by `'\n'` render as `first</p>second` inside the template; "hello\nworld" gives `hello</p>world`. |
| `Rendering.ReplaceTwoLines` | transcript_demo/wazo.py:79 | Replacement turns `first + "\n" + second` into `first + "</p>" + second` when neither part has a line break. |
| `Rendering.RenderedNotPlaceholder` | transcript_demo/wazo.py:79 | A page rendered from a transcript that starts with `'\n'` differs from the placeholder page. |
| `Recognition.Best` | transcript_demo/wazo.py:95 | Defines the text read from a result: for a final result that has alternatives (as the service guarantees), it is `alternatives[0].transcript`. For a result with no alternatives it is `""` (see Left out). |
| `Recognition.FinalsOf` | transcript_demo/wazo.py:92-95 | A batch of results yields at most one transcript per result. |
| `Recognition.FinalTranscripts` | transcript_demo/wazo.py:89-95 | Defines the texts the nested loops collect: each response's final results' first-alternative transcripts, in response order, then result order. See `FinalTranscriptsAppend`, `FinalTranscriptsEmptyIff` and `FinalsOfMembers`. |
| `Recognition.JoinLines` | transcript_demo/wazo.py:95 | Defines the appended text: each collected transcript followed by `"\n"`, concatenated in order. See `JoinLinesAppend` and `JoinLinesEndsWithBreak`. |
| `Recognition.JoinLinesEndsWithBreak` | transcript_demo/wazo.py:95 | The joined text has at least one character per transcript, and it ends with `'\n'` whenever there was at least one transcript. |
| `Recognition.Assembled` | transcript_demo/wazo.py:88-98 | The assembled transcript always starts with `'\n'`. |
| `Recognition.AssembleTranscript` | transcript_demo/wazo.py:88-98 | The nested loops return exactly `"\n"`, then each final result's first-alternative transcript plus `"\n"`, in response order and result order. Non-final results are skipped. |
| `Recognition.AppendResult` | transcript_demo/wazo.py:92-95 | Processing one more result appends that result's transcript and `"\n"` if the result is final, and appends nothing otherwise. |
| `Recognition.AppendResponse` | transcript_demo/wazo.py:89-95 | Processing one more response appends that response's final transcripts. |
| `Recognition.FinalsOfAppend` | transcript_demo/wazo.py:92-95 | Results are taken in order: the finals of `a + b` are the finals of `a` followed by the finals of `b`. |
| `Recognition.FinalTranscriptsAppend` | transcript_demo/wazo.py:89-95 | Responses are taken in order: the final transcripts of `a + b` are those of `a` followed by those of `b`. |
| `Recognition.JoinLinesAppend` | transcript_demo/wazo.py:95 | Appending line by line: joining `a + b` gives the join of `a` followed by the join of `b`. |
| `Recognition.FinalsOfEmptyIff` | transcript_demo/wazo.py:92-94 | A batch of results contributes no text if and only if none of its results is final. |
| `Recognition.FinalTranscriptsEmptyIff` | transcript_demo/wazo.py:89-94 | There are no final transcripts if and only if no result of any response is final. |
| `Recognition.AssembledBlankIff` | transcript_demo/wazo.py:88-95 | The transcript is exactly `"\n"` if and only if no result is final. |
| `Recognition.FinalsOfMembers` | transcript_demo/wazo.py:92-95 | A text is among the collected transcripts if and only if it is the first-alternative transcript of some final result. |
| `Buffering.Reliable` | transcript_demo/wazo.py:95 | Defines the one assumption about the speech service: every final result it returns for any chunk has at least one alternative, so reading `alternatives[0]` cannot fail. The class `Transcriber` requires it. `AssembleTranscript` requires the same of the responses it is given (`ResponsesReadable`). |
| `Buffering.Transcription` | transcript_demo/wazo.py:82-98 | The transcript of any audio chunk starts with `'\n'`. |
| `Buffering.Start` | transcript_demo/wazo.py:59-61 | Defines the state before the first item: empty buffer, threshold `step` (lines 59-61), the placeholder page that `main` writes first (lines 107-108), no acknowledgements, no calls, not stopped. |
| `Buffering.Handle` | transcript_demo/wazo.py:63-74 | Defines one loop turn. The end marker is acknowledged and stops the loop. A frame is appended to the buffer. If the new length is at least the threshold, the whole buffer is transcribed, the threshold becomes length + `step`, and the page is rewritten. The item is acknowledged in every case. |
| `Buffering.Consume` | transcript_demo/wazo.py:62-74 | Defines the loop over a queue: items are handled in order until the queue is empty or the worker has stopped. Contract: a stopped worker takes nothing; there is at most one acknowledgement per item; buffer and call log are only extended. |
| `Buffering.StartInv` | transcript_demo/wazo.py:59-61 | The start state meets the invariant: empty buffer, threshold `step`, placeholder page, no calls. |
| `Buffering.HandleInv` | transcript_demo/wazo.py:62-74 | One loop turn keeps the invariant. The invariant says: threshold = last chunk length (or 0) + `step`; buffer length < threshold; every chunk sent is a prefix of the buffer; successive chunks are at least `step` apart; the page renders the latest chunk's transcript, or is the placeholder. |
| `Buffering.ConsumeInv` | transcript_demo/wazo.py:62-74 | Draining any queue keeps the invariant. |
| `Buffering.ReachableInv` | transcript_demo/wazo.py:58-74 | Every state reachable from the start state meets the invariant. |
| `Buffering.ConsumeAppend` | transcript_demo/wazo.py:62-63 | Items are taken one by one, in queue order: draining `a + b` is draining `a`, then `b`. |
| `Buffering.ConsumeStep` | transcript_demo/wazo.py:62-74 | Until the worker stops, taking one more item is one more loop turn. |
| `Buffering.ConsumeFinish` | transcript_demo/wazo.py:62-66 | After a loop that stopped, or ran out of items, after `n` items: the whole queue is drained, `n` is the count up to the first end marker, and the worker stopped if and only if an end marker was queued. |
| `Buffering.UntilDone` | transcript_demo/wazo.py:63-66 | The items the loop dequeues are a prefix of the queue. That prefix holds an end marker if and only if the queue does. When it holds one, it ends with it, and no earlier item of the prefix is an end marker. |
| `Buffering.ConsumeUntilDone` | transcript_demo/wazo.py:63-66 | Items after the first end marker are never consumed. Every dequeued item is acknowledged exactly once, the end marker included. The worker stops if and only if an end marker was queued. |
| `Buffering.FlattenLength` | transcript_demo/wazo.py:67-68 | The concatenation of frames is as long as the sum of their lengths. |
| `Buffering.FramesBeforeDone` | transcript_demo/wazo.py:63-67 | The frames before the first end marker: the queue starts with exactly these frames, in order, followed by the end marker or by nothing. |
| `Buffering.ConsumeBuffer` | transcript_demo/wazo.py:67 | The buffer is the old buffer followed by every frame before the end marker, in arrival order. Its length grows by the sum of their lengths. |
| `Buffering.BufferIsConcatenation` | transcript_demo/wazo.py:61-67 | From the start, after frames alone, the buffer is their concatenation in arrival order, and its length is the sum of theirs. |
| `Buffering.FramesOnly` | transcript_demo/wazo.py:47 | The queue items for a list of frames are those frames, one item each, in order. |
| `Buffering.FramesOnlyBeforeDone` | transcript_demo/wazo.py:63-67 | A queue of frames alone hands every frame to the buffer. |
| `Buffering.DoneStops` | transcript_demo/wazo.py:62-66 | Whatever frames come before it, the end marker ends the loop. The worker acknowledges it and stops, with buffer, threshold, page and call log unchanged, and it never takes anything queued after the marker. |
| `Buffering.HandleFrameFires` | transcript_demo/wazo.py:67-72 | A frame fires a transcription if and only if the new buffer length is at least the threshold, that is, if and only if the buffer has grown by at least `step` since the last firing (since the start, before the first). The chunk sent is the entire new buffer, the threshold becomes its length + `step`, and the page shows its transcript. Without a firing, threshold and page stay. |
| `Buffering.HandleThreshold` | transcript_demo/wazo.py:69-71 | The threshold strictly increases at a firing and is unchanged on every other item. |
| `Buffering.ConsumeMonotone` | transcript_demo/wazo.py:60-71 | Over a whole run the threshold never decreases and the call log only grows. |
| `Buffering.CallsGrow` | transcript_demo/wazo.py:69-71 | Each chunk sent for transcription strictly extends the previous one (as a prefix) and is at least `step` bytes longer than it. |
| `Buffering.OutputIsLatest` | transcript_demo/wazo.py:72 | The page is the placeholder until the first firing. After that it renders only the latest chunk's transcript (it does not accumulate) and differs from the placeholder. |
| `Buffering.StepFourExample` | transcript_demo/wazo.py:68-71 | With step 4 and frame lengths 1, 2, 1, 1, transcription fires exactly once, on the third frame, with all four bytes. The threshold ends at 8. |
| `Buffering.FixedServiceOutput` | transcript_demo/wazo.py:70-72 | If the service gives the same answer to every chunk, the page is the placeholder before the first firing and that answer's rendering after it. |
| `Worker.Transcriber.constructor` | transcript_demo/wazo.py:59-61 | The placeholder page is written, as `main` does at lines 107-108. The loop starts with an empty buffer, threshold `step`, no acknowledgements and no calls, and the invariant holds. |
| `Worker.Transcriber.WriteResult` | transcript_demo/wazo.py:77-79 | The output file is overwritten with the rendering of the given transcript. |
| `Worker.Transcriber.Process` | transcript_demo/wazo.py:63-74 | One loop turn updates the fields in place exactly as `Handle` says. The item is acknowledged. The worker stops only on the end marker. The invariant is kept. |
| `Worker.Transcriber.Run` | transcript_demo/wazo.py:62-74 | The loop takes items up to and including the first end marker and returns that count. The new state is `Consume` of the old one. The worker stopped if and only if an end marker was queued. The invariant is kept. |

## Left out

- The websocket client (`WebSocketApp`, `run_forever`, `on_message`, `on_error`, `on_close`): network I/O and library callbacks. A queue's contents are an input sequence here.
- The Google speech client, its credentials, `StreamingRecognitionConfig` and the request object: foreign calls. The service is the parameter `recognize`.
- Failures of the speech call or of the file write, which end the worker thread: not modelled. `Reliable` states the one failure the worker's own code could cause for binary frames, the only kind `Item` carries: an empty `alternatives` list on a final result. A text message queued by `on_message` would make `buffer += data` raise `TypeError`; that is not modelled.
- Threads, `Queue` blocking, `queue.join()` and `transcriber_thread.join()`: concurrency. When the input sequence runs out without an end marker, `Run` returns. The real worker would block and wait for more items.
- The directory creation, the file path, `sys.argv` and the real file writes: the output file is the string field `output`.
- Logging, and the global `received_buffer`, which is never updated and is only logged.
- `Recognition.Best`, `Buffering.Handle`, `Buffering.Consume`: on a final result with no alternatives, `Best` gives `""` and the loop carries on, where the source raises `IndexError` and ends the worker thread. Only the class `Transcriber` (through `Reliable`) and `AssembleTranscript` (through `ResponsesReadable`) exclude this case.
- `Rendering.Format` models `str.format` only for templates with at most one `{}` field and no other brace, which covers `TPL` (see `TplSplit`). On any other brace (`{{`, `}}`, `{0}`, a lone `{` or `}`) Python substitutes or raises `ValueError`, and `Format` does neither.
- `step` is a parameter with `step > 0`, not the constant `32 * 1024`. Audio bytes are a `byte` newtype. Strings are sequences of characters, with no encoding.
