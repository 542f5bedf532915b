# Meeting transcript analysis, modelled in Dafny

`backend/ai_service.py` turns a meeting transcript into a summary, a task
list and the date of the next meeting. It splits the transcript into chunks
of whole sentences (`split_text`) and asks a language model to analyse each
chunk (`analyze_chunk`). When there is not exactly one chunk, it asks the
model to merge the partial results (`merge_results`). Finally it returns a
dict with four keys (`analyze_meeting`).

This project models that file in six modules:

- `PyStr` (`pystr.dfy`): Python's `str.strip()` with no argument, with the
  exact `str.isspace()` character set, and `" ".join(...)`.
- `SentenceSplit` (`sentences.dfy`): `re.split(r'(?<=[.!?]) +', text)`,
  written out by hand. The split points are the maximal runs of U+0020
  spaces that follow `.`, `!` or `?`.
- `Chunking` (`chunking.dfy`):
  - The greedy packing loop of `split_text`, as the method `SplitText`.
  - Its specification `Chunks`: a front-first greedy partition of the
    sentence list (`GreedyLayout`, built by `Layout`), then each group
    joined and stripped (`Emit`).
  - `LayoutUnique` proves that only one partition has the greedy shape.
    That is what ties the loop, which extends the partition at its end
    (growing or replacing the last group), to `Chunks`, which `Layout` builds
    from the front.
- `ResponseSpan` (`span.dfy`): the reply is stripped, then
  `re.search(r'\{.*\}', text, re.DOTALL)` picks a span, as in lines 44-48
  and again in 80-83.
- `JsonModel` (`jsonmodel.dfy`):
  - The values `json.loads` returns.
  - The in-place coercion of the three fields (`Normalize`, specified by the
    key-wise `Coerced`).
  - The four-key error record.
- `MeetingAnalysis` (`pipeline.dfy`): `analyze_chunk`, `merge_results` and
  `analyze_meeting`.
  - The language model is a parameter `model: Request -> Reply`. A
    `Request` carries the data the prompt is built from: the chunk, or the
    three collected lists. A `Reply` is the reply text or the message of
    the exception the call raised.
  - `json.loads` is a parameter `parse: string -> Parsed`, which gives a
    JSON value or the message of the exception.
  - The methods `AnalyzeMeeting`, `AnalyzeSplit` and `AnalyzeEach` also
    return, as a ghost, the list of model calls they make, in order.

Behaviours of the code that the model keeps, although a reader of the
docstrings might expect otherwise:

- **Zero chunks.** An empty transcript gives zero chunks, and the code
  still calls `merge_results([])`, because the merge runs whenever the count
  is not 1. The model does the same (`AnalysisOfEmptyText`).
- **Empty chunks.** A transcript of whitespace alone gives one empty chunk
  `""`, because the code tests the unstripped buffer
  (`BlankTextGivesEmptyChunk`). Chunks are therefore not always non-empty.
- **Missing fields.** The coercion never adds a field that is missing.
  Missing fields get their defaults only in the final four-key dict.
- **Dropped keys.** With one chunk, the chunk's result is reported
  directly. Any `error` key, and any other extra key, is dropped from the
  report.

## Model

| member | source | states |
|---|---|---|
| `PyStr.Strip` | backend/ai_service.py:44 | The stripped string is no longer than the input. It is empty exactly when the input is all whitespace. Otherwise it neither starts nor ends with whitespace. |
| `PyStr.StripIsInfix` | backend/ai_service.py:44 | `strip()` removes only whitespace, and only at the two ends: the result sits in the input between an all-whitespace prefix and an all-whitespace suffix. |
| `PyStr.StripIdempotent` | backend/ai_service.py:44 | Stripping twice is the same as stripping once. |
| `PyStr.StripTrimmed` | backend/ai_service.py:23 | A string with no whitespace at either end is its own strip. |
| `PyStr.JoinSnoc` | backend/ai_service.py:20 | Appending a sentence to a non-empty buffer adds one space and the sentence, as `current += " " + sentence` does. |
| `PyStr.JoinPrefixShorter` | backend/ai_service.py:19-20 | The join of a prefix of the buffer's sentences is never longer than the join of them all. |
| `PyStr.JoinLongerThanPart` | backend/ai_service.py:19-20 | A buffer of two or more sentences is longer than any one of them. |
| `SentenceSplit.NextBreak` | backend/ai_service.py:15 | The next split point is the leftmost position where a space follows `.`, `!` or `?`, or the end of the text when there is none. |
| `SentenceSplit.SpaceRunEnd` | backend/ai_service.py:15 | The separator ` +` takes the whole run of U+0020 spaces and stops at the first character that is not one. |
| `SentenceSplit.Gaps` | backend/ai_service.py:15 | One separator is removed between each pair of neighbouring sentences, and each is at least one space wide. |
| `SentenceSplit.Sentences` | backend/ai_service.py:15 | `re.split` always returns at least one piece, even for the empty text. |
| `SentenceSplit.Reassemble` | backend/ai_service.py:15 | The split loses only the separators: putting the sentences back together with the removed space runs gives the original text. |
| `SentenceSplit.SentencesWellFormed` | backend/ai_service.py:15 | No sentence holds a split point. Every sentence but the last ends with `.`, `!` or `?`. No sentence after the first starts with a space. |
| `SentenceSplit.SentencesOfRejoin` | backend/ai_service.py:15 | The split inverts rejoining: a well-formed sentence list, joined with any positive number of spaces between neighbours, splits back into exactly that list. |
| `SentenceSplit.SentencesOfCons` | backend/ai_service.py:15 | A sentence, a run of spaces and a remainder that does not start with a space split into that sentence followed by the split of the remainder. |
| `SentenceSplit.SentencesOfSentence` | backend/ai_service.py:15 | A text without a split point is a single sentence. |
| `Chunking.Chunks` | backend/ai_service.py:11-27 | `split_text(text, max_chars)` as a function: the greedy layout of the sentences, each group joined and stripped. It has no contract of its own; `SplitText` proves the loop equals it, and `ChunkGroups`, `LayoutUnique`, `LongChunkIsOneSentence` and `ChunksEmptyIff` state what it is. |
| `Chunking.FlattenSnoc` | backend/ai_service.py:18-26 | Adding one more group adds its sentences at the end of the covered list. |
| `Chunking.GreedyLayoutGroups` | backend/ai_service.py:18-24 | Group by group: the groups cover the sentences in order, none is empty, every group of two or more sentences fits in `max_chars`, and a group is closed only because its join, a space and the next sentence exceed `max_chars`. |
| `Chunking.GreedyReplaceLast` | backend/ai_service.py:18-24 | Re-laying the open buffer together with the next sentence keeps the whole layout greedy, as long as the new groups start where the open buffer started. |
| `Chunking.GreedyExtend` | backend/ai_service.py:19-20 | Appending a sentence that fits to the open buffer keeps the layout greedy. |
| `Chunking.GreedyClose` | backend/ai_service.py:21-24 | Closing the buffer before a sentence that does not fit, and starting a new buffer with that sentence, keeps the layout greedy. |
| `Chunking.LongerPrefixOverflows` | backend/ai_service.py:19 | Any run of sentences longer than a greedy group, taken from the same start, does not fit in `max_chars`. |
| `Chunking.LayoutUnique` | backend/ai_service.py:18-24 | Only one partition of the sentence list has the greedy shape. |
| `Chunking.Grow` | backend/ai_service.py:19-20 | The first buffer takes sentences while the buffer, a space and the next sentence fit, and stops at the first that does not. |
| `Chunking.Layout` | backend/ai_service.py:18-24 | The front-first partition of the sentences into buffers has the greedy shape. |
| `Chunking.EmitSnoc` | backend/ai_service.py:23 | Closing a buffer appends its stripped join to the chunk list. |
| `Chunking.InnerSentencesNonEmpty` | backend/ai_service.py:15-22 | Every sentence but the last is non-empty, so the `if current` test holds once the buffer has taken any sentence but the last. |
| `Chunking.PackingComplete` | backend/ai_service.py:25-27 | A greedy layout of every sentence, with its open buffer flushed at the end, gives exactly `Chunks`. |
| `Chunking.SplitText` | backend/ai_service.py:11-27 | The loop of `split_text` returns exactly `Chunks(text, max_chars)`. |
| `Chunking.ChunkGroups` | backend/ai_service.py:15-26 | Each chunk is the strip of a run of consecutive sentences joined by single spaces. The runs cover the sentence list in order, with nothing dropped, reordered or duplicated. Multi-sentence runs fit, and a run is closed only when the next sentence does not fit. |
| `Chunking.FlattenMember` | backend/ai_service.py:15-26 | Every sentence in a chunk's group is a sentence of the text. |
| `Chunking.EmitFits` | backend/ai_service.py:19-24 | A chunk made from groups that fit, or from one sentence, is within `max_chars` or is the strip of a single sentence. |
| `Chunking.LongChunkIsOneSentence` | backend/ai_service.py:19-24 | A chunk longer than `max_chars` is the strip of a single sentence of the text. |
| `Chunking.FlattenLocate` | backend/ai_service.py:18-26 | Every sentence laid out sits in some buffer. |
| `Chunking.LongSentenceChunk` | backend/ai_service.py:19-26 | A non-empty sentence at least `max_chars` long comes out as a chunk of its own: its strip is one of the chunks of the text. |
| `Chunking.LongSentenceAlone` | backend/ai_service.py:19-24 | A sentence of length at least `max_chars` always forms a buffer on its own; `LongSentenceChunk` turns this into a statement about the chunks. |
| `Chunking.EmitCount` | backend/ai_service.py:22-26 | There are never more chunks than buffers, and a buffer that is not empty produces its own chunk, its stripped join. |
| `Chunking.ChunksEmptyIff` | backend/ai_service.py:15-27 | `split_text` returns `[]` exactly for the empty text. |
| `Chunking.LayoutSingle` | backend/ai_service.py:18-26 | A single sentence makes a single buffer. |
| `Chunking.BlankTextGivesEmptyChunk` | backend/ai_service.py:22-26 | `split_text("   ")` is `[""]`: the unstripped buffer is non-empty, and its strip is empty. |
| `Chunking.LayoutPair` | backend/ai_service.py:19-24 | Two sentences go in separate buffers exactly when the first, a space and the second exceed `max_chars`. |
| `Chunking.EmitPair` | backend/ai_service.py:20-26 | Two trimmed sentences give two chunks when apart and one space-joined chunk when together. |
| `Chunking.ChunksOfPair` | backend/ai_service.py:11-27 | A text of two trimmed sentences separated by one space gives one chunk when they fit together, and two chunks otherwise. |
| `Chunking.ExampleTooLongTogether` | backend/ai_service.py:11-27 | `split_text("Hello there. Goodbye now.", 10)` is `["Hello there.", "Goodbye now."]`. |
| `Chunking.ExampleFitTogether` | backend/ai_service.py:11-27 | `split_text("Hello. World.", 100)` is `["Hello. World."]`. |
| `ResponseSpan.FirstIndex` | backend/ai_service.py:46 | The position of the first `{` at or after a point, or the end of the text. |
| `ResponseSpan.LastIndex` | backend/ai_service.py:46 | The position of the last `}`, or -1. |
| `ResponseSpan.BraceSpan` | backend/ai_service.py:46 | `re.search(r'\{.*\}', text, re.DOTALL)`: from the first `{` to the last `}` when that `}` comes later. It has no contract of its own; `BraceSpanIsLeftmostLongest` proves it finds the leftmost, longest match and finds one exactly when one exists. |
| `ResponseSpan.BraceSpanIsLeftmostLongest` | backend/ai_service.py:46-48 | The search matches exactly when some `{` has a `}` after it. The match runs from a `{` to a `}`, and no other match starts earlier or ends later. |
| `ResponseSpan.ExtractJsonWithinReply` | backend/ai_service.py:44-48 | The text given to `json.loads` is a substring of the stripped reply. It is the whole stripped reply when nothing matches, and otherwise starts with `{` and ends with `}`. |
| `ResponseSpan.ExtractJson` | backend/ai_service.py:44-48 | The text handed to `json.loads`: the stripped reply, narrowed to the brace span when there is one. It has no contract of its own; `ExtractJsonWithinReply` and `ExtractJsonIdempotent` state what it returns. |
| `ResponseSpan.ExtractJsonIdempotent` | backend/ai_service.py:44-48 | Extracting the span from an already extracted text changes nothing. |
| `JsonModel.Normalize` | backend/ai_service.py:51-56 | The three in-place checks produce exactly the key-wise coercion `Coerced` of the parsed object. |
| `JsonModel.Coerced` | backend/ai_service.py:51-56 | The coerced object, key by key. It has no contract of its own; `Normalize` proves the three in-place checks equal it, and `CoercedShape`, `CoercedFields`, `CoercedWellTyped` and `CoercedIdempotent` state what it does. |
| `JsonModel.CoercedShape` | backend/ai_service.py:51-56 | The coercion adds no key and removes none. It changes no key other than the three fields, and leaves those three fields well typed. |
| `JsonModel.CoercedFields` | backend/ai_service.py:51-56 | A present non-list `summary` v becomes `[v]`. A present non-list `tasks` becomes `[]`. A present non-string `next_meeting` becomes `""`. Fields of the right type are kept. |
| `JsonModel.CoercedWellTyped` | backend/ai_service.py:86-91 | An object whose three fields already have the right types is left unchanged. |
| `JsonModel.CoercedIdempotent` | backend/ai_service.py:86-91 | Coercing twice is the same as coercing once. |
| `JsonModel.ErrorRecord` | backend/ai_service.py:58-59 | The failure result has exactly the keys `summary`, `tasks`, `next_meeting` and `error`: an empty list, an empty list, an empty string and the exception's message. |
| `MeetingAnalysis.InterpretOutcome` | backend/ai_service.py:38-59 | These are the outcomes of the try block. A failed model call, a reply that does not parse, or a parsed value that is not an object each give the error record with that exception's message. A parsed object gives that object coerced. The three fields are always well typed. |
| `MeetingAnalysis.Interpret` | backend/ai_service.py:44-59 | The try block shared by `analyze_chunk` and `merge_results`, from the reply on (also lines 80-94). It has no contract of its own; `InterpretOutcome` states each outcome. |
| `MeetingAnalysis.AnalyzeChunk` | backend/ai_service.py:29-59 | `analyze_chunk(chunk)`: one extraction call, then `Interpret`. It has no contract of its own; `InterpretOutcome` states its outcomes, and `AnalyzeAll`, `AnalyzeEach` and `CallsInOrder` state how it is called. |
| `MeetingAnalysis.Collect` | backend/ai_service.py:66-68 | Each collected list has one entry per result, in order. Each entry is the result's field, or the per-field default when the field is absent. |
| `MeetingAnalysis.MergeResults` | backend/ai_service.py:61-94 | `merge_results(results)`: one merge call carrying the collected lists, then `Interpret`. It has no contract of its own; `Collect` and `CallsInOrder` state what the call carries, and `InterpretOutcome` and `FinalWellTyped` state what it returns. |
| `MeetingAnalysis.AnalyzeAll` | backend/ai_service.py:98-101 | There is one `analyze_chunk` result per chunk, in chunk order. |
| `MeetingAnalysis.Extractions` | backend/ai_service.py:99-100 | There is one extraction call per chunk, in chunk order. |
| `MeetingAnalysis.AnalyzeEach` | backend/ai_service.py:98-101 | The loop appends the results of `analyze_chunk` in chunk order and makes one extraction call per chunk. |
| `MeetingAnalysis.AnalyzeSplit` | backend/ai_service.py:98-113 | After the split, the report is the one for the chunk list. The calls are the extractions, then a merge unless there is exactly one chunk. |
| `MeetingAnalysis.AnalyzeMeeting` | backend/ai_service.py:96-113 | `analyze_meeting(text)` returns `Analysis(text)` and makes the calls `Calls(text)`. |
| `MeetingAnalysis.Final` | backend/ai_service.py:102-105 | The only chunk's result when there is exactly one chunk, the merged result otherwise. It has no contract of its own; `FinalWellTyped`, `AnalysisOfOneChunk` and `NoChunks` state what it is. |
| `MeetingAnalysis.Report` | backend/ai_service.py:108-113 | The four-key dict built from the final result. It has no contract of its own; `ReportShape` and `CountNotReported` state what it holds. |
| `MeetingAnalysis.Analysis` | backend/ai_service.py:96-113 | `analyze_meeting(text)` as a function. It has no contract of its own; `AnalyzeMeeting` proves the method equals it, and `AnalysisShape`, `AnalysisWhenModelFails`, `AnalysisOfOneChunk` and `AnalysisOfEmptyText` state what it returns. |
| `MeetingAnalysis.CountNotReported` | backend/ai_service.py:106-113 | Writing the count into the final result does not change the report, which takes the count from the chunk list. |
| `MeetingAnalysis.ReportShape` | backend/ai_service.py:108-113 | The report has exactly the four keys. A field missing from the final result gets its `.get` default, a present one is passed on, and `error` is dropped. |
| `MeetingAnalysis.FinalWellTyped` | backend/ai_service.py:102-105 | The reported result, the only chunk's or the merged one, always has well-typed fields. |
| `MeetingAnalysis.AnalysisShape` | backend/ai_service.py:96-113 | Whatever the model and the parser do, the output has exactly the keys `summary`, `tasks`, `next_meeting` and `number_of_chunks_processed`. The first two are lists, the third is a string, and the count equals `len(split_text(text))`. |
| `MeetingAnalysis.AnalysisWhenModelFails` | backend/ai_service.py:96-113 | When every model call raises, the report has an empty summary, no tasks, an empty next meeting and the chunk count. |
| `MeetingAnalysis.AnalysisOfOneChunk` | backend/ai_service.py:102-103 | With exactly one chunk, its result is final and the only call is its extraction. `merge_results` is never called. |
| `MeetingAnalysis.AnalysisOfEmptyText` | backend/ai_service.py:102-105 | The empty transcript gives no chunks, and `merge_results` is still called, with three empty lists. |
| `MeetingAnalysis.NoChunks` | backend/ai_service.py:104-105 | For zero chunks, the report is that of `merge_results([])` with count 0. The only call is a merge with three empty lists. |
| `MeetingAnalysis.CallsInOrder` | backend/ai_service.py:66-105 | One extraction call per chunk, in chunk order, then a merge exactly when the chunk count is not 1. The merge's three lists each have one entry per chunk result, in order, with the per-field defaults. |

## Left out

- The Gemini client is replaced by the `model` parameter. This covers
  `configure` and `GenerativeModel` (lines 7-9) and `generate_content`
  (lines 40-43 and 76-79). Because the parameter is a pure function,
  identical requests get identical replies, which matches the
  `temperature=0` setting but is not guaranteed by the service.
- `json.loads` is replaced by the `parse` parameter. Its error messages
  are whatever `parse` returns.
- JSON floats are not modelled. `Json` has integers only, so no parsed
  value has type name `float`.
- The prompt text is abstracted to the data it carries: the chunk, or the
  three collected lists. This covers the system prompt and the f-string
  rendering of Python list reprs (lines 33-39 and 69-74). The deduplication
  that the merge prompt asks for happens inside the model.
- Exceptions are folded into `Raised` (from the model call) and `Invalid`
  (from parsing). The only other exception modelled is the
  `AttributeError` raised by `.get` on a top-level value that is not an
  object. No other exception source exists once the reply is a string.
- Aliasing of `final`: the dict that `final` names is modelled
  as a map value. The write of `number_of_chunks_processed` into it is
  therefore not visible to the holder of `results[0]`, which is the same
  dict object in the source. Nothing returned depends on it
  (`CountNotReported`).
- In-place coercion: the in-place update of the parsed dict is modelled
  on map values. The dict is fresh from `json.loads`, so no alias can
  observe the difference.
- `backend/main.py` is not part of this model. It is the HTTP route around
  `analyze_meeting`.
- `backend/test_chunking.py` and `backend/test_chunking_basic.py` are not
  part of this model. They only do file and network I/O.
