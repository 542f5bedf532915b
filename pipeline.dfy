/** `analyze_chunk`, `merge_results` and `analyze_meeting`
    (backend/ai_service.py, lines 29-113).

    The language model and `json.loads` are parameters: `model` maps what the
    service asks for to what `generate_content(...).text` returns or the
    message of what it raised, and `parse` maps a string to the value
    `json.loads` returns or the message of the error it raised. The prompt
    text is abstracted to the data it carries. */
module MeetingAnalysis {
  import opened PyStr
  import opened SentenceSplit
  import opened Chunking
  import opened JsonModel
  import opened ResponseSpan

  /** The default `max_chars` of `split_text`, which `analyze_meeting` uses. */
  const MaxChars := 3500

  /** A call to the model: extract from one chunk, or merge the fields
      collected from the partial results. */
  datatype Request =
    | ExtractRequest(chunk: string)
    | MergeRequest(summaries: seq<Json>, tasks: seq<Json>, nextMeetings: seq<Json>)

  /** The reply text, or the message of the exception the call raised. */
  datatype Reply = Text(body: string) | Raised(message: string)

  /** What `json.loads` returns, or the message of the exception it raised. */
  datatype Parsed = Value(value: Json) | Invalid(message: string)

  /** `str(e)` for the `AttributeError` that `.get` raises on a parsed value
      that is not a `dict`. */
  function NoGetMessage(v: Json): string {
    "'" + TypeName(v) + "' object has no attribute 'get'"
  }

  /** The try block shared by `analyze_chunk` and `merge_results`, from the
      reply on: extract the JSON text, parse it, coerce the object; anything
      raised becomes the error record. */
  function Interpret(reply: Reply, parse: string -> Parsed): Dict {
    match reply
    case Raised(msg) => ErrorRecord(msg)
    case Text(body) =>
      match parse(ExtractJson(body))
      case Invalid(msg) => ErrorRecord(msg)
      case Value(v) => if v.JObject? then Coerced(v.fields) else ErrorRecord(NoGetMessage(v))
  }

  /** Whatever happens in the try block, the three fields the service reads
      are well typed where present; a failed call, a reply that does not
      parse and a parsed value that is not an object give the error record
      with that exception's message, and a parsed object gives that object
      with its fields coerced and nothing else changed. */
  lemma InterpretOutcome(reply: Reply, parse: string -> Parsed)
    ensures WellTyped(Interpret(reply, parse))
    ensures reply.Raised? ==> Interpret(reply, parse) == ErrorRecord(reply.message)
    ensures reply.Text? && parse(ExtractJson(reply.body)).Invalid? ==>
              Interpret(reply, parse) == ErrorRecord(parse(ExtractJson(reply.body)).message)
    ensures reply.Text? && parse(ExtractJson(reply.body)).Value? ==>
              var v := parse(ExtractJson(reply.body)).value;
              && (!v.JObject? ==> Interpret(reply, parse) == ErrorRecord(NoGetMessage(v)))
              && (v.JObject? ==> Interpret(reply, parse) == Coerced(v.fields))
  {
    if reply.Text? && parse(ExtractJson(reply.body)).Value? && parse(ExtractJson(reply.body)).value.JObject? {
      CoercedShape(parse(ExtractJson(reply.body)).value.fields);
    }
  }

  /** `analyze_chunk(chunk)`. */
  function AnalyzeChunk(model: Request -> Reply, parse: string -> Parsed, chunk: string): Dict {
    Interpret(model(ExtractRequest(chunk)), parse)
  }

  /** `[r.get(key, default) for r in results]`: one entry per result, in
      order, each the result's field or the default when it has none. */
  function Collect(results: seq<Dict>, key: string, default: Json): (r: seq<Json>)
    ensures |r| == |results|
    ensures forall i :: 0 <= i < |results| ==> r[i] == (if key in results[i] then results[i][key] else default)
  {
    if results == [] then [] else [Get(results[0], key, default)] + Collect(results[1..], key, default)
  }

  /** The merge call `merge_results(results)` makes. */
  function MergeRequestFor(results: seq<Dict>): Request {
    MergeRequest(Collect(results, SummaryKey, JArray([])),
                 Collect(results, TasksKey, JArray([])),
                 Collect(results, NextMeetingKey, JString("")))
  }

  /** `merge_results(results)`. */
  function MergeResults(model: Request -> Reply, parse: string -> Parsed, results: seq<Dict>): Dict {
    Interpret(model(MergeRequestFor(results)), parse)
  }

  /** The results of `analyze_chunk` over the chunks, in order. */
  function AnalyzeAll(model: Request -> Reply, parse: string -> Parsed, chunks: seq<string>): (r: seq<Dict>)
    ensures |r| == |chunks|
    ensures forall i :: 0 <= i < |chunks| ==> r[i] == AnalyzeChunk(model, parse, chunks[i])
  {
    if chunks == [] then []
    else AnalyzeAll(model, parse, chunks[..|chunks| - 1]) + [AnalyzeChunk(model, parse, chunks[|chunks| - 1])]
  }

  /** The dict `analyze_meeting` returns, built from the final result. */
  function Report(final: Dict, count: nat): Dict {
    map[SummaryKey := Get(final, SummaryKey, JArray([])),
        TasksKey := Get(final, TasksKey, JArray([])),
        NextMeetingKey := Get(final, NextMeetingKey, JString("")),
        CountKey := JNumber(count)]
  }

  /** The result that `analyze_meeting` reports: the only chunk's result when
      there is exactly one chunk, the merged result otherwise. */
  function Final(model: Request -> Reply, parse: string -> Parsed, chunks: seq<string>): Dict {
    var results := AnalyzeAll(model, parse, chunks);
    if |results| == 1 then results[0] else MergeResults(model, parse, results)
  }

  /** What `analyze_meeting` returns for a given chunk list. */
  function Outcome(model: Request -> Reply, parse: string -> Parsed, chunks: seq<string>): Dict {
    Report(Final(model, parse, chunks), |chunks|)
  }

  /** `analyze_meeting(text)`. */
  function Analysis(model: Request -> Reply, parse: string -> Parsed, text: string): Dict {
    Outcome(model, parse, Chunks(text, MaxChars))
  }

  /** The model calls made for a given chunk list, in order: one extraction
      per chunk, then one merge unless there is exactly one chunk. */
  function CallsFor(model: Request -> Reply, parse: string -> Parsed, chunks: seq<string>): seq<Request> {
    Extractions(chunks)
      + if |chunks| == 1 then [] else [MergeRequestFor(AnalyzeAll(model, parse, chunks))]
  }

  /** The model calls `analyze_meeting(text)` makes. */
  function Calls(model: Request -> Reply, parse: string -> Parsed, text: string): seq<Request> {
    CallsFor(model, parse, Chunks(text, MaxChars))
  }

  function Extractions(chunks: seq<string>): (r: seq<Request>)
    ensures |r| == |chunks|
    ensures forall i :: 0 <= i < |chunks| ==> r[i] == ExtractRequest(chunks[i])
  {
    if chunks == [] then [] else Extractions(chunks[..|chunks| - 1]) + [ExtractRequest(chunks[|chunks| - 1])]
  }

  /** The loop of `analyze_meeting` (lines 98-101): one `analyze_chunk`
      call per chunk, appended in order; `calls` records the model calls. */
  method AnalyzeEach(model: Request -> Reply, parse: string -> Parsed, chunks: seq<string>)
    returns (results: seq<Dict>, ghost calls: seq<Request>)
    ensures results == AnalyzeAll(model, parse, chunks)
    ensures calls == Extractions(chunks)
  {
    results := [];
    calls := [];
    for i := 0 to |chunks|
      invariant results == AnalyzeAll(model, parse, chunks[..i])
      invariant calls == Extractions(chunks[..i])
    {
      assert chunks[..i + 1][..i] == chunks[..i];
      var result := AnalyzeChunk(model, parse, chunks[i]);
      results := results + [result];
      calls := calls + [ExtractRequest(chunks[i])];
    }
    assert chunks[..|chunks|] == chunks;
  }

  /** `analyze_meeting(text)`; `calls` records the model calls made. */
  method AnalyzeMeeting(model: Request -> Reply, parse: string -> Parsed, text: string)
    returns (report: Dict, ghost calls: seq<Request>)
    ensures report == Analysis(model, parse, text)
    ensures calls == Calls(model, parse, text)
  {
    var chunks := SplitText(text, MaxChars);
    report, calls := AnalyzeSplit(model, parse, chunks);
  }

  /** `analyze_meeting` once the text is split (lines 98-113): analyse every
      chunk, take the only result or merge, and report. */
  method AnalyzeSplit(model: Request -> Reply, parse: string -> Parsed, chunks: seq<string>)
    returns (report: Dict, ghost calls: seq<Request>)
    ensures report == Outcome(model, parse, chunks)
    ensures calls == CallsFor(model, parse, chunks)
  {
    var results;
    results, calls := AnalyzeEach(model, parse, chunks);
    var final: Dict;
    if |results| == 1 {
      final := results[0];
      assert calls + [] == calls;
    } else {
      final := MergeResults(model, parse, results);
      calls := calls + [MergeRequestFor(results)];
    }
    assert final == Final(model, parse, chunks);
    CountNotReported(final, |chunks|);
    final := final[CountKey := JNumber(|chunks|)];
    report := Report(final, |chunks|);
  }

  /** Storing the count in the final result (line 106) does not change the
      report, which takes the count from the chunk list. */
  lemma CountNotReported(final: Dict, count: nat)
    ensures Report(final[CountKey := JNumber(count)], count) == Report(final, count)
  {
    var f := final[CountKey := JNumber(count)];
    assert Get(f, SummaryKey, JArray([])) == Get(final, SummaryKey, JArray([]));
    assert Get(f, TasksKey, JArray([])) == Get(final, TasksKey, JArray([]));
    assert Get(f, NextMeetingKey, JString("")) == Get(final, NextMeetingKey, JString(""));
  }

  /** The report always has exactly the four keys, with a list summary, a
      list of tasks and a string next meeting, whatever the final result
      holds; a field missing from a well-typed final result gets its `.get`
      default, a present one is passed on, and any `error` key is dropped. */
  lemma ReportShape(final: Dict, count: nat)
    requires WellTyped(final)
    ensures var r := Report(final, count);
      && r.Keys == {SummaryKey, TasksKey, NextMeetingKey, CountKey}
      && ErrorKey !in r
      && r[SummaryKey].JArray? && r[TasksKey].JArray? && r[NextMeetingKey].JString?
      && r[CountKey] == JNumber(count)
      && (SummaryKey in final ==> r[SummaryKey] == final[SummaryKey])
      && (SummaryKey !in final ==> r[SummaryKey] == JArray([]))
      && (TasksKey in final ==> r[TasksKey] == final[TasksKey])
      && (TasksKey !in final ==> r[TasksKey] == JArray([]))
      && (NextMeetingKey in final ==> r[NextMeetingKey] == final[NextMeetingKey])
      && (NextMeetingKey !in final ==> r[NextMeetingKey] == JString(""))
  {
  }

  /** The result reported is always well typed: it is the result of one
      `Interpret`, for the only chunk or for the merge. */
  lemma FinalWellTyped(model: Request -> Reply, parse: string -> Parsed, chunks: seq<string>)
    ensures WellTyped(Final(model, parse, chunks))
  {
    var results := AnalyzeAll(model, parse, chunks);
    if |results| == 1 {
      InterpretOutcome(model(ExtractRequest(chunks[0])), parse);
    } else {
      InterpretOutcome(model(MergeRequestFor(results)), parse);
    }
  }

  /** `analyze_meeting` always returns exactly the four keys, with a list
      summary, a list of tasks, a string next meeting, and the number of
      chunks `split_text` produced, whatever the model and the parser do. */
  lemma AnalysisShape(model: Request -> Reply, parse: string -> Parsed, text: string)
    ensures var r := Analysis(model, parse, text);
      && r.Keys == {SummaryKey, TasksKey, NextMeetingKey, CountKey}
      && r[SummaryKey].JArray? && r[TasksKey].JArray? && r[NextMeetingKey].JString?
      && r[CountKey] == JNumber(|Chunks(text, MaxChars)|)
  {
    var chunks := Chunks(text, MaxChars);
    FinalWellTyped(model, parse, chunks);
    ReportShape(Final(model, parse, chunks), |chunks|);
  }

  /** When every model call raises, the report is empty but for the count:
      the error records are either final or merged into another error
      record, and the `error` key does not reach the report. */
  lemma AnalysisWhenModelFails(model: Request -> Reply, parse: string -> Parsed, text: string)
    requires forall q :: model(q).Raised?
    ensures Analysis(model, parse, text) ==
              map[SummaryKey := JArray([]), TasksKey := JArray([]), NextMeetingKey := JString(""),
                  CountKey := JNumber(|Chunks(text, MaxChars)|)]
  {
    var chunks := Chunks(text, MaxChars);
    var results := AnalyzeAll(model, parse, chunks);
    var q := if |results| == 1 then ExtractRequest(chunks[0]) else MergeRequestFor(results);
    assert Final(model, parse, chunks) == ErrorRecord(model(q).message);
  }

  /** With exactly one chunk its result is final and the model is never asked
      to merge. */
  lemma AnalysisOfOneChunk(model: Request -> Reply, parse: string -> Parsed, text: string)
    requires |Chunks(text, MaxChars)| == 1
    ensures var c := Chunks(text, MaxChars)[0];
      && Analysis(model, parse, text) == Report(AnalyzeChunk(model, parse, c), 1)
      && Calls(model, parse, text) == [ExtractRequest(c)]
  {
    var chunks := Chunks(text, MaxChars);
    assert AnalyzeAll(model, parse, chunks)[0] == AnalyzeChunk(model, parse, chunks[0]);
    assert Extractions(chunks) == [ExtractRequest(chunks[0])];
  }

  /** The empty transcript has no chunk, and the merge is still called, with
      three empty lists. */
  lemma AnalysisOfEmptyText(model: Request -> Reply, parse: string -> Parsed)
    ensures Analysis(model, parse, "") == Report(MergeResults(model, parse, []), 0)
    ensures Calls(model, parse, "") == [MergeRequest([], [], [])]
  {
    assert Chunks("", MaxChars) == [] by {
      ChunksEmptyIff("", MaxChars);
    }
    NoChunks(model, parse);
  }

  lemma NoChunks(model: Request -> Reply, parse: string -> Parsed)
    ensures Outcome(model, parse, []) == Report(MergeResults(model, parse, []), 0)
    ensures CallsFor(model, parse, []) == [MergeRequest([], [], [])]
  {
    assert AnalyzeAll(model, parse, []) == [];
    assert MergeRequestFor([]) == MergeRequest([], [], []);
  }

  /** The calls `analyze_meeting` makes for a chunk list: first one
      extraction per chunk, in chunk order, then a merge exactly when the
      chunk count is not 1, whose three lists have one entry per chunk
      result, in order, with the per-field defaults. */
  lemma CallsInOrder(model: Request -> Reply, parse: string -> Parsed, chunks: seq<string>)
    ensures var calls := CallsFor(model, parse, chunks);
      && |calls| == |chunks| + (if |chunks| == 1 then 0 else 1)
      && (forall i :: 0 <= i < |chunks| ==> calls[i] == ExtractRequest(chunks[i]))
      && (|chunks| != 1 ==>
            var m := calls[|chunks|];
            && m.MergeRequest?
            && |m.summaries| == |m.tasks| == |m.nextMeetings| == |chunks|
            && forall i :: 0 <= i < |chunks| ==>
                 var r := AnalyzeChunk(model, parse, chunks[i]);
                 && m.summaries[i] == Get(r, SummaryKey, JArray([]))
                 && m.tasks[i] == Get(r, TasksKey, JArray([]))
                 && m.nextMeetings[i] == Get(r, NextMeetingKey, JString("")))
  {
    var ex := Extractions(chunks);
    if |chunks| != 1 {
      var results := AnalyzeAll(model, parse, chunks);
      assert CallsFor(model, parse, chunks) == ex + [MergeRequestFor(results)];
    } else {
      assert CallsFor(model, parse, chunks) == ex + [];
    }
  }
}
