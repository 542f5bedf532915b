/** The values `json.loads` produces and the shape coercion `analyze_chunk`
    and `merge_results` apply to a parsed object (backend/ai_service.py,
    lines 51-56 and 86-91), with the error record both return when anything
    raises (lines 58-59 and 93-94). */
module JsonModel {

  /** A JSON value as Python holds it after `json.loads`: `None`, `bool`,
      `int`, `str`, `list` or `dict`. */
  datatype Json =
    | JNull
    | JBool(b: bool)
    | JNumber(n: int)
    | JString(s: string)
    | JArray(items: seq<Json>)
    | JObject(fields: map<string, Json>)

  /** A Python `dict` with string keys. */
  type Dict = map<string, Json>

  const SummaryKey := "summary"
  const TasksKey := "tasks"
  const NextMeetingKey := "next_meeting"
  const ErrorKey := "error"
  const CountKey := "number_of_chunks_processed"

  /** `d.get(key, default)`. */
  function Get(d: Dict, key: string, default: Json): Json {
    if key in d then d[key] else default
  }

  /** The name `type(v).__name__` gives for a parsed value. */
  function TypeName(v: Json): string {
    match v
    case JNull => "NoneType"
    case JBool(_) => "bool"
    case JNumber(_) => "int"
    case JString(_) => "str"
    case JArray(_) => "list"
    case JObject(_) => "dict"
  }

  /** The three fields the service relies on have the types it expects,
      wherever they are present. */
  predicate WellTyped(d: Dict) {
    && (SummaryKey in d ==> d[SummaryKey].JArray?)
    && (TasksKey in d ==> d[TasksKey].JArray?)
    && (NextMeetingKey in d ==> d[NextMeetingKey].JString?)
  }

  /** What the coercion leaves under `key` when `v` is there: a non-list
      summary is wrapped in a list, a non-list tasks value becomes an empty
      list, a non-string next meeting becomes the empty string, and every
      other value stays. */
  function CoercedField(key: string, v: Json): Json {
    if key == SummaryKey && !v.JArray? then JArray([v])
    else if key == TasksKey && !v.JArray? then JArray([])
    else if key == NextMeetingKey && !v.JString? then JString("")
    else v
  }

  /** The coerced object, key by key: the same keys, each value passed
      through `CoercedField`. */
  function Coerced(data: Dict): Dict {
    map k | k in data :: CoercedField(k, data[k])
  }

  /** The three in-place checks of the source, one after the other, each
      reading the field through `.get` with the source's default. */
  method Normalize(data: Dict) returns (d: Dict)
    ensures d == Coerced(data)
  {
    d := data;
    if !Get(d, SummaryKey, JArray([])).JArray? {
      d := d[SummaryKey := JArray([Get(d, SummaryKey, JString(""))])];
    }
    if !Get(d, TasksKey, JArray([])).JArray? {
      d := d[TasksKey := JArray([])];
    }
    if !Get(d, NextMeetingKey, JString("")).JString? {
      d := d[NextMeetingKey := JString("")];
    }
  }

  /** The coercion adds no key and removes none, touches no key but the three
      fields, and leaves the three fields well typed. */
  lemma CoercedShape(data: Dict)
    ensures Coerced(data).Keys == data.Keys
    ensures forall k :: k in data && k != SummaryKey && k != TasksKey && k != NextMeetingKey ==>
                         Coerced(data)[k] == data[k]
    ensures WellTyped(Coerced(data))
  {
    var c := Coerced(data);
    assert SummaryKey in c ==> c[SummaryKey] == CoercedField(SummaryKey, data[SummaryKey]);
    assert TasksKey in c ==> c[TasksKey] == CoercedField(TasksKey, data[TasksKey]);
    assert NextMeetingKey in c ==> c[NextMeetingKey] == CoercedField(NextMeetingKey, data[NextMeetingKey]);
  }

  /** Field by field: a present non-list summary `v` becomes `[v]`, a present
      non-list tasks value becomes `[]`, a present non-string next meeting
      becomes `""`, and a field of the right type is kept. */
  lemma CoercedFields(data: Dict)
    ensures SummaryKey in data ==>
              Coerced(data)[SummaryKey] ==
              (if data[SummaryKey].JArray? then data[SummaryKey] else JArray([data[SummaryKey]]))
    ensures TasksKey in data ==>
              Coerced(data)[TasksKey] ==
              (if data[TasksKey].JArray? then data[TasksKey] else JArray([]))
    ensures NextMeetingKey in data ==>
              Coerced(data)[NextMeetingKey] ==
              (if data[NextMeetingKey].JString? then data[NextMeetingKey] else JString(""))
  {
  }

  /** An object whose fields already have the right types is left as it is. */
  lemma CoercedWellTyped(data: Dict)
    requires WellTyped(data)
    ensures Coerced(data) == data
  {
    var c := Coerced(data);
    assert forall k :: k in data ==> c[k] == data[k];
  }

  /** Coercing twice is coercing once. */
  lemma CoercedIdempotent(data: Dict)
    ensures Coerced(Coerced(data)) == Coerced(data)
  {
    CoercedShape(data);
    CoercedWellTyped(Coerced(data));
  }

  /** The record returned when anything in the try block raises: empty
      summary and tasks, an empty next meeting, and `str(e)`. */
  function ErrorRecord(message: string): (r: Dict)
    ensures r.Keys == {SummaryKey, TasksKey, NextMeetingKey, ErrorKey}
    ensures WellTyped(r)
    ensures r[SummaryKey] == JArray([]) && r[TasksKey] == JArray([]) && r[NextMeetingKey] == JString("")
    ensures r[ErrorKey] == JString(message)
  {
    map[SummaryKey := JArray([]), TasksKey := JArray([]), NextMeetingKey := JString(""), ErrorKey := JString(message)]
  }
}
