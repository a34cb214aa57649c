/** Streamed chat events after JSON decoding (apps/gateway/internal/application/services/proxy.go, chunk). */
module ChatEvents {
  import opened Wrappers
  import opened Text

  /** The fields of a message that the model writes. */
  datatype Field = Content | ReasoningContent | Reasoning

  /** A JSON number as it is spelled: 1 and 1.0 are different indexes. */
  datatype Index = Index(spelling: string)

  function At(pos: nat): Index { Index(Decimal(pos)) }

  datatype ToolCall = ToolCall(index: Option<Index>, arguments: Option<string>)
  {
    /** Calls without an index count as call 0. */
    function Key(): Index { if index.Some? then index.value else At(0) }

    function Text(): string { if arguments.Some? then arguments.value else "" }
  }

  /** The present string fields, the role and the tool calls of a choice. */
  datatype Delta = Delta(role: Option<string>, text: map<Field, string>, toolCalls: seq<ToolCall>)

  datatype Choice = Choice(index: Option<Index>, delta: Option<Delta>, finish: Option<string>)
  {
    /** A choice without an index counts by its position. */
    function Key(pos: nat): Index { if index.Some? then index.value else At(pos) }
  }

  datatype Usage = Usage(promptTokens: int, completionTokens: int, totalTokens: int, cacheReadTokens: int)

  datatype ErrorField = Absent | Null | Present

  datatype Event = Event(
    id: string, model: Option<string>, choices: seq<Choice>, usage: Option<Usage>, error: ErrorField,
      baseStatus: Option<int>)

  const NO_DELTA := Delta(None, map[], [])

  // ---------- What the gateway reads from an event ----------

  /** A provider error inside a successful response. */
  predicate Fails(e: Event) {
    (e.baseStatus.Some? && e.baseStatus.value != 0) || e.error.Present?
  }

  function TextOf(d: Delta, f: Field): string { if f in d.text then d.text[f] else "" }

  predicate CarriesOutput(c: Choice) {
    || c.finish.Some?
    || (c.delta.Some? && (|c.delta.value.toolCalls| > 0 || TextOf(c.delta.value, Content) != ""
                          || TextOf(c.delta.value, ReasoningContent) != "" || TextOf(c.delta.value, Reasoning) != ""))
  }

  /** The event carries output, after which the response belongs to the client. */
  predicate Commits(e: Event) { exists i | 0 <= i < |e.choices| :: CarriesOutput(e.choices[i]) }

  /** The first nonempty finish reason. */
  function FinishReason(choices: seq<Choice>): Option<string> {
    if choices == [] then None
    else if choices[0].finish.Some? && choices[0].finish.value != "" then choices[0].finish
    else FinishReason(choices[1..])
  }
}
