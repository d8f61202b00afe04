/** The conversation as the provider sees it, and its pairing rule for tool calls. */
module Transcript {
  import opened Text

  datatype Role = System | User | Assistant | Tool | OtherRole

  /** One entry of an assistant's `tool_calls`; an absent or falsy string is "". */
  datatype Block =
    | Block(id: Option<string>, name: string, functionName: string, arguments: string)
    | NotADict

  /** `calls == []` stands for a missing, non-list or empty `tool_calls`. */
  datatype Message = Message(
    role: Role,
    content: string,
    calls: seq<Block>,
    toolCallId: Option<string>,
    name: string)

  const ASK_USER := "ask_user"
  const PENDING := "{\"_wa_pending\": true}"
  const INTERRUPTED :=
    "{\"_interrupted\": true, \"detail\": \"No tool result was stored (the run was cancelled or disconnected before this tool finished).\"}"

  /** The `(id, name)` pairs of the usable blocks, in order, ids stripped. */
  function IdNamePairs(calls: seq<Block>): (r: seq<(string, string)>)
    ensures forall p :: p in r ==> p.0 != "" && Trimmed(p.0)
  {
    if calls == [] then []
    else
      var b := calls[0];
      if b.NotADict? || b.id.None? || Strip(b.id.value) == "" then IdNamePairs(calls[1..])
      else [(Strip(b.id.value), if b.name != "" then b.name else b.functionName)] + IdNamePairs(calls[1..])
  }

  /** What `m` declares: only an assistant can declare tool calls. */
  function Pairs(m: Message): seq<(string, string)> {
    if m.role.Assistant? then IdNamePairs(m.calls) else []
  }

  predicate Declares(m: Message, id: string) {
    exists i :: 0 <= i < |Pairs(m)| && Pairs(m)[i].0 == id
  }

  /** What `m` declares to a reader that takes ids as they are. */
  predicate Sends(m: Message, id: string) {
    m.role.Assistant? && exists b :: b in m.calls && b.Block? && b.id == Some(id)
  }

  predicate Asks(m: Message, id: string) {
    (id, ASK_USER) in Pairs(m)
  }

  predicate Answers(row: Message, id: string) {
    row.role.Tool? && row.toolCallId.Some? && Strip(row.toolCallId.value) == id
  }

  /** Row `k` lies in the run of tool rows directly after the assistant at `h`. */
  predicate InRunOf(ms: seq<Message>, h: int, k: int) {
    && 0 <= h < k < |ms|
    && ms[h].role.Assistant?
    && forall j :: h < j <= k ==> ms[j].role.Tool?
  }

  /** How ids are compared: without outer white space, as the passes do, or as they are sent. */
  datatype Comparison = Stripped | AsSent

  predicate DeclaresBy(c: Comparison, m: Message, id: string) {
    if c.Stripped? then Declares(m, id) else Sends(m, id)
  }

  predicate AnswersBy(c: Comparison, row: Message, id: string) {
    if c.Stripped? then Answers(row, id) else row.role.Tool? && row.toolCallId == Some(id)
  }

  predicate DeclaredRow(c: Comparison, head: Message, row: Message) {
    row.toolCallId.Some? &&
    if c.Stripped? then Declares(head, Strip(row.toolCallId.value)) else Sends(head, row.toolCallId.value)
  }

  ghost predicate RowOwned(c: Comparison, ms: seq<Message>, k: int)
    requires 0 <= k < |ms|
  {
    exists h :: InRunOf(ms, h, k) && DeclaredRow(c, ms[h], ms[k])
  }

  ghost predicate CallAnswered(c: Comparison, ms: seq<Message>, h: int, id: string) {
    exists k :: InRunOf(ms, h, k) && AnswersBy(c, ms[k], id)
  }

  /** Every tool row answers a call declared just before its run, and every declared call is answered there. */
  ghost predicate ProviderValid(c: Comparison, ms: seq<Message>) {
    && (forall k :: 0 <= k < |ms| && ms[k].role.Tool? ==> RowOwned(c, ms, k))
    && (forall h, id :: 0 <= h < |ms| && DeclaresBy(c, ms[h], id) ==> CallAnswered(c, ms, h, id))
  }
}
