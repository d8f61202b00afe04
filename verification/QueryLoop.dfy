/** The agent's query loop: one iteration as a decision over arbitrary inputs, and whole runs. */
module QueryLoop {
  import opened Text
  import opened Transcript
  import opened Repair
  import opened Dispatch

  // ---- Parameters and state ----

  datatype Params = Params(
    maxTurns: int,
    maxToolCalls: nat,
    maxOutputTokens: Option<int>,
    maxTotalTokens: Option<int>,
    safe: Safety,
    hasSession: bool,
    texts: Texts)

  /** The fixed texts of the loop. */
  datatype Texts = Texts(truncationHint: string, incompleteHint: string, interrupted: string, notCompleted: string)

  /** Where an entry of the history came from. */
  datatype Origin = Seed | Model | ToolRow | Steer | Hint

  datatype Entry = Entry(msg: Message, origin: Origin)

  /** The state at a loop head. `pushed` records every steer ever accepted, `queue` those not yet delivered. */
  datatype LoopState = LoopState(
    history: seq<Entry>,
    turn: int,
    recovery: nat,
    tokenOverride: Option<int>,
    tokens: int,
    forceSharded: bool,
    queue: seq<string>,
    pushed: seq<string>)

  // ---- What the environment may do in one iteration ----

  datatype Reply = Reply(
    text: string,
    calls: seq<ToolCall>,
    finishLength: bool,       // finish_reason == "length"
    error: bool,              // the stop event carries an error
    errorMaxOutput: bool,     // ... whose text contains "max_output"
    usage: int)

  datatype ModelOutcome = StreamAborted | Raised(contextOverflow: bool) | Replied(reply: Reply)

  datatype Approval = Clear | AutoResolved | SetupFailed | Pause

  /** What length salvage makes of the arguments of the `canvas_publish` calls, if they can be salvaged. */
  datatype Salvage = Salvage(incomplete: bool, arguments: string -> string)

  datatype Inputs = Inputs(
    aborted: bool,
    compactionRaises: bool,
    compacted: seq<Message>,
    model: ModelOutcome,
    salvage: Option<Salvage>,
    rawArguments: string -> bool,   // whether arguments are an unparsed `__raw__` string
    approvals: nat -> Approval,
    outcomes: nat -> Outcome,
    pushedBeforeDrain: seq<string>,
    pushedAfterDrain: seq<string>)

  // ---- What comes out ----

  datatype Terminal =
    | Completed(exhausted: bool)
    | MaxTurns(turns: int)
    | ModelError
    | AbortedStreaming
    | PromptTooLong
    | TokenBudgetExceeded
    | AwaitingUserInput(toolCallId: string)

  datatype Event =
    | ModelCall(transcript: seq<Message>, maxTokens: Option<int>)
    | AssistantMessage(msg: Message)
    | Batch(calls: seq<ToolCall>)
    | ToolResultMessage(msg: Message)
    | SteerMessage(msg: Message)
    | Ended(terminal: Terminal)

  /** A `Crash` is an exception escaping the loop. */
  datatype Step =
    | Continue(next: LoopState, events: seq<Event>)
    | Stop(terminal: Terminal, events: seq<Event>)
    | Crash(events: seq<Event>)

  const CANVAS_PUBLISH := "canvas_publish"
  const MIN_OVERRIDE := 16384
  const MAX_OVERRIDE := 65536

  // ---- Messages ----

  function AssistantOf(text: string, calls: seq<ToolCall>): Message {
    Message(Assistant, text,
            seq(|calls|, i requires 0 <= i < |calls| => Block(Some(calls[i].id), "", calls[i].name, calls[i].arguments)),
            None, "")
  }

  function RowOf(r: ToolResult): Message {
    Message(Tool, r.content, [], Some(r.callId), r.name)
  }

  function UserMessage(text: string): Message {
    Message(User, text, [], None, "")
  }

  function Rows(results: seq<ToolResult>): (rows: seq<Message>)
    ensures |rows| == |results|
    ensures forall i :: 0 <= i < |results| ==> rows[i] == RowOf(results[i])
  {
    seq(|results|, i requires 0 <= i < |results| => RowOf(results[i]))
  }

  function UserMessages(texts: seq<string>): (ms: seq<Message>)
    ensures |ms| == |texts|
    ensures forall i :: 0 <= i < |texts| ==> ms[i] == UserMessage(texts[i])
  {
    seq(|texts|, i requires 0 <= i < |texts| => UserMessage(texts[i]))
  }

  function Entries(ms: seq<Message>, origin: Origin): (es: seq<Entry>)
    ensures |es| == |ms|
    ensures forall i :: 0 <= i < |ms| ==> es[i] == Entry(ms[i], origin)
  {
    seq(|ms|, i requires 0 <= i < |ms| => Entry(ms[i], origin))
  }

  // ---- Pieces of an iteration ----

  function AskCalls(calls: seq<ToolCall>): seq<ToolCall> {
    if calls == [] then []
    else (if calls[0].name == ASK_USER then [calls[0]] else []) + AskCalls(calls[1..])
  }

  /** With an `ask_user` call among them, only the first of those counts. */
  function EffectiveCalls(calls: seq<ToolCall>): seq<ToolCall> {
    if AskCalls(calls) != [] then AskCalls(calls)[..1] else calls
  }

  function TokenOverride(p: Params): int {
    var base := if p.maxOutputTokens.Some? && p.maxOutputTokens.value != 0 then p.maxOutputTokens.value else 4096;
    var raised := if base * 4 < MIN_OVERRIDE then MIN_OVERRIDE else base * 4;
    if raised < MAX_OVERRIDE then raised else MAX_OVERRIDE
  }

  function CallTokens(p: Params, s: LoopState): Option<int> {
    if s.tokenOverride.Some? && s.tokenOverride.value != 0 then s.tokenOverride else p.maxOutputTokens
  }

  predicate BudgetReached(p: Params, tokens: int) {
    p.maxTotalTokens.Some? && p.maxTotalTokens.value > 0 && tokens >= p.maxTotalTokens.value
  }

  predicate LengthTruncated(r: Reply) {
    r.finishLength || (r.error && r.errorMaxOutput)
  }

  function SalvageFor(calls: seq<ToolCall>, found: Option<Salvage>): Option<Salvage> {
    if exists c :: c in calls && c.name == CANVAS_PUBLISH then found else None
  }

  function Salvaged(calls: seq<ToolCall>, salvage: Option<Salvage>): (r: seq<ToolCall>)
    ensures |r| == |calls|
    ensures forall i :: 0 <= i < |calls| ==> r[i].id == calls[i].id && r[i].name == calls[i].name
  {
    if salvage.None? then calls
    else
      seq(|calls|, i requires 0 <= i < |calls| =>
        if calls[i].name == CANVAS_PUBLISH then calls[i].(arguments := salvage.value.arguments(calls[i].arguments)) else calls[i])
  }

  /** The routing hint goes with unparsed arguments and with any `canvas_publish` call. */
  predicate NeedsHint(calls: seq<ToolCall>, raw: string -> bool) {
    exists c :: c in calls && (raw(c.arguments) || c.name == CANVAS_PUBLISH)
  }

  function FirstPause(calls: seq<ToolCall>, approvals: nat -> Approval, from: nat): Option<ToolCall>
    requires from <= |calls|
    decreases |calls| - from
  {
    if from == |calls| then None
    else if approvals(from).Pause? then Some(calls[from])
    else FirstPause(calls, approvals, from + 1)
  }

  function OutcomesFor(calls: seq<ToolCall>, outcomes: nat -> Outcome): seq<Outcome> {
    seq(|calls|, i requires 0 <= i < |calls| => outcomes(i))
  }

  /** What the user sees when length recovery is used up without a tool call. */
  function ExhaustedText(p: Params, text: string): string {
    if Strip(text) != "" then text + "\n\n" + p.texts.interrupted else p.texts.notCompleted
  }

  /** Steers pushed during an iteration that does not drain stay queued. */
  function Queueing(s: LoopState, inp: Inputs): LoopState {
    var more := inp.pushedBeforeDrain + inp.pushedAfterDrain;
    s.(queue := s.queue + more, pushed := s.pushed + more)
  }

  // ---- One iteration ----

  function Recover(p: Params, s: LoopState, inp: Inputs, calls: seq<ToolCall>): LoopState {
    var hint := if NeedsHint(calls, inp.rawArguments) then [Entry(UserMessage(p.texts.truncationHint), Hint)] else [];
    Queueing(s, inp).(
      history := s.history + hint,
      recovery := s.recovery + 1,
      tokenOverride := Some(TokenOverride(p)),
      forceSharded := s.forceSharded || s.recovery + 1 >= 2)
  }

  /** The messages a completed tool batch appends: the assistant, one row per call, the steers, maybe a hint. */
  function TurnEntries(assistant: Message, rows: seq<Message>, steers: seq<Message>, hint: Option<string>): seq<Entry> {
    [Entry(assistant, Model)] + Entries(rows, ToolRow) + Entries(steers, Steer)
      + (if hint.Some? then [Entry(UserMessage(hint.value), Hint)] else [])
  }

  function CappedCalls(p: Params, calls: seq<ToolCall>): seq<ToolCall> {
    if |calls| <= p.maxToolCalls then calls else calls[..p.maxToolCalls]
  }

  function NextTurn(p: Params, s: LoopState, inp: Inputs, text: string, calls: seq<ToolCall>, incomplete: bool): Step {
    var capped := CappedCalls(p, calls);
    var rows := Rows(Dispatched(capped, p.safe, OutcomesFor(capped, inp.outcomes)));
    var waiting := s.queue + inp.pushedBeforeDrain;
    var steers := UserMessages(if p.hasSession then waiting else []);
    var next := Queueing(s, inp).(
      history := s.history + TurnEntries(AssistantOf(text, calls), rows, steers,
                                      if incomplete then Some(p.texts.incompleteHint) else None),
      turn := s.turn + 1,
      recovery := if incomplete then (if s.recovery < 1 then 1 else s.recovery) else 0,
      tokenOverride := if incomplete then Some(TokenOverride(p)) else None,
      queue := (if p.hasSession then [] else waiting) + inp.pushedAfterDrain);
    Continue(next, [Batch(capped)] + ToolEvents(rows) + SteerEvents(steers))
  }

  function ToolEvents(rows: seq<Message>): seq<Event> {
    seq(|rows|, i requires 0 <= i < |rows| => ToolResultMessage(rows[i]))
  }

  function SteerEvents(steers: seq<Message>): seq<Event> {
    seq(|steers|, i requires 0 <= i < |steers| => SteerMessage(steers[i]))
  }

  /** From the assistant message on: `s` already counts the reply's tokens. */
  function AfterReply(p: Params, s: LoopState, inp: Inputs, r: Reply): Step {
    var effective := EffectiveCalls(r.calls);
    if BudgetReached(p, s.tokens) then Stop(TokenBudgetExceeded, [])
    else if r.error && !(LengthTruncated(r) && s.recovery < 2) then Stop(ModelError, [])
    else
      var truncated := LengthTruncated(r) && s.recovery < 2;
      var salvage := if truncated then SalvageFor(effective, inp.salvage) else None;
      if truncated && salvage.None? then Continue(Recover(p, s, inp, r.calls), [])
      else
        var s' := s.(forceSharded := s.forceSharded || s.recovery >= 2);
        var calls := Salvaged(effective, salvage);
        if calls == [] then
          if r.finishLength && s.recovery >= 2
          then Stop(Completed(true), [AssistantMessage(AssistantOf(ExhaustedText(p, r.text), []))])
          else Stop(Completed(false), [])
        else if AskCalls(r.calls) != [] then Stop(AwaitingUserInput(calls[0].id), [])
        else
          var pause := FirstPause(CappedCalls(p, calls), inp.approvals, 0);
          if pause.Some? then Stop(AwaitingUserInput(pause.value.id), [])
          else NextTurn(p, s', inp, r.text, calls, salvage.Some? && salvage.value.incomplete)
  }

  function Prepend(events: seq<Event>, step: Step): Step {
    match step
    case Continue(next, more) => Continue(next, events + more)
    case Stop(terminal, more) => Stop(terminal, events + more)
    case Crash(more) => Crash(events + more)
  }

  function Iterate(p: Params, s: LoopState, inp: Inputs): Step {
    if inp.aborted then Stop(AbortedStreaming, [])
    else if s.turn > p.maxTurns then Stop(MaxTurns(s.turn - 1), [])
    else if inp.compactionRaises then Crash([])
    else
      var call := ModelCall(Repaired(inp.compacted), CallTokens(p, s));
      match inp.model
      case StreamAborted => Stop(AbortedStreaming, [call])
      case Raised(overflow) => Stop(if overflow then PromptTooLong else ModelError, [call])
      case Replied(r) =>
        Prepend([call, AssistantMessage(AssistantOf(r.text, EffectiveCalls(r.calls)))],
                AfterReply(p, s.(tokens := s.tokens + r.usage), inp, r))
  }
}
