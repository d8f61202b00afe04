/** How one iteration of the loop goes, told from its inputs alone. */
module Iteration {
  import opened Sequences
  import opened Text
  import opened Transcript
  import opened Repair
  import opened RepairTheorems
  import opened StubRows
  import opened Dispatch
  import opened QueryLoop

  // ---- How far an iteration gets ----

  predicate Calls(p: Params, s: LoopState, inp: Inputs) {
    !inp.aborted && s.turn <= p.maxTurns && !inp.compactionRaises
  }

  predicate Answered(p: Params, s: LoopState, inp: Inputs) {
    Calls(p, s, inp) && inp.model.Replied?
  }

  /** A positive budget is reached once the reply's usage is counted. */
  predicate Overspent(p: Params, s: LoopState, inp: Inputs)
    requires inp.model.Replied?
  {
    p.maxTotalTokens.Some? && 0 < p.maxTotalTokens.value <= s.tokens + inp.model.reply.usage
  }

  /** The output was cut by its length limit and may still be recovered. */
  predicate Recoverable(s: LoopState, r: Reply) {
    (r.finishLength || (r.error && r.errorMaxOutput)) && s.recovery <= 1
  }

  predicate FirstAsk(calls: seq<ToolCall>, i: nat) {
    i < |calls| && calls[i].name == "ask_user" && forall j :: 0 <= j < i ==> calls[j].name != "ask_user"
  }

  predicate Asking(calls: seq<ToolCall>) {
    exists i :: 0 <= i < |calls| && calls[i].name == "ask_user"
  }

  /** The cut output holds a canvas that can be used as it is. */
  predicate Salvageable(r: Reply, inp: Inputs) {
    inp.salvage.Some? && !Asking(r.calls) && exists i :: 0 <= i < |r.calls| && r.calls[i].name == "canvas_publish"
  }

  /** Neither given up nor retried: the reply is acted on. */
  predicate Accepted(p: Params, s: LoopState, inp: Inputs) {
    && Answered(p, s, inp) && !Overspent(p, s, inp)
    && var r := inp.model.reply;
       if Recoverable(s, r) then Salvageable(r, inp) else !r.error
  }

  predicate Retried(p: Params, s: LoopState, inp: Inputs) {
    && Answered(p, s, inp) && !Overspent(p, s, inp)
    && Recoverable(s, inp.model.reply) && !Salvageable(inp.model.reply, inp)
  }

  /** The first call within the cap for which an approval is pending. */
  predicate FirstGated(p: Params, inp: Inputs, calls: seq<ToolCall>, i: nat) {
    i < |calls| && i < p.maxToolCalls && inp.approvals(i).Pause? && forall j :: 0 <= j < i ==> !inp.approvals(j).Pause?
  }

  predicate SomeGated(p: Params, inp: Inputs, calls: seq<ToolCall>) {
    exists i :: 0 <= i < |calls| && i < p.maxToolCalls && inp.approvals(i).Pause?
  }

  /** The calls are carried out. */
  predicate Dispatches(p: Params, s: LoopState, inp: Inputs) {
    && Accepted(p, s, inp)
    && var calls := inp.model.reply.calls;
       calls != [] && !Asking(calls) && !SomeGated(p, inp, calls)
  }

  // ---- The pieces ----

  lemma AskingNext(calls: seq<ToolCall>, k: nat)
    requires calls != [] && calls[0].name != "ask_user"
    ensures Asking(calls) <==> Asking(calls[1..])
    ensures FirstAsk(calls[1..], k) ==> FirstAsk(calls, k + 1) && calls[k + 1] == calls[1..][k]
  {
    var rest := calls[1..];
    assert forall j :: 0 <= j < |rest| ==> rest[j] == calls[j + 1];
    if j :| 0 <= j < |calls| && calls[j].name == "ask_user" {
      assert rest[j - 1].name == "ask_user";
    }
    if FirstAsk(rest, k) {
      forall j | 0 <= j < k + 1 ensures calls[j].name != "ask_user" {
        if j > 0 { assert rest[j - 1].name != "ask_user"; }
      }
    }
  }

  lemma {:induction false} AskCallsAre(calls: seq<ToolCall>) returns (i: nat)
    ensures AskCalls(calls) == [] <==> !Asking(calls)
    ensures Asking(calls) ==> FirstAsk(calls, i) && AskCalls(calls)[0] == calls[i]
  {
    i := 0;
    if calls != [] && calls[0].name != ASK_USER {
      hide Asking, FirstAsk;
      var k := AskCallsAre(calls[1..]);
      i := k + 1;
      AskingNext(calls, k);
    }
  }

  predicate PausesAt(calls: seq<ToolCall>, approvals: nat -> Approval, from: nat, i: nat) {
    from <= i < |calls| && approvals(i).Pause? && forall j :: from <= j < i ==> !approvals(j).Pause?
  }

  lemma {:induction false} FirstPauseIs(calls: seq<ToolCall>, approvals: nat -> Approval, from: nat) returns (i: nat)
    requires from <= |calls|
    ensures var first := FirstPause(calls, approvals, from);
            if first.None? then forall j :: from <= j < |calls| ==> !approvals(j).Pause?
            else PausesAt(calls, approvals, from, i) && first.value == calls[i]
    decreases |calls| - from
  {
    i := from;
    if from < |calls| && !approvals(from).Pause? {
      i := FirstPauseIs(calls, approvals, from + 1);
    }
  }

  /** A call as it is run: a salvaged canvas gets its arguments from the salvage. */
  function CallRun(c: ToolCall, s: LoopState, r: Reply, inp: Inputs): ToolCall {
    if Recoverable(s, r) && inp.salvage.Some? && c.name == "canvas_publish"
    then ToolCall(c.id, c.name, inp.salvage.value.arguments(c.arguments)) else c
  }

  function CallsRun(s: LoopState, r: Reply, inp: Inputs): (calls: seq<ToolCall>)
    ensures |calls| == |r.calls|
    ensures forall i :: 0 <= i < |calls| ==> calls[i] == CallRun(r.calls[i], s, r, inp)
  {
    seq(|r.calls|, i requires 0 <= i < |r.calls| => CallRun(r.calls[i], s, r, inp))
  }

  lemma EffectiveAre(calls: seq<ToolCall>) returns (i: nat)
    ensures Asking(calls) ==> calls != [] && FirstAsk(calls, i) && EffectiveCalls(calls) == [calls[i]] && AskCalls(calls) != []
    ensures !Asking(calls) ==> EffectiveCalls(calls) == calls && AskCalls(calls) == []
  {
    i := AskCallsAre(calls);
    if Asking(calls) {
      assert AskCalls(calls)[..1] == [calls[i]];
    }
  }

  lemma SalvageIs(s: LoopState, inp: Inputs, r: Reply)
    ensures SalvageFor(EffectiveCalls(r.calls), inp.salvage) == if Salvageable(r, inp) then inp.salvage else None
    ensures Salvageable(r, inp) ==> inp.salvage.Some? && r.calls != [] && !Asking(r.calls)
  {
    var i := EffectiveAre(r.calls);
    var effective := EffectiveCalls(r.calls);
    if !Asking(r.calls) {
      if c :| c in effective && c.name == CANVAS_PUBLISH {
        var k :| 0 <= k < |effective| && effective[k] == c;
      }
      if k :| 0 <= k < |r.calls| && r.calls[k].name == "canvas_publish" {
        assert r.calls[k] in effective;
      }
    }
  }

  lemma RunIs(s: LoopState, inp: Inputs, r: Reply)
    requires !Asking(r.calls) && (Recoverable(s, r) ==> Salvageable(r, inp))
    ensures Salvaged(EffectiveCalls(r.calls), if Recoverable(s, r) then SalvageFor(EffectiveCalls(r.calls), inp.salvage) else None)
         == CallsRun(s, r, inp)
  {
    var i := EffectiveAre(r.calls);
    SalvageIs(s, inp, r);
  }

  lemma GateIs(p: Params, inp: Inputs, calls: seq<ToolCall>, original: seq<ToolCall>) returns (i: nat)
    requires |calls| == |original| && forall k :: 0 <= k < |calls| ==> calls[k].id == original[k].id
    ensures var pause := FirstPause(CappedCalls(p, calls), inp.approvals, 0);
            && (pause.Some? <==> SomeGated(p, inp, original))
            && (pause.Some? ==> FirstGated(p, inp, original, i) && pause.value.id == original[i].id)
  {
    i := FirstPauseIs(CappedCalls(p, calls), inp.approvals, 0);
  }

  // ---- How an iteration ends ----

  predicate StopsWith(step: Step, t: Terminal) {
    step.Stop? && step.terminal == t
  }

  /** The terminal of an iteration that makes no call or gets no reply, exactly. */
  lemma EarlyStops(p: Params, s: LoopState, inp: Inputs)
    ensures var step := Iterate(p, s, inp);
      && (step.Crash? <==> !inp.aborted && s.turn <= p.maxTurns && inp.compactionRaises)
      && (StopsWith(step, AbortedStreaming) <==> inp.aborted || (Calls(p, s, inp) && inp.model.StreamAborted?))
      && (step.Stop? && step.terminal.MaxTurns? <==> !inp.aborted && s.turn > p.maxTurns)
      && (step.Stop? && step.terminal.MaxTurns? ==> step.terminal.turns == s.turn - 1)
      && (StopsWith(step, PromptTooLong) <==> Calls(p, s, inp) && inp.model.Raised? && inp.model.contextOverflow)
      && (Calls(p, s, inp) && inp.model.Raised? && !inp.model.contextOverflow ==> StopsWith(step, ModelError))
      && (step.Continue? ==> Answered(p, s, inp))
  {
    hide EffectiveCalls, Salvaged, SalvageFor, FirstPause, CappedCalls, Recover, Repaired, AskCalls, AssistantOf,
         Dispatched, TurnEntries, ToolEvents, SteerEvents, UserMessages, Rows, OutcomesFor, Queueing,
         TokenOverride;
  }

  /** What becomes of a reply, exactly. */
  lemma ReplyOutcome(p: Params, s: LoopState, inp: Inputs) returns (i: nat)
    requires Answered(p, s, inp)
    ensures var step, r := Iterate(p, s, inp), inp.model.reply;
      && (StopsWith(step, TokenBudgetExceeded) <==> Overspent(p, s, inp))
      && (StopsWith(step, ModelError) <==> !Overspent(p, s, inp) && r.error && !Recoverable(s, r))
      && (step.Stop? && step.terminal.Completed? <==> Accepted(p, s, inp) && r.calls == [])
      && (step.Stop? && step.terminal.Completed? ==> (step.terminal.exhausted <==> r.finishLength && s.recovery >= 2))
      && (step.Stop? && step.terminal.AwaitingUserInput? <==>
            Accepted(p, s, inp) && (Asking(r.calls) || SomeGated(p, inp, r.calls)))
      && (step.Stop? && step.terminal.AwaitingUserInput? ==>
            && (if Asking(r.calls) then FirstAsk(r.calls, i) else FirstGated(p, inp, r.calls, i))
            && step.terminal.toolCallId == r.calls[i].id)
      && (step.Continue? <==> Retried(p, s, inp) || Dispatches(p, s, inp))
  {
    hide EffectiveCalls, Salvaged, SalvageFor, FirstPause, CappedCalls, Recover, Repaired, AskCalls, AssistantOf,
         Asking, Salvageable, SomeGated, FirstAsk, FirstGated, Dispatched, TurnEntries, ToolEvents, SteerEvents,
         UserMessages, Rows, OutcomesFor, Queueing, TokenOverride;
    var r := inp.model.reply;
    var a := EffectiveAre(r.calls);
    SalvageIs(s, inp, r);
    i := a;
    if Accepted(p, s, inp) && !Asking(r.calls) {
      RunIs(s, inp, r);
      i := GateIs(p, inp, CallsRun(s, r, inp), r.calls);
    }
  }

  // ---- What an iteration emits first ----

  predicate IsAssistant(m: Message, text: string, calls: seq<ToolCall>) {
    && m.role.Assistant? && m.content == text && m.toolCallId == None && m.name == ""
    && |m.calls| == |calls|
    && forall i :: 0 <= i < |calls| ==> m.calls[i] == Block(Some(calls[i].id), "", calls[i].name, calls[i].arguments)
  }

  /** The call with the repaired transcript, then the model's message: all its calls, or only the first that asks the user. */
  lemma EmitsFirst(p: Params, s: LoopState, inp: Inputs) returns (i: nat)
    ensures var e := Iterate(p, s, inp).events;
      && (!Calls(p, s, inp) ==> e == [])
      && (Calls(p, s, inp) ==> e != [] && e[0].ModelCall? && e[0].transcript == Repaired(inp.compacted))
      && (Calls(p, s, inp) && !inp.model.Replied? ==> |e| == 1)
      && (Answered(p, s, inp) ==>
            var r := inp.model.reply;
            && |e| >= 2 && e[1].AssistantMessage?
            && (Asking(r.calls) ==> FirstAsk(r.calls, i))
            && IsAssistant(e[1].msg, r.text, if Asking(r.calls) then [r.calls[i]] else r.calls))
  {
    hide EffectiveCalls, AfterReply, Repaired, AskCalls, Asking, FirstAsk, CallTokens;
    i := 0;
    if inp.model.Replied? {
      i := EffectiveAre(inp.model.reply.calls);
    }
  }

  /** A run that is used up tells the user so, after whatever text there was. */
  lemma ExhaustedTells(p: Params, s: LoopState, inp: Inputs)
    requires Accepted(p, s, inp) && inp.model.reply.calls == []
    ensures var e, r := Iterate(p, s, inp).events, inp.model.reply;
      if r.finishLength && s.recovery >= 2 then
        && |e| == 3 && e[2].AssistantMessage?
        && IsAssistant(e[2].msg, if AllSpace(r.text) then p.texts.notCompleted else r.text + "\n\n" + p.texts.interrupted, [])
      else |e| == 2
  {
    hide Repaired, AskCalls, Salvaged, NextTurn, Recover, FirstPause, Strip;
    var r := inp.model.reply;
    var i := EffectiveAre(r.calls);
    SalvageIs(s, inp, r);
    BlankExactly(r.text);
  }

  // ---- Going on ----

  /** The raised limit: four times the configured one, within 16384 and 65536. */
  predicate IsRaisedLimit(p: Params, limit: int) {
    var usual := 4 * (if p.maxOutputTokens.Some? && p.maxOutputTokens.value != 0 then p.maxOutputTokens.value else 4096);
    && (usual <= 16384 ==> limit == 16384)
    && (16384 <= usual <= 65536 ==> limit == usual)
    && (65536 <= usual ==> limit == 65536)
  }

  /** What every iteration that goes on counts. */
  predicate Counted(s: LoopState, inp: Inputs, next: LoopState)
    requires inp.model.Replied?
  {
    && next.tokens == s.tokens + inp.model.reply.usage
    && next.pushed == s.pushed + (inp.pushedBeforeDrain + inp.pushedAfterDrain)
  }

  predicate WantsHint(calls: seq<ToolCall>, inp: Inputs) {
    exists i :: 0 <= i < |calls| && (inp.rawArguments(calls[i].arguments) || calls[i].name == "canvas_publish")
  }

  lemma HintIs(calls: seq<ToolCall>, inp: Inputs)
    ensures NeedsHint(calls, inp.rawArguments) <==> WantsHint(calls, inp)
  {
    if c :| c in calls && (inp.rawArguments(c.arguments) || c.name == CANVAS_PUBLISH) {
      var i :| 0 <= i < |calls| && calls[i] == c;
    }
    if i :| 0 <= i < |calls| && (inp.rawArguments(calls[i].arguments) || calls[i].name == "canvas_publish") {
      assert calls[i] in calls;
    }
  }

  /** A retry: the reply is discarded, a hint may be added, the limit is raised, nothing is drained. */
  lemma RetryExactly(p: Params, s: LoopState, inp: Inputs)
    requires Retried(p, s, inp)
    ensures var step, calls := Iterate(p, s, inp), inp.model.reply.calls;
      && step.Continue? && |step.events| == 2 && Counted(s, inp, step.next)
      && step.next.turn == s.turn && step.next.recovery == s.recovery + 1
      && step.next.history == s.history + (if WantsHint(calls, inp)
           then [Entry(Message(User, p.texts.truncationHint, [], None, ""), Hint)] else [])
      && step.next.tokenOverride.Some? && IsRaisedLimit(p, step.next.tokenOverride.value)
      && step.next.queue == s.queue + (inp.pushedBeforeDrain + inp.pushedAfterDrain)
      && (step.next.forceSharded <==> s.forceSharded || s.recovery >= 1)
  {
    hide EffectiveCalls, Salvaged, SalvageFor, Repaired, AskCalls, AssistantOf, Asking, Salvageable, NextTurn,
         NeedsHint, WantsHint;
    SalvageIs(s, inp, inp.model.reply);
    HintIs(inp.model.reply.calls, inp);
  }

  /** The row a call leaves: its own outcome under its own id. */
  predicate IsRow(row: Message, c: ToolCall, o: Outcome) {
    row == Message(Tool, o.content, [], Some(c.id), c.name)
  }

  predicate IsUser(m: Message, text: string) {
    m == Message(User, text, [], None, "")
  }

  lemma RowsAre(p: Params, calls: seq<ToolCall>, outcomes: nat -> Outcome)
    ensures var capped := CappedCalls(p, calls);
            var rows := Rows(Dispatched(capped, p.safe, OutcomesFor(capped, outcomes)));
            && |capped| == |rows| == (if |calls| <= p.maxToolCalls then |calls| else p.maxToolCalls)
            && capped == calls[..|capped|]
            && (forall k :: 0 <= k < |rows| ==> rows[k].role.Tool? && rows[k].toolCallId == Some(calls[k].id))
            && (forall k, j :: 0 <= k < |rows| && 0 <= j < |rows| && Decides(capped, p.safe, j) && capped[j].id == calls[k].id ==>
                  IsRow(rows[k], calls[j], outcomes(j)))
  {
    hide Dispatched, Decides;
    var capped := CappedCalls(p, calls);
    forall k, j | 0 <= k < |capped| && 0 <= j < |capped| && Decides(capped, p.safe, j) && capped[j].id == calls[k].id
      ensures IsRow(Rows(Dispatched(capped, p.safe, OutcomesFor(capped, outcomes)))[k], calls[j], outcomes(j))
    {
      SharedExactly(capped, p.safe, OutcomesFor(capped, outcomes), k, j);
    }
  }

  // ---- A turn that carries out its calls ----

  /** The four parts of what such a turn appends to the history. */
  datatype Parts = Parts(assistant: Message, rows: seq<Message>, steers: seq<Message>, hint: seq<Message>)

  predicate Origins(es: seq<Entry>, ms: seq<Message>, origin: Origin) {
    |es| == |ms| && forall k :: 0 <= k < |ms| ==> es[k] == Entry(ms[k], origin)
  }

  /** `more` holds the four parts one after the other, each marked with where it comes from. */
  ghost predicate Appended(more: seq<Entry>, t: Parts) {
    exists es, ss, hs ::
      && more == [Entry(t.assistant, Model)] + es + ss + hs
      && Origins(es, t.rows, ToolRow) && Origins(ss, t.steers, Steer) && Origins(hs, t.hint, Hint)
  }

  /** The assistant with its calls as run; one row per call within the cap, in call order, with the outcome of
      the call that decides for its id; the steers that were waiting, if there is a session; a hint after an incomplete salvage. */
  predicate PartsExactly(p: Params, s: LoopState, inp: Inputs, t: Parts)
    requires inp.model.Replied?
  {
    var r := inp.model.reply;
    var calls := CallsRun(s, r, inp);
    var steers := if p.hasSession then s.queue + inp.pushedBeforeDrain else [];
    && IsAssistant(t.assistant, r.text, calls)
    && |t.rows| == (if |calls| <= p.maxToolCalls then |calls| else p.maxToolCalls)
    && (forall k :: 0 <= k < |t.rows| ==> t.rows[k].role.Tool? && t.rows[k].toolCallId == Some(calls[k].id))
    && (forall k, j :: 0 <= k < |t.rows| && 0 <= j < |t.rows| && Decides(calls[..|t.rows|], p.safe, j) && calls[j].id == calls[k].id ==>
          IsRow(t.rows[k], calls[j], inp.outcomes(j)))
    && |t.steers| == |steers| && (forall k :: 0 <= k < |steers| ==> IsUser(t.steers[k], steers[k]))
    && (if Recoverable(s, r) && inp.salvage.Some? && inp.salvage.value.incomplete
        then |t.hint| == 1 && IsUser(t.hint[0], p.texts.incompleteHint) else t.hint == [])
  }

  lemma AppendsParts(assistant: Message, rows: seq<Message>, steers: seq<Message>, hint: Option<string>)
    ensures Appended(TurnEntries(assistant, rows, steers, hint),
                     Parts(assistant, rows, steers, if hint.Some? then [UserMessage(hint.value)] else []))
  {
    var hs := if hint.Some? then [Entry(UserMessage(hint.value), Hint)] else [];
    assert Origins(Entries(rows, ToolRow), rows, ToolRow) && Origins(Entries(steers, Steer), steers, Steer);
    assert Origins(hs, if hint.Some? then [UserMessage(hint.value)] else [], Hint);
  }

  predicate EmittedAs(e: seq<Event>, batch: seq<ToolCall>, t: Parts) {
    && |e| == 3 + |t.rows| + |t.steers|
    && e[2] == Batch(batch)
    && (forall k :: 0 <= k < |t.rows| ==> e[3 + k] == ToolResultMessage(t.rows[k]))
    && (forall k :: 0 <= k < |t.steers| ==> e[3 + |t.rows| + k] == SteerMessage(t.steers[k]))
  }

  lemma PartsAre(p: Params, s: LoopState, inp: Inputs, t: Parts)
    requires inp.model.Replied?
    requires var calls := CallsRun(s, inp.model.reply, inp);
      && t.assistant == AssistantOf(inp.model.reply.text, calls)
      && t.rows == Rows(Dispatched(CappedCalls(p, calls), p.safe, OutcomesFor(CappedCalls(p, calls), inp.outcomes)))
      && t.steers == UserMessages(if p.hasSession then s.queue + inp.pushedBeforeDrain else [])
      && t.hint == if Recoverable(s, inp.model.reply) && inp.salvage.Some? && inp.salvage.value.incomplete
                   then [UserMessage(p.texts.incompleteHint)] else []
    ensures PartsExactly(p, s, inp, t)
  {
    hide Dispatched, CappedCalls, Recoverable, OutcomesFor, Decides, CallRun, Rows;
    RowsAre(p, CallsRun(s, inp.model.reply, inp), inp.outcomes);
  }

  lemma EventsAre(first: seq<Event>, batch: seq<ToolCall>, t: Parts)
    requires |first| == 2
    ensures EmittedAs(first + ([Batch(batch)] + ToolEvents(t.rows) + SteerEvents(t.steers)), batch, t)
  {
  }

  /** The calls within the cap are run as one batch; its rows and the steers are emitted in that order. */
  lemma DispatchExactly(p: Params, s: LoopState, inp: Inputs) returns (t: Parts, more: seq<Entry>)
    requires Dispatches(p, s, inp)
    ensures PartsExactly(p, s, inp, t) && Appended(more, t)
    ensures var step, r := Iterate(p, s, inp), inp.model.reply;
      && step.Continue? && Counted(s, inp, step.next)
      && step.next.history == s.history + more
      && step.next.turn == s.turn + 1
      && EmittedAs(step.events, CallsRun(s, r, inp)[..|t.rows|], t)
      && (t.hint == [] ==> step.next.recovery == 0 && step.next.tokenOverride == None)
      && (t.hint != [] ==>
            && step.next.recovery == (if s.recovery < 1 then 1 else s.recovery)
            && step.next.tokenOverride.Some? && IsRaisedLimit(p, step.next.tokenOverride.value))
      && step.next.queue == (if p.hasSession then [] else s.queue + inp.pushedBeforeDrain) + inp.pushedAfterDrain
      && (step.next.forceSharded <==> s.forceSharded || s.recovery >= 2)
  {
    hide Dispatched, CappedCalls, Decides, CallRun, TurnEntries, Rows, Repaired, EffectiveCalls, AskCalls,
         Asking, SomeGated, Salvaged, SalvageFor, FirstPause, AssistantOf, PartsExactly, Appended, EmittedAs, Salvageable,
         ToolEvents, SteerEvents, UserMessages;
    var r := inp.model.reply;
    var calls := CallsRun(s, r, inp);
    var i := EffectiveAre(r.calls);
    SalvageIs(s, inp, r);
    RunIs(s, inp, r);
    i := GateIs(p, inp, calls, r.calls);
    var rows := Rows(Dispatched(CappedCalls(p, calls), p.safe, OutcomesFor(CappedCalls(p, calls), inp.outcomes)));
    var steers := UserMessages(if p.hasSession then s.queue + inp.pushedBeforeDrain else []);
    var incomplete := Recoverable(s, r) && inp.salvage.Some? && inp.salvage.value.incomplete;
    var hint := if incomplete then Some(p.texts.incompleteHint) else None;
    more := TurnEntries(AssistantOf(r.text, calls), rows, steers, hint);
    t := Parts(AssistantOf(r.text, calls), rows, steers, if hint.Some? then [UserMessage(hint.value)] else []);
    AppendsParts(AssistantOf(r.text, calls), rows, steers, hint);
    RowsAre(p, calls, inp.outcomes);
    PartsAre(p, s, inp, t);
    EventsAre(Iterate(p, s, inp).events[..2], CappedCalls(p, calls), t);
  }

  /** The limit of the next call: the raised one after a retry or an incomplete salvage, else the configured one. */
  lemma NextCallLimit(p: Params, s: LoopState, inp: Inputs, later: Inputs)
    requires Iterate(p, s, inp).Continue?
    requires Calls(p, Iterate(p, s, inp).next, later)
    ensures var next, r := Iterate(p, s, inp).next, inp.model.reply;
            var call := Iterate(p, next, later).events[0];
            && call.ModelCall?
            && if Retried(p, s, inp) || (Recoverable(s, r) && inp.salvage.Some? && inp.salvage.value.incomplete)
               then call.maxTokens.Some? && IsRaisedLimit(p, call.maxTokens.value)
               else call.maxTokens == p.maxOutputTokens
  {
    hide Iterate, Dispatches, Retried, Accepted, Recoverable, PartsExactly, Appended, EmittedAs, Counted, WantsHint;
    EarlyStops(p, s, inp);
    var i := ReplyOutcome(p, s, inp);
    var next := Iterate(p, s, inp).next;
    FirstCall(p, next, later);
    if Retried(p, s, inp) {
      RetryExactly(p, s, inp);
    } else {
      var t, more := DispatchExactly(p, s, inp);
      HintExactly(p, s, inp, t);
    }
  }

  lemma HintExactly(p: Params, s: LoopState, inp: Inputs, t: Parts)
    requires inp.model.Replied? && PartsExactly(p, s, inp, t)
    ensures t.hint != [] <==> Recoverable(s, inp.model.reply) && inp.salvage.Some? && inp.salvage.value.incomplete
  {
  }

  lemma FirstCall(p: Params, s: LoopState, inp: Inputs)
    requires Calls(p, s, inp)
    ensures var e := Iterate(p, s, inp).events;
      && e != [] && e[0].ModelCall?
      && (s.tokenOverride == None ==> e[0].maxTokens == p.maxOutputTokens)
      && (s.tokenOverride.Some? && IsRaisedLimit(p, s.tokenOverride.value) ==> e[0].maxTokens == s.tokenOverride)
  {
    hide EffectiveCalls, AfterReply, Repaired, AskCalls, AssistantOf;
  }

  /** After a pause for the user: if nothing answered the call yet, the transcript of the next call ends with it and
      its pending row. */
  lemma AskedThenPending(p: Params, s: LoopState, inp: Inputs, before: seq<Message>, m: Message, text: string, c: ToolCall)
    requires Calls(p, s, inp) && inp.compacted == before + [m]
    requires IsAssistant(m, text, [c]) && c.name == "ask_user" && !AllSpace(c.id)
    ensures Iterate(p, s, inp).events[0].transcript == Repaired(before) + [m, PendingRow(Strip(c.id))]
  {
    hide Iterate, Repaired, Strip, HasRaw, HasAnswer, Stubs;
    var i := EmitsFirst(p, s, inp);
    BlankExactly(c.id);
    RepairedLast(before, m);
    AddedIsExact(m, []);
    OneAsked(m, AddedStubs(m, []), text, c);
    assert [m] + [PendingRow(Strip(c.id))] == [m, PendingRow(Strip(c.id))];
  }

  lemma OneAsked(m: Message, added: seq<Message>, text: string, c: ToolCall)
    requires IsAssistant(m, text, [c]) && c.name == "ask_user" && Strip(c.id) != ""
    requires AddedExactly(m, [], added)
    ensures added == [PendingRow(Strip(c.id))]
  {
    hide Strip;
    var pending, interrupted :|
      added == pending + interrupted && PendingFrom(m.calls, [], 0, pending) && InterruptedFrom(m, [], 0, interrupted);
    var b := m.calls[0];
    assert AwaitsUser(b, []) && PendingFrom(m.calls, [], 1, pending[1..]);
    assert pending == [PendingRow(Strip(c.id))] + pending[1..];
    assert AsksUser(m, Strip(c.id)) && Settled(m, [], Strip(c.id));
    assert InterruptedFrom(m, [], 1, interrupted);
  }
}
