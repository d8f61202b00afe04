/** Whole runs of the query loop, and the engine's copy of the conversation beside them. */
module QueryRuns {
  import opened Sequences
  import opened Text
  import opened Transcript
  import opened Repair
  import opened RepairTheorems
  import opened Dispatch
  import opened QueryLoop

  /** An environment supplies the inputs of every iteration; it may be any function at all. */
  type Environment = nat -> Inputs

  function Start(seed: seq<Message>, queue: seq<string>): LoopState {
    LoopState(Entries(seed, Seed), 1, 0, None, 0, false, queue, queue)
  }

  /** The state at the k-th loop head, if the run gets that far. */
  function Head(p: Params, s0: LoopState, env: Environment, k: nat): Option<LoopState> {
    if k == 0 then Some(s0)
    else
      var before := Head(p, s0, env, k - 1);
      if before.None? then None
      else
        var step := Iterate(p, before.value, env(k - 1));
        if step.Continue? then Some(step.next) else None
  }

  /** What was emitted before the k-th loop head. */
  function EventsBefore(p: Params, s0: LoopState, env: Environment, k: nat): seq<Event> {
    if k == 0 then []
    else
      var before := Head(p, s0, env, k - 1);
      EventsBefore(p, s0, env, k - 1) + (if before.None? then [] else Iterate(p, before.value, env(k - 1)).events)
  }

  // ---- Counting events ----

  lemma CountOne(e: Event, kind: Kind)
    ensures Count([e], kind) == if IsKind(e, kind) then 1 else 0
  {
    assert [e][1..] == [];
  }

  datatype Kind = Calls | Batches | Ends

  predicate IsKind(e: Event, kind: Kind) {
    match kind
    case Calls => e.ModelCall?
    case Batches => e.Batch?
    case Ends => e.Ended?
  }

  function Count(events: seq<Event>, kind: Kind): nat {
    if events == [] then 0 else (if IsKind(events[0], kind) then 1 else 0) + Count(events[1..], kind)
  }

  lemma {:induction false} CountAppend(a: seq<Event>, b: seq<Event>, kind: Kind)
    ensures Count(a + b, kind) == Count(a, kind) + Count(b, kind)
  {
    if a == [] {
      assert a + b == b;
    } else {
      assert (a + b)[1..] == a[1..] + b;
      CountAppend(a[1..], b, kind);
    }
  }

  // ---- What one iteration does ----

  predicate SameButArguments(a: seq<ToolCall>, b: seq<ToolCall>) {
    |a| == |b| && forall i :: 0 <= i < |a| ==> a[i].id == b[i].id && a[i].name == b[i].name
  }

  /** The turn is retried: only a hint may be added, and one of at most two retries is used up. */
  ghost predicate Retries(p: Params, s: LoopState, inp: Inputs, next: LoopState) {
    && next.turn == s.turn && next.recovery == s.recovery + 1 <= 2
    && (next.history == s.history || next.history == s.history + [Entry(UserMessage(p.texts.truncationHint), Hint)])
    && next.queue == s.queue + inp.pushedBeforeDrain + inp.pushedAfterDrain
  }

  /** What a completed turn added: the model's calls up to salvaged arguments, one row for each dispatched
      call in call order, then the steers waiting at that moment, then possibly a hint. */
  datatype Turn = Turn(text: string, calls: seq<ToolCall>, rows: seq<Message>, steers: seq<string>, hint: Option<string>)

  ghost predicate Completes(p: Params, s: LoopState, inp: Inputs, next: LoopState, t: Turn) {
    && next.turn == s.turn + 1
    && next.history == s.history + TurnEntries(AssistantOf(t.text, t.calls), t.rows, UserMessages(t.steers), t.hint)
    && inp.model.Replied? && t.text == inp.model.reply.text && SameButArguments(t.calls, inp.model.reply.calls)
    && t.calls != [] && (forall c :: c in t.calls ==> c.name != ASK_USER)
    && |t.rows| == |CappedCalls(p, t.calls)|
    && (forall i :: 0 <= i < |t.rows| ==> t.rows[i].role.Tool? && t.rows[i].toolCallId == Some(t.calls[i].id))
    && t.steers + next.queue == s.queue + inp.pushedBeforeDrain + inp.pushedAfterDrain
    && (p.hasSession ==> next.queue == inp.pushedAfterDrain)
    && next.recovery == (if t.hint.None? then 0 else if s.recovery < 1 then 1 else s.recovery)
  }

  lemma {:induction false} NoAskCalls(calls: seq<ToolCall>)
    ensures AskCalls(calls) == [] <==> forall c :: c in calls ==> c.name != ASK_USER
  {
    if calls != [] {
      NoAskCalls(calls[1..]);
      assert forall c :: c in calls <==> c == calls[0] || c in calls[1..];
    }
  }

  lemma ContinueNeedsReply(p: Params, s: LoopState, inp: Inputs)
    requires Iterate(p, s, inp).Continue?
    ensures var next := Iterate(p, s, inp).next;
        && inp.model.Replied? && s.turn <= p.maxTurns
        && next.pushed == s.pushed + inp.pushedBeforeDrain + inp.pushedAfterDrain
        && next.tokens == s.tokens + inp.model.reply.usage
        && !BudgetReached(p, next.tokens)
  {
    hide Dispatched, Repaired, UserMessages, Rows, Entries, TokenOverride;
    assert s.pushed + (inp.pushedBeforeDrain + inp.pushedAfterDrain)
        == s.pushed + inp.pushedBeforeDrain + inp.pushedAfterDrain;
  }

  lemma BatchRows(p: Params, calls: seq<ToolCall>, outcomes: nat -> Outcome)
    ensures var capped := CappedCalls(p, calls);
            var rows := Rows(Dispatched(capped, p.safe, OutcomesFor(capped, outcomes)));
            |rows| == |capped| &&
            forall i :: 0 <= i < |rows| ==> rows[i].role.Tool? && rows[i].toolCallId == Some(calls[i].id)
  {
  }

  lemma SteerSplit(p: Params, s: LoopState, inp: Inputs)
    ensures var waiting := s.queue + inp.pushedBeforeDrain;
            && (if p.hasSession then waiting else []) + ((if p.hasSession then [] else waiting) + inp.pushedAfterDrain)
            == waiting + inp.pushedAfterDrain
  {
  }

  lemma NextTurnShape(p: Params, s: LoopState, inp: Inputs, r: Reply, calls: seq<ToolCall>, incomplete: bool) returns (t: Turn)
    requires inp.model == Replied(r) && SameButArguments(calls, r.calls) && AskCalls(r.calls) == [] && calls != []
    ensures Completes(p, s, inp, NextTurn(p, s, inp, r.text, calls, incomplete).next, t)
    ensures NextTurn(p, s, inp, r.text, calls, incomplete).events == TurnEvents(p, t)
  {
    hide AskCalls, TokenOverride, Rows, Dispatched, TurnEntries, UserMessages, ToolEvents, SteerEvents, CappedCalls;
    BatchRows(p, calls, inp.outcomes);
    SteerSplit(p, s, inp);
    var capped := CappedCalls(p, calls);
    var rows := Rows(Dispatched(capped, p.safe, OutcomesFor(capped, inp.outcomes)));
    t := Turn(r.text, calls, rows, if p.hasSession then s.queue + inp.pushedBeforeDrain else [],
              if incomplete then Some(p.texts.incompleteHint) else None);
    NoAskCalls(r.calls);
    forall c | c in calls ensures c.name != ASK_USER {
      var i :| 0 <= i < |calls| && calls[i] == c;
      assert r.calls[i] in r.calls;
    }
  }

  lemma RetryShape(p: Params, s: LoopState, inp: Inputs, calls: seq<ToolCall>)
    requires s.recovery < 2
    ensures Retries(p, s, inp, Recover(p, s, inp, calls))
  {
  }

  /** What a model call emits first: the call, with a repaired transcript, and the model's message. */
  function CallEvents(p: Params, s: LoopState, inp: Inputs): seq<Event>
    requires inp.model.Replied?
  {
    var r := inp.model.reply;
    [ModelCall(Repaired(inp.compacted), CallTokens(p, s)),
     AssistantMessage(AssistantOf(r.text, EffectiveCalls(r.calls)))]
  }

  function TurnEvents(p: Params, t: Turn): seq<Event> {
    [Batch(CappedCalls(p, t.calls))] + ToolEvents(t.rows) + SteerEvents(UserMessages(t.steers))
  }

  /** An iteration that continues either retries the turn or completes it. */
  lemma ContinueShape(p: Params, s: LoopState, inp: Inputs) returns (t: Turn)
    requires Iterate(p, s, inp).Continue?
    ensures inp.model.Replied?
    ensures var step := Iterate(p, s, inp);
            || (Retries(p, s, inp, step.next) && step.events == CallEvents(p, s, inp))
            || (Completes(p, s, inp, step.next, t) && step.events == CallEvents(p, s, inp) + TurnEvents(p, t))
  {
    hide NextTurn, Recover, Retries, Completes, AskCalls, Repaired, TokenOverride, FirstPause, TurnEvents;
    var r := inp.model.reply;
    var s' := s.(tokens := s.tokens + r.usage);
    var truncated := LengthTruncated(r) && s.recovery < 2;
    var salvage := if truncated then SalvageFor(EffectiveCalls(r.calls), inp.salvage) else None;
    if truncated && salvage.None? {
      RetryShape(p, s', inp, r.calls);
      RetriesIgnoresTokens(p, s, inp, s', Iterate(p, s, inp).next);
      t := Turn("", [], [], [], None);
    } else {
      var s'' := s'.(forceSharded := s'.forceSharded || s.recovery >= 2);
      t := NextTurnShape(p, s'', inp, r, Salvaged(EffectiveCalls(r.calls), salvage), salvage.Some? && salvage.value.incomplete);
      CompletesIgnoresTokens(p, s, inp, s'', Iterate(p, s, inp).next, t);
    }
  }

  lemma RetriesIgnoresTokens(p: Params, s: LoopState, inp: Inputs, s': LoopState, next: LoopState)
    requires s' == s.(tokens := s'.tokens) && Retries(p, s', inp, next)
    ensures Retries(p, s, inp, next)
  {
  }

  lemma CompletesIgnoresTokens(p: Params, s: LoopState, inp: Inputs, s': LoopState, next: LoopState, t: Turn)
    requires s' == s.(tokens := s'.tokens, forceSharded := s'.forceSharded) && Completes(p, s', inp, next, t)
    ensures Completes(p, s, inp, next, t)
  {
  }

  lemma OverrideInRange(p: Params)
    ensures MIN_OVERRIDE <= TokenOverride(p) <= MAX_OVERRIDE
  {
  }

  // ---- What every loop head satisfies ----

  /** `at most two retries`, the raised token limit within its bounds, and a positive budget not used up. */
  ghost predicate GoodState(p: Params, s: LoopState) {
    && s.recovery <= 2
    && (s.tokenOverride.Some? ==> MIN_OVERRIDE <= s.tokenOverride.value <= MAX_OVERRIDE)
    && !BudgetReached(p, s.tokens)
  }

  lemma OverrideSetTo(p: Params, s: LoopState, inp: Inputs)
    requires Iterate(p, s, inp).Continue?
    ensures Iterate(p, s, inp).next.tokenOverride in {None, Some(TokenOverride(p))}
  {
    hide Dispatched, Repaired, UserMessages, Rows, Entries, TokenOverride, AskCalls, FirstPause;
  }

  lemma IterationKeepsGoodState(p: Params, s: LoopState, inp: Inputs)
    requires GoodState(p, s) && Iterate(p, s, inp).Continue?
    ensures GoodState(p, Iterate(p, s, inp).next)
    ensures s.history <= Iterate(p, s, inp).next.history
  {
    hide Iterate, TokenOverride, UserMessages, TurnEntries;
    OverrideInRange(p);
    OverrideSetTo(p, s, inp);
    ContinueNeedsReply(p, s, inp);
    var t := ContinueShape(p, s, inp);
  }

  /** Every loop head is good, and the history has only grown since any earlier one. */
  lemma {:induction false} HeadsAreGood(p: Params, s0: LoopState, env: Environment, k: nat)
    requires GoodState(p, s0)
    ensures var h := Head(p, s0, env, k);
            h.Some? ==> GoodState(p, h.value) && s0.history <= h.value.history
  {
    hide Iterate, GoodState;
    if k > 0 && Head(p, s0, env, k).Some? {
      HeadsAreGood(p, s0, env, k - 1);
      IterationKeepsGoodState(p, Head(p, s0, env, k - 1).value, env(k - 1));
    }
  }

  lemma StartIsGood(p: Params, seed: seq<Message>, queue: seq<string>)
    ensures GoodState(p, Start(seed, queue))
  {
  }

  // ---- How long a run can be ----

  /** Model calls the loop can still make. */
  function CallsLeft(p: Params, s: LoopState): int {
    if s.turn > p.maxTurns then 0 else 3 * (p.maxTurns - s.turn) + 3 - s.recovery
  }

  lemma IterationUsesACall(p: Params, s: LoopState, inp: Inputs)
    requires s.recovery <= 2 && Iterate(p, s, inp).Continue?
    ensures CallsLeft(p, Iterate(p, s, inp).next) < CallsLeft(p, s)
    ensures var next := Iterate(p, s, inp).next;
            next.turn > s.turn || (next.turn == s.turn && next.recovery > s.recovery)
  {
    hide Iterate, TurnEntries;
    ContinueNeedsReply(p, s, inp);
    var t := ContinueShape(p, s, inp);
  }

  /** The k-th loop head is reached only after k model calls, and only `3 * maxTurns` can be made. */
  lemma {:induction false} RunsAreBounded(p: Params, s0: LoopState, env: Environment, k: nat)
    requires GoodState(p, s0)
    ensures var h := Head(p, s0, env, k);
            h.Some? ==> k + CallsLeft(p, h.value) <= CallsLeft(p, s0) && 0 <= CallsLeft(p, h.value)
  {
    hide Iterate;
    if Head(p, s0, env, k).Some? {
      HeadsAreGood(p, s0, env, k);
      if k > 0 {
        RunsAreBounded(p, s0, env, k - 1);
        HeadsAreGood(p, s0, env, k - 1);
        IterationUsesACall(p, Head(p, s0, env, k - 1).value, env(k - 1));
      }
    }
  }

  // ---- Counting calls, batches and ends ----

  lemma {:induction false} NoneIn(events: seq<Event>, kind: Kind)
    requires forall i :: 0 <= i < |events| ==> !IsKind(events[i], kind)
    ensures Count(events, kind) == 0
  {
    if events != [] {
      NoneIn(events[1..], kind);
    }
  }

  lemma TurnEventCounts(p: Params, t: Turn)
    ensures Count(TurnEvents(p, t), Calls) == 0
    ensures Count(TurnEvents(p, t), Batches) == 1
    ensures Count(TurnEvents(p, t), Ends) == 0
  {
    var batch, tools, steers := [Batch(CappedCalls(p, t.calls))], ToolEvents(t.rows), SteerEvents(UserMessages(t.steers));
    forall kind: Kind ensures Count(TurnEvents(p, t), kind) == if kind.Batches? then 1 else 0 {
      CountAppend(batch + tools, steers, kind);
      CountAppend(batch, tools, kind);
      NoneIn(tools, kind);
      NoneIn(steers, kind);
      assert batch[1..] == [];
    }
  }

  lemma CallEventCounts(p: Params, s: LoopState, inp: Inputs)
    requires inp.model.Replied?
    ensures Count(CallEvents(p, s, inp), Calls) == 1
    ensures Count(CallEvents(p, s, inp), Batches) == 0
    ensures Count(CallEvents(p, s, inp), Ends) == 0
  {
    var e := CallEvents(p, s, inp);
    assert e == [e[0]] + [e[1]];
    forall kind: Kind ensures Count(e, kind) == if kind.Calls? then 1 else 0 {
      CountAppend([e[0]], [e[1]], kind);
      CountOne(e[0], kind);
      CountOne(e[1], kind);
    }
  }

  lemma IterationCounts(p: Params, s: LoopState, inp: Inputs)
    requires Iterate(p, s, inp).Continue?
    ensures var step := Iterate(p, s, inp);
            && Count(step.events, Calls) == 1
            && Count(step.events, Batches) == step.next.turn - s.turn
            && Count(step.events, Ends) == 0
  {
    hide Iterate, CallEvents, TurnEvents, Count, TurnEntries;
    var t := ContinueShape(p, s, inp);
    CallEventCounts(p, s, inp);
    TurnEventCounts(p, t);
    CountAppend(CallEvents(p, s, inp), TurnEvents(p, t), Calls);
    CountAppend(CallEvents(p, s, inp), TurnEvents(p, t), Batches);
    CountAppend(CallEvents(p, s, inp), TurnEvents(p, t), Ends);
  }

  /** At the k-th head there have been k calls and one batch per finished turn, and nothing has ended. */
  lemma {:induction false} EventCounts(p: Params, s0: LoopState, env: Environment, k: nat)
    ensures var h, e := Head(p, s0, env, k), EventsBefore(p, s0, env, k);
            h.Some? ==> Count(e, Calls) == k && Count(e, Batches) == h.value.turn - s0.turn && Count(e, Ends) == 0
  {
    hide Iterate, Count;
    if k == 0 {
      NoneIn([], Calls);
      NoneIn([], Batches);
      NoneIn([], Ends);
    } else if Head(p, s0, env, k).Some? {
      var s := Head(p, s0, env, k - 1).value;
      EventCounts(p, s0, env, k - 1);
      IterationCounts(p, s, env(k - 1));
      var before, more := EventsBefore(p, s0, env, k - 1), Iterate(p, s, env(k - 1)).events;
      CountAppend(before, more, Calls);
      CountAppend(before, more, Batches);
      CountAppend(before, more, Ends);
    }
  }

  // ---- The engine's copy ----

  /** What the engine appends to its messages for an event of the loop. */
  function Mapped(e: Event): seq<Message> {
    match e
    case AssistantMessage(m) => [m]
    case ToolResultMessage(m) => [m]
    case SteerMessage(m) => [m]
    case Ended(AwaitingUserInput(id)) =>
      if Strip(id) != "" then [Message(Tool, PENDING, [], Some(Strip(id)), "")] else []
    case _ => []
  }

  function MappedAll(events: seq<Event>): seq<Message> {
    if events == [] then [] else Mapped(events[0]) + MappedAll(events[1..])
  }

  class QueryEngine {
    var mutableMessages: seq<Message>

    method MapItem(item: Event)
      modifies this
      ensures mutableMessages == old(mutableMessages) + Mapped(item)
    {
      match item
      case AssistantMessage(m) =>
        mutableMessages := mutableMessages + [m];
      case ToolResultMessage(m) =>
        mutableMessages := mutableMessages + [m];
      case SteerMessage(m) =>
        mutableMessages := mutableMessages + [m];
      case Ended(terminal) =>
        if terminal.AwaitingUserInput? {
          var id := Strip(terminal.toolCallId);
          if id != "" {
            mutableMessages := mutableMessages + [Message(Tool, PENDING, [], Some(id), "")];
          }
        }
      case _ =>
    }

    /** Consumes the events of a whole turn. */
    method MapAll(items: seq<Event>)
      modifies this
      ensures mutableMessages == old(mutableMessages) + MappedAll(items)
    {
      for i := 0 to |items|
        invariant mutableMessages + MappedAll(items[i..]) == old(mutableMessages) + MappedAll(items)
      {
        assert items[i..][0] == items[i] && items[i..][1..] == items[i + 1..];
        ghost var before := mutableMessages;
        MapItem(items[i]);
        assert mutableMessages + MappedAll(items[i + 1..]) == before + (Mapped(items[i]) + MappedAll(items[i + 1..]));
      }
    }
  }

  lemma {:induction false} MappedAppend(a: seq<Event>, b: seq<Event>)
    ensures MappedAll(a + b) == MappedAll(a) + MappedAll(b)
  {
    if a == [] {
      assert a + b == b;
    } else {
      assert (a + b)[1..] == a[1..] + b;
      MappedAppend(a[1..], b);
    }
  }

  lemma {:induction false} MappedTools(rows: seq<Message>)
    ensures MappedAll(ToolEvents(rows)) == rows
  {
    if rows != [] {
      assert ToolEvents(rows)[1..] == ToolEvents(rows[1..]);
      MappedTools(rows[1..]);
    }
  }

  lemma {:induction false} MappedSteers(steers: seq<Message>)
    ensures MappedAll(SteerEvents(steers)) == steers
  {
    if steers != [] {
      assert SteerEvents(steers)[1..] == SteerEvents(steers[1..]);
      MappedSteers(steers[1..]);
    }
  }

  lemma MappedOne(e: Event)
    ensures MappedAll([e]) == Mapped(e)
  {
    assert [e][1..] == [];
    assert MappedAll([e]) == Mapped(e) + MappedAll([]);
  }

  lemma MappedTurn(p: Params, t: Turn)
    ensures MappedAll(TurnEvents(p, t)) == t.rows + UserMessages(t.steers)
  {
    hide ToolEvents, SteerEvents, UserMessages, MappedAll, CappedCalls;
    var batch, tools, steers := Batch(CappedCalls(p, t.calls)), ToolEvents(t.rows), SteerEvents(UserMessages(t.steers));
    MappedAppend([batch] + tools, steers);
    MappedAppend([batch], tools);
    MappedTools(t.rows);
    MappedSteers(UserMessages(t.steers));
    MappedOne(batch);
    assert [] + t.rows == t.rows;
  }

  lemma MappedCall(p: Params, s: LoopState, inp: Inputs)
    requires inp.model.Replied?
    ensures MappedAll(CallEvents(p, s, inp)) == [AssistantOf(inp.model.reply.text, EffectiveCalls(inp.model.reply.calls))]
  {
    var e := CallEvents(p, s, inp);
    assert e[1..] == [e[1]] && e[1..][1..] == [];
    assert MappedAll(e[1..]) == Mapped(e[1]) + MappedAll([]);
    assert MappedAll(e) == Mapped(e[0]) + MappedAll(e[1..]);
  }

  // ---- The loop's history against the engine's messages ----

  /** The messages that are not injected hints. */
  function NotHints(es: seq<Entry>): seq<Message> {
    if es == [] then [] else (if es[0].origin.Hint? then [] else [es[0].msg]) + NotHints(es[1..])
  }

  /** The messages that were steered in. */
  function Steers(es: seq<Entry>): seq<Message> {
    if es == [] then [] else (if es[0].origin.Steer? then [es[0].msg] else []) + Steers(es[1..])
  }

  lemma {:induction false} NotHintsAppend(a: seq<Entry>, b: seq<Entry>)
    ensures NotHints(a + b) == NotHints(a) + NotHints(b)
  {
    if a == [] {
      assert a + b == b;
    } else {
      NotHintsAppend(a[1..], b);
      TailOfSum(a, b);
      Regroup(if a[0].origin.Hint? then [] else [a[0].msg], NotHints(a[1..]), NotHints(b));
    }
  }

  lemma {:induction false} SteersAppend(a: seq<Entry>, b: seq<Entry>)
    ensures Steers(a + b) == Steers(a) + Steers(b)
  {
    if a == [] {
      assert a + b == b;
    } else {
      SteersAppend(a[1..], b);
      TailOfSum(a, b);
      Regroup(if a[0].origin.Steer? then [a[0].msg] else [], Steers(a[1..]), Steers(b));
    }
  }

  lemma HistoryAppend(a: seq<Entry>, b: seq<Entry>)
    ensures NotHints(a + b) == NotHints(a) + NotHints(b)
    ensures Steers(a + b) == Steers(a) + Steers(b)
  {
    NotHintsAppend(a, b);
    SteersAppend(a, b);
  }

  lemma {:induction false} HistoryOf(ms: seq<Message>, origin: Origin)
    ensures NotHints(Entries(ms, origin)) == if origin.Hint? then [] else ms
    ensures Steers(Entries(ms, origin)) == if origin.Steer? then ms else []
  {
    if ms != [] {
      assert Entries(ms, origin)[1..] == Entries(ms[1..], origin);
      HistoryOf(ms[1..], origin);
    }
  }

  lemma HistoryOfOne(e: Entry)
    ensures NotHints([e]) == if e.origin.Hint? then [] else [e.msg]
    ensures Steers([e]) == if e.origin.Steer? then [e.msg] else []
  {
    assert [e][1..] == [];
  }

  lemma TurnHistory(assistant: Message, rows: seq<Message>, steers: seq<Message>, hint: Option<string>)
    ensures NotHints(TurnEntries(assistant, rows, steers, hint)) == [assistant] + rows + steers
    ensures Steers(TurnEntries(assistant, rows, steers, hint)) == steers
  {
    hide NotHints, Steers, Entries;
    var a, b, c := [Entry(assistant, Model)], Entries(rows, ToolRow), Entries(steers, Steer);
    var d := if hint.Some? then [Entry(UserMessage(hint.value), Hint)] else [];
    HistoryAppend(a + b + c, d);
    HistoryAppend(a + b, c);
    HistoryAppend(a, b);
    HistoryOfOne(a[0]);
    HistoryOf(rows, ToolRow);
    HistoryOf(steers, Steer);
    if hint.Some? {
      HistoryOfOne(d[0]);
    } else {
      HistoryOf([], Hint);
      assert Entries([], Hint) == [];
    }
  }

  function EraseArguments(m: Message): Message {
    m.(calls := seq(|m.calls|, i requires 0 <= i < |m.calls| =>
                  if m.calls[i].Block? then m.calls[i].(arguments := "") else m.calls[i]))
  }

  function Erased(ms: seq<Message>): (r: seq<Message>)
    ensures |r| == |ms|
  {
    seq(|ms|, i requires 0 <= i < |ms| => EraseArguments(ms[i]))
  }

  lemma ErasedAppend(a: seq<Message>, b: seq<Message>)
    ensures Erased(a + b) == Erased(a) + Erased(b)
  {
  }

  lemma SalvageOnlyChangesArguments(text: string, a: seq<ToolCall>, b: seq<ToolCall>)
    requires SameButArguments(a, b)
    ensures EraseArguments(AssistantOf(text, a)) == EraseArguments(AssistantOf(text, b))
  {
  }

  ghost predicate Subsequence<T(!new)>(a: seq<T>, b: seq<T>) {
    a == [] || (b != [] && ((a[0] == b[0] && Subsequence(a[1..], b[1..])) || Subsequence(a, b[1..])))
  }

  lemma {:induction false} SubsequenceExtends<T(!new)>(a: seq<T>, b: seq<T>, more: seq<T>)
    requires Subsequence(a, b)
    ensures Subsequence(a + more, b + more)
    ensures Subsequence(a, b + more)
  {
    if a == [] {
      assert a + more == more;
      SubsequenceOfSuffix(b, more);
    } else {
      assert (a + more)[1..] == a[1..] + more && (b + more)[1..] == b[1..] + more;
      if a[0] == b[0] && Subsequence(a[1..], b[1..]) {
        SubsequenceExtends(a[1..], b[1..], more);
      } else {
        SubsequenceExtends(a, b[1..], more);
      }
    }
  }

  lemma {:induction false} SubsequenceOfSuffix<T(!new)>(b: seq<T>, more: seq<T>)
    ensures Subsequence(more, b + more)
  {
    if b == [] {
      assert b + more == more;
      SubsequenceOfItself(more);
    } else {
      assert (b + more)[1..] == b[1..] + more;
      SubsequenceOfSuffix(b[1..], more);
    }
  }

  lemma {:induction false} SubsequenceOfItself<T(!new)>(a: seq<T>)
    ensures Subsequence(a, a)
  {
    if a != [] {
      SubsequenceOfItself(a[1..]);
    }
  }

  /** How often the turn was retried before the k-th head. */
  function Retried(p: Params, s0: LoopState, env: Environment, k: nat): nat {
    if k == 0 then 0
    else
      var a, b := Head(p, s0, env, k - 1), Head(p, s0, env, k);
      Retried(p, s0, env, k - 1) + (if a.Some? && b.Some? && a.value.turn == b.value.turn then 1 else 0)
  }

  /** The loop's transcript without hints and the engine's copy of it, both without tool arguments. */
  ghost predicate Refines(history: seq<Entry>, engine: seq<Message>, retries: nat) {
    && Subsequence(Erased(NotHints(history)), Erased(engine))
    && |engine| == |NotHints(history)| + retries
    && (retries == 0 ==> Erased(NotHints(history)) == Erased(engine))
  }

  lemma RefinesRetry(history: seq<Entry>, engine: seq<Message>, retries: nat, more: seq<Entry>, discarded: Message)
    requires Refines(history, engine, retries) && NotHints(more) == []
    ensures Refines(history + more, engine + [discarded], retries + 1)
  {
    hide NotHints, Erased, Subsequence;
    HistoryAppend(history, more);
    assert NotHints(history) + [] == NotHints(history);
    ErasedAppend(engine, [discarded]);
    SubsequenceExtends(Erased(NotHints(history)), Erased(engine), Erased([discarded]));
  }

  lemma RefinesTurn(history: seq<Entry>, engine: seq<Message>, retries: nat, more: seq<Entry>, copied: seq<Message>)
    requires Refines(history, engine, retries) && Erased(NotHints(more)) == Erased(copied)
    ensures Refines(history + more, engine + copied, retries)
  {
    hide NotHints, Subsequence;
    HistoryAppend(history, more);
    ErasedAppend(engine, copied);
    ErasedAppend(NotHints(history), NotHints(more));
    SubsequenceExtends(Erased(NotHints(history)), Erased(engine), Erased(copied));
  }

  lemma IterationRefines(p: Params, s: LoopState, inp: Inputs, engine: seq<Message>, retries: nat)
    requires Iterate(p, s, inp).Continue? && Refines(s.history, engine, retries)
    ensures var step := Iterate(p, s, inp);
            Refines(step.next.history, engine + MappedAll(step.events),
                    retries + (if step.next.turn == s.turn then 1 else 0))
  {
    hide Iterate, Refines, NotHints, MappedAll, TurnEntries, Erased, CallEvents, TurnEvents, UserMessages, AssistantOf;
    var t := ContinueShape(p, s, inp);
    var step, r := Iterate(p, s, inp), inp.model.reply;
    var first := AssistantOf(r.text, EffectiveCalls(r.calls));
    MappedCall(p, s, inp);
    if step.next.turn == s.turn {
      var hint := Entry(UserMessage(p.texts.truncationHint), Hint);
      HistoryOfOne(hint);
      NoHistory();
      assert s.history + [] == s.history;
      RefinesRetry(s.history, engine, retries, if step.next.history == s.history then [] else [hint], first);
    } else {
      MappedAppend(CallEvents(p, s, inp), TurnEvents(p, t));
      MappedTurn(p, t);
      var steers := UserMessages(t.steers);
      TurnHistory(AssistantOf(t.text, t.calls), t.rows, steers, t.hint);
      EffectiveInTurn(t.calls, r.calls);
      SalvageOnlyChangesArguments(r.text, t.calls, r.calls);
      ErasedSameTail(AssistantOf(t.text, t.calls), first, t.rows, steers);
      RefinesTurn(s.history, engine, retries, TurnEntries(AssistantOf(t.text, t.calls), t.rows, steers, t.hint),
                  [first] + (t.rows + steers));
    }
  }

  lemma NoHistory()
    ensures NotHints([]) == [] && Steers([]) == []
  {
  }

  lemma ErasedSameTail(a: Message, b: Message, rows: seq<Message>, steers: seq<Message>)
    requires EraseArguments(a) == EraseArguments(b)
    ensures Erased([a] + rows + steers) == Erased([b] + (rows + steers))
  {
  }

  lemma EffectiveInTurn(calls: seq<ToolCall>, reply: seq<ToolCall>)
    requires SameButArguments(calls, reply) && forall c :: c in calls ==> c.name != ASK_USER
    ensures EffectiveCalls(reply) == reply
  {
    NoAskCalls(reply);
    forall c | c in reply ensures c.name != ASK_USER {
      var i :| 0 <= i < |reply| && reply[i] == c;
      assert calls[i] in calls;
    }
  }

  /** At every loop head the history without hints is, up to tool arguments, a subsequence of the engine's
      messages, shorter by one message per retry, and equal to them if there was none. */
  lemma {:induction false} HeadsRefineEngine(p: Params, seed: seq<Message>, queue: seq<string>, env: Environment, k: nat)
    ensures var s0 := Start(seed, queue);
            var h := Head(p, s0, env, k);
            h.Some? ==> Refines(h.value.history, seed + MappedAll(EventsBefore(p, s0, env, k)), Retried(p, s0, env, k))
  {
    hide Iterate, Refines, MappedAll;
    var s0 := Start(seed, queue);
    if k == 0 {
      StartRefines(seed);
    } else if Head(p, s0, env, k).Some? {
      var s := Head(p, s0, env, k - 1).value;
      HeadsRefineEngine(p, seed, queue, env, k - 1);
      var before := EventsBefore(p, s0, env, k - 1);
      IterationRefines(p, s, env(k - 1), seed + MappedAll(before), Retried(p, s0, env, k - 1));
      MappedAppend(before, Iterate(p, s, env(k - 1)).events);
      assert seed + MappedAll(before) + MappedAll(Iterate(p, s, env(k - 1)).events)
          == seed + (MappedAll(before) + MappedAll(Iterate(p, s, env(k - 1)).events));
    }
  }

  lemma StartRefines(seed: seq<Message>)
    ensures Refines(Entries(seed, Seed), seed + MappedAll([]), 0)
  {
    HistoryOf(seed, Seed);
    assert seed + MappedAll([]) == seed;
    SubsequenceOfItself(Erased(seed));
  }

  // ---- Steers ----

  /** At every loop head the steers pushed so far are those in the history followed by those still queued. */
  lemma {:induction false} HeadsDeliverSteers(p: Params, seed: seq<Message>, queue: seq<string>, env: Environment, k: nat)
    ensures var h := Head(p, Start(seed, queue), env, k);
            h.Some? ==> UserMessages(h.value.pushed) == Steers(h.value.history) + UserMessages(h.value.queue)
  {
    hide Iterate, TurnEntries;
    var s0 := Start(seed, queue);
    if k == 0 {
      HistoryOf(seed, Seed);
    } else if Head(p, s0, env, k).Some? {
      HeadsDeliverSteers(p, seed, queue, env, k - 1);
      IterationDelivers(p, Head(p, s0, env, k - 1).value, env(k - 1));
    }
  }

  /** If the delivered texts and the new queue make up the old queue and the pushes, so do their messages. */
  lemma DeliveryBalance(pushed: seq<string>, queue: seq<string>, more: seq<string>, delivered: seq<string>,
                        queue': seq<string>, before: seq<Message>)
    requires UserMessages(pushed) == before + UserMessages(queue)
    requires delivered + queue' == queue + more
    ensures UserMessages(pushed + more) == before + UserMessages(delivered) + UserMessages(queue')
  {
    hide UserMessages;
    UserMessagesAppend(pushed, more);
    UserMessagesAppend(queue, more);
    UserMessagesAppend(delivered, queue');
    Regroup(before, UserMessages(delivered), UserMessages(queue'));
    Regroup(before, UserMessages(queue), UserMessages(more));
  }

  lemma IterationDelivers(p: Params, s: LoopState, inp: Inputs)
    requires Iterate(p, s, inp).Continue?
    requires UserMessages(s.pushed) == Steers(s.history) + UserMessages(s.queue)
    ensures var next := Iterate(p, s, inp).next;
            UserMessages(next.pushed) == Steers(next.history) + UserMessages(next.queue)
  {
    hide Iterate, TurnEntries, Steers, UserMessages, AssistantOf, CappedCalls, SameButArguments;
    var t := ContinueShape(p, s, inp);
    ContinueNeedsReply(p, s, inp);
    var next := Iterate(p, s, inp).next;
    var more := inp.pushedBeforeDrain + inp.pushedAfterDrain;
    Regroup(s.pushed, inp.pushedBeforeDrain, inp.pushedAfterDrain);
    Regroup(s.queue, inp.pushedBeforeDrain, inp.pushedAfterDrain);
    if next.turn == s.turn {
      RetryHistory(p, s, inp, next);
      NoSteers();
      DeliveryBalance(s.pushed, s.queue, more, [], next.queue, Steers(s.history));
    } else {
      var added := TurnEntries(AssistantOf(t.text, t.calls), t.rows, UserMessages(t.steers), t.hint);
      TurnHistory(AssistantOf(t.text, t.calls), t.rows, UserMessages(t.steers), t.hint);
      HistoryAppend(s.history, added);
      DeliveryBalance(s.pushed, s.queue, more, t.steers, next.queue, Steers(s.history));
    }
  }

  lemma NoSteers()
    ensures UserMessages([]) == []
  {
  }

  lemma RetryHistory(p: Params, s: LoopState, inp: Inputs, next: LoopState)
    requires Retries(p, s, inp, next)
    ensures Steers(next.history) == Steers(s.history)
  {
    var hint := [Entry(UserMessage(p.texts.truncationHint), Hint)];
    HistoryOfOne(hint[0]);
    HistoryAppend(s.history, hint);
  }

  lemma UserMessagesAppend(a: seq<string>, b: seq<string>)
    ensures UserMessages(a + b) == UserMessages(a) + UserMessages(b)
  {
  }
}
