/** The public entry of the loop, and what every complete run guarantees. */
module Query {
  import opened Text
  import opened Transcript
  import opened Repair
  import opened RepairTheorems
  import opened ExactIds
  import opened Dispatch
  import opened QueryLoop
  import opened QueryRuns
  import Iteration

  function Max0(n: int): nat {
    if n < 0 then 0 else n
  }

  /** How the wrapper ends a run: with the loop's terminal, or as completed when an exception escapes it. */
  function TerminalOf(step: Step): Terminal
    requires !step.Continue?
  {
    if step.Stop? then step.terminal else Completed(false)
  }

  ghost predicate CallsValid(events: seq<Event>) {
    forall i :: 0 <= i < |events| && events[i].ModelCall? ==>
      ProviderValid(Stripped, events[i].transcript) && AskComplete(events[i].transcript)
  }

  /** The loop as the wrapper drives it: `state` is rebuilt by every iteration that continues. */
  method RunQuery(p: Params, seed: seq<Message>, queue: seq<string>, env: Environment)
    returns (events: seq<Event>, ghost k: nat)
    ensures Head(p, Start(seed, queue), env, k).Some?
    ensures var last := Iterate(p, Head(p, Start(seed, queue), env, k).value, env(k));
            && !last.Continue?
            && events == EventsBefore(p, Start(seed, queue), env, k) + last.events + [Ended(TerminalOf(last))]
            && events[|events| - 1] == Ended(if last.Crash? then Completed(false) else last.terminal)
    ensures events != [] && events[|events| - 1].Ended? && Count(events, Ends) == 1
    ensures Count(events, Calls) <= 3 * Max0(p.maxTurns) && Count(events, Batches) <= Max0(p.maxTurns)
    ensures p.maxTurns <= 0 ==> Count(events, Calls) == 0 && Count(events, Batches) == 0
    ensures CallsValid(events)
  {
    hide Iterate, GoodState, CallsValid, Count;
    var state := Start(seed, queue);
    ghost var s0 := state;
    events := [];
    var n := 0;
    StartIsGood(p, seed, queue);
    CallsValidNone();
    while true
      invariant Head(p, s0, env, n) == Some(state)
      invariant GoodState(p, state)
      invariant events == EventsBefore(p, s0, env, n)
      invariant CallsValid(events)
      decreases p.maxTurns - state.turn, 2 - state.recovery
    {
      var step := Iterate(p, state, env(n));
      IterationCallsValid(p, state, env(n));
      CallsValidAppend(events, step.events);
      ghost var before := events;
      events := events + step.events;
      if !step.Continue? {
        var ended := [Ended(TerminalOf(step))];
        k := n;
        RunTotals(p, s0, env, n);
        EndCounts(p, s0, env, n, TerminalOf(step));
        CallsValidEnded(TerminalOf(step));
        CallsValidAppend(events, ended);
        events := events + ended;
        return;
      }
      IterationKeepsGoodState(p, state, env(n));
      GoodStateBounds(p, state);
      IterationUsesACall(p, state, env(n));
      ContinueNeedsReply(p, state, env(n));
      GoodStateBounds(p, step.next);
      state := step.next;
      n := n + 1;
    }
  }

  lemma GoodStateBounds(p: Params, s: LoopState)
    requires GoodState(p, s)
    ensures s.recovery <= 2
  {
  }

  // ---- Every model call is valid ----

  lemma CallsValidNone()
    ensures CallsValid([])
  {
  }

  lemma CallsValidEnded(t: Terminal)
    ensures CallsValid([Ended(t)])
  {
  }

  lemma CallsValidAppend(a: seq<Event>, b: seq<Event>)
    ensures CallsValid(a) && CallsValid(b) ==> CallsValid(a + b)
  {
  }

  lemma AfterReplyMakesNoCall(p: Params, s: LoopState, inp: Inputs, r: Reply)
    ensures forall i :: 0 <= i < |AfterReply(p, s, inp, r).events| ==> !AfterReply(p, s, inp, r).events[i].ModelCall?
    ensures !AfterReply(p, s, inp, r).Continue? ==> |AfterReply(p, s, inp, r).events| <= 1
    ensures !AfterReply(p, s, inp, r).Continue? ==> forall e :: e in AfterReply(p, s, inp, r).events ==> e.AssistantMessage?
  {
    hide Dispatched, UserMessages, Rows, TokenOverride, FirstPause, AskCalls;
  }

  /** Whatever compaction returned, the transcript of a model call is valid with stripped ids, and every `ask_user` call
      is answered under its stripped id. */
  lemma IterationCallsValid(p: Params, s: LoopState, inp: Inputs)
    ensures CallsValid(Iterate(p, s, inp).events)
  {
    hide AfterReply, Repaired, EffectiveCalls;
    RepairedIsValid(inp.compacted);
    if inp.model.Replied? {
      AfterReplyMakesNoCall(p, s.(tokens := s.tokens + inp.model.reply.usage), inp, inp.model.reply);
    }
  }

  /** If nothing that survives of what compaction returned carries white space around ids, the transcript is valid as sent. */
  lemma IterationCallsValidAsSent(p: Params, s: LoopState, inp: Inputs)
    requires AllTrimmed(OwnedFrom(inp.compacted, 0))
    ensures forall e <- Iterate(p, s, inp).events :: e.ModelCall? ==> ProviderValid(AsSent, e.transcript)
  {
    hide AfterReply, Repaired, EffectiveCalls, ProviderValid;
    TrimmedValidAsSent(inp.compacted);
    if inp.model.Replied? {
      AfterReplyMakesNoCall(p, s.(tokens := s.tokens + inp.model.reply.usage), inp, inp.model.reply);
    }
  }

  // ---- Totals ----

  /** The last iteration makes at most one call, and only within the turns. */
  lemma LastIterationCounts(p: Params, s: LoopState, inp: Inputs)
    requires !Iterate(p, s, inp).Continue?
    ensures Count(Iterate(p, s, inp).events, Calls) <= if s.turn <= p.maxTurns then 1 else 0
    ensures Count(Iterate(p, s, inp).events, Batches) == 0 && Count(Iterate(p, s, inp).events, Ends) == 0
  {
    hide AfterReply, Repaired, EffectiveCalls, AssistantOf;
    var e := Iterate(p, s, inp).events;
    if inp.model.Replied? {
      AfterReplyMakesNoCall(p, s.(tokens := s.tokens + inp.model.reply.usage), inp, inp.model.reply);
    }
    forall kind: Kind ensures Count(e, kind) <= (if kind.Calls? && s.turn <= p.maxTurns then 1 else 0) {
      if e == [] {
        NoneIn(e, kind);
      } else {
        assert e == [e[0]] + e[1..];
        CountAppend([e[0]], e[1..], kind);
        CountOne(e[0], kind);
        forall i | 0 <= i < |e[1..]| ensures !IsKind(e[1..][i], kind) {
          assert e[i + 1].AssistantMessage?;
        }
        NoneIn(e[1..], kind);
      }
    }
  }

  lemma RunTotals(p: Params, s0: LoopState, env: Environment, k: nat)
    requires GoodState(p, s0) && s0.turn == 1 && s0.recovery == 0
    requires Head(p, s0, env, k).Some?
    ensures var s := Head(p, s0, env, k).value;
            && k + (if s.turn <= p.maxTurns then 1 else 0) <= 3 * Max0(p.maxTurns)
            && s.turn - 1 <= Max0(p.maxTurns)
  {
    hide Iterate, GoodState;
    RunsAreBounded(p, s0, env, k);
    HeadsAreGood(p, s0, env, k);
    GoodStateBounds(p, Head(p, s0, env, k).value);
    if k > 0 {
      ContinueNeedsReply(p, Head(p, s0, env, k - 1).value, env(k - 1));
      HeadsAreGood(p, s0, env, k - 1);
      GoodStateBounds(p, Head(p, s0, env, k - 1).value);
      IterationTurn(p, Head(p, s0, env, k - 1).value, env(k - 1));
    }
  }

  lemma IterationTurn(p: Params, s: LoopState, inp: Inputs)
    requires Iterate(p, s, inp).Continue?
    ensures Iterate(p, s, inp).next.turn <= s.turn + 1
  {
    hide Iterate, TurnEntries;
    var t := ContinueShape(p, s, inp);
  }

  lemma EndCounts(p: Params, s0: LoopState, env: Environment, k: nat, t: Terminal)
    requires GoodState(p, s0) && s0.turn == 1 && s0.recovery == 0
    requires Head(p, s0, env, k).Some? && !Iterate(p, Head(p, s0, env, k).value, env(k)).Continue?
    ensures var events := EventsBefore(p, s0, env, k) + Iterate(p, Head(p, s0, env, k).value, env(k)).events + [Ended(t)];
            && Count(events, Ends) == 1
            && Count(events, Calls) <= 3 * Max0(p.maxTurns)
            && Count(events, Batches) <= Max0(p.maxTurns)
  {
    hide Iterate, GoodState, Count;
    var s := Head(p, s0, env, k).value;
    var before, last, ended := EventsBefore(p, s0, env, k), Iterate(p, s, env(k)).events, [Ended(t)];
    EventCounts(p, s0, env, k);
    LastIterationCounts(p, s, env(k));
    RunTotals(p, s0, env, k);
    forall kind: Kind ensures Count(before + last + ended, kind)
      == Count(before, kind) + Count(last, kind) + (if kind.Ends? then 1 else 0) {
      CountAppend(before + last, ended, kind);
      CountAppend(before, last, kind);
      CountOne(ended[0], kind);
    }
  }

  // ---- Forced sharding ----

  /** The iteration is a second retry, or goes on after two. */
  predicate Forces(p: Params, s: LoopState, inp: Inputs) {
    if Iteration.Retried(p, s, inp) then s.recovery >= 1 else s.recovery >= 2
  }

  lemma IterationForces(p: Params, s: LoopState, inp: Inputs)
    requires Iterate(p, s, inp).Continue?
    ensures Iterate(p, s, inp).next.forceSharded <==> s.forceSharded || Forces(p, s, inp)
  {
    hide Iterate, Iteration.Dispatches, Iteration.Retried, Iteration.PartsExactly, Iteration.Appended, Iteration.EmittedAs;
    Iteration.EarlyStops(p, s, inp);
    var i := Iteration.ReplyOutcome(p, s, inp);
    if Iteration.Retried(p, s, inp) {
      Iteration.RetryExactly(p, s, inp);
    } else {
      var t, more := Iteration.DispatchExactly(p, s, inp);
    }
  }

  predicate ForcedAt(p: Params, s0: LoopState, env: Environment, j: nat) {
    Head(p, s0, env, j).Some? && Forces(p, Head(p, s0, env, j).value, env(j))
  }

  lemma PreviousHead(p: Params, s0: LoopState, env: Environment, k: nat)
    requires k > 0 && Head(p, s0, env, k).Some?
    ensures Head(p, s0, env, k - 1).Some?
    ensures var step := Iterate(p, Head(p, s0, env, k - 1).value, env(k - 1));
            step.Continue? && step.next == Head(p, s0, env, k).value
  {
    hide Iterate;
  }

  predicate ForcedBefore(p: Params, s0: LoopState, env: Environment, k: nat) {
    exists j :: 0 <= j < k && ForcedAt(p, s0, env, j)
  }

  lemma ForcedBeforeNext(p: Params, s0: LoopState, env: Environment, k: nat)
    ensures ForcedBefore(p, s0, env, k + 1) <==> ForcedBefore(p, s0, env, k) || ForcedAt(p, s0, env, k)
    ensures !ForcedBefore(p, s0, env, 0)
  {
    hide ForcedAt;
  }

  /** Sharded output is forced from the second recovery of some turn on, and never before. */
  lemma {:induction false} HeadsSharded(p: Params, seed: seq<Message>, queue: seq<string>, env: Environment, k: nat)
    requires Head(p, Start(seed, queue), env, k).Some?
    ensures Head(p, Start(seed, queue), env, k).value.forceSharded <==> ForcedBefore(p, Start(seed, queue), env, k)
  {
    hide Iterate, Forces, ForcedBefore;
    var s0 := Start(seed, queue);
    if k > 0 {
      PreviousHead(p, s0, env, k);
      HeadsSharded(p, seed, queue, env, k - 1);
      IterationForces(p, Head(p, s0, env, k - 1).value, env(k - 1));
      ForcedBeforeNext(p, s0, env, k - 1);
    } else {
      ForcedBeforeNext(p, s0, env, 0);
    }
  }

  // ---- The token budget ----

  /** The usage reported by the first `k` iterations, those whose output was discarded included. */
  function Spent(env: Environment, k: nat): int {
    if k == 0 then 0
    else Spent(env, k - 1) + (if env(k - 1).model.Replied? then env(k - 1).model.reply.usage else 0)
  }

  /** No iteration starts, and so no call is made, once the usage so far has reached a positive budget. */
  lemma {:induction false} NoCallOverBudget(p: Params, seed: seq<Message>, queue: seq<string>, env: Environment, k: nat)
    ensures var h := Head(p, Start(seed, queue), env, k);
            h.Some? ==> h.value.tokens == Spent(env, k) && !BudgetReached(p, Spent(env, k))
  {
    hide Iterate;
    if k > 0 && Head(p, Start(seed, queue), env, k).Some? {
      NoCallOverBudget(p, seed, queue, env, k - 1);
      ContinueNeedsReply(p, Head(p, Start(seed, queue), env, k - 1).value, env(k - 1));
    }
  }

  // ---- Pausing for the user ----

  lemma {:induction false} BlocksDeclare(calls: seq<Block>, i: nat)
    requires i < |calls| && calls[i].Block? && calls[i].id.Some? && Strip(calls[i].id.value) != ""
    ensures exists j :: 0 <= j < |IdNamePairs(calls)| && IdNamePairs(calls)[j].0 == Strip(calls[i].id.value)
  {
    hide Strip;
    var pairs := IdNamePairs(calls);
    if i == 0 {
      assert pairs[0].0 == Strip(calls[0].id.value);
    } else {
      BlocksDeclare(calls[1..], i - 1);
      var rest := IdNamePairs(calls[1..]);
      var j :| 0 <= j < |rest| && rest[j].0 == Strip(calls[i].id.value);
      if pairs != rest {
        assert pairs[j + 1].0 == rest[j].0;
      }
    }
  }

  lemma AssistantDeclares(text: string, calls: seq<ToolCall>, c: ToolCall)
    requires c in calls && Strip(c.id) != ""
    ensures Declares(AssistantOf(text, calls), Strip(c.id))
  {
    hide Strip;
    var i :| 0 <= i < |calls| && calls[i] == c;
    var m := AssistantOf(text, calls);
    BlocksDeclare(m.calls, i);
    assert Pairs(m) == IdNamePairs(m.calls);
  }

  lemma {:induction false} PauseIsACall(calls: seq<ToolCall>, approvals: nat -> Approval, from: nat)
    requires from <= |calls| && FirstPause(calls, approvals, from).Some?
    ensures FirstPause(calls, approvals, from).value in calls
    decreases |calls| - from
  {
    if !approvals(from).Pause? {
      PauseIsACall(calls, approvals, from + 1);
    }
  }

  lemma SalvagedDeclares(text: string, effective: seq<ToolCall>, salvage: Option<Salvage>, id: string)
    requires exists c :: c in Salvaged(effective, salvage) && c.id == id
    requires Strip(id) != ""
    ensures Declares(AssistantOf(text, effective), Strip(id))
  {
    hide Strip;
    var calls := Salvaged(effective, salvage);
    var c :| c in calls && c.id == id;
    var i :| 0 <= i < |calls| && calls[i] == c;
    AssistantDeclares(text, effective, effective[i]);
  }

  lemma PausedOnACall(p: Params, s: LoopState, inp: Inputs, r: Reply, id: string)
    requires AfterReply(p, s, inp, r).Stop? && AfterReply(p, s, inp, r).terminal == AwaitingUserInput(id)
    requires Strip(id) != ""
    ensures AfterReply(p, s, inp, r).events == []
    ensures Declares(AssistantOf(r.text, EffectiveCalls(r.calls)), Strip(id))
  {
    hide Strip, Dispatched, Declares, AssistantOf, AskCalls, EffectiveCalls;
    var effective := EffectiveCalls(r.calls);
    var truncated := LengthTruncated(r) && s.recovery < 2;
    var salvage := if truncated then SalvageFor(effective, inp.salvage) else None;
    var calls := Salvaged(effective, salvage);
    assert calls != [];
    if AskCalls(r.calls) != [] {
      assert calls[0] in calls && calls[0].id == id;
    } else {
      PauseIsACall(CappedCalls(p, calls), inp.approvals, 0);
      var c := FirstPause(CappedCalls(p, calls), inp.approvals, 0).value;
      assert c in calls && c.id == id;
    }
    SalvagedDeclares(r.text, effective, salvage, id);
  }

  /** A run that pauses for the user leaves the engine with the assistant that made the call directly
      followed by the pending placeholder for it. */
  lemma PauseLeavesPlaceholder(p: Params, s: LoopState, inp: Inputs, id: string)
    requires Iterate(p, s, inp).Stop? && Iterate(p, s, inp).terminal == AwaitingUserInput(id) && Strip(id) != ""
    ensures var appended := MappedAll(Iterate(p, s, inp).events + [Ended(AwaitingUserInput(id))]);
            && |appended| == 2
            && Declares(appended[0], Strip(id))
            && appended[1] == PendingStub(Strip(id))
  {
    hide Strip, AfterReply, Repaired, Declares, EffectiveCalls, AssistantOf, MappedAll;
    var r := inp.model.reply;
    PausedOnACall(p, s.(tokens := s.tokens + r.usage), inp, r, id);
    var ended := Ended(AwaitingUserInput(id));
    assert Iterate(p, s, inp).events == CallEvents(p, s, inp);
    MappedCall(p, s, inp);
    MappedAppend(CallEvents(p, s, inp), [ended]);
    MappedOne(ended);
  }
}
