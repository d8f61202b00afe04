/** Which rows the repair adds, in terms of the tool call blocks as they were sent. */
module StubRows {
  import opened Sequences
  import opened Text
  import opened Transcript
  import opened Repair
  import opened RepairTheorems
  import opened ExactIds

  // ---- What a block says ----

  /** The block carries the id `id`, up to outer white space. */
  predicate HasId(b: Block, id: string) {
    b.Block? && b.id.Some? && Strip(b.id.value) == id && id != ""
  }

  /** A call of `name`, or, where the block itself has no name, of a function `name`. */
  predicate HasName(b: Block, name: string) {
    b.Block? && (if b.name != "" then b.name == name else b.functionName == name)
  }

  predicate FirstWithId(calls: seq<Block>, a: nat, id: string) {
    a < |calls| && HasId(calls[a], id) && forall i :: 0 <= i < a ==> !HasId(calls[i], id)
  }

  /** The assistant asks the user under `id`. */
  predicate AsksUser(m: Message, id: string) {
    m.role.Assistant? && exists b :: b in m.calls && HasId(b, id) && HasName(b, "ask_user")
  }

  predicate Usable(b: Block) {
    b.Block? && b.id.Some? && Strip(b.id.value) != ""
  }

  function NameIn(b: Block): (name: string)
    requires b.Block?
    ensures HasName(b, name)
  {
    if b.name != "" then b.name else b.functionName
  }

  lemma FirstPair(calls: seq<Block>)
    requires calls != []
    ensures IdNamePairs(calls) ==
      (if Usable(calls[0]) then [(Strip(calls[0].id.value), NameIn(calls[0]))] else []) + IdNamePairs(calls[1..])
  {
  }

  lemma {:induction false} PairsExactly(calls: seq<Block>, id: string, name: string)
    ensures (id, name) in IdNamePairs(calls) <==> exists b :: b in calls && HasId(b, id) && HasName(b, name)
  {
    hide Strip, IdNamePairs;
    if calls != [] {
      FirstPair(calls);
      PairsExactly(calls[1..], id, name);
      assert forall b :: b in calls <==> b == calls[0] || b in calls[1..];
    } else {
      NoPairs();
    }
  }

  lemma NoPairs()
    ensures IdNamePairs([]) == []
  {
  }

  lemma AsksExactly(m: Message, id: string)
    ensures Asks(m, id) <==> AsksUser(m, id)
  {
    PairsExactly(m.calls, id, ASK_USER);
  }

  // ---- The rows for unanswered blocks ----

  function PendingRow(id: string): Message {
    Message(Tool, "{\"_wa_pending\": true}", [], Some(id), "")
  }

  predicate InterruptedRow(row: Message, id: string) {
    row.role.Tool? && row.content == INTERRUPTED && row.toolCallId == Some(id) && row.calls == []
  }

  predicate AwaitsUser(b: Block, run: seq<Message>) {
    Usable(b) && HasName(b, "ask_user") && !HasRaw(run, Strip(b.id.value))
  }

  /** From block `a` on: one pending row for each block that awaits the user, in the order of the blocks. */
  predicate PendingFrom(calls: seq<Block>, run: seq<Message>, a: nat, rows: seq<Message>)
    requires a <= |calls|
    decreases |calls| - a
  {
    if a == |calls| then rows == []
    else if AwaitsUser(calls[a], run) then
      rows != [] && rows[0] == PendingRow(Strip(calls[a].id.value)) && PendingFrom(calls, run, a + 1, rows[1..])
    else PendingFrom(calls, run, a + 1, rows)
  }

  /** Answered by a kept row, or asked of the user. */
  predicate Settled(head: Message, run: seq<Message>, id: string) {
    HasAnswer(run, id) || AsksUser(head, id)
  }

  /** From block `a` on: one interrupted row for each id that is neither answered nor asked under, where the id
      is first declared and with the name it has there. */
  predicate InterruptedFrom(head: Message, run: seq<Message>, a: nat, rows: seq<Message>)
    requires a <= |head.calls|
    decreases |head.calls| - a
  {
    if a == |head.calls| then rows == []
    else
      var b := head.calls[a];
      if Usable(b) && FirstWithId(head.calls, a, Strip(b.id.value)) && !Settled(head, run, Strip(b.id.value)) then
        rows != [] && InterruptedRow(rows[0], Strip(b.id.value)) && HasName(b, rows[0].name)
          && InterruptedFrom(head, run, a + 1, rows[1..])
      else InterruptedFrom(head, run, a + 1, rows)
  }

  lemma FirstPendingStub(calls: seq<Block>, run: seq<Message>)
    requires calls != []
    ensures AskStubs(IdNamePairs(calls), run) ==
      (if AwaitsUser(calls[0], run) then [PendingRow(Strip(calls[0].id.value))] else []) + AskStubs(IdNamePairs(calls[1..]), run)
  {
    hide Strip, HasRaw, IdNamePairs;
    FirstPair(calls);
    var rest := IdNamePairs(calls[1..]);
    if Usable(calls[0]) {
      var pair := (Strip(calls[0].id.value), NameIn(calls[0]));
      assert ([pair] + rest)[1..] == rest;
    } else {
      assert [] + rest == rest;
    }
  }

  lemma {:induction false} PendingStubsFrom(calls: seq<Block>, run: seq<Message>, a: nat)
    requires a <= |calls|
    ensures PendingFrom(calls, run, a, AskStubs(IdNamePairs(calls[a..]), run))
    decreases |calls| - a
  {
    hide AwaitsUser, AskStubs, IdNamePairs, PendingRow;
    if a == |calls| {
      NoPairs();
      NoStubRows(run);
    } else {
      assert calls[a..][1..] == calls[a + 1..] && calls[a..][0] == calls[a];
      FirstPendingStub(calls[a..], run);
      PendingStubsFrom(calls, run, a + 1);
      var later := AskStubs(IdNamePairs(calls[a + 1..]), run);
      assert [] + later == later;
      assert forall row: Message :: ([row] + later)[1..] == later;
    }
  }

  lemma NoStubRows(run: seq<Message>)
    ensures AskStubs([], run) == [] && forall seen :: InterruptedStubs([], seen, run) == []
  {
  }

  function OwnId(b: Block): set<string> {
    if Usable(b) then {Strip(b.id.value)} else {}
  }

  lemma FirstInterruptedStub(calls: seq<Block>, seen: set<string>, run: seq<Message>)
    requires calls != []
    ensures var b := calls[0];
            InterruptedStubs(IdNamePairs(calls), seen, run) ==
              (if Usable(b) && Strip(b.id.value) !in seen && !HasAnswer(run, Strip(b.id.value))
               then [InterruptedStub(Strip(b.id.value), NameIn(b))] else [])
              + InterruptedStubs(IdNamePairs(calls[1..]), seen + OwnId(b), run)
  {
    hide Strip, HasAnswer, IdNamePairs;
    FirstPair(calls);
    var rest := IdNamePairs(calls[1..]);
    if Usable(calls[0]) {
      var pair := (Strip(calls[0].id.value), NameIn(calls[0]));
      assert ([pair] + rest)[1..] == rest;
    } else {
      assert [] + rest == rest && seen + OwnId(calls[0]) == seen;
    }
  }

  ghost predicate SeenBefore(calls: seq<Block>, a: nat, seen: set<string>)
    requires a <= |calls|
  {
    forall id :: id in seen <==> exists i :: 0 <= i < a && HasId(calls[i], id)
  }

  lemma SeenNext(calls: seq<Block>, a: nat, seen: set<string>)
    requires a < |calls| && SeenBefore(calls, a, seen)
    ensures SeenBefore(calls, a + 1, seen + OwnId(calls[a]))
    ensures Usable(calls[a]) ==> (FirstWithId(calls, a, Strip(calls[a].id.value)) <==> Strip(calls[a].id.value) !in seen)
  {
    hide Strip;
  }

  lemma {:induction false} InterruptedStubsFrom(head: Message, run: seq<Message>, asked: seq<Message>, a: nat, seen: set<string>)
    requires a <= |head.calls| && SeenBefore(head.calls, a, seen)
    requires forall id :: HasAnswer(asked, id) <==> Settled(head, run, id)
    ensures InterruptedFrom(head, run, a, InterruptedStubs(IdNamePairs(head.calls[a..]), seen, asked))
    decreases |head.calls| - a
  {
    hide InterruptedStubs, IdNamePairs, Strip, SeenBefore, FirstWithId, HasAnswer, Settled, HasName;
    var calls := head.calls;
    if a == |calls| {
      NoPairs();
      NoStubRows(asked);
    } else {
      assert calls[a..][1..] == calls[a + 1..] && calls[a..][0] == calls[a];
      FirstInterruptedStub(calls[a..], seen, asked);
      SeenNext(calls, a, seen);
      InterruptedStubsFrom(head, run, asked, a + 1, seen + OwnId(calls[a]));
      var later := InterruptedStubs(IdNamePairs(calls[a + 1..]), seen + OwnId(calls[a]), asked);
      assert [] + later == later;
      assert forall row: Message :: ([row] + later)[1..] == later;
    }
  }

  // ---- The rows the repair adds ----

  /** Exactly what the repair adds to the run of `head`. */
  ghost predicate AddedExactly(head: Message, run: seq<Message>, added: seq<Message>) {
    if head.role.Assistant? then
      exists pending, interrupted ::
        added == pending + interrupted && PendingFrom(head.calls, run, 0, pending) && InterruptedFrom(head, run, 0, interrupted)
    else added == []
  }

  lemma SettledExactly(head: Message, run: seq<Message>, id: string)
    requires AllTools(run)
    ensures HasAnswer(run + Stubs(AskUser, head, run), id) <==> Settled(head, run, id)
  {
    hide Stubs, Strip;
    RawStaysRaw(run, Stubs(AskUser, head, run), id);
    AskStubIds(head, run, id);
    AsksExactly(head, id);
    if Asks(head, id) {
      AskedIsAnswered(head, run, id);
    }
  }

  lemma AddedIsExact(head: Message, run: seq<Message>)
    requires AllTools(run)
    ensures AddedExactly(head, run, AddedStubs(head, run))
  {
    hide PendingFrom, InterruptedFrom, Settled, HasAnswer, IdNamePairs, AskStubs, InterruptedStubs;
    if head.role.Assistant? {
      var asked := run + Stubs(AskUser, head, run);
      assert head.calls[0..] == head.calls;
      PendingStubsFrom(head.calls, run, 0);
      forall id ensures HasAnswer(asked, id) <==> Settled(head, run, id) {
        SettledExactly(head, run, id);
      }
      NothingSeen(head.calls);
      InterruptedStubsFrom(head, run, asked, 0, {});
    } else {
      NoStubsWithoutCalls(AskUser, head, run);
      NoStubsWithoutCalls(Interrupted, head, run + Stubs(AskUser, head, run));
    }
  }

  lemma NothingSeen(calls: seq<Block>)
    ensures SeenBefore(calls, 0, {})
  {
  }

  /** Segment by segment, `out` is `base` with exactly those rows added at the end of each run. */
  ghost predicate RowsAdded(base: seq<Message>, out: seq<Message>)
    decreases |base|
  {
    if base == [] then out == []
    else
      && out != [] && out[0] == base[0]
      && Run(base) <= Run(out)
      && AddedExactly(base[0], Run(base), Run(out)[|Run(base)|..])
      && RowsAdded(Rest(base), Rest(out))
  }

  lemma {:induction false} PassesAddRows(base: seq<Message>)
    requires WellOwned(Stripped, base)
    ensures RowsAdded(base, Inject(Inject(base, AskUser), Interrupted))
    decreases |base|
  {
    hide AddedExactly, Inject, AddedStubs, WellOwned, RunLen;
    if base != [] {
      TwoPasses(base);
      OwnedSegment(base);
      SegmentParts(base);
      PassesAddRows(Rest(base));
      AddedIsExact(base[0], Run(base));
      var out := Inject(Inject(base, AskUser), Interrupted);
      assert Run(out)[|Run(base)|..] == AddedStubs(base[0], Run(base));
    } else {
      InjectNothing();
    }
  }

  /** What the repair adds to what it keeps, row by row, in terms of the blocks as they were sent. */
  lemma RepairAddsExactly(ms: seq<Message>)
    ensures RowsAdded(OwnedFrom(ms, 0), Repaired(ms))
  {
    DroppedWellOwned(ms);
    DropKeepsExactlyOwned(ms);
    PassesAddRows(DropOrphans(ms, {}));
  }

  lemma {:induction false} PendingHas(calls: seq<Block>, run: seq<Message>, a: nat, rows: seq<Message>, i: nat)
    requires a <= i < |calls| && PendingFrom(calls, run, a, rows) && AwaitsUser(calls[i], run)
    ensures PendingRow(Strip(calls[i].id.value)) in rows
    decreases |calls| - a
  {
    hide AwaitsUser, PendingRow, Strip;
    if a < i {
      PendingHas(calls, run, a + 1, if AwaitsUser(calls[a], run) then rows[1..] else rows, i);
    }
  }

  lemma {:induction false} PendingOnly(calls: seq<Block>, run: seq<Message>, a: nat, rows: seq<Message>, row: Message)
    requires a <= |calls| && PendingFrom(calls, run, a, rows) && row in rows
    ensures row.toolCallId.Some? && row == PendingRow(row.toolCallId.value)
    decreases |calls| - a
  {
    hide AwaitsUser, Strip;
    if a < |calls| && row != rows[0] {
      PendingOnly(calls, run, a + 1, if AwaitsUser(calls[a], run) then rows[1..] else rows, row);
    } else if a < |calls| && !AwaitsUser(calls[a], run) {
      PendingOnly(calls, run, a + 1, rows, row);
    }
  }

  predicate StartsInterrupted(head: Message, run: seq<Message>, a: nat)
    requires a < |head.calls|
  {
    var b := head.calls[a];
    Usable(b) && FirstWithId(head.calls, a, Strip(b.id.value)) && !Settled(head, run, Strip(b.id.value))
  }

  lemma {:induction false} InterruptedOnly(head: Message, run: seq<Message>, a: nat, rows: seq<Message>, row: Message)
    requires a <= |head.calls| && InterruptedFrom(head, run, a, rows) && row in rows
    ensures row.toolCallId.Some? && !Settled(head, run, row.toolCallId.value)
    decreases |head.calls| - a
  {
    hide FirstWithId, Settled, Usable, HasName, Strip;
    if a < |head.calls| {
      if !StartsInterrupted(head, run, a) {
        InterruptedOnly(head, run, a + 1, rows, row);
      } else if row != rows[0] {
        InterruptedOnly(head, run, a + 1, rows[1..], row);
      }
    }
  }

  /** So an unanswered `ask_user` call gets the pending row and never the interrupted one. */
  lemma AskedGetsPending(head: Message, run: seq<Message>, added: seq<Message>, id: string)
    requires AddedExactly(head, run, added) && AsksUser(head, id)
    ensures !HasRaw(run, id) ==> PendingRow(id) in added
    ensures forall row :: row in added && row.toolCallId == Some(id) ==> row == PendingRow(id)
  {
    hide HasRaw, Strip, PendingFrom, InterruptedFrom, HasName, PendingRow;
    var pending, interrupted :|
      added == pending + interrupted && PendingFrom(head.calls, run, 0, pending) && InterruptedFrom(head, run, 0, interrupted);
    var b :| b in head.calls && HasId(b, id) && HasName(b, "ask_user");
    var a :| 0 <= a < |head.calls| && head.calls[a] == b;
    if !HasRaw(run, id) {
      PendingHas(head.calls, run, 0, pending, a);
    }
    forall row | row in added && row.toolCallId == Some(id) ensures row == PendingRow(id) {
      if row in pending {
        PendingOnly(head.calls, run, 0, pending, row);
      } else {
        InterruptedOnly(head, run, 0, interrupted, row);
      }
    }
  }

  // ---- The last assistant of a transcript ----

  lemma {:induction false} RunLenSnoc(ms: seq<Message>, tail: seq<Message>)
    requires tail != [] && !tail[0].role.Tool?
    ensures RunLen(ms + tail) == RunLen(ms)
  {
    if ms == [] {
      assert ms + tail == tail;
    } else {
      assert (ms + tail)[1..] == ms[1..] + tail;
      RunLenSnoc(ms[1..], tail);
    }
  }

  lemma {:induction false} DropSnoc(ms: seq<Message>, m: Message, open: set<string>)
    requires !m.role.Tool?
    ensures DropOrphans(ms + [m], open) == DropOrphans(ms, open) + [m]
  {
    hide DeclaredIds;
    if ms == [] {
      assert ms + [m] == [m] && [m][1..] == [];
    } else {
      assert (ms + [m])[1..] == ms[1..] + [m];
      DropSnoc(ms[1..], m, OpenAfter(ms[0], open));
      Regroup(if Kept(ms[0], open) then [ms[0]] else [], DropOrphans(ms[1..], OpenAfter(ms[0], open)), [m]);
    }
  }

  lemma InjectOne(m: Message, run: seq<Message>, pass: Pass)
    requires m.role.Assistant? && AllTools(run)
    ensures Inject([m] + run, pass) == [m] + run + Stubs(pass, m, run)
  {
    assert ([m] + run)[1..] == run;
    RunLenPrefix(run, []);
    assert run + [] == run && run[..|run|] == run && run[|run|..] == [];
    assert [m] + run + Stubs(pass, m, run) + [] == [m] + run + Stubs(pass, m, run);
  }

  lemma {:induction false} InjectTail(ms: seq<Message>, m: Message, run: seq<Message>, pass: Pass)
    requires m.role.Assistant? && AllTools(run)
    ensures Inject(ms + ([m] + run), pass) == Inject(ms, pass) + ([m] + run + Stubs(pass, m, run))
    decreases |ms|
  {
    hide Stubs, RunLen;
    var tail, done := [m] + run, [m] + run + Stubs(pass, m, run);
    if ms == [] {
      assert ms + tail == tail && Inject(ms, pass) + done == done;
      InjectOne(m, run, pass);
    } else {
      var rest := ms[1..];
      assert (ms + tail)[1..] == rest + tail && (ms + tail)[0] == ms[0];
      RunLenSnoc(rest, tail);
      var n := RunLen(rest);
      if ms[0].role.Assistant? {
        assert (rest + tail)[..n] == rest[..n] && (rest + tail)[n..] == rest[n..] + tail;
        InjectTail(rest[n..], m, run, pass);
        Regroup([ms[0]] + rest[..n] + Stubs(pass, ms[0], rest[..n]), Inject(rest[n..], pass), done);
      } else {
        InjectTail(rest, m, run, pass);
        Regroup([ms[0]], Inject(rest, pass), done);
      }
    }
  }

  /** An assistant at the end of the transcript gets its rows at the end. */
  lemma RepairedLast(ms: seq<Message>, m: Message)
    requires m.role.Assistant?
    ensures Repaired(ms + [m]) == Repaired(ms) + ([m] + AddedStubs(m, []))
  {
    hide Inject, DropOrphans, Stubs;
    var dropped := DropOrphans(ms, {});
    var asked := Stubs(AskUser, m, []);
    DropSnoc(ms, m, {});
    assert [m] + [] == [m] && [m] + [] + asked == [m] + asked && [] + asked == asked;
    InjectTail(dropped, m, [], AskUser);
    StubsMeaning(AskUser, m, []);
    InjectTail(Inject(dropped, AskUser), m, asked, Interrupted);
    Regroup([m], asked, Stubs(Interrupted, m, asked));
  }
}
