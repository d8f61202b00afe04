/** What the repair passes guarantee, for every transcript whatsoever. */
module RepairTheorems {
  import opened Sequences
  import opened Text
  import opened Transcript
  import opened Repair

  // ---- Segments: a message and the tool rows directly after it ----

  function SegmentEnd(ms: seq<Message>): (e: nat)
    requires ms != []
    ensures 1 <= e <= |ms|
    ensures e < |ms| ==> !ms[e].role.Tool?
  {
    1 + RunLen(ms[1..])
  }

  function Run(ms: seq<Message>): seq<Message>
    requires ms != []
  {
    ms[1..SegmentEnd(ms)]
  }

  function Rest(ms: seq<Message>): (rest: seq<Message>)
    requires ms != []
    ensures |rest| < |ms|
    ensures rest != [] ==> !rest[0].role.Tool?
  {
    ms[SegmentEnd(ms)..]
  }

  predicate AllTools(run: seq<Message>) {
    forall row :: row in run ==> row.role.Tool?
  }

  lemma {:induction false} RunRows(ms: seq<Message>)
    ensures AllTools(ms[..RunLen(ms)])
  {
    if ms != [] && ms[0].role.Tool? {
      RunRows(ms[1..]);
      assert ms[..RunLen(ms)] == [ms[0]] + ms[1..][..RunLen(ms[1..])];
    }
  }

  lemma SegmentParts(ms: seq<Message>)
    requires ms != []
    ensures ms == [ms[0]] + Run(ms) + Rest(ms)
    ensures AllTools(Run(ms))
  {
    RunRows(ms[1..]);
    assert Run(ms) == ms[1..][..RunLen(ms[1..])];
  }

  lemma {:induction false} RunLenPrefix(run: seq<Message>, rest: seq<Message>)
    requires AllTools(run) && (rest == [] || !rest[0].role.Tool?)
    ensures RunLen(run + rest) == |run|
  {
    if run == [] {
      assert run + rest == rest;
    } else {
      assert run[0] in run;
      assert (run + rest)[1..] == run[1..] + rest;
      RunLenPrefix(run[1..], rest);
    }
  }

  lemma SegmentOf(head: Message, run: seq<Message>, rest: seq<Message>)
    requires AllTools(run) && (rest == [] || !rest[0].role.Tool?)
    ensures var ms := [head] + run + rest;
            Run(ms) == run && Rest(ms) == rest
  {
    var ms := [head] + run + rest;
    assert ms[1..] == run + rest;
    RunLenPrefix(run, rest);
  }

  /** Segment by segment: no row comes first, and every row belongs to a call of the segment's head. */
  ghost predicate WellOwned(c: Comparison, ms: seq<Message>)
    decreases |ms|
  {
    ms == [] ||
    (&& !ms[0].role.Tool?
     && (forall row :: row in Run(ms) ==> DeclaredRow(c, ms[0], row))
     && WellOwned(c, Rest(ms)))
  }

  predicate HasAnswerBy(c: Comparison, run: seq<Message>, id: string) {
    if c.Stripped? then HasAnswer(run, id) else HasRaw(run, id)
  }

  /** Segment by segment: every declared call has an answer. */
  ghost predicate Complete(c: Comparison, ms: seq<Message>)
    decreases |ms|
  {
    ms == [] ||
    ((forall id :: DeclaresBy(c, ms[0], id) ==> HasAnswerBy(c, Run(ms), id)) && Complete(c, Rest(ms)))
  }

  /** Segment by segment: every `ask_user` call has a row with the very same, unstripped id. */
  ghost predicate AskComplete(ms: seq<Message>)
    decreases |ms|
  {
    ms == [] ||
    ((forall id :: Asks(ms[0], id) ==> HasRaw(Run(ms), id)) && AskComplete(Rest(ms)))
  }

  // ---- Declarations ----

  lemma NoDeclarations(m: Message)
    ensures !m.role.Assistant? ==> Pairs(m) == []
  {
  }

  lemma DeclaredTrimmed(m: Message, id: string)
    requires Declares(m, id)
    ensures id != "" && Strip(id) == id
  {
    var i :| 0 <= i < |Pairs(m)| && Pairs(m)[i].0 == id;
    assert Pairs(m)[i] in IdNamePairs(m.calls);
  }

  lemma AskDeclares(m: Message, id: string)
    requires Asks(m, id)
    ensures Declares(m, id)
  {
    var i :| 0 <= i < |Pairs(m)| && Pairs(m)[i] == (id, ASK_USER);
  }

  // ---- The stubs a pass adds to one run ----

  predicate IsAskStub(head: Message, run: seq<Message>, row: Message) {
    row.toolCallId.Some? && row == PendingStub(row.toolCallId.value)
    && Asks(head, row.toolCallId.value) && !HasRaw(run, row.toolCallId.value)
  }

  predicate IsInterruptedStub(head: Message, run: seq<Message>, row: Message) {
    row.toolCallId.Some? && row == InterruptedStub(row.toolCallId.value, row.name)
    && Declares(head, row.toolCallId.value) && !HasAnswer(run, row.toolCallId.value)
  }

  lemma {:induction false} AskStubsMeaning(pairs: seq<(string, string)>, run: seq<Message>)
    ensures forall row :: row in AskStubs(pairs, run) <==>
      row.toolCallId.Some? && row == PendingStub(row.toolCallId.value)
      && (row.toolCallId.value, ASK_USER) in pairs && !HasRaw(run, row.toolCallId.value)
  {
    if pairs != [] {
      AskStubsMeaning(pairs[1..], run);
      assert pairs == [pairs[0]] + pairs[1..];
    }
  }

  predicate Names(pairs: seq<(string, string)>, id: string) {
    exists i :: 0 <= i < |pairs| && pairs[i].0 == id
  }

  lemma {:induction false} InterruptedStubsMeaning(pairs: seq<(string, string)>, seen: set<string>, run: seq<Message>)
    ensures forall row :: row in InterruptedStubs(pairs, seen, run) ==>
      row.toolCallId.Some? && row == InterruptedStub(row.toolCallId.value, row.name)
      && Names(pairs, row.toolCallId.value) && row.toolCallId.value !in seen && !HasAnswer(run, row.toolCallId.value)
    ensures forall id :: Names(pairs, id) && id !in seen && !HasAnswer(run, id) ==>
      exists row :: row in InterruptedStubs(pairs, seen, run) && row.toolCallId == Some(id)
  {
    if pairs != [] {
      var id0, name0, rest := pairs[0].0, pairs[0].1, pairs[1..];
      var seen' := seen + {id0};
      InterruptedStubsMeaning(rest, seen', run);
      var out, out' := InterruptedStubs(pairs, seen, run), InterruptedStubs(rest, seen', run);
      forall id | Names(rest, id) ensures Names(pairs, id) {
        var i :| 0 <= i < |rest| && rest[i].0 == id;
        assert pairs[i + 1].0 == id;
      }
      forall id | Names(pairs, id) && id !in seen && !HasAnswer(run, id)
        ensures exists row :: row in out && row.toolCallId == Some(id)
      {
        if id == id0 {
          assert InterruptedStub(id, name0) in out;
        } else {
          var i :| 0 <= i < |pairs| && pairs[i].0 == id;
          assert rest[i - 1].0 == id;
          var row :| row in out' && row.toolCallId == Some(id);
          assert row in out;
        }
      }
    }
  }

  lemma StubsMeaning(pass: Pass, head: Message, run: seq<Message>)
    ensures AllTools(Stubs(pass, head, run))
    ensures forall row :: row in Stubs(pass, head, run) ==>
      if pass.AskUser? then IsAskStub(head, run, row) else IsInterruptedStub(head, run, row)
    ensures pass.AskUser? ==> forall id :: Asks(head, id) && !HasRaw(run, id) ==>
      PendingStub(id) in Stubs(pass, head, run)
    ensures pass.Interrupted? ==> forall id :: Declares(head, id) && !HasAnswer(run, id) ==>
      exists row :: row in Stubs(pass, head, run) && row.toolCallId == Some(id)
  {
    match pass
    case AskUser =>
      AskStubsMeaning(Pairs(head), run);
    case Interrupted =>
      InterruptedStubsMeaning(Pairs(head), {}, run);
      assert forall id :: Names(Pairs(head), id) <==> Declares(head, id);
  }

  lemma NoStubs(pass: Pass, head: Message, run: seq<Message>)
    requires if pass.AskUser? then forall id :: Asks(head, id) ==> HasRaw(run, id)
             else forall id :: Declares(head, id) ==> HasAnswer(run, id)
    ensures Stubs(pass, head, run) == []
  {
    StubsMeaning(pass, head, run);
    EmptyOrMember(Stubs(pass, head, run));
  }

  // ---- Dropping orphans ----

  /** A message that is no tool row starts a segment over the rows that belong to its calls. */
  lemma NewSegment(m: Message, d: seq<Message>)
    requires !m.role.Tool?
    requires forall row :: row in d[..RunLen(d)] ==> row.toolCallId.Some? && Strip(row.toolCallId.value) in DeclaredIds(m)
    requires WellOwned(Stripped, d[RunLen(d)..])
    ensures WellOwned(Stripped, [m] + d)
  {
    hide RunLen, DeclaredIds;
    var ms := [m] + d;
    assert ms[1..] == d;
    assert Run(ms) == d[..RunLen(d)] && Rest(ms) == d[RunLen(d)..];
  }

  lemma {:induction false} DropShape(ms: seq<Message>, open: set<string>)
    ensures var d := DropOrphans(ms, open);
            var n := RunLen(d);
            && (forall row :: row in d[..n] ==> row.toolCallId.Some? && Strip(row.toolCallId.value) in open)
            && WellOwned(Stripped, d[n..])
  {
    hide WellOwned, DeclaredIds;
    if ms != [] {
      var m, d := ms[0], DropOrphans(ms, open);
      var open' := if m.role.Tool? then open else DeclaredIds(m);
      var d' := DropOrphans(ms[1..], open');
      var n' := RunLen(d');
      DropShape(ms[1..], open');
      if !m.role.Tool? {
        NewSegment(m, d');
        assert d == [m] + d' && d[0..] == d;
      } else if d != d' {
        assert d[1..] == d';
        assert d[..1 + n'] == [m] + d'[..n'] && d[1 + n'..] == d'[n'..];
      }
    } else {
      NothingOwned();
    }
  }

  lemma NothingOwned()
    ensures WellOwned(Stripped, [])
  {
  }

  lemma DroppedWellOwned(ms: seq<Message>)
    ensures WellOwned(Stripped, DropOrphans(ms, {}))
  {
    var d := DropOrphans(ms, {});
    DropShape(ms, {});
    EmptyOrMember(d[..RunLen(d)]);
    assert d[0..] == d;
  }

  // ---- One segment through an inserting pass ----

  lemma InjectSegment(ms: seq<Message>, pass: Pass)
    requires ms != [] && WellOwned(Stripped, ms)
    ensures Inject(ms, pass) == [ms[0]] + (Run(ms) + Stubs(pass, ms[0], Run(ms))) + Inject(Rest(ms), pass)
  {
    hide WellOwned, Inject, Stubs, RunLen;
    var e := SegmentEnd(ms);
    OwnedSegment(ms);
    NoStubsWithoutCalls(pass, ms[0], Run(ms));
    InjectUnfold(ms, e, pass);
    Regroup([ms[0]], Run(ms), Stubs(pass, ms[0], Run(ms)));
  }

  lemma NoStubsWithoutCalls(pass: Pass, head: Message, run: seq<Message>)
    ensures !head.role.Assistant? ==> Stubs(pass, head, run) == []
  {
  }

  lemma OwnedSegment(ms: seq<Message>)
    requires ms != [] && WellOwned(Stripped, ms)
    ensures !ms[0].role.Tool? && WellOwned(Stripped, Rest(ms))
    ensures ms[0].role.Assistant? || Run(ms) == []
    ensures forall row :: row in Run(ms) ==> DeclaredRow(Stripped, ms[0], row)
  {
    EmptyOrMember(Run(ms));
  }

  lemma InjectParts(ms: seq<Message>, pass: Pass)
    requires ms != [] && WellOwned(Stripped, ms)
    ensures var out := Inject(ms, pass);
            && out != [] && out[0] == ms[0]
            && Run(out) == Run(ms) + Stubs(pass, ms[0], Run(ms))
            && Rest(out) == Inject(Rest(ms), pass)
  {
    InjectSegment(ms, pass);
    SegmentParts(ms);
    StubsMeaning(pass, ms[0], Run(ms));
    SegmentOf(ms[0], Run(ms) + Stubs(pass, ms[0], Run(ms)), Inject(Rest(ms), pass));
  }

  /** Inserting stubs keeps every row owned. */
  lemma {:induction false} InjectWellOwned(ms: seq<Message>, pass: Pass)
    requires WellOwned(Stripped, ms)
    ensures WellOwned(Stripped, Inject(ms, pass))
    decreases |ms|
  {
    if ms != [] {
      InjectParts(ms, pass);
      InjectWellOwned(Rest(ms), pass);
      var stubs := Stubs(pass, ms[0], Run(ms));
      StubsMeaning(pass, ms[0], Run(ms));
      forall row | row in stubs ensures DeclaredRow(Stripped, ms[0], row) {
        if pass.AskUser? { AskDeclares(ms[0], row.toolCallId.value); }
        DeclaredTrimmed(ms[0], row.toolCallId.value);
      }
    }
  }

  lemma {:induction false} AskPassCompletes(ms: seq<Message>)
    requires WellOwned(Stripped, ms)
    ensures AskComplete(Inject(ms, AskUser))
    decreases |ms|
  {
    if ms != [] {
      InjectParts(ms, AskUser);
      AskPassCompletes(Rest(ms));
      StubsMeaning(AskUser, ms[0], Run(ms));
      forall id | Asks(ms[0], id) ensures HasRaw(Run(ms) + Stubs(AskUser, ms[0], Run(ms)), id) {
        if HasRaw(Run(ms), id) {
          var row :| row in Run(ms) && row.toolCallId == Some(id);
          assert row in Run(ms) + Stubs(AskUser, ms[0], Run(ms));
        } else {
          assert PendingStub(id) in Run(ms) + Stubs(AskUser, ms[0], Run(ms));
        }
      }
    }
  }

  /** The last pass keeps the `ask_user` rows and answers every remaining call. */
  lemma {:induction false} InterruptedPassCompletes(ms: seq<Message>)
    requires WellOwned(Stripped, ms)
    ensures Complete(Stripped, Inject(ms, Interrupted))
    ensures AskComplete(ms) ==> AskComplete(Inject(ms, Interrupted))
    decreases |ms|
  {
    if ms != [] {
      InjectParts(ms, Interrupted);
      InterruptedPassCompletes(Rest(ms));
      var run, stubs := Run(ms), Stubs(Interrupted, ms[0], Run(ms));
      StubsMeaning(Interrupted, ms[0], run);
      forall id | Declares(ms[0], id) ensures HasAnswer(run + stubs, id) {
        DeclaredTrimmed(ms[0], id);
        if HasAnswer(run, id) {
          var row :| row in run && Answers(row, id);
          assert row in run + stubs;
        } else {
          var row :| row in stubs && row.toolCallId == Some(id);
          assert row in run + stubs && Answers(row, id);
        }
      }
      forall id | HasRaw(run, id) ensures HasRaw(run + stubs, id) {
        var row :| row in run && row.toolCallId == Some(id);
        assert row in run + stubs;
      }
    }
  }

  // ---- The segment view and the positional view agree ----

  lemma FirstSegment(ms: seq<Message>, k: int)
    requires ms != []
    ensures 1 <= k < SegmentEnd(ms) ==> ms[k].role.Tool? && ms[k] in Run(ms)
    ensures ms[0].role.Assistant? ==> (InRunOf(ms, 0, k) <==> 1 <= k < SegmentEnd(ms))
  {
    SegmentParts(ms);
    assert forall j :: 1 <= j < SegmentEnd(ms) ==> ms[j] == Run(ms)[j - 1];
  }

  lemma LaterSegments(ms: seq<Message>, h: int, k: int)
    requires ms != [] && SegmentEnd(ms) <= k
    ensures InRunOf(ms, h, k) <==> SegmentEnd(ms) <= h && InRunOf(Rest(ms), h - SegmentEnd(ms), k - SegmentEnd(ms))
  {
    var e := SegmentEnd(ms);
    assert forall j :: e <= j < |ms| ==> ms[j] == Rest(ms)[j - e];
    if e <= h && InRunOf(Rest(ms), h - e, k - e) {
      forall j | h < j <= k ensures ms[j].role.Tool? {
        assert Rest(ms)[j - e].role.Tool?;
      }
    }
  }

  lemma RowOwnedLater(c: Comparison, ms: seq<Message>, k: int)
    requires ms != [] && SegmentEnd(ms) <= k < |ms|
    ensures RowOwned(c, ms, k) <==> RowOwned(c, Rest(ms), k - SegmentEnd(ms))
  {
    hide RunLen;
    var e, rest := SegmentEnd(ms), Rest(ms);
    forall h | InRunOf(ms, h, k) && DeclaredRow(c, ms[h], ms[k])
      ensures RowOwned(c, rest, k - e)
    {
      LaterSegments(ms, h, k);
      assert InRunOf(rest, h - e, k - e) && DeclaredRow(c, rest[h - e], rest[k - e]);
    }
    forall h | InRunOf(rest, h, k - e) && DeclaredRow(c, rest[h], rest[k - e])
      ensures RowOwned(c, ms, k)
    {
      LaterSegments(ms, h + e, k);
      assert InRunOf(ms, h + e, k) && DeclaredRow(c, ms[h + e], ms[k]);
    }
  }

  lemma RowOwnedFirst(c: Comparison, ms: seq<Message>, k: int)
    requires ms != [] && 1 <= k < SegmentEnd(ms)
    ensures ms[k].role.Tool? && ms[k] in Run(ms)
    ensures RowOwned(c, ms, k) <==> DeclaredRow(c, ms[0], ms[k])
  {
    FirstSegment(ms, k);
    NoDeclarations(ms[0]);
    forall h | InRunOf(ms, h, k) ensures h == 0 {
      FirstSegment(ms, h);
    }
    if DeclaredRow(c, ms[0], ms[k]) {
      assert InRunOf(ms, 0, k);
    }
  }

  ghost predicate AllRowsOwned(c: Comparison, ms: seq<Message>) {
    forall k :: 0 <= k < |ms| && ms[k].role.Tool? ==> RowOwned(c, ms, k)
  }

  lemma FirstNotOwned(c: Comparison, ms: seq<Message>)
    requires ms != []
    ensures !RowOwned(c, ms, 0)
  {
  }

  lemma AllRowsOwnedBySegment(c: Comparison, ms: seq<Message>)
    requires ms != []
    ensures AllRowsOwned(c, ms) <==>
      && !ms[0].role.Tool?
      && (forall row :: row in Run(ms) ==> DeclaredRow(c, ms[0], row))
      && AllRowsOwned(c, Rest(ms))
  {
    hide RunLen, RowOwned, DeclaredRow;
    var e, run, rest := SegmentEnd(ms), Run(ms), Rest(ms);
    FirstNotOwned(c, ms);
    forall k | 1 <= k < e ensures ms[k].role.Tool? && ms[k] in run && (RowOwned(c, ms, k) <==> DeclaredRow(c, ms[0], ms[k])) {
      RowOwnedFirst(c, ms, k);
    }
    forall k | e <= k < |ms| ensures RowOwned(c, ms, k) <==> RowOwned(c, rest, k - e) {
      RowOwnedLater(c, ms, k);
    }
    if AllRowsOwned(c, ms) {
      forall k | 0 <= k < |rest| && rest[k].role.Tool? ensures RowOwned(c, rest, k) {
        assert RowOwned(c, ms, k + e);
      }
      forall row | row in run ensures DeclaredRow(c, ms[0], row) {
        var k :| 0 <= k < |run| && run[k] == row;
        assert RowOwned(c, ms, k + 1);
      }
    }
  }

  lemma {:induction false} WellOwnedByPosition(c: Comparison, ms: seq<Message>)
    ensures WellOwned(c, ms) <==> AllRowsOwned(c, ms)
    decreases |ms|
  {
    if ms != [] {
      AllRowsOwnedBySegment(c, ms);
      WellOwnedByPosition(c, Rest(ms));
    }
  }

  lemma CallAnsweredLater(c: Comparison, ms: seq<Message>, h: int, id: string)
    requires ms != [] && SegmentEnd(ms) <= h < |ms|
    ensures CallAnswered(c, ms, h, id) <==> CallAnswered(c, Rest(ms), h - SegmentEnd(ms), id)
  {
    hide RunLen, AnswersBy;
    var e, rest := SegmentEnd(ms), Rest(ms);
    if CallAnswered(c, ms, h, id) {
      var k :| InRunOf(ms, h, k) && AnswersBy(c, ms[k], id);
      LaterSegments(ms, h, k);
      assert InRunOf(rest, h - e, k - e) && AnswersBy(c, rest[k - e], id);
    }
    if CallAnswered(c, rest, h - e, id) {
      var k :| InRunOf(rest, h - e, k) && AnswersBy(c, rest[k], id);
      LaterSegments(ms, h, k + e);
      assert InRunOf(ms, h, k + e) && AnswersBy(c, ms[k + e], id);
    }
  }

  lemma AnswerInRun(c: Comparison, run: seq<Message>, id: string)
    requires AllTools(run)
    ensures HasAnswerBy(c, run, id) <==> exists row :: row in run && AnswersBy(c, row, id)
  {
  }

  lemma CallAnsweredFirst(c: Comparison, ms: seq<Message>, id: string)
    requires ms != [] && DeclaresBy(c, ms[0], id)
    ensures CallAnswered(c, ms, 0, id) <==> HasAnswerBy(c, Run(ms), id)
  {
    SegmentParts(ms);
    AnswerInRun(c, Run(ms), id);
    NoDeclarations(ms[0]);
    if CallAnswered(c, ms, 0, id) {
      var k :| InRunOf(ms, 0, k) && AnswersBy(c, ms[k], id);
      FirstSegment(ms, k);
      assert ms[k] in Run(ms);
    }
    if HasAnswerBy(c, Run(ms), id) {
      var row :| row in Run(ms) && AnswersBy(c, row, id);
      var k :| 0 <= k < |Run(ms)| && Run(ms)[k] == row;
      FirstSegment(ms, k + 1);
      assert InRunOf(ms, 0, k + 1) && AnswersBy(c, ms[k + 1], id);
    }
  }

  lemma OnlyAssistantsDeclare(c: Comparison, m: Message, id: string)
    ensures DeclaresBy(c, m, id) ==> m.role.Assistant?
  {
  }

  ghost predicate AllCallsAnswered(c: Comparison, ms: seq<Message>) {
    forall h, id :: 0 <= h < |ms| && DeclaresBy(c, ms[h], id) ==> CallAnswered(c, ms, h, id)
  }

  lemma AllCallsAnsweredBySegment(c: Comparison, ms: seq<Message>)
    requires ms != []
    ensures AllCallsAnswered(c, ms) <==>
      && (forall id :: DeclaresBy(c, ms[0], id) ==> HasAnswerBy(c, Run(ms), id))
      && AllCallsAnswered(c, Rest(ms))
  {
    hide RunLen, CallAnswered, DeclaresBy, HasAnswerBy;
    var e, rest := SegmentEnd(ms), Rest(ms);
    forall h, id | e <= h < |ms| ensures CallAnswered(c, ms, h, id) <==> CallAnswered(c, rest, h - e, id) {
      CallAnsweredLater(c, ms, h, id);
    }
    forall id | DeclaresBy(c, ms[0], id) ensures CallAnswered(c, ms, 0, id) <==> HasAnswerBy(c, Run(ms), id) {
      CallAnsweredFirst(c, ms, id);
    }
    forall h, id | 1 <= h < e ensures !DeclaresBy(c, ms[h], id) {
      FirstSegment(ms, h);
      OnlyAssistantsDeclare(c, ms[h], id);
    }
    if AllCallsAnswered(c, ms) {
      forall h, id | 0 <= h < |rest| && DeclaresBy(c, rest[h], id) ensures CallAnswered(c, rest, h, id) {
        assert CallAnswered(c, ms, h + e, id);
      }
    }
  }

  lemma {:induction false} CompleteByPosition(c: Comparison, ms: seq<Message>)
    ensures Complete(c, ms) <==> AllCallsAnswered(c, ms)
    decreases |ms|
  {
    hide CallAnswered, DeclaresBy, HasAnswerBy;
    if ms != [] {
      AllCallsAnsweredBySegment(c, ms);
      CompleteByPosition(c, Rest(ms));
    }
  }

  // ---- Main results: the repaired transcript is valid ----

  /** Whatever the transcript was, the three passes in order pair up its rows and calls, comparing stripped ids. */
  lemma RepairedIsValid(ms: seq<Message>)
    ensures ProviderValid(Stripped, Repaired(ms))
    ensures AskComplete(Repaired(ms))
  {
    var dropped := DropOrphans(ms, {});
    var asked := Inject(dropped, AskUser);
    DroppedWellOwned(ms);
    InjectWellOwned(dropped, AskUser);
    AskPassCompletes(dropped);
    InjectWellOwned(asked, Interrupted);
    InterruptedPassCompletes(asked);
    WellOwnedByPosition(Stripped, Repaired(ms));
    CompleteByPosition(Stripped, Repaired(ms));
  }

  // ---- Nothing is lost ----

  /** From position `i` on: the messages that are no tool row, and the tool rows that have an owner. */
  ghost function OwnedFrom(ms: seq<Message>, i: nat): seq<Message>
    requires i <= |ms|
    decreases |ms| - i
  {
    if i == |ms| then []
    else if ms[i].role.Tool? && !RowOwned(Stripped, ms, i) then OwnedFrom(ms, i + 1)
    else [ms[i]] + OwnedFrom(ms, i + 1)
  }

  /** The assistant at `h` is the one whose run position `i` would continue. */
  predicate OpenHead(ms: seq<Message>, h: int, i: int) {
    && 0 <= h < i <= |ms|
    && ms[h].role.Assistant?
    && forall j :: h < j < i ==> ms[j].role.Tool?
  }

  ghost predicate OpenAt(ms: seq<Message>, i: int, open: set<string>) {
    forall id :: id in open <==> exists h :: OpenHead(ms, h, i) && Declares(ms[h], id)
  }

  lemma OpenAtNext(ms: seq<Message>, i: nat, open: set<string>)
    requires i < |ms| && OpenAt(ms, i, open)
    ensures OpenAt(ms, i + 1, if ms[i].role.Tool? then open else DeclaredIds(ms[i]))
  {
    var next := i + 1;
    if ms[i].role.Tool? {
      forall h ensures OpenHead(ms, h, i) <==> OpenHead(ms, h, next) {}
    } else {
      NoDeclarations(ms[i]);
      forall h ensures OpenHead(ms, h, next) <==> h == i && ms[i].role.Assistant? {}
    }
  }

  lemma {:induction false} DropKeepsOwnedFrom(ms: seq<Message>, i: nat, open: set<string>)
    requires i <= |ms| && OpenAt(ms, i, open)
    ensures DropOrphans(ms[i..], open) == OwnedFrom(ms, i)
    decreases |ms| - i
  {
    if i < |ms| {
      var rest := ms[i..];
      assert rest[0] == ms[i] && rest[1..] == ms[i + 1..];
      OpenAtNext(ms, i, open);
      DropKeepsOwnedFrom(ms, i + 1, if ms[i].role.Tool? then open else DeclaredIds(ms[i]));
      if ms[i].role.Tool? {
        assert RowOwned(Stripped, ms, i) <==> ms[i].toolCallId.Some? && Strip(ms[i].toolCallId.value) in open by {
          forall h ensures OpenHead(ms, h, i) <==> InRunOf(ms, h, i) {}
        }
      }
    }
  }

  /** The first pass keeps, in order, exactly the non-tool messages and the owned tool rows. */
  lemma DropKeepsExactlyOwned(ms: seq<Message>)
    ensures DropOrphans(ms, {}) == OwnedFrom(ms, 0)
  {
    assert ms[0..] == ms;
    assert OpenAt(ms, 0, {});
    DropKeepsOwnedFrom(ms, 0, {});
  }

  /** `row` is a stub the repair may add to the run of `head`: an unanswered `ask_user`
      call only ever gets the pending placeholder, any other the interrupted one. */
  predicate JustifiedStub(head: Message, run: seq<Message>, row: Message) {
    || IsAskStub(head, run, row)
    || (IsInterruptedStub(head, run, row) && !Asks(head, row.toolCallId.value))
  }

  predicate AllJustified(head: Message, run: seq<Message>, stubs: seq<Message>) {
    forall row :: row in stubs ==> JustifiedStub(head, run, row)
  }

  /** `out` is `base` with justified stubs added at the end of runs, and nothing else. */
  ghost predicate ExtendsRuns(base: seq<Message>, out: seq<Message>)
    decreases |base|
  {
    if base == [] then out == []
    else
      && out != []
      && out[0] == base[0]
      && Run(base) <= Run(out)
      && AllJustified(base[0], Run(base), Run(out)[|Run(base)|..])
      && ExtendsRuns(Rest(base), Rest(out))
  }

  /** Everything both inserting passes add to the run of `head`. */
  function AddedStubs(head: Message, run: seq<Message>): seq<Message> {
    var pending := Stubs(AskUser, head, run);
    pending + Stubs(Interrupted, head, run + pending)
  }

  lemma AddedStubsJustified(head: Message, run: seq<Message>)
    requires AllTools(run)
    ensures AllJustified(head, run, AddedStubs(head, run))
  {
    StubsMeaning(AskUser, head, run);
    forall row | row in Stubs(Interrupted, head, run + Stubs(AskUser, head, run))
      ensures IsInterruptedStub(head, run, row) && !Asks(head, row.toolCallId.value)
    {
      LateStubJustified(head, run, row);
    }
  }

  lemma LateStubJustified(head: Message, run: seq<Message>, row: Message)
    requires AllTools(run)
    requires row in Stubs(Interrupted, head, run + Stubs(AskUser, head, run))
    ensures IsInterruptedStub(head, run, row) && !Asks(head, row.toolCallId.value)
  {
    var run' := run + Stubs(AskUser, head, run);
    StubsMeaning(AskUser, head, run);
    StubsMeaning(Interrupted, head, run');
    var id := row.toolCallId.value;
    DeclaredTrimmed(head, id);
    assert forall r :: r in run ==> r in run';
    if Asks(head, id) {
      AskedIsAnswered(head, run, id);
    }
  }

  lemma AskedIsAnswered(head: Message, run: seq<Message>, id: string)
    requires AllTools(run) && Asks(head, id)
    ensures HasAnswer(run + Stubs(AskUser, head, run), id)
  {
    var run' := run + Stubs(AskUser, head, run);
    AskDeclares(head, id);
    DeclaredTrimmed(head, id);
    StubsMeaning(AskUser, head, run);
    if HasRaw(run, id) {
      var r :| r in run && r.toolCallId == Some(id);
      assert r in run' && Answers(r, id);
    } else {
      assert PendingStub(id) in run' && Answers(PendingStub(id), id);
    }
  }

  lemma TwoPasses(base: seq<Message>)
    requires base != [] && WellOwned(Stripped, base)
    ensures var out := Inject(Inject(base, AskUser), Interrupted);
            && out != [] && out[0] == base[0]
            && Run(out) == Run(base) + AddedStubs(base[0], Run(base))
            && Rest(out) == Inject(Inject(Rest(base), AskUser), Interrupted)
  {
    hide WellOwned, Inject, Stubs, RunLen;
    InjectParts(base, AskUser);
    InjectWellOwned(base, AskUser);
    InjectParts(Inject(base, AskUser), Interrupted);
    Regroup(Run(base), Stubs(AskUser, base[0], Run(base)),
      Stubs(Interrupted, base[0], Run(base) + Stubs(AskUser, base[0], Run(base))));
  }

  lemma {:induction false} RepairOnlyAddsStubs(base: seq<Message>)
    requires WellOwned(Stripped, base)
    ensures ExtendsRuns(base, Inject(Inject(base, AskUser), Interrupted))
    decreases |base|
  {
    if base != [] {
      TwoPasses(base);
      RepairOnlyAddsStubs(Rest(base));
      SegmentParts(base);
      AddedStubsJustified(base[0], Run(base));
      assert (Run(base) + AddedStubs(base[0], Run(base)))[|Run(base)|..] == AddedStubs(base[0], Run(base));
    }
  }

  /** Every non-tool message and every owned tool row survives in order; the rest of the result is justified stubs. */
  lemma RepairPreserves(ms: seq<Message>)
    ensures ExtendsRuns(OwnedFrom(ms, 0), Repaired(ms))
  {
    DroppedWellOwned(ms);
    DropKeepsExactlyOwned(ms);
    RepairOnlyAddsStubs(DropOrphans(ms, {}));
  }

  // ---- When the repair has nothing to do ----

  lemma {:induction false} DropIdleRun(run: seq<Message>, rest: seq<Message>, open: set<string>)
    requires AllTools(run)
    requires forall row :: row in run ==> row.toolCallId.Some? && Strip(row.toolCallId.value) in open
    ensures DropOrphans(run + rest, open) == run + DropOrphans(rest, open)
  {
    if run == [] {
      assert run + rest == rest;
    } else {
      assert run[0] in run;
      assert run + rest == [run[0]] + (run[1..] + rest);
      DropIdleRun(run[1..], rest, open);
    }
  }

  lemma OwnedRowsOpen(ms: seq<Message>)
    requires ms != [] && WellOwned(Stripped, ms)
    ensures forall row :: row in Run(ms) ==> row.toolCallId.Some? && Strip(row.toolCallId.value) in DeclaredIds(ms[0])
  {
    OwnedSegment(ms);
  }

  lemma DropIdleSegment(ms: seq<Message>, open: set<string>)
    requires ms != [] && WellOwned(Stripped, ms)
    ensures DropOrphans(ms, open) == [ms[0]] + Run(ms) + DropOrphans(Rest(ms), DeclaredIds(ms[0]))
  {
    hide WellOwned, DeclaredRow, DeclaredIds, Strip, RunLen, SegmentEnd;
    OwnedSegment(ms);
    OwnedRowsOpen(ms);
    SegmentParts(ms);
    DropIdleRun(Run(ms), Rest(ms), DeclaredIds(ms[0]));
    assert ms[1..] == Run(ms) + Rest(ms);
    Regroup([ms[0]], Run(ms), DropOrphans(Rest(ms), DeclaredIds(ms[0])));
  }

  lemma {:induction false} DropIdle(ms: seq<Message>, open: set<string>)
    requires WellOwned(Stripped, ms)
    ensures DropOrphans(ms, open) == ms
    decreases |ms|
  {
    hide WellOwned, DeclaredIds, RunLen;
    if ms != [] {
      OwnedSegment(ms);
      SegmentParts(ms);
      DropIdle(Rest(ms), DeclaredIds(ms[0]));
      DropIdleSegment(ms, open);
    }
  }

  lemma NothingMissing(ms: seq<Message>)
    requires ms != []
    ensures Complete(Stripped, ms) ==> forall id :: Declares(ms[0], id) ==> HasAnswer(Run(ms), id)
  {
    assert forall id :: DeclaresBy(Stripped, ms[0], id) <==> Declares(ms[0], id);
    assert forall id :: HasAnswerBy(Stripped, Run(ms), id) <==> HasAnswer(Run(ms), id);
  }

  lemma {:induction false} InjectIdle(ms: seq<Message>, pass: Pass)
    requires WellOwned(Stripped, ms)
    requires if pass.AskUser? then AskComplete(ms) else Complete(Stripped, ms)
    ensures Inject(ms, pass) == ms
    decreases |ms|
  {
    if ms != [] {
      InjectSegment(ms, pass);
      InjectIdle(Rest(ms), pass);
      NothingMissing(ms);
      NoStubs(pass, ms[0], Run(ms));
      SegmentParts(ms);
      assert Run(ms) + [] == Run(ms);
    }
  }

  /** Exactly the transcripts that are valid with stripped ids, and whose `ask_user` answers carry the stripped id,
      pass through untouched. */
  lemma RepairIdleExactly(ms: seq<Message>)
    ensures Repaired(ms) == ms <==> ProviderValid(Stripped, ms) && AskComplete(ms)
  {
    RepairedIsValid(ms);
    WellOwnedByPosition(Stripped, ms);
    CompleteByPosition(Stripped, ms);
    if ProviderValid(Stripped, ms) && AskComplete(ms) {
      DropIdle(ms, {});
      InjectIdle(ms, AskUser);
      InjectIdle(ms, Interrupted);
    }
  }

  /** A second repair changes nothing. */
  lemma RepairIdempotent(ms: seq<Message>)
    ensures Repaired(Repaired(ms)) == Repaired(ms)
  {
    RepairedIsValid(ms);
    RepairIdleExactly(Repaired(ms));
  }

  /** A transcript that is valid with stripped ids and is still changed: the answer's id carries a space. */
  lemma ValidButRepaired()
    ensures exists ms :: ProviderValid(Stripped, ms) && Repaired(ms) != ms
  {
    var ask := Message(Assistant, "", [Block(Some("a"), ASK_USER, "", "{}")], None, "");
    var row := Message(Tool, "yes", [], Some("a "), ASK_USER);
    var ms := [ask, row];
    assert Strip("a") == "a" && Strip("a ") == "a" by {
      assert StripLeft("a ") == "a " && "a "[..1] == "a";
    }
    assert IdNamePairs(ask.calls) == [("a", ASK_USER)];
    assert Pairs(ask)[0].0 == "a";
    assert InRunOf(ms, 0, 1) && DeclaredRow(Stripped, ms[0], ms[1]);
    assert forall id :: Declares(ask, id) ==> id == "a";
    assert Answers(ms[1], "a");
    assert CallAnswered(Stripped, ms, 0, "a");
    assert ProviderValid(Stripped, ms);
    assert ms[1..] == [row] && RunLen([row]) == 1;
    assert Run(ms) == [row];
    assert Asks(ask, "a") && !HasRaw([row], "a");
    assert !AskComplete(ms);
    RepairIdleExactly(ms);
  }
}
