/** The repaired transcript before a reader that compares ids as they are sent. */
module ExactIds {
  import opened Sequences
  import opened Text
  import opened Transcript
  import opened Repair
  import opened RepairTheorems

  /** The ids the repaired run carries: those of its kept rows and those of the stubs it is given. */
  predicate Carries(head: Message, run: seq<Message>, id: string) {
    HasRaw(run, id) || (Declares(head, id) && (Asks(head, id) || !HasAnswer(run, id)))
  }

  /** Those ids are the ones the assistant sent. */
  ghost predicate IdsMatch(head: Message, run: seq<Message>) {
    forall id :: Carries(head, run, id) <==> Sends(head, id)
  }

  ghost predicate AllMatch(ms: seq<Message>)
    decreases |ms|
  {
    ms == [] || (IdsMatch(ms[0], Run(ms)) && AllMatch(Rest(ms)))
  }

  lemma RawStaysRaw(a: seq<Message>, b: seq<Message>, id: string)
    ensures HasRaw(a + b, id) <==> HasRaw(a, id) || HasRaw(b, id)
    ensures HasAnswer(a + b, id) <==> HasAnswer(a, id) || HasAnswer(b, id)
  {
    assert forall row :: row in a + b <==> row in a || row in b;
  }

  lemma AskStubIds(head: Message, run: seq<Message>, id: string)
    ensures HasRaw(Stubs(AskUser, head, run), id) <==> Asks(head, id) && !HasRaw(run, id)
    ensures HasAnswer(Stubs(AskUser, head, run), id) <==> Asks(head, id) && !HasRaw(run, id)
  {
    var stubs := Stubs(AskUser, head, run);
    StubsMeaning(AskUser, head, run);
    if Asks(head, id) && !HasRaw(run, id) {
      assert PendingStub(id) in stubs;
      AskDeclares(head, id);
      DeclaredTrimmed(head, id);
      assert Answers(PendingStub(id), id);
    }
    if HasAnswer(stubs, id) {
      var row :| row in stubs && Answers(row, id);
      AskDeclares(head, row.toolCallId.value);
      DeclaredTrimmed(head, row.toolCallId.value);
    }
  }

  lemma InterruptedStubIds(head: Message, run: seq<Message>, id: string)
    ensures HasRaw(Stubs(Interrupted, head, run), id) <==> Declares(head, id) && !HasAnswer(run, id)
  {
    StubsMeaning(Interrupted, head, run);
  }

  lemma AddedIds(head: Message, run: seq<Message>, id: string)
    ensures HasRaw(run + AddedStubs(head, run), id) <==> Carries(head, run, id)
  {
    hide Stubs, HasRaw, HasAnswer, Asks, Declares;
    var asked := Stubs(AskUser, head, run);
    RawStaysRaw(run, AddedStubs(head, run), id);
    RawStaysRaw(asked, Stubs(Interrupted, head, run + asked), id);
    AskStubIds(head, run, id);
    InterruptedStubIds(head, run + asked, id);
    RawStaysRaw(run, asked, id);
    AskedDeclared(head, id);
  }

  lemma AskedDeclared(head: Message, id: string)
    ensures Asks(head, id) ==> Declares(head, id)
  {
    if Asks(head, id) {
      AskDeclares(head, id);
    }
  }

  /** One segment of the result is paired up, comparing ids as sent, exactly if its ids match. */
  lemma SegmentExactly(head: Message, run: seq<Message>)
    requires AllTools(run) && forall row :: row in run ==> DeclaredRow(Stripped, head, row)
    ensures var out := run + AddedStubs(head, run);
            && (forall row :: row in out ==> DeclaredRow(AsSent, head, row))
            && (forall id :: DeclaresBy(AsSent, head, id) ==> HasAnswerBy(AsSent, out, id))
            <==> IdsMatch(head, run)
  {
    hide Stubs, Carries, AddedStubs, Declares, Sends;
    var out := run + AddedStubs(head, run);
    forall id ensures HasRaw(out, id) <==> Carries(head, run, id) {
      AddedIds(head, run, id);
    }
    AddedHaveIds(head, run);
    assert forall row :: row in out ==> row.toolCallId.Some? && HasRaw(out, row.toolCallId.value);
    if forall row :: row in out ==> DeclaredRow(AsSent, head, row) {
      forall id | HasRaw(out, id) ensures Sends(head, id) {
        var row :| row in out && row.toolCallId == Some(id);
        assert DeclaredRow(AsSent, head, row);
      }
    }
    if forall id :: DeclaresBy(AsSent, head, id) ==> HasAnswerBy(AsSent, out, id) {
      forall id | Sends(head, id) ensures HasRaw(out, id) {
        assert DeclaresBy(AsSent, head, id);
        assert HasAnswerBy(AsSent, out, id);
      }
    }
  }

  lemma AddedHaveIds(head: Message, run: seq<Message>)
    ensures forall row :: row in AddedStubs(head, run) ==> row.toolCallId.Some?
  {
    StubsMeaning(AskUser, head, run);
    StubsMeaning(Interrupted, head, run + Stubs(AskUser, head, run));
  }

  lemma {:induction false} PassesMatch(base: seq<Message>)
    requires WellOwned(Stripped, base)
    ensures var out := Inject(Inject(base, AskUser), Interrupted);
            WellOwned(AsSent, out) && Complete(AsSent, out) <==> AllMatch(base)
    decreases |base|
  {
    hide Inject, AddedStubs, IdsMatch, DeclaredRow, DeclaresBy, HasAnswerBy, RunLen;
    if base != [] {
      TwoPasses(base);
      OwnedSegment(base);
      SegmentParts(base);
      PassesMatch(Rest(base));
      SegmentExactly(base[0], Run(base));
    } else {
      InjectNothing();
    }
  }

  lemma InjectNothing()
    ensures Inject(Inject([], AskUser), Interrupted) == []
  {
  }

  /** The repaired transcript is acceptable to a reader that compares ids as sent exactly if, in every kept
      segment, the ids of rows and stubs together are those the assistant sent. */
  lemma RepairedValidAsSent(ms: seq<Message>)
    ensures ProviderValid(AsSent, Repaired(ms)) <==> AllMatch(OwnedFrom(ms, 0))
  {
    hide Inject, AllMatch, WellOwned, Complete, DropOrphans;
    DroppedWellOwned(ms);
    DropKeepsExactlyOwned(ms);
    PassesMatch(DropOrphans(ms, {}));
    WellOwnedByPosition(AsSent, Repaired(ms));
    CompleteByPosition(AsSent, Repaired(ms));
  }

  // ---- Ids without outer white space ----

  /** No id of the message carries outer white space, and no declared one is empty. */
  predicate IdsTrimmed(m: Message) {
    && (m.toolCallId.Some? ==> Trimmed(m.toolCallId.value))
    && forall b :: b in m.calls && b.Block? && b.id.Some? ==> Trimmed(b.id.value) && b.id.value != ""
  }

  predicate AllTrimmed(ms: seq<Message>) {
    forall m :: m in ms ==> IdsTrimmed(m)
  }

  predicate SentIn(calls: seq<Block>, id: string) {
    exists b :: b in calls && b.Block? && b.id == Some(id)
  }

  predicate ListedIn(pairs: seq<(string, string)>, id: string) {
    exists i :: 0 <= i < |pairs| && pairs[i].0 == id
  }

  /** What the passes take for declared ids are the stripped forms, if any is left, of those sent. */
  lemma {:induction false} ListedExactly(calls: seq<Block>, id: string)
    ensures ListedIn(IdNamePairs(calls), id) <==> id != "" && exists sent :: SentIn(calls, sent) && Strip(sent) == id
  {
    if calls != [] {
      var b, rest := calls[0], calls[1..];
      ListedExactly(rest, id);
      forall sent ensures SentIn(calls, sent) <==> (b.Block? && b.id == Some(sent)) || SentIn(rest, sent) {
        assert forall x :: x in calls <==> x == b || x in rest;
      }
      var tail := IdNamePairs(rest);
      if IdNamePairs(calls) != tail {
        var pair := IdNamePairs(calls)[0];
        assert IdNamePairs(calls) == [pair] + tail;
        ListedCons(pair, tail, id);
        assert SentIn(calls, b.id.value);
      }
    }
  }

  lemma ListedCons(pair: (string, string), tail: seq<(string, string)>, id: string)
    ensures ListedIn([pair] + tail, id) <==> pair.0 == id || ListedIn(tail, id)
  {
    var all := [pair] + tail;
    if i :| 0 <= i < |tail| && tail[i].0 == id {
      assert all[i + 1].0 == id;
    }
    if pair.0 == id {
      assert all[0].0 == id;
    }
  }

  lemma DeclaredIsSent(m: Message, id: string)
    ensures Declares(m, id) <==> id != "" && exists sent :: Sends(m, sent) && Strip(sent) == id
  {
    hide Strip, IdNamePairs;
    if m.role.Assistant? {
      ListedExactly(m.calls, id);
      assert Declares(m, id) <==> ListedIn(Pairs(m), id);
      assert forall sent :: Sends(m, sent) <==> SentIn(m.calls, sent);
    }
  }

  lemma TrimmedDeclares(m: Message, id: string)
    requires IdsTrimmed(m)
    ensures Declares(m, id) <==> Sends(m, id)
  {
    DeclaredIsSent(m, id);
    forall sent | Sends(m, sent) ensures Strip(sent) == sent && sent != "" {
    }
  }

  lemma TrimmedAnswers(run: seq<Message>, id: string)
    requires AllTrimmed(run) && AllTools(run)
    ensures HasAnswer(run, id) <==> HasRaw(run, id)
  {
    forall row | row in run ensures Answers(row, id) <==> row.toolCallId == Some(id) {
    }
  }

  lemma {:induction false} TrimmedMatch(ms: seq<Message>)
    requires WellOwned(Stripped, ms) && AllTrimmed(ms)
    ensures AllMatch(ms)
    decreases |ms|
  {
    hide WellOwned, Sends, Declares, HasAnswer, HasRaw, IdsTrimmed, RunLen;
    if ms != [] {
      OwnedSegment(ms);
      SegmentParts(ms);
      var head, run := ms[0], Run(ms);
      forall m | m in run || m in Rest(ms) || m == head ensures m in ms {
      }
      TrimmedMatch(Rest(ms));
      forall id ensures Carries(head, run, id) <==> Sends(head, id) {
        TrimmedDeclares(head, id);
        TrimmedAnswers(run, id);
        RawIsDeclared(head, run, id);
      }
    }
  }

  lemma RawIsDeclared(head: Message, run: seq<Message>, id: string)
    requires AllTrimmed(run) && forall row :: row in run ==> DeclaredRow(Stripped, head, row)
    ensures HasRaw(run, id) ==> Declares(head, id)
  {
    if HasRaw(run, id) {
      var row :| row in run && row.toolCallId == Some(id);
      assert IdsTrimmed(row);
    }
  }

  lemma {:induction false} OwnedMembers(ms: seq<Message>, i: nat, m: Message)
    requires i <= |ms|
    ensures m in OwnedFrom(ms, i) ==> m in ms
    ensures m in ms[i..] && !m.role.Tool? ==> m in OwnedFrom(ms, i)
    decreases |ms| - i
  {
    hide RowOwned;
    if i < |ms| {
      OwnedMembers(ms, i + 1, m);
      assert ms[i..] == [ms[i]] + ms[i + 1..];
    }
  }

  /** Without white space around ids the repaired transcript is acceptable also as sent. */
  lemma TrimmedValidAsSent(ms: seq<Message>)
    requires AllTrimmed(OwnedFrom(ms, 0))
    ensures ProviderValid(AsSent, Repaired(ms))
  {
    DroppedWellOwned(ms);
    DropKeepsExactlyOwned(ms);
    TrimmedMatch(OwnedFrom(ms, 0));
    RepairedValidAsSent(ms);
  }

  // ---- What the repair does to a transcript that was acceptable as sent ----

  predicate Repairable(m: Message, id: string) {
    && (Sends(m, id) ==> Strip(id) != "")
    && (Asks(m, id) ==> Sends(m, id))
  }

  /** No id sent is blank, and every `ask_user` call was sent under its stripped id. */
  ghost predicate RepairableIds(ms: seq<Message>) {
    forall m, id :: m in ms ==> Repairable(m, id)
  }

  lemma {:induction false} MatchMeansRepairable(ms: seq<Message>, m: Message, id: string)
    requires WellOwned(Stripped, ms) && AllMatch(ms) && m in ms
    ensures Repairable(m, id)
    decreases |ms|
  {
    hide WellOwned, Sends, Asks, Declares, RunLen, HasAnswer;
    OwnedSegment(ms);
    SegmentParts(ms);
    var head, run := ms[0], Run(ms);
    assert m == head || m in run || m in Rest(ms);
    if m in Rest(ms) {
      MatchMeansRepairable(Rest(ms), m, id);
    } else if m == head {
      AskedDeclared(head, id);
      CarriedNotBlank(head, run, id);
    } else {
      ToolsDeclareNothing(m, id);
    }
  }

  lemma CarriedNotBlank(head: Message, run: seq<Message>, id: string)
    requires forall row :: row in run ==> DeclaredRow(Stripped, head, row)
    ensures Carries(head, run, id) ==> Strip(id) != ""
  {
    if HasRaw(run, id) {
      var row :| row in run && row.toolCallId == Some(id);
      DeclaredTrimmed(head, Strip(id));
    } else if Declares(head, id) {
      DeclaredTrimmed(head, id);
    }
  }

  lemma ToolsDeclareNothing(m: Message, id: string)
    ensures m.role.Tool? ==> !Sends(m, id) && !Asks(m, id)
  {
  }

  /** As sent, an acceptable transcript is acceptable after stripping too, unless a blank id was sent. */
  lemma {:induction false} SentIsStripped(ms: seq<Message>)
    requires WellOwned(AsSent, ms) && Complete(AsSent, ms)
    requires RepairableIds(ms)
    ensures WellOwned(Stripped, ms) && Complete(Stripped, ms) && AskComplete(ms)
    decreases |ms|
  {
    hide Sends, Asks, RunLen, Strip;
    if ms != [] {
      var head, run := ms[0], Run(ms);
      SegmentParts(ms);
      forall m | m in Rest(ms) ensures m in ms {
      }
      SentIsStripped(Rest(ms));
      assert forall id :: Repairable(head, id);
      assert forall id :: DeclaresBy(AsSent, head, id) ==> HasAnswerBy(AsSent, run, id);
      SegmentStripped(head, run);
    }
  }

  lemma SegmentStripped(head: Message, run: seq<Message>)
    requires AllTools(run) && forall row :: row in run ==> DeclaredRow(AsSent, head, row)
    requires forall id :: DeclaresBy(AsSent, head, id) ==> HasAnswerBy(AsSent, run, id)
    requires forall id :: Repairable(head, id)
    ensures forall row :: row in run ==> DeclaredRow(Stripped, head, row)
    ensures forall id :: DeclaresBy(Stripped, head, id) ==> HasAnswerBy(Stripped, run, id)
    ensures forall id :: Asks(head, id) ==> HasRaw(run, id)
  {
    hide Sends, Asks, Strip, Declares;
    assert forall id :: Repairable(head, id) && (Sends(head, id) ==> DeclaresBy(AsSent, head, id) && HasAnswerBy(AsSent, run, id));
    forall id | Asks(head, id) ensures HasRaw(run, id) {
      assert Repairable(head, id);
    }
    forall row | row in run ensures DeclaredRow(Stripped, head, row) {
      DeclaredIsSent(head, Strip(row.toolCallId.value));
    }
    forall id | Declares(head, id) ensures HasAnswer(run, id) {
      DeclaredIsSent(head, id);
      var sent :| Sends(head, sent) && Strip(sent) == id;
      var row :| row in run && row.toolCallId == Some(sent);
      assert Answers(row, id);
    }
  }

  /** A transcript that was acceptable as sent stays so exactly if the repair leaves it alone, and that is the
      case exactly if no blank id was sent and every `ask_user` call was sent under its stripped id. */
  lemma AcceptedAsSentExactly(ms: seq<Message>)
    requires ProviderValid(AsSent, ms)
    ensures ProviderValid(AsSent, Repaired(ms)) <==> Repaired(ms) == ms
    ensures Repaired(ms) == ms <==> RepairableIds(ms)
  {
    hide Sends, Asks, Strip, Inject, DropOrphans, WellOwned, Complete, AskComplete, AllMatch;
    WellOwnedByPosition(AsSent, ms);
    CompleteByPosition(AsSent, ms);
    if RepairableIds(ms) {
      SentIsStripped(ms);
      WellOwnedByPosition(Stripped, ms);
      CompleteByPosition(Stripped, ms);
      RepairIdleExactly(ms);
    }
    if ProviderValid(AsSent, Repaired(ms)) {
      RepairedValidAsSent(ms);
      DroppedWellOwned(ms);
      DropKeepsExactlyOwned(ms);
      forall m, id | m in ms ensures Repairable(m, id) {
        ToolsDeclareNothing(m, id);
        OwnedMembers(ms, 0, m);
        assert ms[0..] == ms;
        if !m.role.Tool? {
          MatchMeansRepairable(OwnedFrom(ms, 0), m, id);
        }
      }
    }
  }

  /** An accepted transcript that the repair breaks: an `ask_user` call and its answer share an id with a space. */
  lemma RepairBreaksAccepted()
    ensures exists ms :: ProviderValid(AsSent, ms) && !ProviderValid(AsSent, Repaired(ms))
  {
    hide Repaired;
    var ask := Message(Assistant, "", [Block(Some(" a"), ASK_USER, "", "{}")], None, "");
    var row := Message(Tool, "yes", [], Some(" a"), ASK_USER);
    var ms := [ask, row];
    assert Strip(" a") == "a" by {
      assert StripLeft(" a") == "a";
    }
    assert IdNamePairs(ask.calls) == [("a", ASK_USER)];
    assert ask.calls[0] in ask.calls;
    assert Sends(ask, " a") && forall id :: Sends(ask, id) ==> id == " a";
    assert InRunOf(ms, 0, 1) && DeclaredRow(AsSent, ms[0], ms[1]) && AnswersBy(AsSent, ms[1], " a");
    assert RowOwned(AsSent, ms, 1) && CallAnswered(AsSent, ms, 0, " a");
    assert ProviderValid(AsSent, ms);
    assert Asks(ms[0], "a") && !Sends(ms[0], "a");
    assert !Repairable(ask, "a") && ask in ms;
    AcceptedAsSentExactly(ms);
  }
}
