/** Driving one model call: streaming attempts, retries, fallback, and partial results. */
module StreamDriver {
  import opened Sequences
  import opened Text

  const DELTA_MIN_STEP := 512

  // ---- Assembling tool calls from fragments ----

  /** A tool call under construction; `arguments` is the JSON text received so far. */
  datatype Slot = Slot(index: int, id: string, name: string, arguments: string)

  datatype Fragment = Fragment(index: int, id: string, name: string, arguments: string)

  predicate Ascending(slots: seq<Slot>) {
    forall i, j :: 0 <= i < j < |slots| ==> slots[i].index < slots[j].index
  }

  function Extended(s: Slot, f: Fragment): Slot {
    Slot(s.index, if f.id != "" then f.id else s.id, if f.name != "" then f.name else s.name, s.arguments + f.arguments)
  }

  /** The assembler's slots, kept in index order, after one more fragment. */
  function Feed(slots: seq<Slot>, f: Fragment): seq<Slot> {
    if slots == [] || f.index < slots[0].index then [Extended(Slot(f.index, "", "", ""), f)] + slots
    else if slots[0].index == f.index then [Extended(slots[0], f)] + slots[1..]
    else [slots[0]] + Feed(slots[1..], f)
  }

  function FeedAll(slots: seq<Slot>, fs: seq<Fragment>): seq<Slot>
    decreases |fs|
  {
    if fs == [] then slots else FeedAll(Feed(slots, fs[0]), fs[1..])
  }

  predicate HasPrefixOf(slots: seq<Slot>, index: int, arguments: string) {
    exists j :: 0 <= j < |slots| && slots[j].index == index && arguments <= slots[j].arguments
  }

  lemma {:induction false} FeedIndices(slots: seq<Slot>, f: Fragment)
    requires Ascending(slots)
    ensures Ascending(Feed(slots, f))
    ensures forall i :: 0 <= i < |Feed(slots, f)| ==>
      Feed(slots, f)[i].index == f.index || exists j :: 0 <= j < |slots| && slots[j].index == Feed(slots, f)[i].index
  {
    if slots != [] && f.index > slots[0].index {
      FeedIndices(slots[1..], f);
    }
  }

  /** A fragment only ever lengthens arguments. */
  lemma {:induction false} FeedGrows(slots: seq<Slot>, f: Fragment, index: int, arguments: string)
    requires HasPrefixOf(slots, index, arguments)
    ensures HasPrefixOf(Feed(slots, f), index, arguments)
  {
    var out := Feed(slots, f);
    var j :| 0 <= j < |slots| && slots[j].index == index && arguments <= slots[j].arguments;
    if f.index < slots[0].index {
      assert out[j + 1] == slots[j];
    } else if slots[0].index == f.index {
      assert out[j].index == index && arguments <= out[j].arguments;
    } else if j == 0 {
      assert out[0] == slots[0];
    } else {
      assert slots[1..][j - 1] == slots[j];
      FeedGrows(slots[1..], f, index, arguments);
      var k :| 0 <= k < |out| - 1 && out[1..][k].index == index && arguments <= out[1..][k].arguments;
      assert out[k + 1] == out[1..][k];
    }
  }

  lemma {:induction false} FeedAllGrows(slots: seq<Slot>, fs: seq<Fragment>, index: int, arguments: string)
    requires Ascending(slots)
    ensures Ascending(FeedAll(slots, fs))
    ensures HasPrefixOf(slots, index, arguments) ==> HasPrefixOf(FeedAll(slots, fs), index, arguments)
    decreases |fs|
  {
    if fs != [] {
      FeedIndices(slots, fs[0]);
      if HasPrefixOf(slots, index, arguments) {
        FeedGrows(slots, fs[0], index, arguments);
      }
      FeedAllGrows(Feed(slots, fs[0]), fs[1..], index, arguments);
    }
  }

  // ---- What a provider may do ----

  /** `due` tells for which slots the minimal interval since the last fragment has passed. */
  datatype Chunk = Chunk(content: string, reasoning: string, fragments: seq<Fragment>, due: int -> bool)

  datatype Ending = Finished | Raised(retryable: bool)

  datatype Attempt = Attempt(chunks: seq<Chunk>, ending: Ending)

  datatype Call = Call(id: string, name: string, arguments: string)

  datatype Completion = CompletionFails | Response(content: string, calls: seq<Call>)

  /** An arbitrary provider, with the heuristics that turn text into calls left abstract. */
  datatype Provider = Provider(
    attempts: nat -> Attempt,
    completion: Completion,
    callsInContent: string -> seq<Call>,
    parse: string -> string,
    defaultId: int -> string)

  // ---- What the driver emits ----

  datatype Source = FromAttempt(n: nat) | FromCompletion

  datatype StopKind = Normal | Fallback | Partial | Failure

  datatype Event =
    | Delta(source: Source, text: string, reasoning: string)
    | ToolDelta(source: Source, index: int, arguments: string)
    | ToolCall(source: Source, call: Call)
    | MessageStop(kind: StopKind)

  function TextOf(events: seq<Event>): string {
    if events == [] then "" else (if events[0].Delta? then events[0].text else "") + TextOf(events[1..])
  }

  function CallsOf(events: seq<Event>): seq<Call> {
    if events == [] then [] else (if events[0].ToolCall? then [events[0].call] else []) + CallsOf(events[1..])
  }

  function StopsOf(events: seq<Event>): nat {
    if events == [] then 0 else (if events[0].MessageStop? then 1 else 0) + StopsOf(events[1..])
  }

  lemma {:induction false} TextAppend(a: seq<Event>, b: seq<Event>)
    ensures TextOf(a + b) == TextOf(a) + TextOf(b)
  {
    if a == [] {
      assert a + b == b;
    } else {
      TextAppend(a[1..], b);
      TailOfSum(a, b);
      Regroup(if a[0].Delta? then a[0].text else "", TextOf(a[1..]), TextOf(b));
    }
  }

  lemma {:induction false} CallsAppend(a: seq<Event>, b: seq<Event>)
    ensures CallsOf(a + b) == CallsOf(a) + CallsOf(b)
  {
    if a == [] {
      assert a + b == b;
    } else {
      CallsAppend(a[1..], b);
      TailOfSum(a, b);
      Regroup(if a[0].ToolCall? then [a[0].call] else [], CallsOf(a[1..]), CallsOf(b));
    }
  }

  lemma {:induction false} StopsAppend(a: seq<Event>, b: seq<Event>)
    ensures StopsOf(a + b) == StopsOf(a) + StopsOf(b)
  {
    if a == [] {
      assert a + b == b;
    } else {
      assert (a + b)[1..] == a[1..] + b;
      StopsAppend(a[1..], b);
    }
  }

  function ContentOf(chunks: seq<Chunk>): string {
    if chunks == [] then "" else ContentOf(chunks[..|chunks| - 1]) + chunks[|chunks| - 1].content
  }

  /** The slots after the given chunks. */
  function SlotsOf(chunks: seq<Chunk>): seq<Slot> {
    if chunks == [] then [] else FeedAll(SlotsOf(chunks[..|chunks| - 1]), chunks[|chunks| - 1].fragments)
  }

  lemma {:induction false} SlotsAscend(chunks: seq<Chunk>)
    ensures Ascending(SlotsOf(chunks))
  {
    if chunks != [] {
      SlotsAscend(chunks[..|chunks| - 1]);
      FeedAllGrows(SlotsOf(chunks[..|chunks| - 1]), chunks[|chunks| - 1].fragments, 0, "");
    }
  }

  // ---- Attempts that send nothing at all ----

  predicate QuietChunk(c: Chunk) {
    c.content == "" && c.reasoning == "" && NoArguments(c.fragments)
  }

  predicate NoArguments(fs: seq<Fragment>) {
    forall f <- fs :: f.arguments == ""
  }

  predicate QuietChunks(chunks: seq<Chunk>) {
    forall i :: 0 <= i < |chunks| ==> QuietChunk(chunks[i])
  }

  lemma QuietNext(chunks: seq<Chunk>, i: nat)
    requires i < |chunks|
    ensures QuietChunks(chunks[..i + 1]) <==>
      QuietChunks(chunks[..i]) && chunks[i].content == "" && chunks[i].reasoning == "" && NoArguments(chunks[i].fragments)
  {
    hide NoArguments;
    assert chunks[..i + 1] == chunks[..i] + [chunks[i]];
    assert QuietChunk(chunks[i]) <==> chunks[i].content == "" && chunks[i].reasoning == "" && NoArguments(chunks[i].fragments);
  }

  predicate AllEmpty(slots: seq<Slot>) {
    forall s <- slots :: s.arguments == ""
  }

  lemma {:induction false} FeedEmpty(slots: seq<Slot>, f: Fragment)
    ensures AllEmpty(Feed(slots, f)) <==> AllEmpty(slots) && f.arguments == ""
  {
    if slots != [] {
      assert forall s :: s in slots <==> s == slots[0] || s in slots[1..];
      if f.index > slots[0].index {
        FeedEmpty(slots[1..], f);
        assert forall s :: s in Feed(slots, f) <==> s == slots[0] || s in Feed(slots[1..], f);
      } else if f.index == slots[0].index {
        var first := Extended(slots[0], f);
        assert forall s :: s in Feed(slots, f) <==> s == first || s in slots[1..];
      } else {
        assert forall s :: s in Feed(slots, f) <==> s == Extended(Slot(f.index, "", "", ""), f) || s in slots;
      }
    } else {
      assert Extended(Slot(f.index, "", "", ""), f) in Feed(slots, f);
    }
  }

  lemma {:induction false} FeedAllEmpty(slots: seq<Slot>, fs: seq<Fragment>)
    ensures AllEmpty(FeedAll(slots, fs)) <==> AllEmpty(slots) && NoArguments(fs)
    decreases |fs|
  {
    hide Feed, AllEmpty;
    if fs != [] {
      FeedEmpty(slots, fs[0]);
      FeedAllEmpty(Feed(slots, fs[0]), fs[1..]);
      assert forall f :: f in fs <==> f == fs[0] || f in fs[1..];
    }
  }

  // ---- Streamed fragments ----

  /** The arguments of the last fragment sent for a slot. */
  function LastDelta(events: seq<Event>, index: int): Option<string> {
    if events == [] then None
    else
      var rest := LastDelta(events[1..], index);
      if rest.Some? then rest
      else if events[0].ToolDelta? && events[0].index == index then Some(events[0].arguments)
      else None
  }

  lemma {:induction false} LastDeltaAppend(a: seq<Event>, b: seq<Event>, index: int)
    ensures LastDelta(a + b, index) == if LastDelta(b, index).Some? then LastDelta(b, index) else LastDelta(a, index)
  {
    if a == [] {
      assert a + b == b;
    } else {
      assert (a + b)[1..] == a[1..] + b;
      LastDeltaAppend(a[1..], b, index);
    }
  }

  /** Throttling: a first fragment, one longer than the last by `step`, or one after the minimal interval. */
  predicate ShouldEmit(slot: Slot, sent: map<int, nat>, step: nat, due: int -> bool) {
    slot.index !in sent || |slot.arguments| - sent[slot.index] >= step || due(slot.index)
  }

  /** The slots sent on now, in order. */
  function Due(slots: seq<Slot>, sent: map<int, nat>, step: nat, due: int -> bool): seq<Slot> {
    if slots == [] then []
    else
      var last := slots[|slots| - 1];
      Due(slots[..|slots| - 1], sent, step, due)
        + (if last.arguments != "" && ShouldEmit(last, sent, step, due) then [last] else [])
  }

  function SlotEvents(n: nat, slots: seq<Slot>): seq<Event> {
    seq(|slots|, i requires 0 <= i < |slots| => ToolDelta(FromAttempt(n), slots[i].index, slots[i].arguments))
  }

  /** The lengths remembered once `slots` were sent. */
  function Remembered(sent: map<int, nat>, slots: seq<Slot>): map<int, nat> {
    if slots == [] then sent
    else Remembered(sent, slots[..|slots| - 1])[slots[|slots| - 1].index := |slots[|slots| - 1].arguments|]
  }

  function Never(): int -> bool {
    (i: int) => false
  }

  /** All that an attempt passes on while it runs, and the lengths remembered at its end. */
  function Streamed(n: nat, chunks: seq<Chunk>): (seq<Event>, map<int, nat>) {
    if chunks == [] then ([], map[])
    else
      var before, c := Streamed(n, chunks[..|chunks| - 1]), chunks[|chunks| - 1];
      var now := Due(SlotsOf(chunks), before.1, DELTA_MIN_STEP, c.due);
      (before.0 + (if c.content != "" || c.reasoning != "" then [Delta(FromAttempt(n), c.content, c.reasoning)] else [])
         + SlotEvents(n, now),
       Remembered(before.1, now))
  }

  lemma {:induction false} DueExactly(slots: seq<Slot>, sent: map<int, nat>, step: nat, due: int -> bool, s: Slot)
    ensures s in Due(slots, sent, step, due) <==>
      s in slots && s.arguments != "" && (s.index in sent ==> |s.arguments| >= sent[s.index] + step || due(s.index))
  {
    if slots != [] {
      var n := |slots| - 1;
      DueExactly(slots[..n], sent, step, due, s);
      assert slots == slots[..n] + [slots[n]];
    }
  }

  lemma {:induction false} RememberedExactly(sent: map<int, nat>, slots: seq<Slot>, index: int)
    requires Ascending(slots)
    ensures forall s :: s in slots && s.index == index ==>
      index in Remembered(sent, slots) && Remembered(sent, slots)[index] == |s.arguments|
    ensures (forall s :: s in slots ==> s.index != index) ==>
      (index in Remembered(sent, slots) <==> index in sent)
      && (index in sent ==> Remembered(sent, slots)[index] == sent[index])
  {
    if slots != [] {
      var n := |slots| - 1;
      RememberedExactly(sent, slots[..n], index);
      assert slots == slots[..n] + [slots[n]];
    }
  }

  lemma {:induction false} DueAscend(slots: seq<Slot>, sent: map<int, nat>, step: nat, due: int -> bool)
    requires Ascending(slots)
    ensures Ascending(Due(slots, sent, step, due))
    ensures forall s :: s in Due(slots, sent, step, due) ==> s in slots
  {
    if slots != [] {
      var n := |slots| - 1;
      DueAscend(slots[..n], sent, step, due);
      assert forall s :: s in slots[..n] ==> s.index < slots[n].index;
    }
  }

  /** Whatever the throttling, every slot is passed on at most 511 characters late, and completely if it is due. */
  lemma NeverFarBehind(n: nat, chunks: seq<Chunk>, s: Slot)
    requires chunks != [] && s in SlotsOf(chunks) && s.arguments != ""
    ensures var sent := Streamed(n, chunks).1;
      && s.index in sent && |s.arguments| < sent[s.index] + 512
      && (chunks[|chunks| - 1].due(s.index) ==> sent[s.index] == |s.arguments|)
  {
    hide SlotsOf, Due, Remembered;
    var slots, before := SlotsOf(chunks), Streamed(n, chunks[..|chunks| - 1]).1;
    var now := Due(slots, before, DELTA_MIN_STEP, chunks[|chunks| - 1].due);
    SlotsAscend(chunks);
    DueAscend(slots, before, DELTA_MIN_STEP, chunks[|chunks| - 1].due);
    RememberedExactly(before, now, s.index);
    DueExactly(slots, before, DELTA_MIN_STEP, chunks[|chunks| - 1].due, s);
    SameIndex(slots, s);
  }

  lemma SameIndex(slots: seq<Slot>, s: Slot)
    requires Ascending(slots) && s in slots
    ensures forall x :: x in slots && x.index == s.index ==> x == s
  {
  }

  function ReasoningOf(events: seq<Event>): string {
    if events == [] then ""
    else
      var last := events[|events| - 1];
      ReasoningOf(events[..|events| - 1]) + (if last.Delta? then last.reasoning else "")
  }

  /** The reasoning of the chunks, one after the other. */
  function ReasoningIn(chunks: seq<Chunk>): string {
    if chunks == [] then "" else ReasoningIn(chunks[..|chunks| - 1]) + chunks[|chunks| - 1].reasoning
  }

  lemma {:induction false} NoReasoning(events: seq<Event>, more: seq<Event>)
    requires forall e :: e in more ==> !e.Delta?
    ensures ReasoningOf(events + more) == ReasoningOf(events)
    decreases |more|
  {
    if more == [] {
      assert events + more == events;
    } else {
      var m := |more| - 1;
      assert (events + more)[..|events| + m] == events + more[..m];
      assert more[m] in more;
      NoReasoning(events, more[..m]);
    }
  }

  /** An attempt passes on all its reasoning, in order. */
  lemma {:induction false} ReasoningPassedOn(n: nat, chunks: seq<Chunk>)
    ensures ReasoningOf(Streamed(n, chunks).0) == ReasoningIn(chunks)
  {
    hide Due, Remembered, SlotsOf;
    if chunks != [] {
      var before, c := Streamed(n, chunks[..|chunks| - 1]), chunks[|chunks| - 1];
      var e := Delta(FromAttempt(n), c.content, c.reasoning);
      ReasoningPassedOn(n, chunks[..|chunks| - 1]);
      assert (before.0 + [e])[..|before.0|] == before.0 && before.0 + [] == before.0;
      assert ReasoningOf(before.0 + [e]) == ReasoningOf(before.0) + c.reasoning;
      NoReasoning(before.0 + (if c.content != "" || c.reasoning != "" then [e] else []),
                  SlotEvents(n, Due(SlotsOf(chunks), before.1, DELTA_MIN_STEP, c.due)));
    }
  }

  /** What was last sent for a slot is a start of its arguments, and its length is remembered. */
  ghost predicate SentInv(events: seq<Event>, slots: seq<Slot>, sent: map<int, nat>) {
    forall index ::
      var last := LastDelta(events, index);
      && (index in sent <==> last.Some?)
      && (index in sent ==> sent[index] == |last.value| && HasPrefixOf(slots, index, last.value))
  }

  /** Only the attempt's own deltas: no stop, no finished call. */
  predicate Streaming(events: seq<Event>, n: nat) {
    forall i :: 0 <= i < |events| ==>
      (events[i].Delta? || events[i].ToolDelta?) && events[i].source == FromAttempt(n)
  }

  lemma SendKeepsInv(events: seq<Event>, slots: seq<Slot>, sent: map<int, nat>, n: nat, j: nat)
    requires SentInv(events, slots, sent) && j < |slots|
    ensures SentInv(events + [ToolDelta(FromAttempt(n), slots[j].index, slots[j].arguments)], slots,
                    sent[slots[j].index := |slots[j].arguments|])
  {
    var e := ToolDelta(FromAttempt(n), slots[j].index, slots[j].arguments);
    forall index ensures LastDelta(events + [e], index)
      == if index == slots[j].index then Some(slots[j].arguments) else LastDelta(events, index) {
      LastDeltaAppend(events, [e], index);
      assert [e][1..] == [];
    }
    assert HasPrefixOf(slots, slots[j].index, slots[j].arguments);
  }

  lemma DeltaKeepsInv(events: seq<Event>, slots: seq<Slot>, sent: map<int, nat>, e: Event)
    requires SentInv(events, slots, sent) && e.Delta?
    ensures SentInv(events + [e], slots, sent)
  {
    forall index ensures LastDelta(events + [e], index) == LastDelta(events, index) {
      LastDeltaAppend(events, [e], index);
      assert [e][1..] == [];
    }
  }

  lemma FeedKeepsInv(events: seq<Event>, slots: seq<Slot>, sent: map<int, nat>, fs: seq<Fragment>)
    requires SentInv(events, slots, sent) && Ascending(slots)
    ensures SentInv(events, FeedAll(slots, fs), sent)
  {
    forall index | index in sent ensures HasPrefixOf(FeedAll(slots, fs), index, LastDelta(events, index).value) {
      FeedAllGrows(slots, fs, index, LastDelta(events, index).value);
    }
  }

  lemma TextSnoc(events: seq<Event>, e: Event)
    ensures TextOf(events + [e]) == TextOf(events) + (if e.Delta? then e.text else "")
  {
    TextAppend(events, [e]);
    assert [e][1..] == [];
  }

  /** Sends the fragments that are not throttled. */
  method SendDeltas(n: nat, before: seq<Event>, slots: seq<Slot>, sent: map<int, nat>, due: int -> bool)
    returns (events: seq<Event>, sent': map<int, nat>)
    requires SentInv(before, slots, sent) && Streaming(before, n) && Ascending(slots)
    ensures events == before + SlotEvents(n, Due(slots, sent, DELTA_MIN_STEP, due))
    ensures sent' == Remembered(sent, Due(slots, sent, DELTA_MIN_STEP, due))
    ensures SentInv(events, slots, sent') && Streaming(events, n) && TextOf(events) == TextOf(before)
    ensures before == [] ==> (events == [] <==> AllEmpty(slots))
    ensures before != [] ==> events != []
  {
    hide SentInv, LastDelta, TextOf, Due, Remembered, Ascending, Streaming;
    events, sent' := before, sent;
    NothingRemembered(before, slots, sent);
    NothingDue(before, n, sent, DELTA_MIN_STEP, due);
    assert slots[..0] == [];
    for j := 0 to |slots|
      invariant events == before + SlotEvents(n, Due(slots[..j], sent, DELTA_MIN_STEP, due))
      invariant sent' == Remembered(sent, Due(slots[..j], sent, DELTA_MIN_STEP, due))
      invariant SentInv(events, slots, sent') && Streaming(events, n) && TextOf(events) == TextOf(before)
      invariant before != [] ==> events != []
      invariant before == [] ==> (events == [] <==> AllEmpty(slots[..j])) && (events == [] ==> sent' == map[])
    {
      assert forall s :: s in slots[..j + 1] <==> s in slots[..j] || s == slots[j];
      DueNext(before, n, slots, sent, DELTA_MIN_STEP, due, j);
      var slot := slots[j];
      if slot.arguments == "" || !ShouldEmit(slot, sent', DELTA_MIN_STEP, due) {
        continue;
      }
      SendKeepsInv(events, slots, sent', n, j);
      SendStreams(events, n, slot);
      TextSnoc(events, ToolDelta(FromAttempt(n), slot.index, slot.arguments));
      events := events + [ToolDelta(FromAttempt(n), slot.index, slot.arguments)];
      sent' := sent'[slot.index := |slot.arguments|];
    }
    assert slots[..|slots|] == slots;
  }

  lemma SendStreams(events: seq<Event>, n: nat, slot: Slot)
    requires Streaming(events, n)
    ensures Streaming(events + [ToolDelta(FromAttempt(n), slot.index, slot.arguments)], n)
  {
  }

  lemma NothingDue(before: seq<Event>, n: nat, sent: map<int, nat>, step: nat, due: int -> bool)
    ensures before == before + SlotEvents(n, Due([], sent, step, due)) && sent == Remembered(sent, Due([], sent, step, due))
  {
  }

  /** The lengths remembered for earlier slots do not change whether a later slot is due. */
  lemma DueNext(before: seq<Event>, n: nat, slots: seq<Slot>, sent: map<int, nat>, step: nat, due: int -> bool, j: nat)
    requires Ascending(slots) && j < |slots|
    ensures var now, slot := Due(slots[..j], sent, step, due), slots[j];
            var next := Due(slots[..j + 1], sent, step, due);
            && (ShouldEmit(slot, Remembered(sent, now), step, due) <==> ShouldEmit(slot, sent, step, due))
            && (slot.arguments == "" || !ShouldEmit(slot, sent, step, due) ==> next == now)
            && (slot.arguments != "" && ShouldEmit(slot, sent, step, due) ==>
                  && Remembered(sent, next) == Remembered(sent, now)[slot.index := |slot.arguments|]
                  && before + SlotEvents(n, next) ==
                     before + SlotEvents(n, now) + [ToolDelta(FromAttempt(n), slot.index, slot.arguments)])
  {
    var now, slot := Due(slots[..j], sent, step, due), slots[j];
    assert slots[..j + 1][..j] == slots[..j];
    DueAscend(slots[..j], sent, step, due);
    RememberedExactly(sent, now, slot.index);
    assert (now + [slot])[..|now|] == now;
    assert SlotEvents(n, now + [slot]) == SlotEvents(n, now) + [ToolDelta(FromAttempt(n), slot.index, slot.arguments)];
  }

  lemma NothingRemembered(events: seq<Event>, slots: seq<Slot>, sent: map<int, nat>)
    requires SentInv(events, slots, sent)
    ensures events == [] ==> sent == map[]
  {
    if events == [] {
      forall index ensures index !in sent {
        assert LastDelta(events, index) == None;
      }
      assert sent.Keys == {};
    }
  }

  /** One streaming attempt, up to its end or its exception. */
  method Stream(n: nat, chunks: seq<Chunk>) returns (events: seq<Event>, slots: seq<Slot>, sent: map<int, nat>, content: string)
    ensures Streaming(events, n) && TextOf(events) == content == ContentOf(chunks)
    ensures slots == SlotsOf(chunks) && SentInv(events, slots, sent)
    ensures (events, sent) == Streamed(n, chunks)
    ensures events == [] <==> QuietChunks(chunks)
  {
    hide SentInv, LastDelta, TextOf, QuietChunks, NoArguments, AllEmpty, FeedAll, Ascending, Due, Remembered, SlotEvents,
         Streamed;
    NoSlots();
    NothingStreamed(n);
    events, slots, sent, content := [], [], map[], "";
    NothingSent();
    for i := 0 to |chunks|
      invariant Streaming(events, n) && TextOf(events) == content == ContentOf(chunks[..i])
      invariant slots == SlotsOf(chunks[..i]) && SentInv(events, slots, sent)
      invariant (events, sent) == Streamed(n, chunks[..i])
      invariant (events == [] <==> QuietChunks(chunks[..i])) && (events == [] ==> AllEmpty(slots))
    {
      QuietNext(chunks, i);
      StreamedNext(n, chunks, i);
      FeedAllEmpty(slots, chunks[i].fragments);
      var chunk := chunks[i];
      assert chunks[..i + 1][..i] == chunks[..i];
      if chunk.content != "" || chunk.reasoning != "" {
        var e := Delta(FromAttempt(n), chunk.content, chunk.reasoning);
        DeltaKeepsInv(events, slots, sent, e);
        TextSnoc(events, e);
        events := events + [e];
        content := content + chunk.content;
      }
      SlotsAscend(chunks[..i]);
      FeedKeepsInv(events, slots, sent, chunk.fragments);
      slots := FeedAll(slots, chunk.fragments);
      SlotsAscend(chunks[..i + 1]);
      events, sent := SendDeltas(n, events, slots, sent, chunk.due);
    }
    assert chunks[..|chunks|] == chunks;
  }

  lemma StreamedNext(n: nat, chunks: seq<Chunk>, i: nat)
    requires i < |chunks|
    ensures var before, c := Streamed(n, chunks[..i]), chunks[i];
            var now := Due(SlotsOf(chunks[..i + 1]), before.1, DELTA_MIN_STEP, c.due);
            var e := Delta(FromAttempt(n), c.content, c.reasoning);
            Streamed(n, chunks[..i + 1]) ==
              ((if c.content != "" || c.reasoning != "" then before.0 + [e] else before.0) + SlotEvents(n, now), Remembered(before.1, now))
  {
    hide SlotsOf, Due, Remembered, SlotEvents;
    assert chunks[..i + 1][..i] == chunks[..i];
    var before := Streamed(n, chunks[..i]).0;
    assert before + [] == before;
  }

  lemma NothingStreamed(n: nat)
    ensures Streamed(n, []) == ([], map[])
  {
  }

  lemma NoSlots()
    ensures AllEmpty([]) && QuietChunks([])
  {
  }

  lemma NothingSent()
    ensures SentInv([], [], map[]) && TextOf([]) == ""
  {
  }

  // ---- Finishing ----

  /** The finished calls of the slots. */
  function FinishedCalls(p: Provider, slots: seq<Slot>): seq<Call> {
    if slots == [] then []
    else
      var s := slots[0];
      [Call(if s.id != "" then s.id else p.defaultId(s.index), s.name,
            p.parse(if s.arguments != "" then s.arguments else "{}"))]
        + FinishedCalls(p, slots[1..])
  }

  /** Every slot's complete arguments were the last thing sent for it. */
  ghost predicate Flushed(events: seq<Event>, slots: seq<Slot>) {
    forall i :: 0 <= i < |slots| && slots[i].arguments != "" ==>
      LastDelta(events, slots[i].index) == Some(slots[i].arguments)
  }

  lemma FullySent(events: seq<Event>, slots: seq<Slot>, sent: map<int, nat>, j: nat)
    requires SentInv(events, slots, sent) && Ascending(slots) && j < |slots|
    requires slots[j].index in sent && sent[slots[j].index] >= |slots[j].arguments|
    ensures LastDelta(events, slots[j].index) == Some(slots[j].arguments)
  {
    var last := LastDelta(events, slots[j].index).value;
    var k :| 0 <= k < |slots| && slots[k].index == slots[j].index && last <= slots[k].arguments;
    assert k == j;
    assert |last| == |slots[j].arguments|;
    assert slots[j].arguments[..|last|] == slots[j].arguments;
    assert last == slots[j].arguments;
  }

  lemma SendOthersUnchanged(events: seq<Event>, e: Event, index: int)
    requires e.ToolDelta?
    ensures LastDelta(events + [e], index) == if e.index == index then Some(e.arguments) else LastDelta(events, index)
  {
    LastDeltaAppend(events, [e], index);
    assert [e][1..] == [];
  }

  /** The final flush: whatever throttling held back is sent now. */
  method Flush(n: nat, before: seq<Event>, slots: seq<Slot>, sent: map<int, nat>) returns (events: seq<Event>)
    requires SentInv(before, slots, sent) && Streaming(before, n) && Ascending(slots)
    ensures events == before + SlotEvents(n, Due(slots, sent, 1, Never()))
    ensures Streaming(events, n) && TextOf(events) == TextOf(before) && Flushed(events, slots)
  {
    hide SentInv, LastDelta, TextOf, Due, Remembered, Streaming;
    events := before;
    var sent': map<int, nat> := sent;
    NothingDue(before, n, sent, 1, Never());
    assert slots[..0] == [];
    for j := 0 to |slots|
      invariant events == before + SlotEvents(n, Due(slots[..j], sent, 1, Never()))
      invariant sent' == Remembered(sent, Due(slots[..j], sent, 1, Never()))
      invariant SentInv(events, slots, sent') && Streaming(events, n) && TextOf(events) == TextOf(before)
      invariant Flushed(events, slots[..j])
    {
      DueNext(before, n, slots, sent, 1, Never(), j);
      var slot := slots[j];
      if slot.arguments == "" {
        continue;
      }
      if slot.index in sent' && sent'[slot.index] >= |slot.arguments| {
        FullySent(events, slots, sent', j);
        continue;
      }
      var e := ToolDelta(FromAttempt(n), slot.index, slot.arguments);
      SendKeepsInv(events, slots, sent', n, j);
      SendStreams(events, n, slot);
      TextSnoc(events, e);
      forall i | 0 <= i <= j ensures LastDelta(events + [e], slots[i].index)
        == if i == j then Some(slot.arguments) else LastDelta(events, slots[i].index) {
        SendOthersUnchanged(events, e, slots[i].index);
      }
      events := events + [e];
      sent' := sent'[slot.index := |slot.arguments|];
    }
    assert slots[..|slots|] == slots;
  }

  function CallEvents(source: Source, calls: seq<Call>): seq<Event> {
    if calls == [] then [] else [ToolCall(source, calls[0])] + CallEvents(source, calls[1..])
  }

  lemma {:induction false} CallEventTotals(source: Source, calls: seq<Call>)
    ensures CallsOf(CallEvents(source, calls)) == calls && TextOf(CallEvents(source, calls)) == ""
    ensures StopsOf(CallEvents(source, calls)) == 0
    ensures forall e :: e in CallEvents(source, calls) ==> e.ToolCall? && e.source == source
    ensures forall index :: LastDelta(CallEvents(source, calls), index) == None
  {
    if calls != [] {
      CallEventTotals(source, calls[1..]);
      assert CallEvents(source, calls)[1..] == CallEvents(source, calls[1..]);
    }
  }

  // ---- The whole driver ----

  predicate Retryable(a: Attempt) {
    a.ending.Raised? && a.ending.retryable
  }

  /** How the call ends when `a` is the last attempt. */
  function OutcomeOf(a: Attempt, completion: Completion): StopKind {
    if a.ending.Finished? then Normal
    else if !a.ending.retryable then Failure
    else if ContentOf(a.chunks) != "" then Partial
    else if completion.Response? then Fallback
    else Failure
  }

  /** The finished calls of a normally ended attempt. */
  function CallsAtEnd(p: Provider, tools: bool, a: Attempt): seq<Call> {
    var slots, content := SlotsOf(a.chunks), ContentOf(a.chunks);
    if slots == [] && tools && Strip(content) != "" then p.callsInContent(content) else FinishedCalls(p, slots)
  }

  /** All visible text and all finished calls come from `source`. */
  predicate SingleSource(events: seq<Event>, source: Source) {
    forall e :: e in events && (e.ToolCall? || (e.Delta? && e.text != "")) ==> e.source == source
  }

  /** The events of the attempts that were given up: no text, no finished call, no stop. Reasoning and call
      fragments of such attempts may have been passed on. */
  predicate ContentFree(events: seq<Event>) {
    forall e :: e in events ==> (e.Delta? && e.text == "") || e.ToolDelta?
  }

  lemma {:induction false} ContentFreeTotals(events: seq<Event>)
    requires ContentFree(events)
    ensures TextOf(events) == "" && CallsOf(events) == [] && StopsOf(events) == 0
  {
    if events != [] {
      assert events[0] in events;
      ContentFreeTotals(events[1..]);
    }
  }

  lemma {:induction false} NoTextNoContent(events: seq<Event>, n: nat)
    requires Streaming(events, n) && TextOf(events) == ""
    ensures ContentFree(events)
  {
    if events != [] {
      NoTextNoContent(events[1..], n);
      assert forall e :: e in events <==> e == events[0] || e in events[1..];
    }
  }

  /** What the driver reports: text, finished calls and the kind of stop, from one source, the stop last. */
  ghost predicate Reports(events: seq<Event>, text: string, calls: seq<Call>, kind: StopKind, source: Source) {
    && TextOf(events) == text
    && CallsOf(events) == calls
    && StopsOf(events) == 1 && events != [] && events[|events| - 1] == MessageStop(kind)
    && SingleSource(events, source)
  }

  lemma ReportAll(before: seq<Event>, visible: seq<Event>, calls: seq<Call>, kind: StopKind, source: Source)
    requires ContentFree(before)
    requires forall e :: e in visible ==> (e.Delta? || e.ToolDelta?) && e.source == source
    ensures Reports(before + visible + CallEvents(source, calls) + [MessageStop(kind)],
                    TextOf(visible), calls, kind, source)
  {
    hide TextOf, CallsOf, StopsOf;
    var ce, stop := CallEvents(source, calls), [MessageStop(kind)];
    ContentFreeTotals(before);
    CallEventTotals(source, calls);
    DeltasOnly(visible);
    StopTotals(kind);
    TextAppend(before + visible + ce, stop);
    TextAppend(before + visible, ce);
    TextAppend(before, visible);
    CallsAppend(before + visible + ce, stop);
    CallsAppend(before + visible, ce);
    CallsAppend(before, visible);
    StopsAppend(before + visible + ce, stop);
    StopsAppend(before + visible, ce);
    StopsAppend(before, visible);
    assert TextOf(visible) + "" + "" == TextOf(visible) && "" + TextOf(visible) == TextOf(visible);
    assert [] + [] + calls + [] == calls;
  }

  lemma {:induction false} DeltasOnly(events: seq<Event>)
    requires forall e :: e in events ==> e.Delta? || e.ToolDelta?
    ensures CallsOf(events) == [] && StopsOf(events) == 0
  {
    if events != [] {
      assert events[0] in events;
      DeltasOnly(events[1..]);
    }
  }

  lemma StopTotals(kind: StopKind)
    ensures TextOf([MessageStop(kind)]) == "" && CallsOf([MessageStop(kind)]) == [] && StopsOf([MessageStop(kind)]) == 1
  {
    assert [MessageStop(kind)][1..] == [];
  }

  // ---- Whether an abandoned attempt shows ----

  /** Everything before the stop comes from `source`, reasoning and call fragments included. */
  predicate OneSource(events: seq<Event>, source: Source) {
    forall e <- events :: e.MessageStop? || e.source == source
  }

  ghost predicate QuietAttempts(p: Provider, k: nat) {
    forall n :: 1 <= n <= k ==> QuietChunks(p.attempts(n).chunks)
  }

  /** What the first `k` attempts passed on. */
  ghost predicate PassedOn(events: seq<Event>, p: Provider, k: nat) {
    && (forall e <- events :: !e.MessageStop? && e.source.FromAttempt? && e.source.n <= k)
    && (events == [] <==> QuietAttempts(p, k))
  }

  lemma PassedOnNext(events: seq<Event>, emitted: seq<Event>, p: Provider, k: nat)
    requires PassedOn(events, p, k) && Streaming(emitted, k + 1)
    requires emitted == [] <==> QuietChunks(p.attempts(k + 1).chunks)
    ensures PassedOn(events + emitted, p, k + 1)
  {
    hide QuietChunks;
    assert QuietAttempts(p, k + 1) <==> QuietAttempts(p, k) && QuietChunks(p.attempts(k + 1).chunks);
  }

  lemma OneSourceExactly(before: seq<Event>, own: seq<Event>, calls: seq<Call>, kind: StopKind, source: Source, p: Provider, k: nat)
    requires PassedOn(before, p, k) && (source.FromAttempt? ==> k < source.n)
    requires forall e <- own :: !e.MessageStop? && e.source == source
    ensures OneSource(before + own + CallEvents(source, calls) + [MessageStop(kind)], source) <==> QuietAttempts(p, k)
  {
    hide QuietAttempts;
    CallEventTotals(source, calls);
    var all := before + own + CallEvents(source, calls) + [MessageStop(kind)];
    assert forall e :: e in all <==> e in before || e in own || e in CallEvents(source, calls) || e == MessageStop(kind);
    if before != [] {
      var e := before[0];
      assert e in before && e in all;
    }
  }

  /** What the first `k` attempts pass on, one after the other. */
  function Earlier(p: Provider, k: nat): seq<Event> {
    if k == 0 then [] else Earlier(p, k - 1) + Streamed(k, p.attempts(k).chunks).0
  }

  /** The retry loop: `streams` and `completions` count the calls made to the provider. */
  method CallModel(p: Provider, maxAttempts: nat, tools: bool)
    returns (events: seq<Event>, streams: nat, completions: nat)
    requires 1 <= maxAttempts
    ensures 1 <= streams <= maxAttempts && completions <= 1
    ensures forall n :: 1 <= n < streams ==> Retryable(p.attempts(n)) && ContentOf(p.attempts(n).chunks) == ""
    ensures var last := p.attempts(streams);
            && (Retryable(last) && ContentOf(last.chunks) == "" ==> streams == maxAttempts)
            && (completions == 1 <==> Retryable(last) && ContentOf(last.chunks) == "")
            && var kind := OutcomeOf(last, p.completion);
               Reports(events,
                       if kind.Fallback? then p.completion.content else ContentOf(last.chunks),
                       if kind.Normal? then CallsAtEnd(p, tools, last)
                       else if kind.Fallback? then p.completion.calls else [],
                       kind,
                       if kind.Fallback? then FromCompletion else FromAttempt(streams))
    ensures Earlier(p, streams) <= events
    ensures p.attempts(streams).ending.Finished? ==> Flushed(events, SlotsOf(p.attempts(streams).chunks))
    ensures if OutcomeOf(p.attempts(streams), p.completion).Fallback?
            then OneSource(events, FromCompletion) <==> QuietAttempts(p, streams)
            else OneSource(events, FromAttempt(streams)) <==> QuietAttempts(p, streams - 1)
  {
    hide Reports, ContentFree, TextOf, SentInv, Flushed, LastDelta, CallsAtEnd, PassedOn, OneSource,
         QuietAttempts, QuietChunks,
         Streamed, Due;
    events, streams, completions := [], 0, 0;
    NothingSentYet(p);
    while true
      invariant PassedOn(events, p, streams) && events == Earlier(p, streams)
      invariant streams < maxAttempts && ContentFree(events) && completions == 0
      invariant forall n :: 1 <= n <= streams ==> Retryable(p.attempts(n)) && ContentOf(p.attempts(n).chunks) == ""
      decreases maxAttempts - streams
    {
      streams := streams + 1;
      var attempt := p.attempts(streams);
      var emitted, slots, sent, content := Stream(streams, attempt.chunks);
      if attempt.ending.Finished? {
        SlotsAscend(attempt.chunks);
        emitted := Flush(streams, emitted, slots, sent);
        var calls := CallsAtEnd(p, tools, attempt);
        StreamedOwn(emitted, streams);
        OneSourceExactly(events, emitted, calls, Normal, FromAttempt(streams), p, streams - 1);
        ReportStreaming(events, emitted, calls, Normal, streams);
        FlushedStill(events, emitted, slots, calls, Normal, streams);
        events := events + emitted + CallEvents(FromAttempt(streams), calls) + [MessageStop(Normal)];
        return;
      }
      if !attempt.ending.retryable || content != "" {
        var kind := if attempt.ending.retryable then Partial else Failure;
        ReportStreaming(events, emitted, [], kind, streams);
        StreamedOwn(emitted, streams);
        OneSourceExactly(events, emitted, [], kind, FromAttempt(streams), p, streams - 1);
        events := events + emitted + CallEvents(FromAttempt(streams), []) + [MessageStop(kind)];
        return;
      }
      NoTextNoContent(emitted, streams);
      ContentFreeAppend(events, emitted);
      if streams < maxAttempts {
        PassedOnNext(events, emitted, p, streams - 1);
        events := events + emitted;
        continue;
      }
      completions := 1;
      if p.completion.Response? {
        var said := if p.completion.content != "" then [Delta(FromCompletion, p.completion.content, "")] else [];
        SaidText(p.completion.content);
        ReportAll(events + emitted, said, p.completion.calls, Fallback, FromCompletion);
        PassedOnNext(events, emitted, p, streams - 1);
        OneSourceExactly(events + emitted, said, p.completion.calls, Fallback, FromCompletion, p, streams);
        events := events + emitted + said + CallEvents(FromCompletion, p.completion.calls) + [MessageStop(Fallback)];
      } else {
        ReportStreaming(events, emitted, [], Failure, streams);
        StreamedOwn(emitted, streams);
        OneSourceExactly(events, emitted, [], Failure, FromAttempt(streams), p, streams - 1);
        events := events + emitted + CallEvents(FromAttempt(streams), []) + [MessageStop(Failure)];
      }
      return;
    }
  }

  lemma NothingSentYet(p: Provider)
    ensures ContentFree([]) && PassedOn([], p, 0)
  {
  }

  lemma StreamedOwn(events: seq<Event>, n: nat)
    requires Streaming(events, n)
    ensures forall e <- events :: !e.MessageStop? && e.source == FromAttempt(n)
  {
  }

  lemma ContentFreeAppend(a: seq<Event>, b: seq<Event>)
    requires ContentFree(a) && ContentFree(b)
    ensures ContentFree(a + b)
  {
  }

  lemma SaidText(content: string)
    ensures TextOf(if content != "" then [Delta(FromCompletion, content, "")] else []) == content
  {
    assert [Delta(FromCompletion, content, "")][1..] == [];
    TextSnoc([], Delta(FromCompletion, content, ""));
    assert [] + [Delta(FromCompletion, content, "")] == [Delta(FromCompletion, content, "")];
  }

  lemma ReportStreaming(before: seq<Event>, emitted: seq<Event>, calls: seq<Call>, kind: StopKind, n: nat)
    requires ContentFree(before) && Streaming(emitted, n)
    ensures Reports(before + emitted + CallEvents(FromAttempt(n), calls) + [MessageStop(kind)],
                    TextOf(emitted), calls, kind, FromAttempt(n))
  {
    hide Reports, TextOf;
    ReportAll(before, emitted, calls, kind, FromAttempt(n));
  }

  lemma FlushedStill(before: seq<Event>, emitted: seq<Event>, slots: seq<Slot>, calls: seq<Call>, kind: StopKind, n: nat)
    requires Flushed(emitted, slots)
    ensures Flushed(before + emitted + CallEvents(FromAttempt(n), calls) + [MessageStop(kind)], slots)
  {
    hide LastDelta;
    var ce, stop := CallEvents(FromAttempt(n), calls), [MessageStop(kind)];
    CallEventTotals(FromAttempt(n), calls);
    forall index ensures LastDelta(before + emitted + ce + stop, index)
      == if LastDelta(emitted, index).Some? then LastDelta(emitted, index) else LastDelta(before, index) {
      LastDeltaAppend(before + emitted + ce, stop, index);
      LastDeltaAppend(before + emitted, ce, index);
      LastDeltaAppend(before, emitted, index);
      NoDeltaInStop(kind, index);
    }
  }

  lemma NoDeltaInStop(kind: StopKind, index: int)
    ensures LastDelta([MessageStop(kind)], index) == None
  {
    assert [MessageStop(kind)][1..] == [];
  }
}
