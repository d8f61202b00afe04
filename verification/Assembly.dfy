/** What the streamed fragments amount to, told from the fragments alone. */
module Assembly {
  import opened Sequences
  import opened Text
  import opened StreamDriver

  /** All fragments of an attempt, in the order of arrival. */
  function AllFragments(chunks: seq<Chunk>): seq<Fragment> {
    if chunks == [] then [] else AllFragments(chunks[..|chunks| - 1]) + chunks[|chunks| - 1].fragments
  }

  /** The arguments sent for an index, one fragment after the other. */
  function ArgumentsFor(fs: seq<Fragment>, index: int): string {
    if fs == [] then ""
    else
      var last := fs[|fs| - 1];
      ArgumentsFor(fs[..|fs| - 1], index) + (if last.index == index then last.arguments else "")
  }

  /** The last id, if any, sent for an index. */
  function LastId(fs: seq<Fragment>, index: int): string {
    if fs == [] then ""
    else
      var last := fs[|fs| - 1];
      if last.index == index && last.id != "" then last.id else LastId(fs[..|fs| - 1], index)
  }

  function LastName(fs: seq<Fragment>, index: int): string {
    if fs == [] then ""
    else
      var last := fs[|fs| - 1];
      if last.index == index && last.name != "" then last.name else LastName(fs[..|fs| - 1], index)
  }

  predicate Mentioned(fs: seq<Fragment>, index: int) {
    exists f :: f in fs && f.index == index
  }

  predicate SlotExact(s: Slot, fs: seq<Fragment>) {
    && s.id == LastId(fs, s.index)
    && s.name == LastName(fs, s.index)
    && s.arguments == ArgumentsFor(fs, s.index)
  }

  predicate HasSlot(slots: seq<Slot>, index: int) {
    exists s :: s in slots && s.index == index
  }

  /** One slot per index mentioned, in ascending order, each with what was sent for it. */
  ghost predicate SlotsExact(slots: seq<Slot>, fs: seq<Fragment>) {
    && Ascending(slots)
    && (forall s :: s in slots ==> SlotExact(s, fs))
    && (forall index :: HasSlot(slots, index) <==> Mentioned(fs, index))
  }

  /** One fragment changes the slot of its index, or opens it. */
  lemma {:induction false} FeedMembers(slots: seq<Slot>, f: Fragment, s: Slot)
    requires Ascending(slots)
    ensures s in Feed(slots, f) ==>
      if s.index != f.index then s in slots
      else (exists earlier :: earlier in slots && earlier.index == f.index && s == Extended(earlier, f))
           || (!HasSlot(slots, f.index) && s == Extended(Slot(f.index, "", "", ""), f))
    ensures s in slots && s.index != f.index ==> s in Feed(slots, f)
    ensures HasSlot(Feed(slots, f), f.index)
  {
    if slots == [] || f.index < slots[0].index {
      var newSlot := Extended(Slot(f.index, "", "", ""), f);
      assert Feed(slots, f) == [newSlot] + slots;
      assert newSlot in Feed(slots, f);
    } else if f.index == slots[0].index {
      var changed := Extended(slots[0], f);
      assert Feed(slots, f) == [changed] + slots[1..];
      assert changed in Feed(slots, f) && slots[0] in slots;
      assert forall x :: x in slots <==> x == slots[0] || x in slots[1..];
      forall x | x in slots[1..] ensures x.index != f.index {
        var j :| 0 <= j < |slots| - 1 && slots[1..][j] == x;
      }
    } else {
      FeedMembers(slots[1..], f, s);
      assert forall x :: x in slots <==> x == slots[0] || x in slots[1..];
      assert forall x :: x in Feed(slots, f) <==> x == slots[0] || x in Feed(slots[1..], f);
    }
  }

  lemma Snoc(fs: seq<Fragment>, f: Fragment, index: int)
    ensures ArgumentsFor(fs + [f], index) == ArgumentsFor(fs, index) + (if f.index == index then f.arguments else "")
    ensures LastId(fs + [f], index) == if f.index == index && f.id != "" then f.id else LastId(fs, index)
    ensures LastName(fs + [f], index) == if f.index == index && f.name != "" then f.name else LastName(fs, index)
    ensures Mentioned(fs + [f], index) <==> Mentioned(fs, index) || f.index == index
  {
    assert (fs + [f])[..|fs|] == fs;
    assert forall x :: x in fs + [f] <==> x in fs || x == f;
  }

  lemma {:induction false} Unmentioned(fs: seq<Fragment>, index: int)
    requires !Mentioned(fs, index)
    ensures ArgumentsFor(fs, index) == "" && LastId(fs, index) == "" && LastName(fs, index) == ""
  {
    if fs != [] {
      var init := fs[..|fs| - 1];
      assert forall x :: x in init ==> x in fs;
      assert fs[|fs| - 1] in fs;
      Unmentioned(init, index);
    }
  }

  lemma FedSlot(slots: seq<Slot>, fs: seq<Fragment>, f: Fragment, s: Slot)
    requires SlotsExact(slots, fs) && s in Feed(slots, f)
    ensures SlotExact(s, fs + [f])
  {
    FeedMembers(slots, f, s);
    Snoc(fs, f, s.index);
    if s.index == f.index && !HasSlot(slots, f.index) {
      Unmentioned(fs, f.index);
    }
  }

  lemma FeedExact(slots: seq<Slot>, fs: seq<Fragment>, f: Fragment)
    requires SlotsExact(slots, fs)
    ensures SlotsExact(Feed(slots, f), fs + [f])
  {
    hide SlotExact, Feed;
    FeedIndices(slots, f);
    forall s | s in Feed(slots, f) ensures SlotExact(s, fs + [f]) {
      FedSlot(slots, fs, f, s);
    }
    forall index ensures HasSlot(Feed(slots, f), index) <==> Mentioned(fs + [f], index) {
      Snoc(fs, f, index);
      FedIndices(slots, f, index);
    }
  }

  lemma FedIndices(slots: seq<Slot>, f: Fragment, index: int)
    requires Ascending(slots)
    ensures HasSlot(Feed(slots, f), index) <==> HasSlot(slots, index) || index == f.index
  {
    hide Feed;
    if s :| s in Feed(slots, f) && s.index == index {
      FeedMembers(slots, f, s);
    }
    if s :| s in slots && s.index == index {
      FeedMembers(slots, f, s);
    }
    FeedMembers(slots, f, Slot(f.index, "", "", ""));
  }

  lemma {:induction false} FeedAllExact(slots: seq<Slot>, before: seq<Fragment>, fs: seq<Fragment>)
    requires SlotsExact(slots, before)
    ensures SlotsExact(FeedAll(slots, fs), before + fs)
    decreases |fs|
  {
    hide SlotsExact, Feed;
    if fs == [] {
      assert before + fs == before;
    } else {
      FeedExact(slots, before, fs[0]);
      FeedAllExact(Feed(slots, fs[0]), before + [fs[0]], fs[1..]);
      assert before + [fs[0]] + fs[1..] == before + fs;
    }
  }

  lemma {:induction false} SlotsOfExact(chunks: seq<Chunk>)
    ensures SlotsExact(SlotsOf(chunks), AllFragments(chunks))
  {
    if chunks != [] {
      hide SlotsExact, FeedAll;
      SlotsOfExact(chunks[..|chunks| - 1]);
      FeedAllExact(SlotsOf(chunks[..|chunks| - 1]), AllFragments(chunks[..|chunks| - 1]), chunks[|chunks| - 1].fragments);
    }
  }

  // ---- Finished calls ----

  predicate AscendingInts(ids: seq<int>) {
    forall i, j :: 0 <= i < j < |ids| ==> ids[i] < ids[j]
  }

  /** The finished call of an index: its last id, or a default one, its last name, and its parsed arguments. */
  function CallFor(p: Provider, fs: seq<Fragment>, index: int): Call {
    var arguments := ArgumentsFor(fs, index);
    Call(if LastId(fs, index) == "" then p.defaultId(index) else LastId(fs, index),
         LastName(fs, index),
         p.parse(if arguments == "" then "{}" else arguments))
  }

  lemma {:induction false} FinishedAt(p: Provider, slots: seq<Slot>)
    ensures |FinishedCalls(p, slots)| == |slots|
    ensures forall k :: 0 <= k < |slots| ==>
      FinishedCalls(p, slots)[k] == Call(if slots[k].id != "" then slots[k].id else p.defaultId(slots[k].index), slots[k].name,
                                         p.parse(if slots[k].arguments != "" then slots[k].arguments else "{}"))
  {
    if slots != [] {
      FinishedAt(p, slots[1..]);
    }
  }

  /** After a normal end: one call per index, in ascending order, made of all its fragments; without any fragment,
      the calls found in the text, if tools were offered and there is text. */
  lemma FinishedExactly(p: Provider, tools: bool, a: Attempt) returns (indices: seq<int>)
    ensures var fs, calls := AllFragments(a.chunks), CallsAtEnd(p, tools, a);
      if fs == [] then calls == if tools && !AllSpace(ContentOf(a.chunks)) then p.callsInContent(ContentOf(a.chunks)) else []
      else
        && AscendingInts(indices) && (forall index :: index in indices <==> Mentioned(fs, index))
        && |calls| == |indices| && forall k :: 0 <= k < |indices| ==> calls[k] == CallFor(p, fs, indices[k])
  {
    hide SlotsOf, AllFragments, ContentOf, Strip;
    var fs, slots := AllFragments(a.chunks), SlotsOf(a.chunks);
    SlotsOfExact(a.chunks);
    indices := seq(|slots|, k requires 0 <= k < |slots| => slots[k].index);
    FinishedAt(p, slots);
    NoSlotsExactly(slots, fs);
    BlankExactly(ContentOf(a.chunks));
    forall index ensures index in indices <==> HasSlot(slots, index) {
      if s :| s in slots && s.index == index {
        var k :| 0 <= k < |slots| && slots[k] == s;
        assert indices[k] == index;
      }
    }
    assert forall k :: 0 <= k < |slots| ==> slots[k] in slots;
  }

  lemma NoSlotsExactly(slots: seq<Slot>, fs: seq<Fragment>)
    requires SlotsExact(slots, fs)
    ensures slots == [] <==> fs == []
  {
    EmptyOrMember(slots);
    EmptyOrMember(fs);
    if fs != [] {
      assert Mentioned(fs, fs[0].index);
    }
    if slots != [] {
      assert HasSlot(slots, slots[0].index);
    }
  }

  /** The last fragment passed on for an index is everything that was sent for it. */
  lemma FlushedExactly(events: seq<Event>, chunks: seq<Chunk>, index: int)
    requires Flushed(events, SlotsOf(chunks))
    ensures var all := ArgumentsFor(AllFragments(chunks), index);
            all != "" ==> LastDelta(events, index) == Some(all)
  {
    hide SlotsOf, AllFragments, LastDelta;
    var fs, slots := AllFragments(chunks), SlotsOf(chunks);
    SlotsOfExact(chunks);
    if ArgumentsFor(fs, index) != "" {
      if !Mentioned(fs, index) {
        Unmentioned(fs, index);
        assert false;
      }
      var s :| s in slots && s.index == index;
      var k :| 0 <= k < |slots| && slots[k] == s;
    }
  }

  /** The text of an attempt is that of its chunks, one after the other. */
  lemma {:induction false} ContentExactly(chunks: seq<Chunk>, more: seq<Chunk>)
    ensures ContentOf(chunks + more) == ContentOf(chunks) + ContentOf(more)
    ensures |chunks| == 1 ==> ContentOf(chunks) == chunks[0].content
    decreases |more|
  {
    if |chunks| == 1 {
      assert chunks[..0] == [];
    }
    if more == [] {
      assert chunks + more == chunks;
    } else {
      var n := |more| - 1;
      assert (chunks + more)[..|chunks| + n] == chunks + more[..n];
      ContentExactly(chunks, more[..n]);
      Regroup(ContentOf(chunks), ContentOf(more[..n]), more[n].content);
    }
  }
}
