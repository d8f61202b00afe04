/** Giving saved messages the ids of the stored ones they continue. */
module MessageIds {
  import opened Text

  datatype Stored = Stored(id: string, role: string, content: string)

  datatype Message = Message(role: string, content: string)

  type Key = (string, string)

  function StoredKey(s: Stored): Key {
    (s.role, s.content)
  }

  function KeyOf(m: Message): Key {
    (m.role, m.content)
  }

  /** One save: what is stored, the transcript to store, the id the user's message already has, if any,
      with its position, and a supply of new ids. */
  datatype Save = Save(
    previous: seq<Stored>,
    messages: seq<Message>,
    persisted: Option<string>,
    appended: Option<int>,
    newId: nat -> string)

  predicate Overridden(s: Save, i: nat) {
    i < |s.messages| && s.persisted.Some? && s.appended == Some(i) && s.messages[i].role == "user"
  }

  /** The positions of the stored messages with key `k`, in order. */
  function Slots(previous: seq<Stored>, k: Key): seq<nat> {
    if previous == [] then []
    else
      var last: nat := |previous| - 1;
      Slots(previous[..last], k) + (if StoredKey(previous[last]) == k then [last] else [])
  }

  /** How many of the first `i` messages look for a stored message with key `k`. */
  function Uses(s: Save, i: nat, k: Key): nat
    requires i <= |s.messages|
  {
    if i == 0 then 0
    else Uses(s, i - 1, k) + (if KeyOf(s.messages[i - 1]) == k && !Overridden(s, i - 1) then 1 else 0)
  }

  /** Where a message's id comes from; `at` is a position in the stored transcript. */
  datatype Origin = Persisted | Reused(at: nat) | Positional(at: nat) | New

  /** The n-th message with some role and content gets the id of the n-th stored one with them. */
  function OriginOf(s: Save, i: nat): Origin
    requires i < |s.messages|
  {
    var k := KeyOf(s.messages[i]);
    if Overridden(s, i) then Persisted
    else if Uses(s, i, k) < |Slots(s.previous, k)| then Reused(Slots(s.previous, k)[Uses(s, i, k)])
    else if i < |s.previous| && s.previous[i].role == s.messages[i].role then Positional(i)
    else New
  }

  lemma {:induction false} SlotsHit(previous: seq<Stored>, k: Key)
    ensures forall r :: 0 <= r < |Slots(previous, k)| ==>
      Slots(previous, k)[r] < |previous| && StoredKey(previous[Slots(previous, k)[r]]) == k
    ensures forall q, r :: 0 <= q < r < |Slots(previous, k)| ==> Slots(previous, k)[q] < Slots(previous, k)[r]
  {
    if previous != [] {
      SlotsHit(previous[..|previous| - 1], k);
    }
  }

  function IdOf(s: Save, i: nat): string
    requires i < |s.messages|
  {
    SlotsHit(s.previous, KeyOf(s.messages[i]));
    match OriginOf(s, i)
    case Persisted => s.persisted.value
    case Reused(at) => s.previous[at].id
    case Positional(at) => s.previous[at].id
    case New => s.newId(i)
  }

  // ---- The loop ----

  /** The ids of the stored messages with key `k`, in order. */
  function IdsFor(previous: seq<Stored>, k: Key): seq<string> {
    if previous == [] then []
    else
      var last := previous[|previous| - 1];
      IdsFor(previous[..|previous| - 1], k) + (if StoredKey(last) == k then [last.id] else [])
  }

  lemma {:induction false} IdsAreSlots(previous: seq<Stored>, k: Key)
    ensures |IdsFor(previous, k)| == |Slots(previous, k)|
    ensures forall r :: 0 <= r < |Slots(previous, k)| ==>
      Slots(previous, k)[r] < |previous| && IdsFor(previous, k)[r] == previous[Slots(previous, k)[r]].id
  {
    if previous != [] {
      IdsAreSlots(previous[..|previous| - 1], k);
    }
  }

  function Waiting(ids: map<Key, seq<string>>, k: Key): seq<string> {
    if k in ids then ids[k] else []
  }

  function Drop(ids: seq<string>, n: nat): seq<string> {
    if n < |ids| then ids[n..] else []
  }

  /** The candidates left for each key after the first `i` messages. */
  ghost predicate Pending(s: Save, i: nat, ids: map<Key, seq<string>>)
    requires i <= |s.messages|
  {
    forall k :: Waiting(ids, k) == Drop(IdsFor(s.previous, k), Uses(s, i, k))
  }

  method CollectIds(previous: seq<Stored>) returns (ids: map<Key, seq<string>>)
    ensures forall k :: Waiting(ids, k) == IdsFor(previous, k)
  {
    ids := map[];
    for p := 0 to |previous|
      invariant forall k :: Waiting(ids, k) == IdsFor(previous[..p], k)
    {
      var k := StoredKey(previous[p]);
      assert previous[..p + 1][..p] == previous[..p];
      ids := ids[k := Waiting(ids, k) + [previous[p].id]];
    }
    assert previous[..|previous|] == previous;
  }

  lemma PendingStart(s: Save, ids: map<Key, seq<string>>)
    requires forall k :: Waiting(ids, k) == IdsFor(s.previous, k)
    ensures Pending(s, 0, ids)
  {
  }

  /** Taking the first candidate, if there is one, keeps the account. */
  lemma PendingStep(s: Save, i: nat, ids: map<Key, seq<string>>)
    requires i < |s.messages| && Pending(s, i, ids)
    ensures Overridden(s, i) ==> Pending(s, i + 1, ids)
    ensures !Overridden(s, i) ==>
      var k := KeyOf(s.messages[i]);
      var w := Waiting(ids, k);
      && (w == [] ==> Pending(s, i + 1, ids))
      && (w != [] ==> Pending(s, i + 1, ids[k := w[1..]]))
  {
    hide IdsFor;
  }

  lemma FirstWaiting(s: Save, i: nat, ids: map<Key, seq<string>>)
    requires i < |s.messages| && Pending(s, i, ids) && !Overridden(s, i)
    ensures var w := Waiting(ids, KeyOf(s.messages[i]));
            && (w != [] ==> OriginOf(s, i).Reused? && IdOf(s, i) == w[0])
            && (w == [] ==> !OriginOf(s, i).Reused?)
  {
    var k := KeyOf(s.messages[i]);
    IdsAreSlots(s.previous, k);
    assert Waiting(ids, k) == Drop(IdsFor(s.previous, k), Uses(s, i, k));
  }

  method AssignIds(s: Save) returns (ids: seq<string>)
    ensures |ids| == |s.messages| && forall i :: 0 <= i < |ids| ==> ids[i] == IdOf(s, i)
  {
    hide Pending, Slots, Uses, IdsFor;
    var candidates := CollectIds(s.previous);
    PendingStart(s, candidates);
    ids := [];
    for i := 0 to |s.messages|
      invariant |ids| == i && Pending(s, i, candidates)
      invariant forall j :: 0 <= j < i ==> ids[j] == IdOf(s, j)
    {
      var msg := s.messages[i];
      var id: Option<string> := None;
      PendingStep(s, i, candidates);
      if s.persisted.Some? && s.appended.Some? && i == s.appended.value && msg.role == "user" {
        id := s.persisted;
      }
      if id.None? {
        FirstWaiting(s, i, candidates);
        var k := KeyOf(msg);
        if k in candidates && candidates[k] != [] {
          id := Some(candidates[k][0]);
          candidates := candidates[k := candidates[k][1..]];
        }
      }
      if id.None? && i < |s.previous| && s.previous[i].role == msg.role {
        id := Some(s.previous[i].id);
      }
      ids := ids + [if id.Some? then id.value else s.newId(i)];
    }
  }

  // ---- When the ids are right ----

  /** New ids are new: they clash neither with each other nor with an id that exists already. */
  ghost predicate IdsFresh(s: Save) {
    && (forall i, j :: 0 <= i < j < |s.messages| ==> s.newId(i) != s.newId(j))
    && (forall i, j :: 0 <= i < |s.messages| && 0 <= j < |s.previous| ==> s.newId(i) != s.previous[j].id)
    && (s.persisted.Some? ==> forall i :: 0 <= i < |s.messages| ==> s.newId(i) != s.persisted.value)
  }

  /** How many stored messages before `at` have its role and content. */
  function Rank(previous: seq<Stored>, at: nat): nat
    requires at < |previous|
  {
    |Slots(previous[..at], StoredKey(previous[at]))|
  }

  /** So few messages have the stored message's role and content that none is matched to it. */
  predicate Unclaimed(s: Save, at: nat)
    requires at < |s.previous|
  {
    Uses(s, |s.messages|, StoredKey(s.previous[at])) <= Rank(s.previous, at)
  }

  lemma {:induction false} SlotOfRank(previous: seq<Stored>, at: nat)
    requires at < |previous|
    ensures var slots := Slots(previous, StoredKey(previous[at])); Rank(previous, at) < |slots| && slots[Rank(previous, at)] == at
  {
    if at < |previous| - 1 {
      assert previous[..|previous| - 1][..at] == previous[..at];
      SlotOfRank(previous[..|previous| - 1], at);
    }
  }

  lemma {:induction false} UsesGrow(s: Save, i: nat, j: nat, k: Key)
    requires i <= j <= |s.messages|
    ensures Uses(s, i, k) <= Uses(s, j, k)
    ensures i < j && KeyOf(s.messages[i]) == k && !Overridden(s, i) ==> Uses(s, i, k) < Uses(s, j, k)
  {
    if i < j {
      UsesGrow(s, i, j - 1, k);
    }
  }

  /** Every use number below the total belongs to some message. */
  lemma {:induction false} UserOf(s: Save, n: nat, k: Key, r: nat) returns (i: nat)
    requires n <= |s.messages| && r < Uses(s, n, k)
    ensures i < n && KeyOf(s.messages[i]) == k && !Overridden(s, i) && Uses(s, i, k) == r
  {
    if Uses(s, n - 1, k) > r {
      i := UserOf(s, n - 1, k, r);
    } else {
      i := n - 1;
    }
  }

  /** A stored message is matched by content to some message exactly if it is not unclaimed. */
  lemma ClaimedExactly(s: Save, at: nat)
    requires at < |s.previous|
    ensures !Unclaimed(s, at) <==> exists i :: 0 <= i < |s.messages| && OriginOf(s, i) == Reused(at)
  {
    var k, r := StoredKey(s.previous[at]), Rank(s.previous, at);
    SlotOfRank(s.previous, at);
    if !Unclaimed(s, at) {
      var i := UserOf(s, |s.messages|, k, r);
      assert OriginOf(s, i) == Reused(at);
    }
    if i :| 0 <= i < |s.messages| && OriginOf(s, i) == Reused(at) {
      var ki := KeyOf(s.messages[i]);
      SlotsHit(s.previous, ki);
      assert ki == k;
      UsesGrow(s, i, |s.messages|, k);
    }
  }

  /** No stored message is matched by content by two messages. */
  lemma ReusedOnce(s: Save, i: nat, j: nat)
    requires i < j < |s.messages| && OriginOf(s, i).Reused?
    ensures OriginOf(s, i) != OriginOf(s, j)
  {
    var ki, kj := KeyOf(s.messages[i]), KeyOf(s.messages[j]);
    SlotsHit(s.previous, ki);
    SlotsHit(s.previous, kj);
    UsesGrow(s, i, j, ki);
  }

  /** By position a message takes only the id of a stored message of the same role, and only if it is not the
      user's message whose id is given and no stored message is left with its role and content. */
  lemma PositionalExactly(s: Save, i: nat)
    requires i < |s.messages|
    ensures var k := KeyOf(s.messages[i]);
      OriginOf(s, i).Positional? <==>
        && !(s.persisted.Some? && s.appended == Some(i) && s.messages[i].role == "user")
        && |IdsFor(s.previous, k)| <= Uses(s, i, k)
        && i < |s.previous| && s.previous[i].role == s.messages[i].role
    ensures OriginOf(s, i).Positional? ==> OriginOf(s, i).at == i
    ensures OriginOf(s, i).Reused? ==> var at := OriginOf(s, i).at;
      at < |s.previous| && s.previous[at].role == s.messages[i].role && s.previous[at].content == s.messages[i].content
  {
    hide Uses;
    IdsAreSlots(s.previous, KeyOf(s.messages[i]));
    SlotsHit(s.previous, KeyOf(s.messages[i]));
  }

  ghost predicate Distinct(s: Save) {
    forall i, j :: 0 <= i < j < |s.messages| ==> IdOf(s, i) != IdOf(s, j)
  }

  /** The message at the stored message's position takes its id for want of another. */
  predicate FallsBack(s: Save, at: nat) {
    at < |s.messages| && OriginOf(s, at) == Positional(at)
  }

  /** Some message gets the stored message's id, by content or by position. */
  predicate HandedOut(s: Save, at: nat)
    requires at < |s.previous|
  {
    !Unclaimed(s, at) || FallsBack(s, at)
  }

  /** No stored message is taken by position and by content, no two that are handed out share an id, and the id
      from outside is none of theirs. */
  ghost predicate HandsOutSafely(s: Save) {
    && (forall at :: 0 <= at < |s.previous| && FallsBack(s, at) ==> Unclaimed(s, at))
    && (forall a, b :: 0 <= a < b < |s.previous| && HandedOut(s, a) && HandedOut(s, b) ==> s.previous[a].id != s.previous[b].id)
    && (forall i, at :: 0 <= i < |s.messages| && 0 <= at < |s.previous| && Overridden(s, i) && HandedOut(s, at) ==>
          s.persisted.value != s.previous[at].id)
  }

  predicate Takes(s: Save, i: nat, at: nat)
    requires i < |s.messages|
  {
    OriginOf(s, i) == Reused(at) || OriginOf(s, i) == Positional(at)
  }

  lemma TakenId(s: Save, i: nat, at: nat)
    requires i < |s.messages| && at < |s.previous|
    ensures Takes(s, i, at) ==> IdOf(s, i) == s.previous[at].id
    ensures OriginOf(s, i) == Positional(at) ==> i == at && FallsBack(s, at)
    ensures Overridden(s, i) <==> OriginOf(s, i) == Persisted
    ensures Overridden(s, i) ==> IdOf(s, i) == s.persisted.value
  {
    hide Slots, Uses;
  }

  lemma HandedOutExactly(s: Save, at: nat)
    requires at < |s.previous|
    ensures HandedOut(s, at) <==> exists i :: 0 <= i < |s.messages| && Takes(s, i, at)
  {
    hide OriginOf, Unclaimed;
    ClaimedExactly(s, at);
    if i :| 0 <= i < |s.messages| && OriginOf(s, i) == Reused(at) {
      assert Takes(s, i, at);
    }
    if FallsBack(s, at) {
      assert Takes(s, at, at);
    }
    if i :| 0 <= i < |s.messages| && Takes(s, i, at) {
      TakenId(s, i, at);
    }
  }

  /** Where a message's id comes from, if it is not new. */
  lemma Sourced(s: Save, i: nat) returns (at: nat)
    requires i < |s.messages| && OriginOf(s, i) != New
    ensures Overridden(s, i) || (at < |s.previous| && Takes(s, i, at))
  {
    SlotsHit(s.previous, KeyOf(s.messages[i]));
    match OriginOf(s, i)
    case Persisted => at := 0;
    case Reused(a) => at := a;
    case Positional(a) => at := a;
    case New =>
  }

  lemma NewIsApart(s: Save, i: nat, j: nat)
    requires IdsFresh(s) && i < |s.messages| && j < |s.messages| && i != j && OriginOf(s, i) == New
    ensures IdOf(s, i) != IdOf(s, j)
  {
    hide Slots, Uses;
    SlotsHit(s.previous, KeyOf(s.messages[j]));
  }

  lemma SafeIsApart(s: Save, i: nat, j: nat)
    requires IdsFresh(s) && HandsOutSafely(s) && i < j < |s.messages|
    ensures IdOf(s, i) != IdOf(s, j)
  {
    hide Slots, Uses, IdOf, OriginOf, IdsFresh, Unclaimed, HandedOut, FallsBack;
    if OriginOf(s, i) == New {
      NewIsApart(s, i, j);
    } else if OriginOf(s, j) == New {
      NewIsApart(s, j, i);
    } else {
      var a := Sourced(s, i);
      var b := Sourced(s, j);
      if Overridden(s, i) {
        TakenByOther(s, i, j, b);
      } else if Overridden(s, j) {
        TakenByOther(s, j, i, a);
      } else {
        TakenId(s, i, a);
        TakenId(s, j, b);
        HandedOutExactly(s, a);
        HandedOutExactly(s, b);
        if a == b {
          ClaimedExactly(s, a);
          TakenOnce(s, i, j, a);
        }
      }
    }
  }

  lemma TakenByOther(s: Save, i: nat, j: nat, at: nat)
    requires HandsOutSafely(s) && i < |s.messages| && j < |s.messages| && i != j && Overridden(s, i)
    requires Overridden(s, j) || (at < |s.previous| && Takes(s, j, at))
    ensures IdOf(s, i) != IdOf(s, j)
  {
    hide Slots, Uses, IdOf, OriginOf, Unclaimed, HandedOut, FallsBack;
    HandedOutExactly(s, at);
    TakenId(s, j, at);
    TakenId(s, i, at);
  }

  lemma TakenOnce(s: Save, i: nat, j: nat, at: nat)
    requires i < j < |s.messages| && at < |s.previous|
    requires FallsBack(s, at) ==> Unclaimed(s, at)
    ensures !(Takes(s, i, at) && Takes(s, j, at))
  {
    hide OriginOf, Unclaimed, FallsBack;
    ClaimedExactly(s, at);
    TakenId(s, i, at);
    TakenId(s, j, at);
    if OriginOf(s, i) == Reused(at) {
      ReusedOnce(s, i, j);
    }
  }

  lemma DistinctIsSafe(s: Save)
    requires Distinct(s)
    ensures HandsOutSafely(s)
  {
    hide Slots, Uses, IdOf, OriginOf, Unclaimed, HandedOut, FallsBack;
    forall at | 0 <= at < |s.previous| && FallsBack(s, at) ensures Unclaimed(s, at) {
      FallbackAlone(s, at);
    }
    forall a, b | 0 <= a < b < |s.previous| && HandedOut(s, a) && HandedOut(s, b) ensures s.previous[a].id != s.previous[b].id {
      HandedOutExactly(s, a);
      HandedOutExactly(s, b);
      var i :| 0 <= i < |s.messages| && Takes(s, i, a);
      var j :| 0 <= j < |s.messages| && Takes(s, j, b);
      TakenId(s, i, a);
      TakenId(s, j, b);
      assert i != j;
      assert IdOf(s, i) != IdOf(s, j);
    }
    forall i, at | 0 <= i < |s.messages| && 0 <= at < |s.previous| && Overridden(s, i) && HandedOut(s, at)
      ensures s.persisted.value != s.previous[at].id {
      HandedOutExactly(s, at);
      var j :| 0 <= j < |s.messages| && Takes(s, j, at);
      TakenId(s, j, at);
      TakenId(s, i, at);
      assert i != j;
      assert IdOf(s, i) != IdOf(s, j);
    }
  }

  lemma FallbackAlone(s: Save, at: nat)
    requires Distinct(s) && at < |s.previous| && FallsBack(s, at)
    ensures Unclaimed(s, at)
  {
    hide Slots, Uses, IdOf, Unclaimed;
    ClaimedExactly(s, at);
    TakenId(s, at, at);
    forall i | 0 <= i < |s.messages| ensures OriginOf(s, i) != Reused(at) {
      TakenId(s, i, at);
    }
  }

  /** For every save: the ids are pairwise distinct exactly if they are handed out safely. */
  lemma DistinctExactly(s: Save)
    requires IdsFresh(s)
    ensures Distinct(s) <==> HandsOutSafely(s)
  {
    hide HandsOutSafely, IdsFresh, IdOf, OriginOf;
    if HandsOutSafely(s) {
      forall i, j | 0 <= i < j < |s.messages| ensures IdOf(s, i) != IdOf(s, j) {
        SafeIsApart(s, i, j);
      }
    }
    if Distinct(s) {
      DistinctIsSafe(s);
    }
  }

  // ---- Continuing the stored transcript ----

  /** The stored messages come first, unchanged, and the id from outside is for a later one. */
  ghost predicate Continues(s: Save) {
    && |s.previous| <= |s.messages|
    && forall i :: 0 <= i < |s.previous| ==> KeyOf(s.messages[i]) == StoredKey(s.previous[i]) && !Overridden(s, i)
  }

  lemma {:induction false} UsesAreSlots(s: Save, i: nat, k: Key)
    requires Continues(s) && i <= |s.previous|
    ensures Uses(s, i, k) == |Slots(s.previous[..i], k)|
  {
    if i > 0 {
      UsesAreSlots(s, i - 1, k);
      assert s.previous[..i][..i - 1] == s.previous[..i - 1];
    }
  }

  /** Every old message keeps its own id, even among messages with equal role and content. */
  lemma OldIdsKept(s: Save, i: nat)
    requires Continues(s) && i < |s.previous|
    ensures OriginOf(s, i) == Reused(i) && IdOf(s, i) == s.previous[i].id
  {
    UsesAreSlots(s, i, StoredKey(s.previous[i]));
    SlotOfRank(s.previous, i);
  }

  /** Every later message gets a new id or the one from outside. */
  lemma LaterIdsNew(s: Save, i: nat)
    requires Continues(s) && |s.previous| <= i < |s.messages|
    ensures OriginOf(s, i) == if Overridden(s, i) then Persisted else New
  {
    var k := KeyOf(s.messages[i]);
    UsesAreSlots(s, |s.previous|, k);
    assert s.previous[..|s.previous|] == s.previous;
    UsesGrow(s, |s.previous|, i, k);
  }

  /** After a continued transcript all ids are distinct exactly if the stored ones were and the id from outside is new. */
  lemma ContinuedDistinctExactly(s: Save)
    requires IdsFresh(s) && Continues(s)
    ensures Distinct(s) <==>
      && (forall a, b :: 0 <= a < b < |s.previous| ==> s.previous[a].id != s.previous[b].id)
      && !exists i, at :: 0 <= i < |s.messages| && 0 <= at < |s.previous| && Overridden(s, i) && s.persisted.value == s.previous[at].id
  {
    hide Slots, Uses, IdOf, OriginOf, IdsFresh, Unclaimed;
    DistinctExactly(s);
    forall at | 0 <= at < |s.previous| ensures HandedOut(s, at) && !FallsBack(s, at) {
      OldIdsKept(s, at);
      ClaimedExactly(s, at);
    }
  }

  /** After the oldest message is dropped, a new message takes by position the id that an old one kept by content. */
  lemma ShiftedTranscriptClashes(s: Save, a: string, b: string)
    requires s.previous == [Stored(a, "user", "first"), Stored(b, "user", "second")]
    requires s.messages == [Message("user", "second"), Message("user", "third")] && s.persisted == None
    ensures IdOf(s, 0) == IdOf(s, 1) == b
  {
    var second, third := ("user", "second"), ("user", "third");
    assert s.previous[..1][..0] == [];
    assert s.previous[1] == Stored(b, "user", "second") && s.previous[..1] == [Stored(a, "user", "first")];
    assert "first" != "second" && "first" != "third" && "second" != "third";
    assert Slots(s.previous[..1], second) == [] && Slots(s.previous[..1], third) == [];
    assert Slots(s.previous, second) == [1] && Slots(s.previous, third) == [];
    assert Uses(s, 0, second) == 0;
  }
}
