/** The three passes that make a transcript acceptable to the provider before a model call. */
module Repair {
  import opened Text
  import opened Transcript

  datatype Pass = AskUser | Interrupted

  function DeclaredIds(m: Message): (r: set<string>)
    ensures forall id :: id in r <==> Declares(m, id)
    ensures "" !in r
  {
    set i | 0 <= i < |Pairs(m)| :: Pairs(m)[i].0
  }

  function RunLen(ms: seq<Message>): (n: nat)
    ensures n <= |ms|
    ensures n < |ms| ==> !ms[n].role.Tool?
  {
    if ms == [] || !ms[0].role.Tool? then 0 else 1 + RunLen(ms[1..])
  }

  predicate HasRaw(run: seq<Message>, id: string) {
    exists row :: row in run && row.toolCallId == Some(id)
  }

  predicate HasAnswer(run: seq<Message>, id: string) {
    exists row :: row in run && Answers(row, id)
  }

  /** A tool row stays only under an open call; anything else stays. */
  predicate Kept(m: Message, open: set<string>) {
    m.role.Tool? ==> m.toolCallId.Some? && Strip(m.toolCallId.value) in open
  }

  /** The calls that are open after `m`: a tool row closes none, any other message all but its own. */
  function OpenAfter(m: Message, open: set<string>): set<string> {
    if m.role.Tool? then open else DeclaredIds(m)
  }

  /** What remains of `ms` when the calls `open` are open: tool rows outside an open call go. */
  function DropOrphans(ms: seq<Message>, open: set<string>): seq<Message> {
    if ms == [] then []
    else (if Kept(ms[0], open) then [ms[0]] else []) + DropOrphans(ms[1..], OpenAfter(ms[0], open))
  }

  function PendingStub(id: string): Message {
    Message(Tool, PENDING, [], Some(id), "")
  }

  function InterruptedStub(id: string, name: string): Message {
    Message(Tool, INTERRUPTED, [], Some(id), name)
  }

  function AskStubs(pairs: seq<(string, string)>, run: seq<Message>): seq<Message>
  {
    if pairs == [] then []
    else if pairs[0].1 == ASK_USER && !HasRaw(run, pairs[0].0)
    then [PendingStub(pairs[0].0)] + AskStubs(pairs[1..], run)
    else AskStubs(pairs[1..], run)
  }

  /** One stub per distinct unanswered id, carrying the name it was first declared with. */
  function InterruptedStubs(pairs: seq<(string, string)>, seen: set<string>, run: seq<Message>): seq<Message>
  {
    if pairs == [] then []
    else if pairs[0].0 !in seen && !HasAnswer(run, pairs[0].0)
    then [InterruptedStub(pairs[0].0, pairs[0].1)] + InterruptedStubs(pairs[1..], seen + {pairs[0].0}, run)
    else InterruptedStubs(pairs[1..], seen + {pairs[0].0}, run)
  }

  function Stubs(pass: Pass, head: Message, run: seq<Message>): seq<Message>
  {
    match pass
    case AskUser => AskStubs(Pairs(head), run)
    case Interrupted => InterruptedStubs(Pairs(head), {}, run)
  }

  /** `ms` with the stubs of `pass` inserted at the end of every assistant's run. */
  function Inject(ms: seq<Message>, pass: Pass): seq<Message> {
    if ms == [] then []
    else
      var n := RunLen(ms[1..]);
      if ms[0].role.Assistant? then
        var run := ms[1..][..n];
        [ms[0]] + run + Stubs(pass, ms[0], run) + Inject(ms[1..][n..], pass)
      else [ms[0]] + Inject(ms[1..], pass)
  }

  function Repaired(ms: seq<Message>): seq<Message> {
    Inject(Inject(DropOrphans(ms, {}), AskUser), Interrupted)
  }

  /** The message list of one model call; the passes rewrite it in place. */
  class History {
    var messages: seq<Message>

    constructor (ms: seq<Message>)
      ensures messages == ms
    {
      messages := ms;
    }

    method DropOrphanToolMessages()
      modifies this
      ensures messages == DropOrphans(old(messages), {})
    {
      if messages == [] {
        return;
      }
      var kept: seq<Message> := [];
      var pendingIds: Option<set<string>> := None;
      for i := 0 to |messages|
        invariant messages == old(messages)
        invariant "" !in OpenIds(pendingIds)
        invariant DropOrphans(messages, {}) == kept + DropOrphans(messages[i..], OpenIds(pendingIds))
      {
        hide DropOrphans, DeclaredIds, Strip;
        var msg := messages[i];
        DropStep(messages, i, kept, OpenIds(pendingIds));
        if msg.role.Assistant? {
          if msg.calls != [] {
            pendingIds := Some(DeclaredIds(msg));
          } else {
            pendingIds := None;
            NothingDeclared(msg);
          }
          kept := kept + [msg];
        } else if msg.role.Tool? {
          if msg.toolCallId.Some? && Strip(msg.toolCallId.value) != ""
             && pendingIds.Some? && Strip(msg.toolCallId.value) in pendingIds.value {
            kept := kept + [msg];
          }
        } else {
          pendingIds := None;
          NothingDeclared(msg);
          kept := kept + [msg];
        }
      }
      if |kept| != |messages| {
        messages := kept;
      } else {
        DropOrphansLength(messages, {});
      }
    }

    /** Advances past the tool rows after the assistant at `idx`. */
    method RunEnd(idx: nat) returns (end: nat)
      requires idx < |messages|
      ensures end == idx + 1 + RunLen(messages[idx + 1..])
      ensures end <= |messages|
    {
      end := idx + 1;
      while end < |messages| && messages[end].role.Tool?
        invariant idx < end <= |messages|
        invariant RunLen(messages[idx + 1..]) == end - idx - 1 + RunLen(messages[end..])
      {
        assert messages[end..][1..] == messages[end + 1..];
        end := end + 1;
      }
    }

    /** `messages.insert(at + offset, stub)` for each stub in turn. */
    method InsertAll(at: nat, stubs: seq<Message>)
      requires at <= |messages|
      modifies this
      ensures messages == old(messages)[..at] + stubs + old(messages)[at..]
    {
      ghost var was := messages;
      for offset := 0 to |stubs|
        invariant messages == was[..at] + stubs[..offset] + was[at..]
      {
        messages := messages[..at + offset] + [stubs[offset]] + messages[at + offset..];
      }
    }

    /** Both inserting passes walk the list the same way and differ only in the stubs they add. */
    method InjectStubs(pass: Pass)
      modifies this
      ensures messages == Inject(old(messages), pass)
    {
      var idx := 0;
      while idx < |messages|
        invariant 0 <= idx <= |messages|
        invariant Inject(old(messages), pass) == messages[..idx] + Inject(messages[idx..], pass)
        decreases |messages| - idx
      {
        ghost var was := messages;
        var msg := messages[idx];
        var end := idx + 1;
        var stubs := [];
        if msg.role.Assistant? {
          end := RunEnd(idx);
          stubs := Stubs(pass, msg, messages[idx + 1..end]);
        }
        InjectStep(was, idx, end, pass);
        InsertAll(end, stubs);
        idx := end + |stubs|;
        assert messages[idx..] == was[end..];
        assert messages[..idx] == was[..end] + stubs;
      }
    }

    method InjectPendingAskUserToolStubs()
      modifies this
      ensures messages == Inject(old(messages), AskUser)
    {
      InjectStubs(AskUser);
    }

    method InjectMissingToolResultStubs()
      modifies this
      ensures messages == Inject(old(messages), Interrupted)
    {
      InjectStubs(Interrupted);
    }

    /** The order used before every model call and before every save. */
    method RepairInPlace()
      modifies this
      ensures messages == Repaired(old(messages))
    {
      DropOrphanToolMessages();
      InjectPendingAskUserToolStubs();
      InjectMissingToolResultStubs();
    }
  }

  function OpenIds(pending: Option<set<string>>): set<string> {
    if pending.Some? then pending.value else {}
  }

  /** One step of the walk: up to `end` nothing changes but the stubs added there. */
  lemma InjectStep(ms: seq<Message>, idx: nat, end: nat, pass: Pass)
    requires idx < |ms|
    requires end == if ms[idx].role.Assistant? then idx + 1 + RunLen(ms[idx + 1..]) else idx + 1
    ensures ms[..idx] + Inject(ms[idx..], pass)
         == ms[..end] + StepStubs(ms, idx, end, pass) + Inject(ms[end..], pass)
  {
    var rest := ms[idx..];
    InjectUnfold(rest, end - idx, pass);
    assert rest[1..] == ms[idx + 1..];
    assert rest[1..end - idx] == ms[idx + 1..end];
    assert rest[end - idx..] == ms[end..];
    Splice(ms, idx, end, StepStubs(ms, idx, end, pass), Inject(ms[end..], pass));
  }

  lemma InjectUnfold(ms: seq<Message>, end: nat, pass: Pass)
    requires ms != []
    requires end == if ms[0].role.Assistant? then 1 + RunLen(ms[1..]) else 1
    ensures Inject(ms, pass) == [ms[0]] + ms[1..end] + StepStubs(ms, 0, end, pass) + Inject(ms[end..], pass)
  {
    assert ms[1..][..end - 1] == ms[1..end];
    assert ms[1..][end - 1..] == ms[end..];
    if !ms[0].role.Assistant? {
      assert ms[1..end] == [] && [ms[0]] + ms[1..end] + [] == [ms[0]];
    }
  }

  function StepStubs(ms: seq<Message>, idx: nat, end: nat, pass: Pass): seq<Message>
    requires idx < end <= |ms|
  {
    if ms[idx].role.Assistant? then Stubs(pass, ms[idx], ms[idx + 1..end]) else []
  }

  lemma Splice<T>(s: seq<T>, idx: nat, end: nat, extra: seq<T>, rest: seq<T>)
    requires idx < end <= |s|
    ensures s[..idx] + ([s[idx]] + s[idx + 1..end] + extra + rest) == s[..end] + extra + rest
  {
    assert s[..end] == s[..idx] + [s[idx]] + s[idx + 1..end];
  }

  lemma NothingDeclared(m: Message)
    requires m.calls == [] || !m.role.Assistant?
    ensures DeclaredIds(m) == {}
  {
  }

  lemma DropStep(ms: seq<Message>, i: nat, kept: seq<Message>, open: set<string>)
    requires i < |ms|
    ensures kept + DropOrphans(ms[i..], open)
         == (if Kept(ms[i], open) then kept + [ms[i]] else kept) + DropOrphans(ms[i + 1..], OpenAfter(ms[i], open))
  {
    assert ms[i..][0] == ms[i] && ms[i..][1..] == ms[i + 1..];
  }

  lemma {:induction false} DropOrphansLength(ms: seq<Message>, open: set<string>)
    ensures |DropOrphans(ms, open)| <= |ms|
    ensures |DropOrphans(ms, open)| == |ms| ==> DropOrphans(ms, open) == ms
  {
    if ms != [] {
      DropOrphansLength(ms[1..], OpenAfter(ms[0], open));
    }
  }
}
