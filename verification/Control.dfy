/** The per-session queue of user messages steered into a running turn. */
module Control {
  import opened Sequences
  import opened Text

  function SteersOf(steer: map<string, seq<string>>, session: string): seq<string> {
    if session in steer then steer[session] else []
  }

  class SessionControlRegistry {
    var steer: map<string, seq<string>>

    constructor ()
      ensures steer == map[]
    {
      steer := map[];
    }

    /** Queues the stripped text; a blank one is an error and changes nothing. */
    method PushSteer(session: string, content: string) returns (ok: bool)
      modifies this
      ensures ok <==> Strip(content) != ""
      ensures steer == if ok then old(steer)[session := SteersOf(old(steer), session) + [Strip(content)]] else old(steer)
    {
      var text := Strip(content);
      if text == "" {
        return false;
      }
      if session !in steer {
        steer := steer[session := []];
      }
      steer := steer[session := steer[session] + [text]];
      ok := true;
    }

    /** Hands out everything queued for the session, oldest first, and empties its queue. */
    method DrainSteer(session: Option<string>) returns (texts: seq<string>)
      modifies this
      ensures texts == if session.Some? then SteersOf(old(steer), session.value) else []
      ensures forall s :: SteersOf(steer, s) == if session == Some(s) then [] else SteersOf(old(steer), s)
    {
      if session.None? || session.value !in steer || steer[session.value] == [] {
        return [];
      }
      texts := steer[session.value];
      steer := steer[session.value := []];
    }

    method ClearSession(session: string)
      modifies this
      ensures forall s :: SteersOf(steer, s) == if s == session then [] else SteersOf(old(steer), s)
    {
      steer := steer - {session};
    }
  }

  // ---- Any interleaving of pushes and drains ----

  datatype Action = Push(session: string, content: string) | Drain(session: string)

  function Apply(steer: map<string, seq<string>>, a: Action): map<string, seq<string>> {
    match a
    case Push(session, content) =>
      if Strip(content) == "" then steer else steer[session := SteersOf(steer, session) + [Strip(content)]]
    case Drain(session) => steer[session := []]
  }

  function ApplyAll(steer: map<string, seq<string>>, actions: seq<Action>): map<string, seq<string>> {
    if actions == [] then steer
    else Apply(ApplyAll(steer, actions[..|actions| - 1]), actions[|actions| - 1])
  }

  function Accepted(a: Action, session: string): seq<string> {
    if a.Push? && a.session == session && Strip(a.content) != "" then [Strip(a.content)] else []
  }

  /** The texts accepted for a session, in order. */
  function Pushed(actions: seq<Action>, session: string): seq<string> {
    if actions == [] then []
    else
      var last := actions[|actions| - 1];
      Pushed(actions[..|actions| - 1], session) + Accepted(last, session)
  }

  /** The texts the drains of a session handed out, in order. */
  function Delivered(steer: map<string, seq<string>>, actions: seq<Action>, session: string): seq<string> {
    if actions == [] then []
    else
      var init, last := actions[..|actions| - 1], actions[|actions| - 1];
      Delivered(steer, init, session)
        + (if last == Drain(session) then SteersOf(ApplyAll(steer, init), session) else [])
  }

  lemma ApplyEffect(steer: map<string, seq<string>>, a: Action, session: string)
    ensures SteersOf(Apply(steer, a), session)
         == if a == Drain(session) then [] else SteersOf(steer, session) + Accepted(a, session)
  {
    match a
    case Push(s, content) =>
    case Drain(s) =>
  }

  lemma EmptyTail(a: seq<string>)
    ensures a + [] == a
  {
  }

  /** Each accepted text is handed out at most once, in order: what was queued or pushed is what was
      delivered followed by what is still queued. */
  lemma {:induction false} DeliveredOnceInOrder(steer: map<string, seq<string>>, actions: seq<Action>, session: string)
    ensures SteersOf(steer, session) + Pushed(actions, session)
         == Delivered(steer, actions, session) + SteersOf(ApplyAll(steer, actions), session)
  {
    hide SteersOf, Apply, Strip;
    if actions != [] {
      var init, last := actions[..|actions| - 1], actions[|actions| - 1];
      DeliveredOnceInOrder(steer, init, session);
      var queued := SteersOf(ApplyAll(steer, init), session);
      ApplyEffect(ApplyAll(steer, init), last, session);
      Regroup(SteersOf(steer, session), Pushed(init, session), Accepted(last, session));
      if last == Drain(session) {
        EmptyTail(Pushed(init, session));
        EmptyTail(Delivered(steer, actions, session));
      } else {
        EmptyTail(Delivered(steer, init, session));
        Regroup(Delivered(steer, init, session), queued, Accepted(last, session));
      }
    }
  }
}
