/** Running the tool calls of one turn: a concurrent batch, then the rest one at a time. */
module Dispatch {

  datatype ToolCall = ToolCall(id: string, name: string, arguments: string)
  datatype Outcome = Outcome(content: string, success: bool)
  datatype ToolResult = ToolResult(callId: string, name: string, content: string, success: bool)

  /** Whether the tool of that name is registered and declares itself safe to run concurrently. */
  type Safety = string -> bool

  function ResultOf(call: ToolCall, outcome: Outcome): ToolResult {
    ToolResult(call.id, call.name, outcome.content, outcome.success)
  }

  predicate DistinctIds(calls: seq<ToolCall>) {
    forall i, j :: 0 <= i < j < |calls| ==> calls[i].id != calls[j].id
  }

  // ---- The schedule: which calls can be running together ----

  /** `toStart` are batch calls not started yet, `serialLeft` the other calls still to come, in order. */
  datatype Exec = Exec(toStart: set<nat>, running: set<nat>, outcomes: map<nat, Outcome>, serialLeft: seq<nat>)

  predicate IsSafe(calls: seq<ToolCall>, safe: Safety, p: nat) {
    p < |calls| && safe(calls[p].name)
  }

  predicate IsUnsafe(calls: seq<ToolCall>, safe: Safety, p: nat) {
    p < |calls| && !safe(calls[p].name)
  }

  /** The positions of the unsafe calls among the first `n`, in order. */
  function SerialPositions(calls: seq<ToolCall>, safe: Safety, n: nat): (ps: seq<nat>)
    requires n <= |calls|
    ensures forall p: nat :: p in ps <==> p < n && IsUnsafe(calls, safe, p)
    ensures forall i, j :: 0 <= i < j < |ps| ==> ps[i] != ps[j]
  {
    if n == 0 then []
    else SerialPositions(calls, safe, n - 1) + (if IsUnsafe(calls, safe, n - 1) then [n - 1] else [])
  }

  function AllPositions(n: nat): (ps: set<nat>)
    ensures forall p: nat :: p in ps <==> p < n
  {
    if n == 0 then {} else AllPositions(n - 1) + {n - 1}
  }

  function Initial(calls: seq<ToolCall>, safe: Safety): Exec {
    Exec(set p | p in AllPositions(|calls|) && IsSafe(calls, safe, p), {}, map[], SerialPositions(calls, safe, |calls|))
  }

  datatype Transition = StartBatch(p: nat) | StartSerial | Finish(p: nat, outcome: Outcome)

  predicate Enabled(s: Exec, e: Transition) {
    match e
    case StartBatch(p) => p in s.toStart
    case StartSerial => s.toStart == {} && s.running == {} && s.serialLeft != []
    case Finish(p, _) => p in s.running
  }

  function Next(s: Exec, e: Transition): Exec
    requires Enabled(s, e)
  {
    match e
    case StartBatch(p) => s.(toStart := s.toStart - {p}, running := s.running + {p})
    case StartSerial => s.(running := {s.serialLeft[0]}, serialLeft := s.serialLeft[1..])
    case Finish(p, o) => s.(running := s.running - {p}, outcomes := s.outcomes[p := o])
  }

  predicate Quiet(s: Exec) {
    s.toStart == {} && s.running == {} && s.serialLeft == []
  }

  ghost predicate IsSchedule(s: Exec, moves: seq<Transition>)
    decreases |moves|
  {
    moves == [] || (Enabled(s, moves[0]) && IsSchedule(Next(s, moves[0]), moves[1..]))
  }

  ghost function After(s: Exec, moves: seq<Transition>): Exec
    requires IsSchedule(s, moves)
    decreases |moves|
  {
    if moves == [] then s else After(Next(s, moves[0]), moves[1..])
  }

  function Underway(s: Exec): set<nat> {
    s.toStart + s.running + s.outcomes.Keys
  }

  /** Every call is in exactly one stage, and an unsafe call runs only on its own. */
  ghost predicate ExecInv(calls: seq<ToolCall>, safe: Safety, s: Exec) {
    && s.toStart !! s.running !! s.outcomes.Keys
    && (forall p: nat :: p in Underway(s) || p in s.serialLeft <==> p < |calls|)
    && (forall p :: p in s.serialLeft ==> p !in Underway(s) && IsUnsafe(calls, safe, p))
    && (forall i, j :: 0 <= i < j < |s.serialLeft| ==> s.serialLeft[i] != s.serialLeft[j])
    && (forall p :: p in s.toStart ==> IsSafe(calls, safe, p))
    && (forall p :: p in s.running && IsUnsafe(calls, safe, p) ==> s.running == {p} && s.toStart == {})
  }

  lemma InitialInv(calls: seq<ToolCall>, safe: Safety)
    ensures ExecInv(calls, safe, Initial(calls, safe))
  {
  }

  lemma StepInv(calls: seq<ToolCall>, safe: Safety, s: Exec, e: Transition)
    requires ExecInv(calls, safe, s) && Enabled(s, e)
    ensures ExecInv(calls, safe, Next(s, e))
  {
    if e.StartSerial? {
      var head, tail := s.serialLeft[0], s.serialLeft[1..];
      assert s.serialLeft == [head] + tail;
      assert head in s.serialLeft;
      assert head !in tail;
    }
  }

  lemma {:induction false} ScheduleInv(calls: seq<ToolCall>, safe: Safety, s: Exec, moves: seq<Transition>)
    requires ExecInv(calls, safe, s) && IsSchedule(s, moves)
    ensures ExecInv(calls, safe, After(s, moves))
    decreases |moves|
  {
    if moves != [] {
      StepInv(calls, safe, s, moves[0]);
      ScheduleInv(calls, safe, Next(s, moves[0]), moves[1..]);
    }
  }

  /** However the batch is interleaved, an unsafe call never overlaps any other call. */
  lemma UnsafeNeverOverlaps(calls: seq<ToolCall>, safe: Safety, moves: seq<Transition>, p: nat, q: nat)
    requires IsSchedule(Initial(calls, safe), moves)
    requires p in After(Initial(calls, safe), moves).running && q in After(Initial(calls, safe), moves).running
    requires IsUnsafe(calls, safe, p)
    ensures p == q
  {
    InitialInv(calls, safe);
    ScheduleInv(calls, safe, Initial(calls, safe), moves);
  }

  predicate AscendingPositions(ps: seq<nat>) {
    forall i, j :: 0 <= i < j < |ps| ==> ps[i] < ps[j]
  }

  /** The unsafe call `q` was started after all safe calls and before all unsafe ones still to come. */
  ghost predicate InTurn(calls: seq<ToolCall>, safe: Safety, s: Exec, q: nat) {
    && s.toStart == {}
    && (forall p :: p in s.running ==> q <= p && IsUnsafe(calls, safe, p))
    && (forall r :: r in s.serialLeft ==> q < r)
  }

  ghost predicate OrderInv(calls: seq<ToolCall>, safe: Safety, s: Exec) {
    && ExecInv(calls, safe, s)
    && AscendingPositions(s.serialLeft)
    && (forall q :: q in Underway(s) && IsUnsafe(calls, safe, q) ==> InTurn(calls, safe, s, q))
  }

  lemma {:induction false} SerialAscends(calls: seq<ToolCall>, safe: Safety, n: nat)
    requires n <= |calls|
    ensures AscendingPositions(SerialPositions(calls, safe, n))
  {
    if n > 0 {
      SerialAscends(calls, safe, n - 1);
      var before := SerialPositions(calls, safe, n - 1);
      assert before + [] == before;
      forall i | 0 <= i < |before| ensures before[i] < n - 1 {
        assert before[i] in before;
      }
    }
  }

  lemma InitialOrder(calls: seq<ToolCall>, safe: Safety)
    ensures OrderInv(calls, safe, Initial(calls, safe))
  {
    InitialInv(calls, safe);
    SerialAscends(calls, safe, |calls|);
    var s := Initial(calls, safe);
    forall q | q in Underway(s) ensures !IsUnsafe(calls, safe, q) {
      assert q in s.toStart;
    }
  }

  lemma HeadIsLeast(ps: seq<nat>)
    requires ps != [] && AscendingPositions(ps)
    ensures AscendingPositions(ps[1..]) && forall r :: r in ps[1..] ==> ps[0] < r
    ensures forall r :: r in ps <==> r == ps[0] || r in ps[1..]
  {
    forall r | r in ps[1..] ensures ps[0] < r {
      var j :| 0 <= j < |ps| - 1 && ps[1..][j] == r;
      assert ps[j + 1] == r;
    }
  }

  lemma OrderStep(calls: seq<ToolCall>, safe: Safety, s: Exec, e: Transition)
    requires OrderInv(calls, safe, s) && Enabled(s, e)
    ensures OrderInv(calls, safe, Next(s, e))
  {
    hide AscendingPositions, IsUnsafe, IsSafe;
    StepInv(calls, safe, s, e);
    var s' := Next(s, e);
    if e.StartSerial? {
      HeadIsLeast(s.serialLeft);
      assert s.serialLeft[0] in s.serialLeft;
    }
    forall q | q in Underway(s') && IsUnsafe(calls, safe, q) ensures InTurn(calls, safe, s', q) {
      StaysInTurn(calls, safe, s, e, q);
    }
  }

  lemma StaysInTurn(calls: seq<ToolCall>, safe: Safety, s: Exec, e: Transition, q: nat)
    requires OrderInv(calls, safe, s) && Enabled(s, e) && q in Underway(Next(s, e)) && IsUnsafe(calls, safe, q)
    ensures InTurn(calls, safe, Next(s, e), q)
  {
    hide IsSafe;
    if e.StartSerial? {
      HeadIsLeast(s.serialLeft);
      assert s.serialLeft[0] in s.serialLeft;
    } else {
      assert q in Underway(s);
    }
  }

  lemma {:induction false} OrderKept(calls: seq<ToolCall>, safe: Safety, s: Exec, moves: seq<Transition>)
    requires OrderInv(calls, safe, s) && IsSchedule(s, moves)
    ensures OrderInv(calls, safe, After(s, moves))
    decreases |moves|
  {
    hide OrderInv, ExecInv;
    if moves != [] {
      OrderStep(calls, safe, s, moves[0]);
      OrderKept(calls, safe, Next(s, moves[0]), moves[1..]);
    }
  }

  /** Once an unsafe call was started, every safe call and every earlier unsafe one has its outcome. */
  lemma UnsafeInCallOrder(calls: seq<ToolCall>, safe: Safety, moves: seq<Transition>, p: nat, q: nat)
    requires IsSchedule(Initial(calls, safe), moves)
    requires q in After(Initial(calls, safe), moves).running || q in After(Initial(calls, safe), moves).outcomes
    requires IsUnsafe(calls, safe, q) && p < |calls| && (IsSafe(calls, safe, p) || p < q)
    ensures p in After(Initial(calls, safe), moves).outcomes
  {
    InitialOrder(calls, safe);
    OrderKept(calls, safe, Initial(calls, safe), moves);
  }

  /** Each move uses up one of the two steps every call has. */
  ghost function Fuel(s: Exec): nat {
    2 * |s.toStart| + |s.running| + 2 * |s.serialLeft|
  }

  lemma {:induction false} SchedulesAreFinite(s: Exec, moves: seq<Transition>)
    requires IsSchedule(s, moves) && s.toStart !! s.running
    ensures |moves| <= Fuel(s)
    decreases |moves|
  {
    if moves != [] {
      var s' := Next(s, moves[0]);
      assert Fuel(s') < Fuel(s) by {
        match moves[0]
        case StartBatch(p) => assert |s.toStart - {p}| == |s.toStart| - 1;
        case StartSerial =>
        case Finish(p, _) => assert |s.running - {p}| == |s.running| - 1;
      }
      SchedulesAreFinite(s', moves[1..]);
    }
  }

  /** A schedule that cannot go on has run every call, once. */
  lemma FinishedSchedule(calls: seq<ToolCall>, safe: Safety, moves: seq<Transition>)
    requires IsSchedule(Initial(calls, safe), moves)
    requires forall e :: !Enabled(After(Initial(calls, safe), moves), e)
    ensures Quiet(After(Initial(calls, safe), moves))
    ensures After(Initial(calls, safe), moves).outcomes.Keys == AllPositions(|calls|)
  {
    var s := After(Initial(calls, safe), moves);
    InitialInv(calls, safe);
    ScheduleInv(calls, safe, Initial(calls, safe), moves);
    if p :| p in s.toStart {
      assert Enabled(s, StartBatch(p));
    } else if p :| p in s.running {
      assert Enabled(s, Finish(p, Outcome("", true)));
    }
    assert !Enabled(s, StartSerial);
  }

  // ---- The results, back in call order ----

  function OwnResults(calls: seq<ToolCall>, outcomes: seq<Outcome>): (r: seq<ToolResult>)
    requires |outcomes| == |calls|
    ensures |r| == |calls|
    ensures forall i :: 0 <= i < |calls| ==> r[i] == ResultOf(calls[i], outcomes[i])
  {
    seq(|calls|, i requires 0 <= i < |calls| => ResultOf(calls[i], outcomes[i]))
  }

  function Select(results: seq<ToolResult>, safe: Safety, wanted: bool): seq<ToolResult> {
    if results == [] then []
    else
      var n := |results| - 1;
      Select(results[..n], safe, wanted) + (if safe(results[n].name) == wanted then [results[n]] else [])
  }

  lemma {:induction false} SelectMembers(results: seq<ToolResult>, safe: Safety, wanted: bool)
    ensures forall r :: r in Select(results, safe, wanted) <==> r in results && safe(r.name) == wanted
  {
    if results != [] {
      var n := |results| - 1;
      SelectMembers(results[..n], safe, wanted);
      assert results == results[..n] + [results[n]];
    }
  }

  /** The results in the order they are collected: the batch first, then the serial calls. */
  function Collected(own: seq<ToolResult>, safe: Safety): seq<ToolResult> {
    Select(own, safe, true) + Select(own, safe, false)
  }

  lemma CollectedMembers(own: seq<ToolResult>, safe: Safety)
    ensures forall r :: r in Collected(own, safe) <==> r in own
  {
    SelectMembers(own, safe, true);
    SelectMembers(own, safe, false);
  }

  predicate HasResult(results: seq<ToolResult>, id: string) {
    exists r :: r in results && r.callId == id
  }

  /** The last collected result with the id. */
  function LastResult(results: seq<ToolResult>, id: string): (r: ToolResult)
    requires HasResult(results, id)
    ensures r in results && r.callId == id
  {
    var n := |results| - 1;
    if results[n].callId == id then results[n]
    else
      assert results == results[..n] + [results[n]];
      LastResult(results[..n], id)
  }

  /** One result per call, in call order; calls that share an id share the result collected last. */
  function Dispatched(calls: seq<ToolCall>, safe: Safety, outcomes: seq<Outcome>): (r: seq<ToolResult>)
    requires |outcomes| == |calls|
    ensures |r| == |calls|
    ensures forall i :: 0 <= i < |calls| ==> r[i].callId == calls[i].id
  {
    var own := OwnResults(calls, outcomes);
    CollectedMembers(own, safe);
    seq(|calls|, i requires 0 <= i < |calls| =>
      assert own[i] in Collected(own, safe);
      LastResult(Collected(own, safe), calls[i].id))
  }

  /** `by_id`: for each id the result collected last. */
  method IndexById(results: seq<ToolResult>) returns (byId: map<string, ToolResult>)
    ensures forall id :: id in byId <==> HasResult(results, id)
    ensures forall id :: id in byId ==> byId[id] == LastResult(results, id)
  {
    byId := map[];
    for k := 0 to |results|
      invariant forall id :: id in byId <==> HasResult(results[..k], id)
      invariant forall id :: id in byId ==> byId[id] == LastResult(results[..k], id)
    {
      assert results[..k + 1] == results[..k] + [results[k]];
      assert results[..k + 1][..k] == results[..k];
      byId := byId[results[k].callId := results[k]];
    }
    assert results[..|results|] == results;
  }

  /** Runs the calls, the concurrent ones collected apart from the serial ones. */
  method RunCalls(calls: seq<ToolCall>, safe: Safety, outcomes: seq<Outcome>)
    returns (concurrent: seq<ToolResult>, serial: seq<ToolResult>)
    requires |outcomes| == |calls|
    ensures concurrent == Select(OwnResults(calls, outcomes), safe, true)
    ensures serial == Select(OwnResults(calls, outcomes), safe, false)
  {
    concurrent, serial := [], [];
    ghost var own := OwnResults(calls, outcomes);
    for i := 0 to |calls|
      invariant concurrent == Select(own[..i], safe, true)
      invariant serial == Select(own[..i], safe, false)
    {
      assert own[..i + 1][..i] == own[..i];
      var result := ResultOf(calls[i], outcomes[i]);
      if safe(calls[i].name) {
        concurrent := concurrent + [result];
      } else {
        serial := serial + [result];
      }
    }
    assert own[..|calls|] == own;
  }

  method DispatchTools(calls: seq<ToolCall>, safe: Safety, outcomes: seq<Outcome>) returns (results: seq<ToolResult>)
    requires |outcomes| == |calls|
    ensures results == Dispatched(calls, safe, outcomes)
  {
    hide Select, LastResult;
    if calls == [] {
      return [];
    }
    var concurrent, serial := RunCalls(calls, safe, outcomes);
    ghost var own := OwnResults(calls, outcomes);
    var byId := IndexById(concurrent + serial);
    CollectedMembers(own, safe);
    results := [];
    for i := 0 to |calls|
      invariant |results| == i
      invariant forall k :: 0 <= k < i ==> results[k] == Dispatched(calls, safe, outcomes)[k]
    {
      assert own[i] in Collected(own, safe);
      if calls[i].id in byId {
        results := results + [byId[calls[i].id]];
      }
    }
  }

  /** With distinct ids the i-th result is the i-th call's own. */
  lemma DistinctIdsOwnResults(calls: seq<ToolCall>, safe: Safety, outcomes: seq<Outcome>)
    requires |outcomes| == |calls| && DistinctIds(calls)
    ensures Dispatched(calls, safe, outcomes) == OwnResults(calls, outcomes)
  {
    var own, r := OwnResults(calls, outcomes), Dispatched(calls, safe, outcomes);
    CollectedMembers(own, safe);
    forall i | 0 <= i < |calls| ensures r[i] == own[i] {
      assert own[i] in Collected(own, safe);
      assert r[i] in own;
    }
  }

  /** The call whose result all calls with its id get: the last unsafe one among them, or, if all are safe, the last. */
  predicate Decides(calls: seq<ToolCall>, safe: Safety, j: nat) {
    && j < |calls|
    && forall k :: 0 <= k < |calls| && calls[k].id == calls[j].id && k != j ==>
         if safe(calls[k].name) == safe(calls[j].name) then k < j else safe(calls[k].name)
  }

  lemma SelectLast(own: seq<ToolResult>, safe: Safety, wanted: bool)
    requires own != []
    ensures var n := |own| - 1;
            Select(own, safe, wanted) ==
              if safe(own[n].name) == wanted then Select(own[..n], safe, wanted) + [own[n]] else Select(own[..n], safe, wanted)
  {
    hide LastResult, HasResult;
  }

  lemma {:induction false} LastSelected(own: seq<ToolResult>, safe: Safety, wanted: bool, id: string, j: nat)
    requires j < |own| && own[j].callId == id && safe(own[j].name) == wanted
    requires forall k :: j < k < |own| && safe(own[k].name) == wanted ==> own[k].callId != id
    ensures HasResult(Select(own, safe, wanted), id) && LastResult(Select(own, safe, wanted), id) == own[j]
  {
    hide Select, LastResult, HasResult;
    var n := |own| - 1;
    var before := Select(own[..n], safe, wanted);
    SelectLast(own, safe, wanted);
    if j < n {
      LastSelected(own[..n], safe, wanted, id, j);
      if safe(own[n].name) == wanted {
        LastSnoc(before, own[n], id);
      }
    } else {
      LastSnoc(before, own[n], id);
    }
  }

  lemma LastSnoc(results: seq<ToolResult>, last: ToolResult, id: string)
    requires last.callId == id || HasResult(results, id)
    ensures HasResult(results + [last], id)
    ensures LastResult(results + [last], id) == if last.callId == id then last else LastResult(results, id)
  {
    assert last in results + [last];
    assert forall r :: r in results ==> r in results + [last];
    assert (results + [last])[..|results|] == results;
  }

  lemma {:induction false} LastOfSum(a: seq<ToolResult>, b: seq<ToolResult>, id: string)
    requires HasResult(a, id) || HasResult(b, id)
    ensures HasResult(a + b, id)
    ensures LastResult(a + b, id) == if HasResult(b, id) then LastResult(b, id) else LastResult(a, id)
    decreases |b|
  {
    if b == [] {
      assert a + b == a;
    } else {
      var n := |b| - 1;
      assert a + b == (a + b[..n]) + [b[n]] && b == b[..n] + [b[n]];
      if b[n].callId == id {
        LastSnoc(a + b[..n], b[n], id);
        LastSnoc(b[..n], b[n], id);
      } else {
        LastOfSum(a, b[..n], id);
        LastSnoc(a + b[..n], b[n], id);
        if HasResult(b[..n], id) {
          LastSnoc(b[..n], b[n], id);
        }
      }
    }
  }

  /** Whatever the ids: each call gets the outcome of the call that decides for its id. */
  lemma SharedExactly(calls: seq<ToolCall>, safe: Safety, outcomes: seq<Outcome>, i: nat, j: nat)
    requires |outcomes| == |calls| && i < |calls| && Decides(calls, safe, j) && calls[i].id == calls[j].id
    ensures Dispatched(calls, safe, outcomes)[i] == ToolResult(calls[j].id, calls[j].name, outcomes[j].content, outcomes[j].success)
  {
    hide Select, LastResult;
    var own, id := OwnResults(calls, outcomes), calls[j].id;
    CollectedMembers(own, safe);
    LastSelected(own, safe, safe(calls[j].name), id, j);
    if safe(calls[j].name) {
      NoneSelected(own, safe, id);
    }
    LastOfSum(Select(own, safe, true), Select(own, safe, false), id);
  }

  lemma NoneSelected(own: seq<ToolResult>, safe: Safety, id: string)
    requires forall k :: 0 <= k < |own| && own[k].callId == id ==> safe(own[k].name)
    ensures !HasResult(Select(own, safe, false), id)
  {
    SelectMembers(own, safe, false);
    forall r | r in Select(own, safe, false) ensures r.callId != id {
      var k :| 0 <= k < |own| && own[k] == r;
    }
  }

  /** Every id has a call that decides. */
  lemma SomeDecides(calls: seq<ToolCall>, safe: Safety, i: nat) returns (j: nat)
    requires i < |calls|
    ensures Decides(calls, safe, j) && calls[j].id == calls[i].id
  {
    j := i;
    for k := 0 to |calls|
      invariant j < |calls| && calls[j].id == calls[i].id
      invariant forall m :: 0 <= m < k && calls[m].id == calls[j].id && m != j ==>
        if safe(calls[m].name) == safe(calls[j].name) then m < j else safe(calls[m].name)
    {
      if calls[k].id == calls[i].id
         && (if safe(calls[k].name) == safe(calls[j].name) then j < k else !safe(calls[k].name)) {
        j := k;
      }
    }
  }

  /** Every call gets its own result, whatever the outcomes, exactly if the ids are distinct. */
  lemma OwnResultsExactly(calls: seq<ToolCall>, safe: Safety)
    ensures DistinctIds(calls) <==>
      forall outcomes: seq<Outcome> | |outcomes| == |calls| ::
        Dispatched(calls, safe, outcomes) == OwnResults(calls, outcomes)
  {
    hide Dispatched;
    if DistinctIds(calls) {
      forall outcomes: seq<Outcome> | |outcomes| == |calls|
        ensures Dispatched(calls, safe, outcomes) == OwnResults(calls, outcomes)
      {
        DistinctIdsOwnResults(calls, safe, outcomes);
      }
    } else {
      var i, j :| 0 <= i < j < |calls| && calls[i].id == calls[j].id;
      SharedIdSharesResult(calls, safe, i, j);
    }
  }

  lemma SharedIdSharesResult(calls: seq<ToolCall>, safe: Safety, i: nat, j: nat)
    requires i < j < |calls| && calls[i].id == calls[j].id
    ensures exists outcomes: seq<Outcome> ::
      |outcomes| == |calls| && Dispatched(calls, safe, outcomes) != OwnResults(calls, outcomes)
  {
    var outcomes := seq(|calls|, k requires 0 <= k < |calls| => Outcome("", k == i));
    var own, r := OwnResults(calls, outcomes), Dispatched(calls, safe, outcomes);
    CollectedMembers(own, safe);
    assert own[i] in Collected(own, safe) && own[j] in Collected(own, safe);
    assert r[i] == r[j];
    assert own[i] != own[j];
  }

  /** Every finished schedule of calls with distinct ids hands each call back the outcome of its own run. */
  lemma ScheduledResults(calls: seq<ToolCall>, safe: Safety, moves: seq<Transition>)
    requires DistinctIds(calls) && IsSchedule(Initial(calls, safe), moves)
    requires forall e :: !Enabled(After(Initial(calls, safe), moves), e)
    ensures var outcomes := After(Initial(calls, safe), moves).outcomes;
            && outcomes.Keys == AllPositions(|calls|)
            && Dispatched(calls, safe, seq(|calls|, i requires 0 <= i < |calls| && i in outcomes => outcomes[i]))
                 == seq(|calls|, i requires 0 <= i < |calls| && i in outcomes => ResultOf(calls[i], outcomes[i]))
  {
    FinishedSchedule(calls, safe, moves);
    var outcomes := After(Initial(calls, safe), moves).outcomes;
    DistinctIdsOwnResults(calls, safe, seq(|calls|, i requires 0 <= i < |calls| && i in outcomes => outcomes[i]));
  }
}
