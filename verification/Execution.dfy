/** Running a plan: which steps are ready, what completing one does, and which plans finish. */
module Execution {
  import opened Sequences
  import opened Text
  import opened PlanGraph
  import opened Scheduling

  datatype PlanState = PlanState(steps: seq<PlanStep>, completed: seq<int>)

  predicate IsReady(s: PlanStep, completed: set<int>) {
    s.status.Pending? && ReadyNow(s, completed)
  }

  function ReadySteps(steps: seq<PlanStep>, completed: set<int>): seq<PlanStep> {
    if steps == [] then []
    else
      var n := |steps| - 1;
      ReadySteps(steps[..n], completed) + (if IsReady(steps[n], completed) then [steps[n]] else [])
  }

  lemma {:induction false} ReadyStepsMembers(steps: seq<PlanStep>, completed: set<int>)
    ensures forall s :: s in ReadySteps(steps, completed) <==> s in steps && IsReady(s, completed)
  {
    hide IsReady;
    if steps != [] {
      var n := |steps| - 1;
      ReadyStepsMembers(steps[..n], completed);
      assert steps == steps[..n] + [steps[n]];
    }
  }

  predicate Finished(s: PlanStep) {
    s.status.Completed? || s.status.Skipped?
  }

  predicate AllFinished(steps: seq<PlanStep>) {
    forall s :: s in steps ==> Finished(s)
  }

  /** `steps` with its first step called `id`, if any, replaced by `f` of it. */
  function UpdateFirst(steps: seq<PlanStep>, id: int, f: PlanStep -> PlanStep): seq<PlanStep> {
    if steps == [] then []
    else if steps[0].id == id then [f(steps[0])] + steps[1..]
    else [steps[0]] + UpdateFirst(steps[1..], id, f)
  }

  function CompletedWith(result: string): PlanStep -> PlanStep {
    (s: PlanStep) => s.(status := Completed, result := result)
  }

  function FailedWith(error: string): PlanStep -> PlanStep {
    (s: PlanStep) => s.(status := Failed, error := error)
  }

  function Complete(st: PlanState, id: int, result: string): PlanState {
    PlanState(UpdateFirst(st.steps, id, CompletedWith(result)),
              if id in IdsOf(st.steps) then st.completed + [id] else st.completed)
  }

  class ExecutionPlan {
    var steps: seq<PlanStep>
    var completedSteps: seq<int>

    constructor (planned: seq<PlanStep>)
      ensures State() == PlanState(planned, [])
    {
      steps, completedSteps := planned, [];
    }

    ghost function State(): PlanState
      reads this
    {
      PlanState(steps, completedSteps)
    }

    method ScheduleReady() returns (ready: seq<PlanStep>)
      ensures ready == ReadySteps(steps, Elements(completedSteps))
    {
      ready := [];
      var completed := Elements(completedSteps);
      for i := 0 to |steps|
        invariant ready == ReadySteps(steps[..i], completed)
      {
        assert steps[..i + 1][..i] == steps[..i];
        if !steps[i].status.Pending? {
          continue;
        }
        if forall dep | dep in steps[i].dependsOn :: dep in completed {
          ready := ready + [steps[i]];
        }
      }
      assert steps[..|steps|] == steps;
    }

    /** The first step `ScheduleReady` would list. */
    method CurrentStep() returns (current: Option<PlanStep>)
      ensures var ready := ReadySteps(steps, Elements(completedSteps));
              current == if ready == [] then None else Some(ready[0])
    {
      for i := 0 to |steps|
        invariant ReadySteps(steps[..i], Elements(completedSteps)) == []
      {
        assert steps[..i + 1][..i] == steps[..i];
        if steps[i].status.Pending? {
          var depsMet := forall d | d in steps[i].dependsOn :: d in completedSteps;
          if depsMet {
            ReadyStepsPrefix(steps, Elements(completedSteps), i + 1);
            return Some(steps[i]);
          }
        }
      }
      assert steps[..|steps|] == steps;
      return None;
    }

    predicate IsComplete()
      reads this
    {
      AllFinished(steps)
    }

    /** The executor may stop when nothing is ready: on a runnable plan that is when it is complete, and only then. */
    lemma CompleteExactlyIfNothingReady()
      requires Consistent(State()) && Runnable(State())
      ensures IsComplete() <==> ReadySteps(steps, Elements(completedSteps)) == []
    {
      hide Runnable, Consistent, StepOf, ReadySteps;
      var ready := ReadySteps(steps, Elements(completedSteps));
      ReadyStepsMembers(steps, Elements(completedSteps));
      EmptyOrMember(ready);
      if !IsComplete() {
        var id := NoDeadlock(State());
        assert StepOf(steps, id) in ready;
      }
    }

    method MarkStepCompleted(id: int, result: string)
      modifies this
      ensures State() == Complete(old(State()), id, result)
      ensures CompletesFirst(old(steps), steps, id, result)
      ensures completedSteps == old(completedSteps) + (if exists s :: s in old(steps) && s.id == id then [id] else [])
    {
      hide CompletesFirst;
      CompletedPointwise(State(), id, result);
      var f := CompletedWith(result);
      for i := 0 to |steps|
        invariant steps == old(steps) && completedSteps == old(completedSteps)
        invariant id !in IdsOf(steps[..i])
        invariant UpdateFirst(steps, id, f) == steps[..i] + UpdateFirst(steps[i..], id, f)
      {
        assert IdsOf(steps[..i + 1]) == IdsOf(steps[..i]) + [steps[i].id];
        UpdateFirstNext(steps, id, f, i);
        if steps[i].id == id {
          assert IdsOf(steps)[i] == id;
          steps := steps[i := steps[i].(status := Completed, result := result)];
          completedSteps := completedSteps + [id];
          return;
        }
      }
      assert steps[..|steps|] == steps;
    }

    method MarkStepFailed(id: int, error: string)
      modifies this
      ensures State() == Fail(old(State()), id, error)
      ensures FailsFirst(old(steps), steps, id, error)
      ensures completedSteps == old(completedSteps)
    {
      hide FailsFirst;
      FailedPointwise(steps, id, error);
      var f := FailedWith(error);
      for i := 0 to |steps|
        invariant steps == old(steps) && completedSteps == old(completedSteps)
        invariant UpdateFirst(steps, id, f) == steps[..i] + UpdateFirst(steps[i..], id, f)
      {
        UpdateFirstNext(steps, id, f, i);
        if steps[i].id == id {
          steps := steps[i := steps[i].(status := Failed, error := error)];
          return;
        }
      }
      assert steps[..|steps|] == steps;
    }
  }

  lemma {:induction false} ReadyStepsPrefix(steps: seq<PlanStep>, completed: set<int>, i: nat)
    requires i <= |steps|
    ensures ReadySteps(steps[..i], completed) <= ReadySteps(steps, completed)
    decreases |steps|
  {
    if i == |steps| {
      assert steps[..i] == steps;
    } else {
      var n := |steps| - 1;
      assert steps[..n][..i] == steps[..i];
      ReadyStepsPrefix(steps[..n], completed, i);
    }
  }

  predicate IsFirst(steps: seq<PlanStep>, id: int, i: int) {
    0 <= i < |steps| && steps[i].id == id && forall j :: 0 <= j < i ==> steps[j].id != id
  }

  /** Exactly the first step called `id` is completed with `result`. */
  predicate CompletesFirst(was: seq<PlanStep>, now: seq<PlanStep>, id: int, result: string) {
    && |now| == |was|
    && (forall i :: 0 <= i < |was| && IsFirst(was, id, i) ==> now[i] == was[i].(status := Completed, result := result))
    && (forall i :: 0 <= i < |was| && !IsFirst(was, id, i) ==> now[i] == was[i])
  }

  /** Exactly the first step called `id` is failed with `error`. */
  predicate FailsFirst(was: seq<PlanStep>, now: seq<PlanStep>, id: int, error: string) {
    && |now| == |was|
    && (forall i :: 0 <= i < |was| && IsFirst(was, id, i) ==> now[i] == was[i].(status := Failed, error := error))
    && (forall i :: 0 <= i < |was| && !IsFirst(was, id, i) ==> now[i] == was[i])
  }

  lemma IsFirstNext(steps: seq<PlanStep>, id: int, i: nat)
    requires 0 < i < |steps| && steps[0].id != id
    ensures IsFirst(steps, id, i) <==> IsFirst(steps[1..], id, i - 1)
  {
    var rest := steps[1..];
    assert forall j :: 0 < j < |steps| ==> rest[j - 1] == steps[j];
    if IsFirst(rest, id, i - 1) {
      forall j | 0 <= j < i ensures steps[j].id != id {
        if j > 0 { assert rest[j - 1].id != id; }
      }
    }
  }

  lemma {:induction false} UpdatedPointwise(steps: seq<PlanStep>, id: int, f: PlanStep -> PlanStep)
    ensures var out := UpdateFirst(steps, id, f);
            && |out| == |steps|
            && (forall i :: 0 <= i < |steps| && IsFirst(steps, id, i) ==> out[i] == f(steps[i]))
            && (forall i :: 0 <= i < |steps| && !IsFirst(steps, id, i) ==> out[i] == steps[i])
  {
    if steps != [] && steps[0].id != id {
      UpdatedPointwise(steps[1..], id, f);
      forall i | 0 < i < |steps| ensures IsFirst(steps, id, i) <==> IsFirst(steps[1..], id, i - 1) {
        IsFirstNext(steps, id, i);
      }
    }
  }

  lemma NamedSomewhere(steps: seq<PlanStep>, id: int)
    ensures id in IdsOf(steps) <==> exists s :: s in steps && s.id == id
  {
    if id in IdsOf(steps) {
      var i :| 0 <= i < |steps| && IdsOf(steps)[i] == id;
      assert steps[i] in steps;
    }
    if s :| s in steps && s.id == id {
      var i :| 0 <= i < |steps| && steps[i] == s;
      assert IdsOf(steps)[i] == id;
    }
  }

  /** What completing a step changes, whatever the ids. */
  lemma CompletedPointwise(st: PlanState, id: int, result: string)
    ensures CompletesFirst(st.steps, Complete(st, id, result).steps, id, result)
    ensures Complete(st, id, result).completed == st.completed + (if exists s :: s in st.steps && s.id == id then [id] else [])
  {
    hide IsFirst, UpdateFirst, IdsOf;
    UpdatedPointwise(st.steps, id, CompletedWith(result));
    NamedSomewhere(st.steps, id);
  }

  lemma FailedPointwise(steps: seq<PlanStep>, id: int, error: string)
    ensures FailsFirst(steps, UpdateFirst(steps, id, FailedWith(error)), id, error)
  {
    hide IsFirst, UpdateFirst;
    UpdatedPointwise(steps, id, FailedWith(error));
  }

  function Fail(st: PlanState, id: int, error: string): PlanState {
    st.(steps := UpdateFirst(st.steps, id, FailedWith(error)))
  }

  lemma FailedConsistent(st: PlanState, id: int, error: string)
    requires Consistent(st) && id in IdsOf(st.steps) && id !in st.completed
    ensures Consistent(Fail(st, id, error)) && !NoneFailed(Fail(st, id, error).steps)
  {
    hide UpdateFirst;
    var failed := Fail(st, id, error);
    UpdateFirstPointwise(st.steps, id, FailedWith(error));
    forall s | s in failed.steps ensures s.status.Completed? <==> s.id in st.completed {
      var i :| 0 <= i < |failed.steps| && failed.steps[i] == s;
      assert st.steps[i] in st.steps;
    }
    var i :| 0 <= i < |st.steps| && IdsOf(st.steps)[i] == id;
    assert failed.steps[i] in failed.steps && failed.steps[i].status.Failed?;
  }

  /** After a step that was not completed has failed, no run finishes the plan. */
  lemma FailedStepBlocks(st: PlanState, id: int, error: string, ids: seq<int>)
    requires Consistent(st) && id in IdsOf(st.steps) && id !in st.completed
    requires IsRun(Fail(st, id, error), ids)
    ensures !AllFinished(After(Fail(st, id, error), ids).steps)
  {
    hide IsRun, After, AllFinished, Fail, NoneFailed;
    FailedConsistent(st, id, error);
    FinishesExactlyIfRunnable(Fail(st, id, error));
  }

  lemma UpdateFirstNext(steps: seq<PlanStep>, id: int, f: PlanStep -> PlanStep, i: nat)
    requires i < |steps|
    ensures steps[..i] + UpdateFirst(steps[i..], id, f) ==
      if steps[i].id == id then steps[i := f(steps[i])]
      else steps[..i + 1] + UpdateFirst(steps[i + 1..], id, f)
  {
    var rest := steps[i..];
    assert rest[0] == steps[i] && rest[1..] == steps[i + 1..];
    assert steps[..i + 1] == steps[..i] + [steps[i]];
    assert steps[i := f(steps[i])] == steps[..i] + ([f(steps[i])] + steps[i + 1..]);
  }

  // ---- What completing a step changes ----

  lemma {:induction false} UpdateFirstPointwise(steps: seq<PlanStep>, id: int, f: PlanStep -> PlanStep)
    requires UniqueIds(steps)
    ensures var out := UpdateFirst(steps, id, f);
            |out| == |steps| && forall i :: 0 <= i < |steps| ==>
              out[i] == if steps[i].id == id then f(steps[i]) else steps[i]
  {
    if steps != [] && steps[0].id != id {
      UpdateFirstPointwise(steps[1..], id, f);
    }
  }

  /** Unique ids, and the completed list names exactly the completed steps of the plan. */
  ghost predicate Consistent(st: PlanState) {
    && UniqueIds(st.steps)
    && forall s :: s in st.steps ==> (s.status.Completed? <==> s.id in st.completed)
  }

  predicate CanComplete(st: PlanState, id: int) {
    id in IdsOf(st.steps) && IsReady(StepOf(st.steps, id), Elements(st.completed))
  }

  function Done(s: PlanStep): PlanStep {
    s.(status := Completed, result := "")
  }

  lemma CompletePointwise(st: PlanState, id: int)
    requires Consistent(st) && CanComplete(st, id)
    ensures var st' := Complete(st, id, "");
            && Consistent(st')
            && |st'.steps| == |st.steps|
            && (forall i :: 0 <= i < |st.steps| ==>
                  st'.steps[i] == if st.steps[i].id == id then Done(st.steps[i]) else st.steps[i])
  {
    hide StepOf;
    UpdateFirstPointwise(st.steps, id, CompletedWith(""));
    var st' := Complete(st, id, "");
    forall s | s in st'.steps ensures s.status.Completed? <==> s.id in st'.completed {
      var i :| 0 <= i < |st'.steps| && st'.steps[i] == s;
      assert st.steps[i] in st.steps;
    }
  }

  function Undone(deps: seq<int>, completed: seq<int>): (r: seq<int>)
    ensures forall d :: d in r <==> d in deps && d !in completed
  {
    if deps == [] then []
    else
      assert forall d :: d in deps <==> d == deps[0] || d in deps[1..];
      (if deps[0] in completed then [] else [deps[0]]) + Undone(deps[1..], completed)
  }

  /** Pending step -> the dependencies it still waits for. */
  function PendingGraph(st: PlanState): Graph {
    map id | id in IdSet(st.steps) && StepOf(st.steps, id).status.Pending?
      :: Undone(StepOf(st.steps, id).dependsOn, st.completed)
  }

  /** No step is failed, and no pending one waits for a cycle, an unknown id, or a step that is not pending. */
  ghost predicate Runnable(st: PlanState) {
    && NoneFailed(st.steps)
    && (forall id :: id in PendingGraph(st) ==> Sortable(PendingGraph(st), id))
  }

  /** `g'` is `g` after the unblocked step `c` was done. */
  ghost predicate DoneIn(g: Graph, c: int, g': Graph) {
    && c in g && g[c] == []
    && g'.Keys == g.Keys - {c}
    && forall id :: id in g' ==> forall d :: d in g'[id] <==> d in g[id] && d != c
  }

  lemma {:induction false} WithinAfterDone(g: Graph, c: int, g': Graph, k: nat)
    requires DoneIn(g, c, g')
    ensures Within(g, k) - {c} <= Within(g', k)
    ensures Within(g', k) <= Within(g, k + 1)
    decreases k
  {
    if k > 0 {
      WithinAfterDone(g, c, g', k - 1);
      WithinMonotone(g, 1, k);
      WithinStep(g, c, 0);
      forall id | id in Within(g, k) - {c} ensures id in Within(g', k) {
        WithinStep(g, id, k - 1);
        WithinStep(g', id, k - 1);
      }
      forall id | id in Within(g', k) ensures id in Within(g, k + 1) {
        WithinStep(g', id, k - 1);
        WithinStep(g, id, k);
        forall d | d in g[id] ensures d in Within(g, k) {
          if d != c {
            assert d in g'[id];
          }
        }
      }
    }
  }

  lemma SortableAfterDone(g: Graph, c: int, g': Graph)
    requires DoneIn(g, c, g')
    ensures (forall id :: id in g ==> Sortable(g, id)) <==> (forall id :: id in g' ==> Sortable(g', id))
  {
    hide Sortable;
    if forall id :: id in g ==> Sortable(g, id) {
      forall id | id in g' ensures Sortable(g', id) {
        SortableHasWave(g, id);
        var k: nat :| id in Within(g, k);
        WithinAfterDone(g, c, g', k);
        SortableHasWave(g', id);
      }
    }
    if forall id :: id in g' ==> Sortable(g', id) {
      forall id | id in g ensures Sortable(g, id) {
        SortableHasWave(g, id);
        if id == c {
          WithinStep(g, c, 0);
        } else {
          SortableHasWave(g', id);
          var k: nat :| id in Within(g', k);
          WithinAfterDone(g, c, g', k);
        }
      }
    }
  }

  lemma StepOfAfterComplete(st: PlanState, c: int, id: int)
    requires Consistent(st) && CanComplete(st, c)
    ensures IdsOf(Complete(st, c, "").steps) == IdsOf(st.steps)
    ensures id in IdsOf(st.steps) ==>
      StepOf(Complete(st, c, "").steps, id) == if id == c then Done(StepOf(st.steps, c)) else StepOf(st.steps, id)
  {
    hide StepOf, IsReady;
    CompletePointwise(st, c);
    if id in IdsOf(st.steps) {
      var st', s := Complete(st, c, ""), StepOf(st.steps, id);
      var i :| 0 <= i < |st.steps| && st.steps[i] == s;
      assert st'.steps[i] in st'.steps;
      StepOfUnique(st'.steps, st'.steps[i]);
    }
  }

  lemma NothingUndone(deps: seq<int>, completed: seq<int>)
    ensures Undone(deps, completed) == [] <==> forall d :: d in deps ==> d in completed
  {
    var r := Undone(deps, completed);
    if r == [] {
      forall d | d in deps ensures d in completed {
        assert d in completed || d in r;
      }
    } else {
      var d := r[0];
      assert d in deps && d !in completed;
    }
  }

  lemma GraphAfterComplete(st: PlanState, c: int)
    requires Consistent(st) && CanComplete(st, c)
    ensures DoneIn(PendingGraph(st), c, PendingGraph(Complete(st, c, "")))
  {
    hide StepOf, Complete, Consistent, Undone, ReadyNow;
    var st' := Complete(st, c, "");
    StepOfAfterComplete(st, c, c);
    UnblockedInGraph(st, c);
    forall id | id in IdsOf(st.steps) && id != c ensures StepOf(st'.steps, id) == StepOf(st.steps, id) {
      StepOfAfterComplete(st, c, id);
    }
    CompletedAfter(st, c);
  }

  lemma CompletedAfter(st: PlanState, c: int)
    requires CanComplete(st, c)
    ensures Complete(st, c, "").completed == st.completed + [c]
  {
  }

  lemma UnblockedInGraph(st: PlanState, c: int)
    requires CanComplete(st, c)
    ensures c in PendingGraph(st) && PendingGraph(st)[c] == []
  {
    NothingUndone(StepOf(st.steps, c).dependsOn, st.completed);
  }

  lemma RunnableAfterComplete(st: PlanState, c: int)
    requires Consistent(st) && CanComplete(st, c)
    ensures Consistent(Complete(st, c, "")) && (Runnable(st) <==> Runnable(Complete(st, c, "")))
  {
    hide PendingGraph, Sortable, Consistent, StepOf;
    var st' := Complete(st, c, "");
    CompletePointwise(st, c);
    GraphAfterComplete(st, c);
    SortableAfterDone(PendingGraph(st), c, PendingGraph(st'));
    OthersUnchanged(st, c);
  }

  predicate NoneFailed(steps: seq<PlanStep>) {
    forall i :: 0 <= i < |steps| ==> Finished(steps[i]) || steps[i].status.Pending?
  }

  lemma OthersUnchanged(st: PlanState, c: int)
    requires Consistent(st) && CanComplete(st, c)
    ensures NoneFailed(st.steps) <==> NoneFailed(Complete(st, c, "").steps)
  {
    CompletePointwise(st, c);
    hide UpdateFirst, StepOf, Consistent;
    var s := StepOf(st.steps, c);
    forall i | 0 <= i < |st.steps| && st.steps[i].id == c ensures st.steps[i].status.Pending? {
      StepOfAt(st, i);
    }
  }

  lemma StepOfAt(st: PlanState, i: nat)
    requires Consistent(st) && i < |st.steps|
    ensures st.steps[i].id in IdsOf(st.steps) && StepOf(st.steps, st.steps[i].id) == st.steps[i]
  {
    StepOfUnique(st.steps, st.steps[i]);
  }

  // ---- Runs ----

  /** Completing the steps `ids` one at a time, each of them ready when its turn comes. */
  ghost predicate IsRun(st: PlanState, ids: seq<int>)
    decreases |ids|
  {
    ids == [] || (CanComplete(st, ids[0]) && IsRun(Complete(st, ids[0], ""), ids[1..]))
  }

  ghost function After(st: PlanState, ids: seq<int>): PlanState
    decreases |ids|
  {
    if ids == [] then st else After(Complete(st, ids[0], ""), ids[1..])
  }

  lemma KnownStep(st: PlanState, id: int, k: nat)
    requires id in Within(PendingGraph(st), k)
    ensures 0 < k && id in PendingGraph(st)
  {
  }

  /** While a runnable plan has a pending step, some step is ready. */
  lemma {:induction false} SomeStepReady(st: PlanState, id: int, k: nat) returns (ready: int)
    requires Consistent(st) && Runnable(st)
    requires id in Within(PendingGraph(st), k)
    ensures CanComplete(st, ready)
    decreases k
  {
    hide Runnable, Sortable, StepOf, Consistent, Undone, Within;
    var g := PendingGraph(st);
    KnownStep(st, id, k);
    if g[id] == [] {
      ready := id;
      NothingUndone(StepOf(st.steps, id).dependsOn, st.completed);
    } else {
      var d := g[id][0];
      assert d in g[id];
      WithinStep(g, id, k - 1);
      DependencyIn(g, id, Within(g, k - 1), d);
      ready := SomeStepReady(st, d, k - 1);
    }
  }

  lemma NoDeadlock(st: PlanState) returns (ready: int)
    requires Consistent(st) && Runnable(st) && !AllFinished(st.steps)
    ensures CanComplete(st, ready)
  {
    hide Sortable, StepOf;
    var s :| s in st.steps && !Finished(s);
    StepOfUnique(st.steps, s);
    SortableHasWave(PendingGraph(st), s.id);
    var k: nat :| s.id in Within(PendingGraph(st), k);
    ready := SomeStepReady(st, s.id, k);
  }

  lemma {:induction false} RunKeeps(st: PlanState, ids: seq<int>)
    requires Consistent(st) && IsRun(st, ids)
    ensures Consistent(After(st, ids)) && (Runnable(st) <==> Runnable(After(st, ids)))
    decreases |ids|
  {
    hide Runnable, Consistent, CanComplete, Complete;
    if ids != [] {
      RunnableAfterComplete(st, ids[0]);
      RunKeeps(Complete(st, ids[0], ""), ids[1..]);
    }
  }

  /** However the ready steps of a runnable plan are picked, a run that cannot go on has finished every step. */
  lemma AnyRunFinishes(st: PlanState, ids: seq<int>)
    requires Consistent(st) && Runnable(st) && IsRun(st, ids)
    requires forall id :: !CanComplete(After(st, ids), id)
    ensures AllFinished(After(st, ids).steps)
  {
    RunKeeps(st, ids);
    if !AllFinished(After(st, ids).steps) {
      var ready := NoDeadlock(After(st, ids));
    }
  }

  function PendingCount(steps: seq<PlanStep>): nat {
    if steps == [] then 0 else (if steps[0].status.Pending? then 1 else 0) + PendingCount(steps[1..])
  }

  lemma {:induction false} OneFewerPending(steps: seq<PlanStep>, id: int)
    requires UniqueIds(steps) && id in IdsOf(steps) && StepOf(steps, id).status.Pending?
    ensures PendingCount(UpdateFirst(steps, id, CompletedWith(""))) == PendingCount(steps) - 1
  {
    var head, rest := steps[0], steps[1..];
    if head.id == id {
      PendingCountCons(CompletedWith("")(head), rest);
    } else {
      var i :| 0 <= i < |steps| && steps[i].id == id;
      assert IdsOf(rest)[i - 1] == id;
      OneFewerPending(rest, id);
      PendingCountCons(head, UpdateFirst(rest, id, CompletedWith("")));
    }
  }

  lemma PendingCountCons(s: PlanStep, rest: seq<PlanStep>)
    ensures PendingCount([s] + rest) == (if s.status.Pending? then 1 else 0) + PendingCount(rest)
  {
    assert ([s] + rest)[1..] == rest;
  }

  /** A run is never longer than the number of pending steps. */
  lemma {:induction false} RunsAreShort(st: PlanState, ids: seq<int>)
    requires Consistent(st) && IsRun(st, ids)
    ensures |ids| + PendingCount(After(st, ids).steps) == PendingCount(st.steps)
    decreases |ids|
  {
    if ids != [] {
      RunnableAfterComplete(st, ids[0]);
      OneFewerPending(st.steps, ids[0]);
      RunsAreShort(Complete(st, ids[0], ""), ids[1..]);
    }
  }

  lemma {:induction false} SomeRunFinishes(st: PlanState) returns (ids: seq<int>)
    requires Consistent(st) && Runnable(st)
    ensures IsRun(st, ids) && AllFinished(After(st, ids).steps)
    decreases PendingCount(st.steps)
  {
    ids := [];
    if !AllFinished(st.steps) {
      var c := NoDeadlock(st);
      RunnableAfterComplete(st, c);
      OneFewerPending(st.steps, c);
      var rest := SomeRunFinishes(Complete(st, c, ""));
      ids := [c] + rest;
      assert ids[1..] == rest;
    }
  }

  lemma FinishedIsRunnable(st: PlanState)
    requires AllFinished(st.steps)
    ensures Runnable(st)
  {
    forall id | id in IdsOf(st.steps) ensures !StepOf(st.steps, id).status.Pending? {
      assert Finished(StepOf(st.steps, id));
    }
  }

  /** A plan can be run to the end exactly if it is runnable. */
  lemma FinishesExactlyIfRunnable(st: PlanState)
    requires Consistent(st)
    ensures Runnable(st) <==> exists ids :: IsRun(st, ids) && AllFinished(After(st, ids).steps)
  {
    hide Runnable, Consistent, IsRun, After, AllFinished;
    if Runnable(st) {
      var ids := SomeRunFinishes(st);
    }
    if ids :| IsRun(st, ids) && AllFinished(After(st, ids).steps) {
      FinishedIsRunnable(After(st, ids));
      RunKeeps(st, ids);
    }
  }

  // ---- Repeated ids ----

  lemma {:induction false} UpdateFirstShadowed(steps: seq<PlanStep>, id: int, i: nat, j: nat)
    requires i < j < |steps| && steps[i].id == steps[j].id
    ensures var out := UpdateFirst(steps, id, CompletedWith(""));
            |out| == |steps| && out[i].id == steps[i].id && out[j] == steps[j]
  {
    if steps[0].id != id {
      if i > 0 {
        UpdateFirstShadowed(steps[1..], id, i - 1, j - 1);
      } else {
        UpdateFirstKeeps(steps[1..], id, j - 1);
      }
    }
  }

  lemma {:induction false} UpdateFirstKeeps(steps: seq<PlanStep>, id: int, j: nat)
    requires j < |steps| && steps[j].id != id
    ensures var out := UpdateFirst(steps, id, CompletedWith("")); |out| == |steps| && out[j] == steps[j]
  {
    if steps[0].id != id && j > 0 {
      UpdateFirstKeeps(steps[1..], id, j - 1);
    } else if steps[0].id != id {
      UpdateFirstLength(steps[1..], id);
    }
  }

  lemma {:induction false} UpdateFirstLength(steps: seq<PlanStep>, id: int)
    ensures |UpdateFirst(steps, id, CompletedWith(""))| == |steps|
  {
    if steps != [] && steps[0].id != id {
      UpdateFirstLength(steps[1..], id);
    }
  }

  /** Whatever is marked as completed, a step that shares its id with an earlier one stays as it is. */
  lemma {:induction false} ShadowedNeverFinishes(st: PlanState, ids: seq<int>, i: nat, j: nat)
    requires i < j < |st.steps| && st.steps[i].id == st.steps[j].id && !Finished(st.steps[j])
    ensures !AllFinished(After(st, ids).steps)
    decreases |ids|
  {
    if ids != [] {
      UpdateFirstShadowed(st.steps, ids[0], i, j);
      ShadowedNeverFinishes(Complete(st, ids[0], ""), ids[1..], i, j);
    } else {
      assert st.steps[j] in st.steps;
    }
  }

  // ---- Whole batches ----

  /** Completes every ready step, as the executor does between two calls of `schedule_ready`. */
  function CompleteBatch(st: PlanState): PlanState {
    var batch := ReadySteps(st.steps, Elements(st.completed));
    PlanState(seq(|st.steps|, i requires 0 <= i < |st.steps| =>
                if IsReady(st.steps[i], Elements(st.completed)) then Done(st.steps[i]) else st.steps[i]),
              st.completed + IdsOf(batch))
  }

  lemma StillReady(st: PlanState, c: int, id: int)
    requires Consistent(st) && CanComplete(st, c) && CanComplete(st, id) && id != c
    ensures CanComplete(Complete(st, c, ""), id)
  {
    hide StepOf;
    StepOfAfterComplete(st, c, id);
    CompletedAfter(st, c);
  }

  /** Steps that are ready together can be completed in any order, to the same effect. */
  lemma {:induction false} ReadyTogetherIsRun(st: PlanState, ids: seq<int>)
    requires Consistent(st) && NoDup(ids) && forall id :: id in ids ==> CanComplete(st, id)
    ensures IsRun(st, ids)
    ensures After(st, ids).completed == st.completed + ids
    ensures |After(st, ids).steps| == |st.steps|
    ensures forall i :: 0 <= i < |st.steps| ==>
      After(st, ids).steps[i] == if st.steps[i].id in ids then Done(st.steps[i]) else st.steps[i]
    decreases |ids|
  {
    hide CanComplete, Consistent, Complete, Runnable;
    if ids != [] {
      var c, rest := ids[0], ids[1..];
      assert c in ids;
      var st' := Complete(st, c, "");
      assert forall id :: id in ids <==> id == c || id in rest;
      forall id | id in rest ensures CanComplete(st', id) {
        var j :| 0 <= j < |rest| && rest[j] == id;
        assert ids[j + 1] == id;
        StillReady(st, c, id);
      }
      CompletePointwise(st, c);
      CompletedAfter(st, c);
      ReadyTogetherIsRun(st', rest);
      assert ids == [c] + rest;
    }
  }

  /** A batch is a run: marking its steps completed one by one gives the state after the batch. */
  lemma BatchIsRun(st: PlanState)
    requires Consistent(st)
    ensures var ids := IdsOf(ReadySteps(st.steps, Elements(st.completed)));
            IsRun(st, ids) && After(st, ids) == CompleteBatch(st)
  {
    hide StepOf, IsReady, ReadySteps, IsRun, After;
    var completed := Elements(st.completed);
    var batch := ReadySteps(st.steps, completed);
    var ids := IdsOf(batch);
    ReadyStepsMembers(st.steps, completed);
    forall id | id in ids ensures CanComplete(st, id) {
      var i :| 0 <= i < |ids| && ids[i] == id;
      assert batch[i] in st.steps;
      StepOfUnique(st.steps, batch[i]);
    }
    ReadyIdsDistinct(st.steps, completed);
    ReadyTogetherIsRun(st, ids);
    forall i | 0 <= i < |st.steps| ensures st.steps[i].id in ids <==> IsReady(st.steps[i], completed) {
      if IsReady(st.steps[i], completed) {
        assert st.steps[i] in batch;
        var j :| 0 <= j < |batch| && batch[j] == st.steps[i];
        assert ids[j] == st.steps[i].id;
      }
      if st.steps[i].id in ids {
        StepOfAt(st, i);
      }
    }
    assert After(st, ids).steps == CompleteBatch(st).steps;
  }

  lemma {:induction false} ReadyIdsDistinct(steps: seq<PlanStep>, completed: set<int>)
    requires UniqueIds(steps)
    ensures NoDup(IdsOf(ReadySteps(steps, completed)))
  {
    hide IsReady;
    if steps != [] {
      var n := |steps| - 1;
      var init := ReadySteps(steps[..n], completed);
      ReadyIdsDistinct(steps[..n], completed);
      ReadyStepsMembers(steps[..n], completed);
      forall i | 0 <= i < |init| ensures init[i].id != steps[n].id {
        assert init[i] in steps[..n];
      }
      assert forall i :: 0 <= i < |init| ==> IdsOf(init)[i] == init[i].id;
    }
  }

  function AfterBatches(st: PlanState, k: nat): PlanState {
    if k == 0 then st else CompleteBatch(AfterBatches(st, k - 1))
  }

  /** `now` is the fresh plan `steps` with exactly the steps of `done` completed. */
  ghost predicate Progress(steps: seq<PlanStep>, now: PlanState, done: set<int>) {
    && Elements(now.completed) == done
    && |now.steps| == |steps|
    && forall i :: 0 <= i < |steps| ==>
      now.steps[i] == if steps[i].id in done then Done(steps[i]) else steps[i]
  }

  predicate AllPending(steps: seq<PlanStep>) {
    forall i :: 0 <= i < |steps| ==> steps[i].status.Pending?
  }

  lemma BatchIds(now: PlanState, id: int)
    ensures id in IdsOf(ReadySteps(now.steps, Elements(now.completed))) <==>
      exists i :: 0 <= i < |now.steps| && now.steps[i].id == id && IsReady(now.steps[i], Elements(now.completed))
  {
    hide IsReady;
    var completed := Elements(now.completed);
    var batch := ReadySteps(now.steps, completed);
    ReadyStepsMembers(now.steps, completed);
    if id in IdsOf(batch) {
      var j :| 0 <= j < |batch| && IdsOf(batch)[j] == id;
      assert batch[j] in now.steps;
    }
    if i :| 0 <= i < |now.steps| && now.steps[i].id == id && IsReady(now.steps[i], completed) {
      assert now.steps[i] in batch;
      var j :| 0 <= j < |batch| && batch[j] == now.steps[i];
      assert IdsOf(batch)[j] == id;
    }
  }

  lemma ReadyInWave(steps: seq<PlanStep>, now: PlanState, k: nat, i: nat)
    requires UniqueIds(steps) && AllPending(steps) && i < |steps|
    requires Progress(steps, now, Within(DepGraph(steps), k))
    ensures IsReady(now.steps[i], Elements(now.completed)) <==> InWave(DepGraph(steps), steps[i].id, k)
  {
    hide Within, StepOf;
    var g := DepGraph(steps);
    ReadyIsWithin(steps, steps[i], k);
    WithinMonotone(g, k, k + 1);
  }

  lemma OneBatch(steps: seq<PlanStep>, now: PlanState, k: nat)
    requires UniqueIds(steps) && AllPending(steps)
    requires Progress(steps, now, Within(DepGraph(steps), k))
    ensures Progress(steps, CompleteBatch(now), Within(DepGraph(steps), k + 1))
    ensures BatchIsWave(DepGraph(steps), now, k)
  {
    hide Within, IsReady, StepOf;
    var g, completed := DepGraph(steps), Elements(now.completed);
    var batch := ReadySteps(now.steps, completed);
    forall i | 0 <= i < |steps| ensures IsReady(now.steps[i], completed) <==> InWave(g, steps[i].id, k) {
      ReadyInWave(steps, now, k, i);
    }
    forall id ensures id in IdsOf(batch) <==> InWave(g, id, k) {
      BatchIds(now, id);
      if InWave(g, id, k) {
        WithinInGraph(g, k + 1);
        var i :| 0 <= i < |steps| && steps[i].id == id;
        assert IsReady(now.steps[i], completed);
      }
    }
    NextWithin(g, k, IdsOf(batch));
    assert Elements(now.completed + IdsOf(batch)) == Elements(now.completed) + Elements(IdsOf(batch));
  }

  lemma NextWithin(g: Graph, k: nat, wave: seq<int>)
    requires forall id :: id in wave <==> InWave(g, id, k)
    ensures Within(g, k) + Elements(wave) == Within(g, k + 1)
  {
    hide Within;
    WithinMonotone(g, k, k + 1);
    forall id ensures id in Within(g, k) + Elements(wave) <==> id in Within(g, k + 1) {
      assert id in wave <==> InWave(g, id, k);
    }
  }

  /** The ready steps of `now` are, as a set of ids, the wave `k`. */
  ghost predicate BatchIsWave(g: Graph, now: PlanState, k: nat) {
    forall id :: id in IdsOf(ReadySteps(now.steps, Elements(now.completed))) <==> InWave(g, id, k)
  }

  lemma NothingDone(steps: seq<PlanStep>)
    ensures Progress(steps, PlanState(steps, []), Within(DepGraph(steps), 0))
  {
  }

  /** On a fresh plan, the k-th batch of `schedule_ready` is, as a set, the k-th wave. */
  lemma {:induction false} BatchesAreWaves(steps: seq<PlanStep>, k: nat)
    requires UniqueIds(steps) && AllPending(steps)
    ensures var now := AfterBatches(PlanState(steps, []), k);
            && Progress(steps, now, Within(DepGraph(steps), k))
            && BatchIsWave(DepGraph(steps), now, k)
  {
    hide Progress, BatchIsWave, CompleteBatch, UniqueIds, AllPending;
    var now := AfterBatches(PlanState(steps, []), k);
    if k == 0 {
      NothingDone(steps);
    } else {
      BatchesAreWaves(steps, k - 1);
      OneBatch(steps, AfterBatches(PlanState(steps, []), k - 1), k - 1);
    }
    OneBatch(steps, now, k);
  }

  /** On a fresh plan, the k-th batch of `schedule_ready` is, as a set, the k-th group of `get_parallel_groups`. */
  lemma BatchesAreGroups(steps: seq<PlanStep>, k: nat)
    requires UniqueIds(steps) && AllPending(steps) && k < |ParallelGroups(steps)|
    ensures var now := AfterBatches(PlanState(steps, []), k);
            forall id :: id in IdsOf(ReadySteps(now.steps, Elements(now.completed))) <==> id in IdsOf(ParallelGroups(steps)[k])
  {
    hide ParallelGroups, Topological, InWave, Sortable, DepGraph, AfterBatches, ReadySteps, StepOf, Flatten, Progress;
    var g, groups := DepGraph(steps), ParallelGroups(steps);
    GroupsAreWaves(steps);
    BatchesAreWaves(steps, k);
    forall id ensures InWave(g, id, k) <==> id in IdsOf(groups[k]) {
      if id in IdsOf(groups[k]) {
        var i :| 0 <= i < |groups[k]| && IdsOf(groups[k])[i] == id;
        assert groups[k][i] in groups[k];
      }
      if InWave(g, id, k) {
        var s := StepInWave(steps, id, k);
        var w := GroupOf(groups, s);
        OneWaveOnly(g, id, k, w);
        var i :| 0 <= i < |groups[k]| && groups[k][i] == s;
        assert IdsOf(groups[k])[i] == id;
      }
    }
  }

  lemma OneWaveOnly(g: Graph, id: int, v: nat, w: nat)
    requires InWave(g, id, v) && InWave(g, id, w)
    ensures v == w
  {
    hide Within;
    if v < w {
      WithinMonotone(g, v + 1, w);
    } else if w < v {
      WithinMonotone(g, w + 1, v);
    }
  }

  lemma StepInWave(steps: seq<PlanStep>, id: int, w: nat) returns (s: PlanStep)
    requires InWave(DepGraph(steps), id, w)
    ensures s in steps && s.id == id && Sortable(DepGraph(steps), id)
  {
    hide Sortable, Within, StepOf;
    WithinIsSortable(DepGraph(steps), w + 1, id);
    s := StepOf(steps, id);
  }

  /** An acyclic, closed plan never deadlocks: as many batches as there are groups complete it. */
  lemma BatchesFinish(steps: seq<PlanStep>)
    requires UniqueIds(steps) && AllPending(steps)
    requires Acyclic(DepGraph(steps)) && Closed(DepGraph(steps))
    ensures AllFinished(AfterBatches(PlanState(steps, []), |ParallelGroups(steps)|).steps)
  {
    hide Acyclic, Closed, Sortable, Within, StepOf, AfterBatches, BatchIsWave, Flatten, ParallelGroups, Topological;
    var g, groups := DepGraph(steps), ParallelGroups(steps);
    AllSortable(g);
    GroupsAreWaves(steps);
    BatchesAreWaves(steps, |groups|);
    var now := AfterBatches(PlanState(steps, []), |groups|);
    forall i | 0 <= i < |steps| ensures steps[i].id in Within(g, |groups|) {
      StepOfUnique(steps, steps[i]);
      assert steps[i] in Flatten(groups);
      var w := GroupOf(groups, steps[i]);
      WithinMonotone(g, w + 1, |groups|);
    }
    assert forall i :: 0 <= i < |now.steps| ==> Finished(now.steps[i]);
  }

  lemma {:induction false} GroupOf(groups: seq<seq<PlanStep>>, s: PlanStep) returns (w: nat)
    requires s in Flatten(groups)
    ensures w < |groups| && s in groups[w]
  {
    var n := |groups| - 1;
    if s in groups[n] {
      w := n;
    } else {
      w := GroupOf(groups[..n], s);
    }
  }
}
