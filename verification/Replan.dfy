/** Merging an adjustment plan into a plan that is under way. */
module Replan {
  import opened PlanGraph
  import opened Scheduling
  import opened Execution

  /** The completed-id filter applied to a proposed adjustment. */
  function DropCompleted(steps: seq<PlanStep>, completed: seq<int>): (r: seq<PlanStep>)
    ensures forall s :: s in r <==> s in steps && s.id !in completed
  {
    if steps == [] then []
    else
      assert forall s :: s in steps <==> s == steps[0] || s in steps[1..];
      (if steps[0].id in completed then [] else [steps[0]]) + DropCompleted(steps[1..], completed)
  }

  /** The filter goes step by step, in order: two parts are filtered one after the other, and no step is doubled. */
  lemma {:induction false} DroppedInOrder(a: seq<PlanStep>, b: seq<PlanStep>, completed: seq<int>)
    ensures DropCompleted(a + b, completed) == DropCompleted(a, completed) + DropCompleted(b, completed)
    ensures |DropCompleted(a, completed)| <= |a|
  {
    if a == [] {
      assert a + b == b;
    } else {
      assert (a + b)[1..] == a[1..] + b;
      DroppedInOrder(a[1..], b, completed);
    }
  }

  function Abandoned(s: PlanStep, completed: seq<int>, replanIds: set<int>): PlanStep {
    if s.id in completed || s.id in replanIds then s else s.(status := Skipped)
  }

  function AbandonAll(st: PlanState, replanIds: set<int>): (r: seq<PlanStep>)
    ensures |r| == |st.steps|
  {
    seq(|st.steps|, i requires 0 <= i < |st.steps| => Abandoned(st.steps[i], st.completed, replanIds))
  }

  /** `steps` with the first pending step of the same id replaced by `step`, if there is one. */
  function ReplacePending(steps: seq<PlanStep>, step: PlanStep): seq<PlanStep> {
    if steps == [] then []
    else if steps[0].id == step.id && steps[0].status.Pending? then [step] + steps[1..]
    else [steps[0]] + ReplacePending(steps[1..], step)
  }

  function MergeOne(steps: seq<PlanStep>, existing: set<int>, step: PlanStep): seq<PlanStep> {
    if step.id in existing then ReplacePending(steps, step) else steps + [step]
  }

  function MergeSteps(base: seq<PlanStep>, existing: set<int>, replan: seq<PlanStep>): seq<PlanStep> {
    if replan == [] then base
    else MergeOne(MergeSteps(base, existing, replan[..|replan| - 1]), existing, replan[|replan| - 1])
  }

  function Merged(st: PlanState, replan: seq<PlanStep>): PlanState {
    PlanState(MergeSteps(AbandonAll(st, IdSet(replan)), IdSet(st.steps), replan), st.completed)
  }

  method MergeReplan(original: ExecutionPlan, replan: seq<PlanStep>)
    modifies original
    ensures original.State() == Merged(old(original.State()), replan)
  {
    var completedSet := Elements(original.completedSteps);
    var existingIds := IdSet(original.steps);
    var replanIds := IdSet(replan);
    ghost var st := original.State();
    for i := 0 to |original.steps|
      invariant original.completedSteps == st.completed && |original.steps| == |st.steps|
      invariant original.steps[..i] == AbandonAll(st, replanIds)[..i]
      invariant original.steps[i..] == st.steps[i..]
    {
      var step := original.steps[i];
      assert step == st.steps[i..][0];
      if step.id in completedSet {
        continue;
      }
      if step.id !in replanIds {
        original.steps := original.steps[i := step.(status := Skipped)];
      }
    }
    ghost var base := AbandonAll(st, replanIds);
    assert original.steps == base;
    for k := 0 to |replan|
      invariant original.completedSteps == st.completed
      invariant original.steps == MergeSteps(base, existingIds, replan[..k])
    {
      var step := replan[k];
      assert replan[..k + 1][..k] == replan[..k];
      if step.id in existingIds {
        ReplaceFirstPending(original, step);
      } else {
        original.steps := original.steps + [step];
      }
    }
    assert replan[..|replan|] == replan;
  }

  /** The inner loop of the merge. */
  method ReplaceFirstPending(original: ExecutionPlan, step: PlanStep)
    modifies original
    ensures original.State() == old(original.State()).(steps := ReplacePending(old(original.steps), step))
  {
    ghost var was := original.steps;
    for i := 0 to |original.steps|
      invariant original.State() == old(original.State())
      invariant ReplacePending(was, step) == was[..i] + ReplacePending(was[i..], step)
    {
      hide ReplacePending;
      var existing := original.steps[i];
      ReplacePendingNext(was, step, i);
      if existing.id == step.id && existing.status.Pending? {
        original.steps := original.steps[i := step];
        return;
      }
    }
    assert was[..|was|] == was && was[|was|..] == [];
  }

  lemma ReplacePendingNext(steps: seq<PlanStep>, step: PlanStep, i: nat)
    requires i < |steps|
    ensures steps[..i] + ReplacePending(steps[i..], step) ==
      if steps[i].id == step.id && steps[i].status.Pending? then steps[i := step]
      else steps[..i + 1] + ReplacePending(steps[i + 1..], step)
  {
    var rest := steps[i..];
    assert rest[0] == steps[i] && rest[1..] == steps[i + 1..];
    assert steps[..i + 1] == steps[..i] + [steps[i]];
    assert steps[i := step] == steps[..i] + ([step] + steps[i + 1..]);
  }

  // ---- What a merge amounts to ----

  predicate Matches(s: PlanStep, step: PlanStep) {
    s.id == step.id && s.status.Pending?
  }

  lemma {:induction false} ReplacePendingAt(steps: seq<PlanStep>, step: PlanStep, j: nat)
    requires j < |steps| && Matches(steps[j], step)
    requires forall i :: 0 <= i < j ==> !Matches(steps[i], step)
    ensures ReplacePending(steps, step) == steps[j := step]
  {
    if j > 0 {
      ReplacePendingAt(steps[1..], step, j - 1);
    }
  }

  lemma {:induction false} ReplacePendingNone(steps: seq<PlanStep>, step: PlanStep)
    requires forall i :: 0 <= i < |steps| ==> !Matches(steps[i], step)
    ensures ReplacePending(steps, step) == steps
  {
    if steps != [] {
      ReplacePendingNone(steps[1..], step);
    }
  }

  /** A pending step that the adjustment names again is taken from the adjustment, where the last mention counts. */
  function Renewed(s: PlanStep, replan: seq<PlanStep>): (r: PlanStep)
    ensures r.id == s.id
  {
    if s.status.Pending? && s.id in IdsOf(replan) then LastOf(replan, s.id) else s
  }

  function RenewAll(base: seq<PlanStep>, replan: seq<PlanStep>): (r: seq<PlanStep>)
    ensures |r| == |base|
    ensures forall i :: 0 <= i < |base| ==> r[i] == Renewed(base[i], replan)
  {
    seq(|base|, i requires 0 <= i < |base| => Renewed(base[i], replan))
  }

  function NewSteps(existing: set<int>, replan: seq<PlanStep>): seq<PlanStep> {
    if replan == [] then []
    else
      var last := replan[|replan| - 1];
      NewSteps(existing, replan[..|replan| - 1]) + (if last.id in existing then [] else [last])
  }

  lemma {:induction false} NewStepsMembers(existing: set<int>, replan: seq<PlanStep>)
    ensures forall s :: s in NewSteps(existing, replan) <==> s in replan && s.id !in existing
  {
    if replan != [] {
      NewStepsMembers(existing, replan[..|replan| - 1]);
      assert replan == replan[..|replan| - 1] + [replan[|replan| - 1]];
    }
  }

  lemma RenewedNext(s: PlanStep, replan: seq<PlanStep>)
    requires replan != []
    ensures var init, last := replan[..|replan| - 1], replan[|replan| - 1];
            Renewed(s, replan) == if Matches(s, last) then last else Renewed(s, init)
  {
    IdsInInit(replan, s.id);
  }

  lemma StillPending(s: PlanStep, replan: seq<PlanStep>, step: PlanStep)
    requires AllPending(replan)
    ensures Matches(Renewed(s, replan), step) <==> Matches(s, step)
  {
    if s.status.Pending? && s.id in IdsOf(replan) {
      var t := LastOf(replan, s.id);
      var i :| 0 <= i < |replan| && replan[i] == t;
    }
  }

  lemma IdListed(steps: seq<PlanStep>, i: nat)
    requires i < |steps|
    ensures steps[i].id in IdSet(steps)
  {
    assert IdsOf(steps)[i] == steps[i].id;
  }

  lemma MergeLast(base: seq<PlanStep>, replan: seq<PlanStep>)
    requires UniqueIds(base) && AllPending(replan) && replan != []
    ensures var init, last, ids := replan[..|replan| - 1], replan[|replan| - 1], IdSet(base);
            MergeOne(RenewAll(base, init) + NewSteps(ids, init), ids, last)
              == RenewAll(base, replan) + NewSteps(ids, replan)
  {
    hide LastOf, Renewed, IdSet;
    var init, last, ids := replan[..|replan| - 1], replan[|replan| - 1], IdSet(base);
    var kept, added := RenewAll(base, init), NewSteps(ids, init);
    forall i | 0 <= i < |base|
      ensures Renewed(base[i], replan) == if Matches(base[i], last) then last else kept[i]
      ensures Matches(kept[i], last) <==> Matches(base[i], last)
      ensures base[i].id in ids
    {
      RenewedNext(base[i], replan);
      StillPending(base[i], init, last);
      IdListed(base, i);
    }
    if last.id in ids {
      NewStepsMembers(ids, init);
      forall i | |kept| <= i < |kept + added| ensures !Matches((kept + added)[i], last) {
        assert (kept + added)[i] in added;
      }
      if j :| 0 <= j < |base| && Matches(base[j], last) {
        ReplacePendingAt(kept + added, last, j);
        assert RenewAll(base, replan) == kept[j := last];
        assert (kept + added)[j := last] == kept[j := last] + added;
      } else {
        ReplacePendingNone(kept + added, last);
        assert RenewAll(base, replan) == kept;
      }
    } else {
      assert RenewAll(base, replan) == kept;
      assert kept + added + [last] == kept + (added + [last]);
    }
  }

  lemma {:induction false} MergeStepsForm(base: seq<PlanStep>, replan: seq<PlanStep>)
    requires UniqueIds(base) && AllPending(replan)
    ensures MergeSteps(base, IdSet(base), replan) == RenewAll(base, replan) + NewSteps(IdSet(base), replan)
  {
    if replan == [] {
      assert RenewAll(base, []) == base;
    } else {
      MergeStepsForm(base, replan[..|replan| - 1]);
      MergeLast(base, replan);
    }
  }

  lemma MergedForm(st: PlanState, replan: seq<PlanStep>)
    requires UniqueIds(st.steps) && AllPending(replan)
    ensures Merged(st, replan).steps
         == RenewAll(AbandonAll(st, IdSet(replan)), replan) + NewSteps(IdSet(st.steps), replan)
  {
    var base := AbandonAll(st, IdSet(replan));
    assert IdsOf(base) == IdsOf(st.steps);
    MergeStepsForm(base, replan);
  }

  // ---- What a merge keeps ----

  /** An adjustment as `replan` hands it over: pending steps, none of them completed already. */
  predicate Adjustment(st: PlanState, replan: seq<PlanStep>) {
    && AllPending(replan)
    && forall id :: id in IdsOf(replan) ==> id !in st.completed
  }

  /** What `replan` does to a proposal, whatever its ids, makes it an adjustment. */
  lemma FilteredIsAdjustment(st: PlanState, proposed: seq<PlanStep>)
    requires AllPending(proposed)
    ensures Adjustment(st, DropCompleted(proposed, st.completed))
  {
    var kept := DropCompleted(proposed, st.completed);
    forall i | 0 <= i < |kept| ensures kept[i].status.Pending? && kept[i].id !in st.completed {
      assert kept[i] in kept;
    }
  }

  /** One step of the plan before and after the merge. */
  predicate StepMerged(old_: PlanStep, new_: PlanStep, completed: seq<int>, replan: seq<PlanStep>) {
    if old_.id in completed then new_ == old_
    else if old_.id !in IdsOf(replan) then new_ == old_.(status := Skipped)
    else if old_.status.Pending? then new_ == LastOf(replan, old_.id)
    else new_ == old_
  }

  /** Completed steps are untouched, abandoned ones skipped, pending ones replaced by the last replanned step
      of their id, and the steps with new ids are appended in order. */
  lemma MergeMeaning(st: PlanState, replan: seq<PlanStep>)
    requires Consistent(st) && Adjustment(st, replan)
    ensures var out := Merged(st, replan);
            && out.completed == st.completed
            && |st.steps| <= |out.steps|
            && (forall i :: 0 <= i < |st.steps| ==> StepMerged(st.steps[i], out.steps[i], st.completed, replan))
            && out.steps[|st.steps|..] == NewSteps(IdSet(st.steps), replan)
  {
    hide LastOf;
    MergedForm(st, replan);
    var base := AbandonAll(st, IdSet(replan));
    var kept, added := RenewAll(base, replan), NewSteps(IdSet(st.steps), replan);
    forall i | 0 <= i < |st.steps| ensures StepMerged(st.steps[i], kept[i], st.completed, replan) {
      assert st.steps[i] in st.steps;
    }
    assert (kept + added)[|kept|..] == added;
  }

  /** No id that is new to the plan is replanned twice. */
  predicate NewIdsDistinct(st: PlanState, replan: seq<PlanStep>) {
    forall i, j :: 0 <= i < j < |replan| && replan[i].id == replan[j].id ==> replan[i].id in IdSet(st.steps)
  }

  lemma {:induction false} NewStepsDistinct(existing: set<int>, replan: seq<PlanStep>)
    ensures UniqueIds(NewSteps(existing, replan)) <==>
      forall i, j :: 0 <= i < j < |replan| && replan[i].id == replan[j].id ==> replan[i].id in existing
  {
    if replan != [] {
      var n := |replan| - 1;
      var before, last := replan[..n], replan[n];
      var init, all := NewSteps(existing, before), NewSteps(existing, replan);
      NewStepsDistinct(existing, before);
      NewStepsMembers(existing, before);
      if last.id !in existing {
        assert all == init + [last];
        UniqueSnoc(init, last);
        assert (forall s :: s in init ==> s.id != last.id) <==> (forall i :: 0 <= i < n ==> replan[i].id != last.id) by {
          forall i | 0 <= i < n && replan[i].id == last.id ensures replan[i] in init {
            assert before[i] in before;
          }
        }
      } else {
        assert all == init;
      }
    }
  }

  lemma UniqueSnoc(steps: seq<PlanStep>, s: PlanStep)
    ensures UniqueIds(steps + [s]) <==> UniqueIds(steps) && forall t :: t in steps ==> t.id != s.id
  {
    var all := steps + [s];
    if UniqueIds(all) {
      forall i, j | 0 <= i < j < |steps| ensures steps[i].id != steps[j].id {
        assert all[i].id != all[j].id;
      }
      forall t | t in steps ensures t.id != s.id {
        var i :| 0 <= i < |steps| && steps[i] == t;
        assert all[i].id != all[|steps|].id;
      }
    }
  }

  lemma MergedIds(st: PlanState, replan: seq<PlanStep>)
    requires Consistent(st) && Adjustment(st, replan)
    ensures UniqueIds(Merged(st, replan).steps) <==> NewIdsDistinct(st, replan)
  {
    hide LastOf, Renewed;
    MergedForm(st, replan);
    NewStepsDistinct(IdSet(st.steps), replan);
    NewStepsMembers(IdSet(st.steps), replan);
    var base := AbandonAll(st, IdSet(replan));
    var kept, added := RenewAll(base, replan), NewSteps(IdSet(st.steps), replan);
    forall i, j | 0 <= i < |kept| && 0 <= j < |added| ensures kept[i].id != added[j].id {
      IdListed(st.steps, i);
      assert added[j] in added;
    }
    UniqueSum(kept, added);
  }

  lemma UniqueSum(a: seq<PlanStep>, b: seq<PlanStep>)
    requires UniqueIds(a) && forall i, j :: 0 <= i < |a| && 0 <= j < |b| ==> a[i].id != b[j].id
    ensures UniqueIds(a + b) <==> UniqueIds(b)
  {
    if UniqueIds(a + b) {
      forall i, j | 0 <= i < j < |b| ensures b[i].id != b[j].id {
        assert (a + b)[|a| + i].id != (a + b)[|a| + j].id;
      }
    }
  }

  lemma AppendedIsReplanned(st: PlanState, replan: seq<PlanStep>, s: PlanStep)
    requires s in NewSteps(IdSet(st.steps), replan)
    ensures s in replan && s.id !in IdsOf(st.steps)
  {
    NewStepsMembers(IdSet(st.steps), replan);
  }

  /** The merged plan is consistent again exactly if no new id is replanned twice. */
  lemma MergeKeepsConsistency(st: PlanState, replan: seq<PlanStep>)
    requires Consistent(st) && Adjustment(st, replan)
    ensures Consistent(Merged(st, replan)) <==> NewIdsDistinct(st, replan)
  {
    hide LastOf, Merged, NewSteps;
    var out := Merged(st, replan);
    MergedIds(st, replan);
    MergeMeaning(st, replan);
    forall s | s in out.steps ensures s.status.Completed? <==> s.id in out.completed {
      var i :| 0 <= i < |out.steps| && out.steps[i] == s;
      if i < |st.steps| {
        assert st.steps[i] in st.steps;
      } else {
        assert s == out.steps[|st.steps|..][i - |st.steps|];
        AppendedIsReplanned(st, replan, s);
      }
      if s in replan {
        ReplannedPending(st, replan, s);
      }
    }
  }

  lemma ReplannedPending(st: PlanState, replan: seq<PlanStep>, s: PlanStep)
    requires Adjustment(st, replan) && s in replan
    ensures s.status.Pending? && s.id in IdsOf(replan) && s.id !in st.completed
  {
    var i :| 0 <= i < |replan| && replan[i] == s;
    assert IdsOf(replan)[i] == s.id;
  }

  // ---- When the merged plan can finish ----

  /** A replanned id takes effect if it is new or names a pending step of the plan. */
  predicate TakesEffect(st: PlanState, replan: seq<PlanStep>, id: int) {
    id in IdsOf(replan) && forall i :: 0 <= i < |st.steps| && st.steps[i].id == id ==> st.steps[i].status.Pending?
  }

  /** Replanned step that takes effect -> its dependencies that are not completed. */
  function ReplanGraph(st: PlanState, replan: seq<PlanStep>): Graph {
    map id | id in IdSet(replan) && TakesEffect(st, replan, id) :: Undone(LastOf(replan, id).dependsOn, st.completed)
  }

  /** A replanned id never names a failed step of the plan, nor one whose status is none of the four known. */
  predicate NoneRetried(st: PlanState, replan: seq<PlanStep>) {
    forall i :: 0 <= i < |st.steps| && st.steps[i].id in IdsOf(replan) ==> !Halted(st.steps[i])
  }

  predicate Halted(s: PlanStep) {
    s.status.Failed? || s.status.OtherStatus?
  }

  lemma PendingAreReplanned(st: PlanState, replan: seq<PlanStep>, s: PlanStep)
    requires Consistent(st) && Adjustment(st, replan) && NewIdsDistinct(st, replan)
    ensures TakesEffect(st, replan, s.id) && s == LastOf(replan, s.id) <==> s in Merged(st, replan).steps && s.status.Pending?
  {
    hide LastOf, Merged, NewSteps;
    var out := Merged(st, replan);
    MergeMeaning(st, replan);
    if TakesEffect(st, replan, s.id) && s == LastOf(replan, s.id) {
      ReplannedPending(st, replan, s);
      if s.id in IdsOf(st.steps) {
        var i :| 0 <= i < |st.steps| && st.steps[i].id == s.id;
        assert out.steps[i] == s;
      } else {
        NewStepsMembers(IdSet(st.steps), replan);
        assert s in out.steps[|st.steps|..];
      }
    }
    if s in out.steps && s.status.Pending? {
      var i :| 0 <= i < |out.steps| && out.steps[i] == s;
      if i < |st.steps| {
        assert st.steps[i] in st.steps;
        OnlyStep(st, i);
      } else {
        assert s == out.steps[|st.steps|..][i - |st.steps|];
        AppendedIsReplanned(st, replan, s);
        ReplannedPending(st, replan, s);
        OnlyMention(st, replan, s);
      }
    }
  }

  lemma OnlyMention(st: PlanState, replan: seq<PlanStep>, s: PlanStep)
    requires NewIdsDistinct(st, replan) && s in replan && s.id !in IdsOf(st.steps)
    ensures s.id in IdsOf(replan) && LastOf(replan, s.id) == s
  {
    hide LastOf;
    var i :| 0 <= i < |replan| && replan[i] == s;
    assert IdsOf(replan)[i] == s.id;
    var t := LastOf(replan, s.id);
    var j :| 0 <= j < |replan| && replan[j] == t;
  }

  lemma OnlyStep(st: PlanState, i: nat)
    requires Consistent(st) && i < |st.steps|
    ensures forall j :: 0 <= j < |st.steps| && st.steps[j].id == st.steps[i].id ==> j == i
  {
    var ids := IdsOf(st.steps);
    assert forall j :: 0 <= j < |st.steps| ==> ids[j] == st.steps[j].id;
  }

  lemma HaltedAreRetried(st: PlanState, replan: seq<PlanStep>)
    requires Consistent(st) && Adjustment(st, replan)
    ensures NoneFailed(Merged(st, replan).steps) <==> NoneRetried(st, replan)
  {
    hide LastOf, Merged, NewSteps;
    var out := Merged(st, replan);
    MergeMeaning(st, replan);
    forall i | 0 <= i < |st.steps|
      ensures Halted(out.steps[i]) <==> Halted(st.steps[i]) && st.steps[i].id in IdsOf(replan) {
      assert st.steps[i] in st.steps;
      if out.steps[i] in replan {
        ReplannedPending(st, replan, out.steps[i]);
      }
    }
    forall i | |st.steps| <= i < |out.steps| ensures !Halted(out.steps[i]) {
      assert out.steps[i] == out.steps[|st.steps|..][i - |st.steps|];
      AppendedIsReplanned(st, replan, out.steps[i]);
      ReplannedPending(st, replan, out.steps[i]);
    }
  }

  lemma PendingGraphOfMerge(st: PlanState, replan: seq<PlanStep>)
    requires Consistent(st) && Adjustment(st, replan) && NewIdsDistinct(st, replan)
    ensures PendingGraph(Merged(st, replan)) == ReplanGraph(st, replan)
  {
    hide StepOf, LastOf, Merged, Undone, Consistent, Adjustment, TakesEffect, NewIdsDistinct;
    var out := Merged(st, replan);
    MergeMeaning(st, replan);
    MergedIds(st, replan);
    forall id | TakesEffect(st, replan, id) ensures id in IdsOf(replan) {
      EffectIsNamed(st, replan, id);
    }
    forall id | TakesEffect(st, replan, id)
      ensures id in IdsOf(out.steps) && StepOf(out.steps, id) == LastOf(replan, id) && LastOf(replan, id).status.Pending? {
      PendingAreReplanned(st, replan, LastOf(replan, id));
      StepOfUnique(out.steps, LastOf(replan, id));
    }
    forall id | id in IdsOf(out.steps) && StepOf(out.steps, id).status.Pending? ensures TakesEffect(st, replan, id) {
      PendingAreReplanned(st, replan, StepOf(out.steps, id));
    }
  }

  lemma EffectIsNamed(st: PlanState, replan: seq<PlanStep>, id: int)
    ensures TakesEffect(st, replan, id) ==> id in IdsOf(replan)
  {
  }

  /** A new id that is replanned twice is in the plan twice, the later copy out of reach. */
  lemma RepeatedNewIdNeverFinishes(st: PlanState, replan: seq<PlanStep>, ids: seq<int>)
    requires Consistent(st) && Adjustment(st, replan) && !NewIdsDistinct(st, replan)
    ensures !AllFinished(After(Merged(st, replan), ids).steps)
  {
    hide Merged, After, NewSteps, AllFinished, NewIdsDistinct;
    var out := Merged(st, replan);
    MergeMeaning(st, replan);
    NewStepsDistinct(IdSet(st.steps), replan);
    RepeatedNotDistinct(st, replan);
    var added := NewSteps(IdSet(st.steps), replan);
    var i, j :| 0 <= i < j < |added| && added[i].id == added[j].id;
    var n := |st.steps|;
    assert out.steps[n..][i] == out.steps[n + i] && out.steps[n..][j] == out.steps[n + j];
    AppendedIsReplanned(st, replan, added[j]);
    ReplannedPending(st, replan, added[j]);
    ShadowedNeverFinishes(out, ids, n + i, n + j);
  }

  lemma RepeatedNotDistinct(st: PlanState, replan: seq<PlanStep>)
    ensures NewIdsDistinct(st, replan) <==> UniqueIds(NewSteps(IdSet(st.steps), replan))
  {
    NewStepsDistinct(IdSet(st.steps), replan);
  }

  /** For every adjustment the merged plan can be finished exactly if no failed step is named again, no new id is
      named twice, and the steps that take effect are acyclic and depend only on each other and on completed steps. */
  lemma MergedFinishesExactly(st: PlanState, replan: seq<PlanStep>)
    requires Consistent(st) && Adjustment(st, replan)
    ensures var out, g := Merged(st, replan), ReplanGraph(st, replan);
            NoneRetried(st, replan) && NewIdsDistinct(st, replan) && Acyclic(g) && Closed(g) <==>
            exists ids :: IsRun(out, ids) && AllFinished(After(out, ids).steps)
  {
    hide Merged, PendingGraph, ReplanGraph, Acyclic, Closed, Sortable, IsRun, After, AllFinished, NewIdsDistinct;
    if NewIdsDistinct(st, replan) {
      MergeKeepsConsistency(st, replan);
      FinishesExactlyIfRunnable(Merged(st, replan));
      HaltedAreRetried(st, replan);
      PendingGraphOfMerge(st, replan);
      AllSortable(ReplanGraph(st, replan));
    } else {
      forall ids ensures !AllFinished(After(Merged(st, replan), ids).steps) {
        RepeatedNewIdNeverFinishes(st, replan, ids);
      }
    }
  }

  /** Under the same conditions every run of the merged plan that cannot go on has finished it. */
  lemma MergedNeverDeadlocks(st: PlanState, replan: seq<PlanStep>, ids: seq<int>)
    requires Consistent(st) && Adjustment(st, replan) && NoneRetried(st, replan) && NewIdsDistinct(st, replan)
    requires Acyclic(ReplanGraph(st, replan)) && Closed(ReplanGraph(st, replan))
    requires IsRun(Merged(st, replan), ids)
    requires forall id :: !CanComplete(After(Merged(st, replan), ids), id)
    ensures AllFinished(After(Merged(st, replan), ids).steps)
  {
    hide Merged, PendingGraph, ReplanGraph, Acyclic, Closed, Sortable, IsRun, After, CanComplete;
    MergeKeepsConsistency(st, replan);
    HaltedAreRetried(st, replan);
    PendingGraphOfMerge(st, replan);
    AllSortable(ReplanGraph(st, replan));
    AnyRunFinishes(Merged(st, replan), ids);
  }

  const FAILED_STEP := PlanStep(1, "fetch", [], Failed, "", "timeout")
  const RETRY_STEP := PlanStep(1, "fetch", [], Pending, "", "")

  lemma RetryIsAdjustment(st: PlanState, replan: seq<PlanStep>)
    requires st == PlanState([FAILED_STEP], []) && replan == [RETRY_STEP]
    ensures Consistent(st) && Adjustment(st, replan) && !NoneRetried(st, replan)
  {
    assert IdsOf(replan) == [1] && IdsOf(st.steps) == [1];
    assert st.steps[0].id in IdsOf(replan);
  }

  /** A failed step that the adjustment names again stays failed: the merged plan never finishes. */
  lemma RetryUnderSameIdNeverFinishes()
    ensures var out := Merged(PlanState([FAILED_STEP], []), [RETRY_STEP]);
            forall ids :: IsRun(out, ids) ==> !AllFinished(After(out, ids).steps)
  {
    RetryIsAdjustment(PlanState([FAILED_STEP], []), [RETRY_STEP]);
    MergedFinishesExactly(PlanState([FAILED_STEP], []), [RETRY_STEP]);
  }

  const TWIN_STEP := PlanStep(2, "parse", [], Pending, "", "")

  /** Two replanned steps that end up with the same new id: nothing ever completes the second one. */
  lemma TwinStepsNeverFinish()
    ensures var out := Merged(PlanState([FAILED_STEP], []), [TWIN_STEP, TWIN_STEP]);
            forall ids :: !AllFinished(After(out, ids).steps)
  {
    var st, replan := PlanState([FAILED_STEP], []), [TWIN_STEP, TWIN_STEP];
    assert IdsOf(st.steps) == [1];
    assert replan[0].id == replan[1].id && replan[0].id !in IdSet(st.steps);
    forall ids ensures !AllFinished(After(Merged(st, replan), ids).steps) {
      RepeatedNewIdNeverFinishes(st, replan, ids);
    }
  }
}
