/** The order in which the topological sort returns steps that could have come in either order. */
module QueueOrder {
  import opened Sequences
  import opened PlanGraph
  import opened Scheduling

  /** `a` comes before `b` in the plan. */
  predicate Before(steps: seq<PlanStep>, a: int, b: int) {
    exists i, j :: 0 <= i < j < |steps| && steps[i].id == a && steps[j].id == b
  }

  /** The position of the last of `deps` in `order`, or -1. */
  function LastAt(order: seq<int>, deps: seq<int>): (k: int)
    ensures -1 <= k < |order|
  {
    if order == [] then -1
    else if order[|order| - 1] in deps then |order| - 1
    else LastAt(order[..|order| - 1], deps)
  }

  /** The last dependency of `x` comes before that of `y`, or they are the same and `x` comes first in the plan. */
  predicate Precedes(steps: seq<PlanStep>, g: Graph, order: seq<int>, x: int, y: int) {
    && x in g && y in g
    && var a, b := LastAt(order, g[x]), LastAt(order, g[y]);
       a < b || (a == b && Before(steps, x, y))
  }

  ghost predicate InTurn(steps: seq<PlanStep>, g: Graph, done: seq<int>, all: seq<int>) {
    forall i, j :: 0 <= i < j < |all| ==> Precedes(steps, g, done, all[i], all[j])
  }

  ghost predicate DepsDone(g: Graph, done: seq<int>, all: seq<int>) {
    forall x :: x in all ==> x in g && forall d :: d in g[x] ==> d in done
  }

  lemma LastAtNext(done: seq<int>, c: int, deps: seq<int>)
    ensures LastAt(done + [c], deps) == if c in deps then |done| else LastAt(done, deps)
  {
    assert (done + [c])[..|done|] == done;
  }

  // ---- Plan order ----

  /** Earlier entries are the same or come before in the plan. */
  predicate PlanOrder(steps: seq<PlanStep>, xs: seq<int>) {
    forall p, q :: 0 <= p < q < |xs| ==> xs[p] == xs[q] || Before(steps, xs[p], xs[q])
  }

  lemma BeforeLater(init: seq<PlanStep>, last: PlanStep, a: int, b: int)
    ensures Before(init, a, b) ==> Before(init + [last], a, b)
    ensures a in IdsOf(init) ==> Before(init + [last], a, last.id)
  {
    var steps := init + [last];
    if i, j :| 0 <= i < j < |init| && init[i].id == a && init[j].id == b {
      assert steps[i].id == a && steps[j].id == b;
    }
    if a in IdsOf(init) {
      var i :| 0 <= i < |init| && IdsOf(init)[i] == a;
      assert steps[i].id == a && steps[|init|].id == last.id;
    }
  }

  lemma {:induction false} DependentsInPlanOrder(steps: seq<PlanStep>, d: int)
    ensures PlanOrder(steps, Dependents(steps, d))
  {
    hide Before;
    if steps != [] {
      var init, last := steps[..|steps| - 1], steps[|steps| - 1];
      var before, copies := Dependents(init, d), Copies(last.dependsOn, d, last.id);
      DependentsInPlanOrder(init, d);
      DependentsAreSteps(init, d);
      CopiesAre(last.dependsOn, d, last.id);
      assert steps == init + [last];
      forall a, b ensures (Before(init, a, b) ==> Before(steps, a, b)) && (a in IdsOf(init) ==> Before(steps, a, last.id)) {
        BeforeLater(init, last, a, b);
      }
      SumInOrder(steps, init, before, copies, last.id);
    }
  }

  lemma SumInOrder(steps: seq<PlanStep>, init: seq<PlanStep>, before: seq<int>, copies: seq<int>, id: int)
    requires PlanOrder(init, before) && (forall x :: x in before ==> x in IdsOf(init)) && (forall x :: x in copies ==> x == id)
    requires forall a, b :: Before(init, a, b) ==> Before(steps, a, b)
    requires forall a :: a in IdsOf(init) ==> Before(steps, a, id)
    ensures PlanOrder(steps, before + copies)
  {
    hide Before;
    var all := before + copies;
    forall p, q | 0 <= p < q < |all| ensures all[p] == all[q] || Before(steps, all[p], all[q]) {
      if q >= |before| {
        assert copies[q - |before|] in copies;
        if p >= |before| {
          assert copies[p - |before|] in copies;
        } else {
          assert before[p] in before;
        }
      }
    }
  }

  lemma CopiesAre(deps: seq<int>, d: int, id: int)
    ensures forall x :: x in Copies(deps, d, id) ==> x == id
  {
    CopiesCount(deps, d, id);
    forall x | x in Copies(deps, d, id) ensures x == id {
      assert x in multiset(Copies(deps, d, id));
    }
  }

  lemma {:induction false} KeysInPlanOrder(steps: seq<PlanStep>)
    ensures PlanOrder(steps, KeyOrder(steps))
  {
    hide Before;
    if steps != [] {
      var init, last := steps[..|steps| - 1], steps[|steps| - 1];
      KeysInPlanOrder(init);
      KeysOnce(init);
      assert steps == init + [last];
      forall a, b ensures (Before(init, a, b) ==> Before(steps, a, b)) && (a in IdsOf(init) ==> Before(steps, a, last.id)) {
        BeforeLater(init, last, a, b);
      }
      SumInOrder(steps, init, KeyOrder(init), if last.id in IdsOf(init) then [] else [last.id], last.id);
    }
  }

  lemma {:induction false} RootsInPlanOrder(steps: seq<PlanStep>, ids: seq<int>, inDegree: map<int, int>)
    requires PlanOrder(steps, ids)
    ensures PlanOrder(steps, WithoutDemand(ids, inDegree))
  {
    hide Before;
    if ids != [] {
      var init, last := ids[..|ids| - 1], ids[|ids| - 1];
      RootsInPlanOrder(steps, init, inDegree);
      var roots := WithoutDemand(init, inDegree);
      forall r | r in roots ensures r == last || Before(steps, r, last) {
        var p :| 0 <= p < |init| && init[p] == r;
        assert ids[p] == r;
      }
      assert forall p :: 0 <= p < |roots| ==> roots[p] in roots;
    }
  }

  // ---- One round ----

  /** What a round appends to the queue, in plan order. */
  lemma {:induction false} AddedInOrder(steps: seq<PlanStep>, c: Counting, xs: seq<int>) returns (added: seq<int>)
    requires PlanOrder(steps, xs) && forall x :: x in xs ==> x in c.inDegree
    ensures DecrementedAll(c, xs).queue == c.queue + added
    ensures (forall x :: x in added ==> x in xs) && PlanOrder(steps, added)
  {
    hide Before;
    added := [];
    if xs != [] {
      var init, x := xs[..|xs| - 1], xs[|xs| - 1];
      var first := AddedInOrder(steps, c, init);
      forall y | y in first ensures y == x || Before(steps, y, x) {
        var p :| 0 <= p < |init| && init[p] == y;
        assert xs[p] == y;
      }
      assert forall p :: 0 <= p < |first| ==> first[p] in first;
      if DecrementedAll(c, init).inDegree[x] == 1 {
        added := first + [x];
      } else {
        added := first;
      }
    }
  }

  lemma OldStay(steps: seq<PlanStep>, g: Graph, done: seq<int>, queue: seq<int>)
    requires queue != [] && NoDup(done + queue)
    requires InTurn(steps, g, done, done + queue) && DepsDone(g, done, done + queue)
    ensures InTurn(steps, g, done + [queue[0]], done + queue)
    ensures forall x :: x in done + queue ==> LastAt(done + [queue[0]], g[x]) < |done|
  {
    hide Before;
    var all, c := done + queue, queue[0];
    FrontIsNew(done, queue);
    forall x | x in all ensures LastAt(done + [c], g[x]) == LastAt(done, g[x]) {
      LastAtNext(done, c, g[x]);
    }
    assert forall i :: 0 <= i < |all| ==> all[i] in all;
  }

  lemma RoundInTurn(steps: seq<PlanStep>, g: Graph, done: seq<int>, queue: seq<int>, added: seq<int>)
    requires queue != [] && NoDup(done + queue + added)
    requires InTurn(steps, g, done, done + queue) && DepsDone(g, done, done + queue)
    requires PlanOrder(steps, added) && forall x :: x in added ==> x in g && queue[0] in g[x]
    ensures InTurn(steps, g, done + [queue[0]], done + queue + added)
  {
    hide Before, LastAt;
    var earlier, c := done + queue, queue[0];
    var all, done' := earlier + added, done + [c];
    assert forall i :: 0 <= i < |earlier| ==> all[i] == earlier[i];
    assert NoDup(earlier);
    OldStay(steps, g, done, queue);
    forall i, j | 0 <= i < j < |all| ensures Precedes(steps, g, done', all[i], all[j]) {
      if j >= |earlier| {
        assert added[j - |earlier|] in added;
        LastAtNext(done, c, g[all[j]]);
        if i >= |earlier| {
          assert added[i - |earlier|] in added;
          LastAtNext(done, c, g[all[i]]);
          assert all[i] != all[j];
        } else {
          assert earlier[i] in earlier;
        }
      }
    }
  }

  // ---- The whole sort ----

  lemma ReadyWhenQueued(g: Graph, inDegree: map<int, int>, done: seq<int>, queue: seq<int>)
    requires SortInv(g, inDegree, done, queue, multiset{})
    ensures DepsDone(g, done, done + queue) && NoDup(done + queue)
  {
    forall x | x in done + queue ensures x in g && forall d :: d in g[x] ==> d in done {
      assert Waiting(g[x], Elements(done)) == 0;
      WaitingForNone(g[x], Elements(done));
    }
  }

  lemma RoundGoesOn(steps: seq<PlanStep>, c: Counting, done: seq<int>)
    requires UniqueIds(steps) && Linked(DependentsGraph(steps), c) && c.queue != []
    requires SortInv(DepGraph(steps), c.inDegree, done, c.queue, multiset{})
    requires InTurn(steps, DepGraph(steps), done, done + c.queue)
    ensures var r := NextRound(DependentsGraph(steps), c);
            && SortInv(DepGraph(steps), r.inDegree, done + [c.queue[0]], r.queue, multiset{})
            && InTurn(steps, DepGraph(steps), done + [c.queue[0]], done + [c.queue[0]] + r.queue)
  {
    hide SortInv, StepOf, Dependents, NextRound, Linked, InTurn, DepsDone, DecrementedAll, PlanOrder;
    var g, x := DepGraph(steps), c.queue[0];
    var xs, popped := Dependents(steps, x), Counting(c.inDegree, c.queue[1..]);
    FrontKnown(DependentsGraph(steps), c);
    DependentsInPlanOrder(steps, x);
    DueToDependents(steps, x);
    RoundKeeps(steps, c, done);
    ReadyWhenQueued(g, c.inDegree, done, c.queue);
    var r := NextRound(DependentsGraph(steps), c);
    var added := AddedInOrder(steps, popped, xs);
    ReadyWhenQueued(g, r.inDegree, done + [x], r.queue);
    assert done + [x] + r.queue == done + c.queue + added;
    RoundInTurn(steps, g, done, c.queue, added);
  }

  lemma {:induction false} KahnInTurn(steps: seq<PlanStep>, c: Counting, done: seq<int>)
    requires UniqueIds(steps) && Linked(DependentsGraph(steps), c)
    requires SortInv(DepGraph(steps), c.inDegree, done, c.queue, multiset{})
    requires InTurn(steps, DepGraph(steps), done, done + c.queue)
    ensures var all := done + Kahn(DependentsGraph(steps), c); InTurn(steps, DepGraph(steps), all, all)
    decreases RoundsLeft(c)
  {
    hide SortInv, Linked, DependentsGraph, DepGraph, InTurn;
    var graph := DependentsGraph(steps);
    if c.queue == [] {
      assert done + Kahn(graph, c) == done == done + c.queue;
    } else {
      RoundGoesOn(steps, c, done);
      KahnInTurn(steps, NextRound(graph, c), done + [c.queue[0]]);
      Regroup(done, [c.queue[0]], Kahn(graph, NextRound(graph, c)));
    }
  }

  lemma StartsInTurn(steps: seq<PlanStep>)
    requires UniqueIds(steps)
    ensures var queue := Initially(steps).queue; InTurn(steps, DepGraph(steps), [], [] + queue)
  {
    hide Before, WithoutDemand, KeyOrder, SortInv;
    var g, queue := DepGraph(steps), Initially(steps).queue;
    KeysInPlanOrder(steps);
    RootsInPlanOrder(steps, KeyOrder(steps), InDegrees(steps));
    SortStarts(steps);
    SortInvKeys(g, InDegrees(steps), [], queue, multiset{});
    assert [] + queue == queue;
    assert forall i :: 0 <= i < |queue| ==> queue[i] in queue;
    forall i, j | 0 <= i < j < |queue| ensures Precedes(steps, g, [], queue[i], queue[j]) {
      assert queue[i] != queue[j];
    }
  }

  /** With unique ids: of two steps that one comes first whose last dependency comes first, steps without any being the
      earliest, and where it is the same dependency, or there is none, the one that is first in the plan. */
  lemma OrderExactly(steps: seq<PlanStep>, i: nat, j: nat)
    requires UniqueIds(steps) && i < j < |Topological(steps)|
    ensures var out := Topological(steps);
            Precedes(steps, DepGraph(steps), IdsOf(out), out[i].id, out[j].id)
  {
    hide Kahn, Initially, SortInv, DependentsGraph, DepGraph, Precedes, LastOf;
    InitiallyLinked(steps);
    SortStarts(steps);
    StartsInTurn(steps);
    InDegreesOf(steps);
    KahnInTurn(steps, Initially(steps), []);
    var order := TopologicalIds(steps);
    assert [] + order == order;
    assert IdsOf(Topological(steps)) == order;
    assert order[i] == Topological(steps)[i].id && order[j] == Topological(steps)[j].id;
  }

  lemma InDegreesOf(steps: seq<PlanStep>)
    ensures Initially(steps).inDegree == InDegrees(steps)
  {
  }
}
