/** Ordering the steps of a plan: Kahn's algorithm and the grouping into parallel waves. */
module Scheduling {
  import opened Sequences
  import opened PlanGraph

  datatype Status = Pending | Completed | Failed | Skipped | OtherStatus

  datatype PlanStep = PlanStep(
    id: int,
    description: string,
    dependsOn: seq<int>,
    status: Status,
    result: string,
    error: string)

  predicate UniqueIds(steps: seq<PlanStep>) {
    forall i, j :: 0 <= i < j < |steps| ==> steps[i].id != steps[j].id
  }

  function IdsOf(steps: seq<PlanStep>): (ids: seq<int>)
    ensures |ids| == |steps|
    ensures forall i :: 0 <= i < |steps| ==> ids[i] == steps[i].id
  {
    seq(|steps|, i requires 0 <= i < |steps| => steps[i].id)
  }

  function IdSet(steps: seq<PlanStep>): set<int> {
    set id | id in IdsOf(steps)
  }

  function StepOf(steps: seq<PlanStep>, id: int): (s: PlanStep)
    requires id in IdsOf(steps)
    ensures s in steps && s.id == id
  {
    if steps[0].id == id then steps[0]
    else
      assert id in IdsOf(steps[1..]) by {
        var i :| 0 <= i < |steps| && steps[i].id == id;
        assert IdsOf(steps[1..])[i - 1] == id;
      }
      StepOf(steps[1..], id)
  }

  /** The last step called `id`, the one a dictionary by id keeps. */
  function LastOf(steps: seq<PlanStep>, id: int): (s: PlanStep)
    requires id in IdsOf(steps)
    ensures s in steps && s.id == id
  {
    var n := |steps| - 1;
    if steps[n].id == id then steps[n]
    else
      IdsInInit(steps, id);
      LastOf(steps[..n], id)
  }

  lemma IdsInInit(steps: seq<PlanStep>, id: int)
    requires steps != []
    ensures id in IdsOf(steps) <==> id in IdsOf(steps[..|steps| - 1]) || id == steps[|steps| - 1].id
  {
    assert IdsOf(steps) == IdsOf(steps[..|steps| - 1]) + [steps[|steps| - 1].id];
  }

  function DepGraph(steps: seq<PlanStep>): Graph {
    map id | id in IdSet(steps) :: StepOf(steps, id).dependsOn
  }

  lemma StepOfUnique(steps: seq<PlanStep>, s: PlanStep)
    requires UniqueIds(steps) && s in steps
    ensures s.id in IdsOf(steps) && StepOf(steps, s.id) == s
  {
    var i :| 0 <= i < |steps| && steps[i] == s;
    assert IdsOf(steps)[i] == s.id;
    var t := StepOf(steps, s.id);
    var j :| 0 <= j < |steps| && steps[j] == t;
  }

  lemma LastIsOnly(steps: seq<PlanStep>, id: int)
    requires UniqueIds(steps) && id in IdsOf(steps)
    ensures LastOf(steps, id) == StepOf(steps, id)
  {
    StepOfUnique(steps, LastOf(steps, id));
  }

  // ---- build_dependency_graph ----

  /** One `id` for each time `d` occurs in `deps`. */
  function Copies(deps: seq<int>, d: int, id: int): seq<int> {
    if deps == [] then []
    else Copies(deps[..|deps| - 1], d, id) + (if deps[|deps| - 1] == d then [id] else [])
  }

  /** The steps waiting for `d`, in plan order, once per occurrence of `d`. */
  function Dependents(steps: seq<PlanStep>, d: int): seq<int> {
    if steps == [] then []
    else
      var last := steps[|steps| - 1];
      Dependents(steps[..|steps| - 1], d) + Copies(last.dependsOn, d, last.id)
  }

  lemma {:induction false} CopiesCount(deps: seq<int>, d: int, id: int)
    ensures multiset(Copies(deps, d, id))[id] == multiset(deps)[d]
    ensures forall x :: x != id ==> multiset(Copies(deps, d, id))[x] == 0
  {
    if deps != [] {
      var init := deps[..|deps| - 1];
      CopiesCount(init, d, id);
      assert deps == init + [deps[|deps| - 1]];
    }
  }

  lemma IdsOfInit(steps: seq<PlanStep>, id: int)
    requires UniqueIds(steps) && steps != []
    ensures var init, last := steps[..|steps| - 1], steps[|steps| - 1];
            && UniqueIds(init)
            && (id in IdsOf(init) ==> id != last.id && id in IdsOf(steps) && StepOf(steps, id) == StepOf(init, id))
            && (id !in IdsOf(init) ==> (id in IdsOf(steps) <==> id == last.id))
            && last.id in IdsOf(steps) && StepOf(steps, last.id) == last
  {
    var n := |steps| - 1;
    var init := steps[..n];
    StepOfUnique(steps, steps[n]);
    if id in IdsOf(init) {
      StepOfUnique(steps, StepOf(init, id));
    }
    assert forall i :: 0 <= i < n ==> steps[i].id == IdsOf(init)[i];
  }

  /** How often the steps called `id` name `d` as a dependency. */
  function Mentions(steps: seq<PlanStep>, d: int, id: int): nat {
    if steps == [] then 0
    else
      var last := steps[|steps| - 1];
      Mentions(steps[..|steps| - 1], d, id) + (if last.id == id then multiset(last.dependsOn)[d] else 0)
  }

  lemma {:induction false} DependentsCount(steps: seq<PlanStep>, d: int, id: int)
    ensures multiset(Dependents(steps, d))[id] == Mentions(steps, d, id)
  {
    if steps != [] {
      var init, last := steps[..|steps| - 1], steps[|steps| - 1];
      DependentsCount(init, d, id);
      CopiesCount(last.dependsOn, d, last.id);
      assert multiset(Dependents(steps, d))
          == multiset(Dependents(init, d)) + multiset(Copies(last.dependsOn, d, last.id));
    }
  }

  lemma {:induction false} MentionsOfOnly(steps: seq<PlanStep>, d: int, id: int)
    requires UniqueIds(steps)
    ensures Mentions(steps, d, id) == if id in IdsOf(steps) then multiset(StepOf(steps, id).dependsOn)[d] else 0
  {
    hide StepOf;
    if steps != [] {
      var init := steps[..|steps| - 1];
      IdsOfInit(steps, id);
      MentionsOfOnly(init, d, id);
    }
  }

  lemma {:induction false} DependentsAreSteps(steps: seq<PlanStep>, d: int)
    ensures forall x :: x in Dependents(steps, d) ==> x in IdSet(steps)
  {
    if steps != [] {
      var init, last := steps[..|steps| - 1], steps[|steps| - 1];
      DependentsAreSteps(init, d);
      forall x | x in Copies(last.dependsOn, d, last.id) ensures x == last.id {
        CopiesCount(last.dependsOn, d, last.id);
        assert x in multiset(Copies(last.dependsOn, d, last.id));
      }
      forall x ensures x in IdSet(steps) <==> x in IdSet(init) || x == last.id {
        IdsInInit(steps, x);
      }
    }
  }

  function DependentsGraph(steps: seq<PlanStep>): map<int, seq<int>> {
    map id | id in IdSet(steps) :: Dependents(steps, id)
  }

  /** Appends `step` to the entry of each of its dependencies that is a step of the plan. */
  method AddDependent(graph: map<int, seq<int>>, step: PlanStep) returns (grown: map<int, seq<int>>)
    ensures grown.Keys == graph.Keys
    ensures forall d :: d in graph ==> grown[d] == graph[d] + Copies(step.dependsOn, d, step.id)
  {
    grown := graph;
    for j := 0 to |step.dependsOn|
      invariant grown.Keys == graph.Keys
      invariant forall d :: d in graph ==> grown[d] == graph[d] + Copies(step.dependsOn[..j], d, step.id)
    {
      var dep := step.dependsOn[j];
      assert step.dependsOn[..j + 1][..j] == step.dependsOn[..j];
      if dep in grown {
        grown := grown[dep := grown[dep] + [step.id]];
      }
    }
    assert step.dependsOn[..|step.dependsOn|] == step.dependsOn;
  }

  method BuildDependencyGraph(steps: seq<PlanStep>) returns (graph: map<int, seq<int>>)
    ensures graph == DependentsGraph(steps)
  {
    graph := map id | id in IdSet(steps) :: [];
    for i := 0 to |steps|
      invariant graph.Keys == IdSet(steps)
      invariant forall d :: d in graph ==> graph[d] == Dependents(steps[..i], d)
    {
      graph := AddDependent(graph, steps[i]);
      assert steps[..i + 1][..i] == steps[..i];
    }
    assert steps[..|steps|] == steps;
  }

  // ---- topological_sort ----

  /** How many entries of `deps` are not done yet. */
  function Waiting(deps: seq<int>, done: set<int>): nat {
    if deps == [] then 0 else (if deps[0] in done then 0 else 1) + Waiting(deps[1..], done)
  }

  lemma {:induction false} WaitingForNone(deps: seq<int>, done: set<int>)
    ensures Waiting(deps, done) == 0 <==> forall d :: d in deps ==> d in done
    ensures done == {} ==> Waiting(deps, done) == |deps|
  {
    if deps != [] {
      WaitingForNone(deps[1..], done);
      assert forall d :: d in deps <==> d == deps[0] || d in deps[1..];
    }
  }

  lemma {:induction false} WaitingStep(deps: seq<int>, done: set<int>, c: int)
    requires c !in done
    ensures Waiting(deps, done) == Waiting(deps, done + {c}) + multiset(deps)[c]
  {
    if deps != [] {
      WaitingStep(deps[1..], done, c);
      assert deps == [deps[0]] + deps[1..];
    }
  }

  /** The counters: what each step still waits for, and the decrements `due` to it. */
  ghost predicate Counts(g: Graph, inDegree: map<int, int>, done: set<int>, due: multiset<int>) {
    inDegree.Keys == g.Keys && forall id :: id in g ==> inDegree[id] == Waiting(g[id], done) + due[id]
  }

  /** The steps that were ever queued are those whose counter is at 0. */
  ghost predicate Queued(g: Graph, inDegree: map<int, int>, order: seq<int>)
    requires inDegree.Keys == g.Keys
  {
    && NoDup(order)
    && (forall id :: id in order ==> id in g)
    && (forall id :: id in g ==> (id in order <==> inDegree[id] == 0))
  }

  ghost predicate InWaveOrder(g: Graph, order: seq<int>) {
    forall i, j :: 0 <= i < j < |order| ==> NoLater(g, order[i], order[j])
  }

  /** Everything queued comes at most one wave after `c`. */
  ghost predicate OneWaveAhead(g: Graph, c: int, queue: seq<int>) {
    forall x, k: nat :: x in queue && c in Within(g, k) ==> x in Within(g, k + 1)
  }

  lemma QueueNext(g: Graph, done: seq<int>, queue: seq<int>, c: int, x: int)
    requires done != [] && done[|done| - 1] == c
    requires InWaveOrder(g, done + queue) && OneWaveAhead(g, c, queue)
    requires x in g && c in g[x] && forall d :: d in g[x] ==> d in done
    ensures InWaveOrder(g, done + queue + [x]) && OneWaveAhead(g, c, queue + [x])
  {
    var order := done + queue;
    forall y, k: nat | y in order && x in Within(g, k) ensures y in Within(g, k) {
      DependencyEarlier(g, x, c, k);
      WithinMonotone(g, k - 1, k);
      if y in queue {
        assert y in Within(g, k - 1 + 1);
      } else {
        BeforeLast(g, done, queue, y, k - 1);
      }
    }
    forall k: nat | c in Within(g, k) ensures x in Within(g, k + 1) {
      forall d | d in g[x] ensures d in Within(g, k) {
        BeforeLast(g, done, queue, d, k);
      }
      WithinStep(g, x, k);
    }
    assert forall i :: 0 <= i < |order| ==> order[i] in order && NoLater(g, order[i], x);
  }

  lemma DependencyEarlier(g: Graph, x: int, d: int, k: nat)
    requires x in g && d in g[x] && x in Within(g, k)
    ensures 0 < k && d in Within(g, k - 1)
  {
  }

  lemma BeforeLast(g: Graph, done: seq<int>, queue: seq<int>, y: int, k: nat)
    requires done != [] && y in done && InWaveOrder(g, done + queue)
    requires done[|done| - 1] in Within(g, k)
    ensures y in Within(g, k)
  {
    var i :| 0 <= i < |done| && done[i] == y;
    var order, n := done + queue, |done| - 1;
    assert order[i] == y && order[n] == done[n];
    assert i < n ==> NoLater(g, order[i], order[n]);
  }

  /** What holds between two rounds of the sort, `done` being finished and `queue` waiting. */
  ghost predicate SortInv(g: Graph, inDegree: map<int, int>, done: seq<int>, queue: seq<int>, due: multiset<int>) {
    && Counts(g, inDegree, Elements(done), due)
    && Queued(g, inDegree, done + queue)
    && Ordered(g, done)
    && InWaveOrder(g, done + queue)
    && (done != [] ==> OneWaveAhead(g, done[|done| - 1], queue))
  }

  /** One decrement of the inner loop. */
  lemma ReleaseStep(g: Graph, inDegree: map<int, int>, done: seq<int>, queue: seq<int>, due: multiset<int>, x: int)
    requires SortInv(g, inDegree, done, queue, due) && done != []
    requires x in due && x in g && done[|done| - 1] in g[x]
    ensures 0 < inDegree[x]
    ensures var inDegree' := inDegree[x := inDegree[x] - 1];
            var queue' := if inDegree'[x] == 0 then queue + [x] else queue;
            SortInv(g, inDegree', done, queue', due - multiset{x})
  {
    hide Within, Ordered, Waiting;
    assert inDegree[x] == Waiting(g[x], Elements(done)) + due[x];
    var inDegree' := inDegree[x := inDegree[x] - 1];
    if inDegree'[x] == 0 {
      assert x !in done + queue;
      assert Waiting(g[x], Elements(done)) == 0;
      WaitingForNone(g[x], Elements(done));
      QueueNext(g, done, queue, done[|done| - 1], x);
      assert done + (queue + [x]) == done + queue + [x];
    }
  }

  /** Taking the front of the queue: all its dependents are due one decrement per occurrence. */
  lemma StartRound(g: Graph, inDegree: map<int, int>, done: seq<int>, queue: seq<int>, due: multiset<int>)
    requires SortInv(g, inDegree, done, queue, multiset{}) && queue != []
    requires forall id :: id in g ==> due[id] == multiset(g[id])[queue[0]]
    ensures SortInv(g, inDegree, done + [queue[0]], queue[1..], due)
  {
    hide Within;
    var c, done', queue' := queue[0], done + [queue[0]], queue[1..];
    assert done' + queue' == done + queue;
    assert (done + queue)[|done|] == c && c in done + queue;
    assert c !in done by { FrontIsNew(done, queue); }
    forall id | id in g ensures inDegree[id] == Waiting(g[id], Elements(done')) + due[id] {
      WaitingStep(g[id], Elements(done), c);
      assert Elements(done') == Elements(done) + {c};
    }
    WaitingForNone(g[c], Elements(done));
    OrderedNext(g, done, c);
    if done != [] {
      var b := done[|done| - 1];
      assert NoLater(g, b, c) by {
        assert (done + queue)[|done| - 1] == b;
      }
    } else {
      forall x, k: nat | x in queue && c in Within(g, k) ensures x in Within(g, k + 1) {
        assert x in done + queue;
        WaitingForNone(g[x], Elements(done));
        WithinStep(g, x, k);
      }
    }
    assert forall x :: x in queue' ==> x in queue;
  }

  lemma FrontIsNew(done: seq<int>, queue: seq<int>)
    requires NoDup(done + queue) && queue != []
    ensures queue[0] !in done
  {
    var order := done + queue;
    assert order[|done|] == queue[0];
    assert forall i :: 0 <= i < |done| ==> done[i] == order[i];
  }

  lemma OrderedNext(g: Graph, done: seq<int>, c: int)
    requires Ordered(g, done) && c in g && c !in done && forall d :: d in g[c] ==> d in done
    ensures Ordered(g, done + [c])
  {
    var order := done + [c];
    forall i | 0 <= i < |order| ensures order[i] in g && forall d :: d in g[order[i]] ==> d in order[..i] {
      assert order[..i] == done[..i];
    }
  }

  /** The counters and the queue of the sort. */
  datatype Counting = Counting(inDegree: map<int, int>, queue: seq<int>)

  function Decremented(c: Counting, x: int): Counting
    requires x in c.inDegree
  {
    var n := c.inDegree[x] - 1;
    Counting(c.inDegree[x := n], if n == 0 then c.queue + [x] else c.queue)
  }

  /** One decrement for each entry of `xs`, queueing what reaches 0. */
  function DecrementedAll(c: Counting, xs: seq<int>): (r: Counting)
    requires forall x :: x in xs ==> x in c.inDegree
    ensures r.inDegree.Keys == c.inDegree.Keys
  {
    if xs == [] then c else Decremented(DecrementedAll(c, xs[..|xs| - 1]), xs[|xs| - 1])
  }

  /** The rounds still to come at most: what is queued and what may still be. */
  function RoundsLeft(c: Counting): nat {
    |Demanding(c.inDegree)| + |c.queue|
  }

  function Demanding(inDegree: map<int, int>): set<int> {
    set id | id in inDegree && inDegree[id] > 0
  }

  lemma {:induction false} DecrementsKeep(c: Counting, xs: seq<int>)
    requires forall x :: x in xs ==> x in c.inDegree
    ensures RoundsLeft(DecrementedAll(c, xs)) <= RoundsLeft(c)
    ensures forall x :: x in DecrementedAll(c, xs).queue ==> x in c.queue || x in xs
  {
    if xs != [] {
      var x := xs[|xs| - 1];
      var r := DecrementedAll(c, xs[..|xs| - 1]);
      DecrementsKeep(c, xs[..|xs| - 1]);
      var r' := Decremented(r, x);
      if r'.inDegree[x] == 0 {
        assert Demanding(r.inDegree) == Demanding(r'.inDegree) + {x};
      } else {
        assert Demanding(r.inDegree) == Demanding(r'.inDegree);
      }
    }
  }

  /** Counters and dependents speak of the same ids. */
  predicate Linked(graph: map<int, seq<int>>, c: Counting) {
    && c.inDegree.Keys == graph.Keys
    && (forall d, x :: d in graph && x in graph[d] ==> x in graph)
    && (forall x :: x in c.queue ==> x in graph)
  }

  /** One round: the front of the queue is out, its dependents are decremented. */
  function NextRound(graph: map<int, seq<int>>, c: Counting): (r: Counting)
    requires Linked(graph, c) && c.queue != []
    ensures Linked(graph, r) && RoundsLeft(r) < RoundsLeft(c)
  {
    var popped := Counting(c.inDegree, c.queue[1..]);
    var front := c.queue[0];
    assert front in c.queue;
    DecrementsKeep(popped, graph[front]);
    DecrementedAll(popped, graph[front])
  }

  /** The ids in the order in which they leave the queue. */
  function Kahn(graph: map<int, seq<int>>, c: Counting): (order: seq<int>)
    requires Linked(graph, c)
    ensures forall x :: x in order ==> x in graph
    decreases RoundsLeft(c)
  {
    if c.queue == [] then [] else [c.queue[0]] + Kahn(graph, NextRound(graph, c))
  }

  /** The ids of the plan in the order of their first mention. */
  function KeyOrder(steps: seq<PlanStep>): seq<int> {
    if steps == [] then []
    else
      var init, last := steps[..|steps| - 1], steps[|steps| - 1];
      KeyOrder(init) + (if last.id in IdsOf(init) then [] else [last.id])
  }

  lemma {:induction false} KeysOnce(steps: seq<PlanStep>)
    ensures NoDup(KeyOrder(steps)) && forall id :: id in KeyOrder(steps) <==> id in IdSet(steps)
  {
    if steps != [] {
      var init := steps[..|steps| - 1];
      KeysOnce(init);
      assert forall i :: 0 <= i < |KeyOrder(init)| ==> KeyOrder(init)[i] in KeyOrder(init);
      forall id ensures id in IdSet(steps) <==> id in IdSet(init) || id == steps[|steps| - 1].id {
        IdsInInit(steps, id);
      }
    }
  }

  function WithoutDemand(ids: seq<int>, inDegree: map<int, int>): (r: seq<int>)
    ensures forall id :: id in r <==> id in ids && id in inDegree && inDegree[id] == 0
    ensures NoDup(ids) ==> NoDup(r)
  {
    if ids == [] then []
    else
      var init, last := ids[..|ids| - 1], ids[|ids| - 1];
      assert ids == init + [last];
      assert NoDup(ids) ==> NoDup(init) && last !in init;
      WithoutDemand(init, inDegree) + (if last in inDegree && inDegree[last] == 0 then [last] else [])
  }

  function InDegrees(steps: seq<PlanStep>): map<int, int> {
    map id | id in IdSet(steps) :: |LastOf(steps, id).dependsOn|
  }

  function Initially(steps: seq<PlanStep>): Counting {
    Counting(InDegrees(steps), WithoutDemand(KeyOrder(steps), InDegrees(steps)))
  }

  lemma InitiallyLinked(steps: seq<PlanStep>)
    ensures Linked(DependentsGraph(steps), Initially(steps))
  {
    hide LastOf;
    forall d, x | d in DependentsGraph(steps) && x in Dependents(steps, d) ensures x in IdSet(steps) {
      DependentsAreSteps(steps, d);
    }
  }

  function TopologicalIds(steps: seq<PlanStep>): (order: seq<int>)
    ensures forall id :: id in order ==> id in IdsOf(steps)
  {
    InitiallyLinked(steps);
    Kahn(DependentsGraph(steps), Initially(steps))
  }

  function StepsCalled(steps: seq<PlanStep>, ids: seq<int>): (r: seq<PlanStep>)
    requires forall id :: id in ids ==> id in IdsOf(steps)
    ensures IdsOf(r) == ids && forall s :: s in r ==> s in steps
  {
    seq(|ids|, i requires 0 <= i < |ids| => LastOf(steps, ids[i]))
  }

  /** What the sort returns for any plan. */
  function Topological(steps: seq<PlanStep>): seq<PlanStep> {
    StepsCalled(steps, TopologicalIds(steps))
  }

  /** The inner loop of the sort. */
  method Release(c: Counting, dependents: seq<int>) returns (inDegree: map<int, int>, queue: seq<int>)
    requires forall x :: x in dependents ==> x in c.inDegree
    ensures Counting(inDegree, queue) == DecrementedAll(c, dependents)
  {
    inDegree, queue := c.inDegree, c.queue;
    for j := 0 to |dependents|
      invariant Counting(inDegree, queue) == DecrementedAll(c, dependents[..j])
    {
      var dependent := dependents[j];
      assert dependents[..j + 1][..j] == dependents[..j];
      inDegree := inDegree[dependent := inDegree[dependent] - 1];
      if inDegree[dependent] == 0 {
        queue := queue + [dependent];
      }
    }
    assert dependents[..|dependents|] == dependents;
  }

  /** `circular` tells whether the warning is logged. */
  method TopologicalSort(steps: seq<PlanStep>) returns (result: seq<PlanStep>, circular: bool)
    ensures result == Topological(steps) && (circular <==> |result| != |steps|)
  {
    hide LastOf, Dependents, NextRound, Linked;
    var inDegree := map id | id in IdSet(steps) :: |LastOf(steps, id).dependsOn|;
    var graph := BuildDependencyGraph(steps);
    var queue := WithoutDemand(KeyOrder(steps), inDegree);
    var order: seq<int> := [];
    result := [];
    InitiallyLinked(steps);
    assert Counting(inDegree, queue) == Initially(steps);
    while queue != []
      invariant Linked(graph, Counting(inDegree, queue))
      invariant TopologicalIds(steps) == order + Kahn(graph, Counting(inDegree, queue))
      invariant forall id :: id in order ==> id in IdsOf(steps)
      invariant result == StepsCalled(steps, order)
      decreases RoundsLeft(Counting(inDegree, queue))
    {
      var current := queue[0];
      ghost var now := Counting(inDegree, queue);
      FrontKnown(graph, now);
      assert TopologicalIds(steps) == order + [current] + Kahn(graph, NextRound(graph, now));
      result := result + [LastOf(steps, current)];
      order := order + [current];
      inDegree, queue := Release(Counting(inDegree, queue[1..]), graph[current]);
    }
    assert order + [] == order;
    circular := |result| != |steps|;
  }

  lemma FrontKnown(graph: map<int, seq<int>>, c: Counting)
    requires Linked(graph, c) && c.queue != []
    ensures c.queue[0] in graph && forall x :: x in graph[c.queue[0]] ==> x in c.inDegree
    ensures NextRound(graph, c) == DecrementedAll(Counting(c.inDegree, c.queue[1..]), graph[c.queue[0]])
  {
    var front := c.queue[0];
    assert front in c.queue;
  }

  // ---- What the sort returns for any plan ----

  /** Nothing is queued twice: what was queued has no demand left. */
  predicate Drained(c: Counting, done: seq<int>) {
    && NoDup(done + c.queue)
    && forall id :: id in done + c.queue && id in c.inDegree ==> c.inDegree[id] <= 0
  }

  lemma {:induction false} DecrementsDrained(c: Counting, done: seq<int>, xs: seq<int>)
    requires Drained(c, done) && forall x :: x in xs ==> x in c.inDegree
    ensures Drained(DecrementedAll(c, xs), done)
  {
    if xs != [] {
      var r, x := DecrementedAll(c, xs[..|xs| - 1]), xs[|xs| - 1];
      DecrementsDrained(c, done, xs[..|xs| - 1]);
      if r.inDegree[x] == 1 {
        assert x !in done + r.queue;
        assert done + (r.queue + [x]) == done + r.queue + [x];
      }
    }
  }

  lemma {:induction false} KahnOnce(graph: map<int, seq<int>>, c: Counting, done: seq<int>)
    requires Linked(graph, c) && Drained(c, done)
    ensures NoDup(done + Kahn(graph, c))
    decreases RoundsLeft(c)
  {
    hide Linked;
    if c.queue != [] {
      var x, popped := c.queue[0], Counting(c.inDegree, c.queue[1..]);
      FrontKnown(graph, c);
      assert done + [x] + c.queue[1..] == done + c.queue;
      DecrementsDrained(popped, done + [x], graph[x]);
      KahnOnce(graph, NextRound(graph, c), done + [x]);
      Regroup(done, [x], Kahn(graph, NextRound(graph, c)));
    } else {
      assert done + c.queue == done == done + Kahn(graph, c);
    }
  }

  /** No id is returned twice, whatever the plan. */
  lemma SortedOnce(steps: seq<PlanStep>)
    ensures NoDup(TopologicalIds(steps))
  {
    hide Kahn, InDegrees;
    var c := Initially(steps);
    InitiallyLinked(steps);
    KeysOnce(steps);
    assert [] + c.queue == c.queue;
    KahnOnce(DependentsGraph(steps), c, []);
    assert [] + Kahn(DependentsGraph(steps), c) == Kahn(DependentsGraph(steps), c);
  }

  // ---- What it returns for a plan with unique ids ----

  lemma SortInvKeys(g: Graph, inDegree: map<int, int>, done: seq<int>, queue: seq<int>, due: multiset<int>)
    requires SortInv(g, inDegree, done, queue, due)
    ensures inDegree.Keys == g.Keys && NoDup(done + queue)
    ensures forall x :: x in done + queue ==> x in g
  {
  }

  lemma SortStarts(steps: seq<PlanStep>)
    requires UniqueIds(steps)
    ensures SortInv(DepGraph(steps), InDegrees(steps), [], Initially(steps).queue, multiset{})
  {
    hide StepOf, LastOf, Within, NoLater, WithoutDemand, KeyOrder;
    var g, queue := DepGraph(steps), Initially(steps).queue;
    KeysOnce(steps);
    assert [] + queue == queue;
    forall id | id in g ensures InDegrees(steps)[id] == Waiting(g[id], {}) {
      LastIsOnly(steps, id);
      WaitingForNone(g[id], {});
    }
    assert Elements([]) == {};
    forall id | id in queue ensures id in g && g[id] == [] {
      LastIsOnly(steps, id);
    }
    RootsInOrder(g, queue);
  }

  lemma RootsInOrder(g: Graph, queue: seq<int>)
    requires forall x :: x in queue ==> x in g && g[x] == []
    ensures InWaveOrder(g, queue)
  {
    forall a, b, k: nat | a in queue && b in queue && b in Within(g, k) ensures a in Within(g, k) {
      RootsFirst(g, a, b, k);
    }
    assert forall i :: 0 <= i < |queue| ==> queue[i] in queue;
  }

  lemma RootsFirst(g: Graph, a: int, b: int, k: nat)
    requires a in g && g[a] == [] && b in Within(g, k)
    ensures a in Within(g, k)
  {
  }

  lemma SortEnds(g: Graph, inDegree: map<int, int>, order: seq<int>)
    requires SortInv(g, inDegree, order, [], multiset{})
    ensures Ordered(g, order) && NoDup(order) && InWaveOrder(g, order)
    ensures forall id :: id in g ==> (id in order <==> Sortable(g, id))
  {
    assert order + [] == order;
    forall id | id in g && id !in order ensures exists d :: d in g[id] && d !in order {
      WaitingForNone(g[id], Elements(order));
    }
    forall id | id in g ensures id in order <==> Sortable(g, id) {
      OrderIsExact(g, order, id);
    }
  }

  lemma DueToDependents(steps: seq<PlanStep>, c: int)
    requires UniqueIds(steps)
    ensures var g := DepGraph(steps);
            && (forall id :: id in g ==> multiset(Dependents(steps, c))[id] == multiset(g[id])[c])
            && (forall x :: x in Dependents(steps, c) ==> x in g && c in g[x])
  {
    forall id ensures multiset(Dependents(steps, c))[id] ==
      if id in IdsOf(steps) then multiset(StepOf(steps, id).dependsOn)[c] else 0
    {
      DependentsCount(steps, c, id);
      MentionsOfOnly(steps, c, id);
    }
    forall x | x in Dependents(steps, c) ensures x in IdsOf(steps) && c in StepOf(steps, x).dependsOn {
      assert x in multiset(Dependents(steps, c));
    }
  }

  lemma RoundStarts(steps: seq<PlanStep>, inDegree: map<int, int>, order: seq<int>, queue: seq<int>)
    requires UniqueIds(steps) && queue != []
    requires SortInv(DepGraph(steps), inDegree, order, queue, multiset{})
    ensures var g, c, dependents := DepGraph(steps), queue[0], Dependents(steps, queue[0]);
            && c in g && |order| < |g|
            && SortInv(g, inDegree, order + [c], queue[1..], multiset(dependents))
            && forall x :: x in dependents ==> x in g && c in g[x]
  {
    hide SortInv, StepOf;
    var g := DepGraph(steps);
    SortInvKeys(g, inDegree, order, queue, multiset{});
    assert queue[0] in order + queue;
    NoDupBound(order + queue, g.Keys);
    DueToDependents(steps, queue[0]);
    StartRound(g, inDegree, order, queue, multiset(Dependents(steps, queue[0])));
  }

  lemma ResultMembers(steps: seq<PlanStep>, result: seq<PlanStep>)
    requires UniqueIds(steps)
    requires forall s :: s in result ==> s in steps
    requires forall id :: id in DepGraph(steps) ==> (id in IdsOf(result) <==> Sortable(DepGraph(steps), id))
    ensures forall s :: s in result <==> s in steps && Sortable(DepGraph(steps), s.id)
  {
    hide StepOf, Sortable;
    var g, ids := DepGraph(steps), IdsOf(result);
    forall s | s in steps ensures s in result <==> Sortable(g, s.id) {
      StepOfUnique(steps, s);
      if s in result {
        var i :| 0 <= i < |result| && result[i] == s;
        assert ids[i] == s.id;
      }
      if s.id in ids {
        var i :| 0 <= i < |ids| && ids[i] == s.id;
        assert result[i] in steps;
        StepOfUnique(steps, result[i]);
      }
    }
  }

  lemma ResultSize(steps: seq<PlanStep>, result: seq<PlanStep>)
    requires UniqueIds(steps) && NoDup(IdsOf(result))
    requires forall s :: s in result ==> s in steps
    requires forall id :: id in DepGraph(steps) ==> (id in IdsOf(result) <==> Sortable(DepGraph(steps), id))
    ensures |result| != |steps| <==> !(Acyclic(DepGraph(steps)) && Closed(DepGraph(steps)))
  {
    hide StepOf, Sortable, Acyclic, Closed;
    var g, ids := DepGraph(steps), IdsOf(result);
    forall id | id in ids ensures id in IdsOf(steps) {
      var i :| 0 <= i < |ids| && ids[i] == id;
      assert result[i] in steps;
      StepOfUnique(steps, result[i]);
    }
    AllSortable(g);
    NoDupCard(ids);
    NoDupCard(IdsOf(steps));
    assert Elements(IdsOf(steps)) == g.Keys;
    SubsetSize(Elements(ids), g.Keys);
  }

  lemma SubsetSize(a: set<int>, b: set<int>)
    requires a <= b
    ensures |a| <= |b| && (|a| == |b| <==> a == b)
  {
    assert b == a + (b - a);
    assert |b - a| == 0 <==> b - a == {};
  }

  /** The decrements of one round keep the invariant. */
  lemma {:induction false} ReleasedInv(g: Graph, done: seq<int>, c: Counting, xs: seq<int>, j: nat)
    requires done != [] && j <= |xs| && SortInv(g, c.inDegree, done, c.queue, multiset(xs))
    requires forall x :: x in xs ==> x in g && x in c.inDegree && done[|done| - 1] in g[x]
    ensures var r := DecrementedAll(c, xs[..j]); SortInv(g, r.inDegree, done, r.queue, multiset(xs[j..]))
  {
    hide SortInv, DecrementedAll;
    if j > 0 {
      ReleasedInv(g, done, c, xs, j - 1);
      var r, x := DecrementedAll(c, xs[..j - 1]), xs[j - 1];
      assert x in xs;
      NextDecrement(c, xs, j);
      NextDue(xs, j);
      ReleaseStep(g, r.inDegree, done, r.queue, multiset(xs[j - 1..]), x);
    } else {
      assert xs[0..] == xs;
      NothingDecremented(c);
    }
  }

  lemma NothingDecremented(c: Counting)
    ensures DecrementedAll(c, []) == c
  {
  }

  lemma NextDecrement(c: Counting, xs: seq<int>, j: nat)
    requires 0 < j <= |xs| && forall x :: x in xs ==> x in c.inDegree
    ensures DecrementedAll(c, xs[..j]) == Decremented(DecrementedAll(c, xs[..j - 1]), xs[j - 1])
  {
    assert xs[..j][..j - 1] == xs[..j - 1];
  }

  lemma NextDue(xs: seq<int>, j: nat)
    requires 0 < j <= |xs|
    ensures xs[j - 1] in multiset(xs[j - 1..])
    ensures multiset(xs[j - 1..]) - multiset{xs[j - 1]} == multiset(xs[j..])
  {
    assert xs[j - 1..] == [xs[j - 1]] + xs[j..];
  }

  lemma RoundKeeps(steps: seq<PlanStep>, c: Counting, done: seq<int>)
    requires UniqueIds(steps) && Linked(DependentsGraph(steps), c) && c.queue != []
    requires SortInv(DepGraph(steps), c.inDegree, done, c.queue, multiset{})
    ensures var r := NextRound(DependentsGraph(steps), c);
            SortInv(DepGraph(steps), r.inDegree, done + [c.queue[0]], r.queue, multiset{})
  {
    hide SortInv, StepOf, Dependents, NextRound, Linked;
    var xs := Dependents(steps, c.queue[0]);
    FrontKnown(DependentsGraph(steps), c);
    RoundStarts(steps, c.inDegree, done, c.queue);
    ReleasedInv(DepGraph(steps), done + [c.queue[0]], Counting(c.inDegree, c.queue[1..]), xs, |xs|);
    assert xs[..|xs|] == xs && xs[|xs|..] == [];
  }

  lemma {:induction false} KahnEnds(steps: seq<PlanStep>, c: Counting, done: seq<int>) returns (inDegree: map<int, int>)
    requires UniqueIds(steps) && Linked(DependentsGraph(steps), c)
    requires SortInv(DepGraph(steps), c.inDegree, done, c.queue, multiset{})
    ensures SortInv(DepGraph(steps), inDegree, done + Kahn(DependentsGraph(steps), c), [], multiset{})
    decreases RoundsLeft(c)
  {
    hide SortInv, Linked, DependentsGraph, DepGraph;
    var graph := DependentsGraph(steps);
    if c.queue == [] {
      inDegree := c.inDegree;
      assert done + Kahn(graph, c) == done;
    } else {
      RoundKeeps(steps, c, done);
      inDegree := KahnEnds(steps, NextRound(graph, c), done + [c.queue[0]]);
      Regroup(done, [c.queue[0]], Kahn(graph, NextRound(graph, c)));
    }
  }

  /** With unique ids: every step after all its dependencies and no step before an earlier wave; exactly the
      steps that reach no cycle and no unknown id. */
  lemma TopologicalOrder(steps: seq<PlanStep>)
    requires UniqueIds(steps)
    ensures Sorted(steps, Topological(steps))
    ensures |Topological(steps)| != |steps| <==> !(Acyclic(DepGraph(steps)) && Closed(DepGraph(steps)))
  {
    hide SortInv, StepOf, LastOf, Kahn, DependentsGraph, Ordered, InWaveOrder, Sortable, Acyclic, Closed;
    InitiallyLinked(steps);
    SortStarts(steps);
    var order := TopologicalIds(steps);
    var inDegree := KahnEnds(steps, Initially(steps), []);
    assert [] + order == order;
    SortEnds(DepGraph(steps), inDegree, order);
    ResultMembers(steps, Topological(steps));
    ResultSize(steps, Topological(steps));
  }

  /** For every plan: the warning is logged exactly if ids repeat, or a dependency is circular or unknown. */
  lemma CircularExactly(steps: seq<PlanStep>)
    ensures |Topological(steps)| != |steps| <==>
      !(UniqueIds(steps) && Acyclic(DepGraph(steps)) && Closed(DepGraph(steps)))
  {
    hide Topological, Acyclic, Closed, DepGraph;
    if UniqueIds(steps) {
      TopologicalOrder(steps);
    } else {
      SortedOnce(steps);
      FewerIds(steps, TopologicalIds(steps));
      TopologicalLength(steps);
    }
  }

  lemma TopologicalLength(steps: seq<PlanStep>)
    ensures |Topological(steps)| == |TopologicalIds(steps)|
  {
  }

  lemma FewerIds(steps: seq<PlanStep>, ids: seq<int>)
    requires !UniqueIds(steps) && NoDup(ids) && forall id :: id in ids ==> id in IdsOf(steps)
    ensures |ids| < |steps|
  {
    var i, j :| 0 <= i < j < |steps| && steps[i].id == steps[j].id;
    var rest := steps[..j] + steps[j + 1..];
    forall id | id in ids ensures id in Elements(IdsOf(rest)) {
      var k :| 0 <= k < |steps| && steps[k].id == id;
      var k' := if k < j then k else if k == j then i else k - 1;
      assert rest[k'].id == id;
      assert IdsOf(rest)[k'] == id;
    }
    NoDupBound(ids, Elements(IdsOf(rest)));
    ElementsBound(IdsOf(rest));
  }

  lemma {:induction false} ElementsBound(s: seq<int>)
    ensures |Elements(s)| <= |s|
  {
    if s != [] {
      ElementsBound(s[..|s| - 1]);
      assert Elements(s) == Elements(s[..|s| - 1]) + {s[|s| - 1]};
    }
  }

  /** What one more step adds to the dictionaries of the sort. */
  lemma OneMoreStep(steps: seq<PlanStep>, s: PlanStep, d: int)
    ensures Dependents(steps + [s], d) == Dependents(steps, d) + Copies(s.dependsOn, d, s.id)
    ensures KeyOrder(steps + [s]) == KeyOrder(steps) + (if s.id in IdsOf(steps) then [] else [s.id])
    ensures d in IdsOf(steps + [s]) <==> d in IdsOf(steps) || d == s.id
    ensures d in IdsOf(steps + [s]) ==> LastOf(steps + [s], d) == if d == s.id then s else LastOf(steps, d)
  {
    assert (steps + [s])[..|steps|] == steps;
    IdsInInit(steps + [s], d);
  }

  lemma CopiesOfOne(dep: int, d: int, id: int)
    ensures Copies([dep], d, id) == if dep == d then [id] else []
  {
    assert [dep][..0] == [];
  }

  lemma RepeatedIdSteps(a: PlanStep, b: PlanStep, c: PlanStep, d: int)
    requires a.id == 2 && b.id == c.id == 1
    ensures d in IdsOf([a, b, c]) <==> d == 2 || d == 1
    ensures d in IdsOf([a, b, c]) ==> LastOf([a, b, c], d) == if d == 2 then a else c
  {
    hide LastOf, Dependents, KeyOrder;
    assert IdsOf([a, b, c]) == [2, 1, 1] && IdsOf([a, b]) == [2, 1] && IdsOf([a]) == [2];
    assert [a, b, c] == [a, b] + [c] && [a, b] == [a] + [b] && [a] == [] + [a];
    OneMoreStep([a, b], c, d);
    OneMoreStep([a], b, d);
    OneMoreStep([], a, d);
  }

  lemma RepeatedIdKeys(a: PlanStep, b: PlanStep, c: PlanStep, d: int)
    requires a.id == 2 && a.dependsOn == [] && b.id == 1 && b.dependsOn == [2] && c.id == 1 && c.dependsOn == [3]
    ensures Dependents([a, b, c], d) == if d == 2 || d == 3 then [1] else []
    ensures KeyOrder([a, b, c]) == [2, 1]
  {
    hide LastOf, Dependents, KeyOrder, Copies, IdsOf;
    assert IdsOf([a, b]) == [2, 1] && IdsOf([a]) == [2];
    assert [a, b, c] == [a, b] + [c] && [a, b] == [a] + [b] && [a] == [] + [a];
    OneMoreStep([a, b], c, d);
    OneMoreStep([a], b, d);
    OneMoreStep([], a, d);
    CopiesOfOne(2, d, 1);
    CopiesOfOne(3, d, 1);
    NoSteps(d, a.id);
  }

  lemma NoSteps(d: int, id: int)
    ensures Dependents([], d) == [] && KeyOrder([]) == [] && IdsOf([]) == [] && Copies([], d, id) == []
  {
  }

  lemma RepeatedIdCounts(a: PlanStep, b: PlanStep, c: PlanStep)
    requires a.id == 2 && a.dependsOn == [] && b.id == 1 && b.dependsOn == [2] && c.id == 1 && c.dependsOn == [3]
    ensures Initially([a, b, c]) == Counting(map[2 := 0, 1 := 1], [2])
  {
    hide Dependents, LastOf, KeyOrder, WithoutDemand, IdsOf;
    var steps := [a, b, c];
    forall d ensures d in IdsOf(steps) <==> d == 2 || d == 1
             ensures d in IdsOf(steps) ==> LastOf(steps, d) == if d == 2 then a else c {
      RepeatedIdSteps(a, b, c, d);
    }
    RepeatedIdKeys(a, b, c, 1);
    assert InDegrees(steps) == map[2 := 0, 1 := 1];
    OneWithoutDemand();
  }

  lemma OneWithoutDemand()
    ensures WithoutDemand([2, 1], map[2 := 0, 1 := 1]) == [2]
  {
    assert [2, 1][..1] == [2] && [2][..0] == [];
  }

  lemma RepeatedIdGraph(a: PlanStep, b: PlanStep, c: PlanStep)
    requires a.id == 2 && a.dependsOn == [] && b.id == 1 && b.dependsOn == [2] && c.id == 1 && c.dependsOn == [3]
    ensures DependentsGraph([a, b, c]) == map[2 := [1], 1 := []]
  {
    hide Dependents, KeyOrder;
    assert IdsOf([a, b, c]) == [2, 1, 1];
    RepeatedIdKeys(a, b, c, 1);
    RepeatedIdKeys(a, b, c, 2);
  }

  lemma OneDecrement(c: Counting, x: int)
    requires x in c.inDegree
    ensures DecrementedAll(c, [x]) == Decremented(c, x)
  {
    assert [x][..0] == [];
  }

  lemma RepeatedIdRounds(graph: map<int, seq<int>>, c: Counting)
    requires graph == map[2 := [1], 1 := []] && c == Counting(map[2 := 0, 1 := 1], [2]) && Linked(graph, c)
    ensures Kahn(graph, c) == [2, 1]
  {
    hide Linked, DecrementedAll, NextRound, RoundsLeft;
    FrontKnown(graph, c);
    assert c.queue[1..] == [];
    OneDecrement(Counting(c.inDegree, []), 1);
    var c1 := NextRound(graph, c);
    assert c1 == Counting(map[2 := 0, 1 := 0], [1]);
    FrontKnown(graph, c1);
    assert c1.queue[1..] == [];
    NothingDecremented(Counting(c1.inDegree, []));
    assert NextRound(graph, c1).queue == [];
    assert Kahn(graph, c1) == [1] + [];
  }

  /** With a repeated id the order can be wrong: the second step 1 waits for the unknown step 3, and is returned. */
  lemma RepeatedIdBreaksOrder(a: PlanStep, b: PlanStep, c: PlanStep)
    requires a.id == 2 && a.dependsOn == [] && b.id == 1 && b.dependsOn == [2] && c.id == 1 && c.dependsOn == [3]
    ensures Topological([a, b, c]) == [a, c]
  {
    hide LastOf, Initially, DependentsGraph, Kahn, Linked;
    RepeatedIdCounts(a, b, c);
    RepeatedIdGraph(a, b, c);
    RepeatedIdSteps(a, b, c, 1);
    RepeatedIdSteps(a, b, c, 2);
    InitiallyLinked([a, b, c]);
    RepeatedIdRounds(DependentsGraph([a, b, c]), Initially([a, b, c]));
    assert TopologicalIds([a, b, c]) == [2, 1];
  }

  // ---- get_parallel_groups ----

  predicate ReadyNow(step: PlanStep, completed: set<int>) {
    forall d :: d in step.dependsOn ==> d in completed
  }

  function ReadyOf(steps: seq<PlanStep>, completed: set<int>): seq<PlanStep> {
    if steps == [] then []
    else
      var n := |steps| - 1;
      ReadyOf(steps[..n], completed) + (if ReadyNow(steps[n], completed) then [steps[n]] else [])
  }

  function NotReadyOf(steps: seq<PlanStep>, completed: set<int>): seq<PlanStep> {
    if steps == [] then []
    else
      var n := |steps| - 1;
      NotReadyOf(steps[..n], completed) + (if ReadyNow(steps[n], completed) then [] else [steps[n]])
  }

  method Split(steps: seq<PlanStep>, completed: set<int>) returns (ready: seq<PlanStep>, notReady: seq<PlanStep>)
    ensures ready == ReadyOf(steps, completed) && notReady == NotReadyOf(steps, completed)
  {
    ready, notReady := [], [];
    for i := 0 to |steps|
      invariant ready == ReadyOf(steps[..i], completed)
      invariant notReady == NotReadyOf(steps[..i], completed)
    {
      assert steps[..i + 1][..i] == steps[..i];
      if forall dep | dep in steps[i].dependsOn :: dep in completed {
        ready := ready + [steps[i]];
      } else {
        notReady := notReady + [steps[i]];
      }
    }
    assert steps[..|steps|] == steps;
  }

  function Flatten(groups: seq<seq<PlanStep>>): seq<PlanStep> {
    if groups == [] then [] else Flatten(groups[..|groups| - 1]) + groups[|groups| - 1]
  }

  lemma {:induction false} ReadyMembers(steps: seq<PlanStep>, completed: set<int>)
    ensures forall s :: s in ReadyOf(steps, completed) <==> s in steps && ReadyNow(s, completed)
    ensures forall s :: s in NotReadyOf(steps, completed) <==> s in steps && !ReadyNow(s, completed)
  {
    hide ReadyNow;
    if steps != [] {
      var n := |steps| - 1;
      ReadyMembers(steps[..n], completed);
      assert steps == steps[..n] + [steps[n]];
    }
  }

  /** If no step is ready before an earlier one, the ready steps are a prefix. */
  lemma {:induction false} ReadyPrefix(steps: seq<PlanStep>, completed: set<int>)
    requires forall i, j :: 0 <= i < j < |steps| && ReadyNow(steps[j], completed) ==> ReadyNow(steps[i], completed)
    ensures ReadyOf(steps, completed) + NotReadyOf(steps, completed) == steps
  {
    hide ReadyNow;
    if steps != [] {
      var n := |steps| - 1;
      var init := steps[..n];
      ReadyPrefix(init, completed);
      assert steps == init + [steps[n]];
      if ReadyNow(steps[n], completed) {
        assert NotReadyOf(init, completed) == [] by {
          ReadyMembers(init, completed);
          EmptyOrMember(NotReadyOf(init, completed));
        }
      }
    }
  }

  /** What holds between two waves: `k` waves are out, and exactly their steps are completed. */
  ghost predicate GroupInv(steps: seq<PlanStep>, sorted: seq<PlanStep>, done: seq<PlanStep>, remaining: seq<PlanStep>,
                           completed: set<int>, k: nat) {
    var g := DepGraph(steps);
    && sorted == done + remaining
    && completed == Within(g, k)
    && (forall s :: s in done ==> s.id in completed)
    && (forall s :: s in remaining ==> s.id !in completed)
  }

  ghost predicate Sorted(steps: seq<PlanStep>, sorted: seq<PlanStep>) {
    var g := DepGraph(steps);
    && UniqueIds(steps)
    && Ordered(g, IdsOf(sorted))
    && InWaveOrder(g, IdsOf(sorted))
    && (forall s :: s in sorted <==> s in steps && Sortable(g, s.id))
  }

  lemma StepDeps(steps: seq<PlanStep>, s: PlanStep)
    requires UniqueIds(steps) && s in steps
    ensures s.id in DepGraph(steps) && DepGraph(steps)[s.id] == s.dependsOn
  {
    StepOfUnique(steps, s);
  }

  lemma ReadyIsWithin(steps: seq<PlanStep>, s: PlanStep, k: nat)
    requires UniqueIds(steps) && s in steps
    ensures ReadyNow(s, Within(DepGraph(steps), k)) <==> s.id in Within(DepGraph(steps), k + 1)
  {
    StepDeps(steps, s);
    WithinStep(DepGraph(steps), s.id, k);
  }

  lemma EarlierReady(steps: seq<PlanStep>, sorted: seq<PlanStep>, i: nat, j: nat, k: nat)
    requires Sorted(steps, sorted) && i < j < |sorted|
    ensures ReadyNow(sorted[j], Within(DepGraph(steps), k)) ==> ReadyNow(sorted[i], Within(DepGraph(steps), k))
  {
    hide Sortable, Within, StepOf, ReadyNow, Ordered;
    assert sorted[i] in sorted && sorted[j] in sorted;
    ReadyIsWithin(steps, sorted[i], k);
    ReadyIsWithin(steps, sorted[j], k);
    assert NoLater(DepGraph(steps), IdsOf(sorted)[i], IdsOf(sorted)[j]);
  }

  lemma ReadyInOrder(steps: seq<PlanStep>, sorted: seq<PlanStep>, done: seq<PlanStep>, remaining: seq<PlanStep>,
                     completed: set<int>, k: nat)
    requires Sorted(steps, sorted) && GroupInv(steps, sorted, done, remaining, completed, k)
    ensures ReadyOf(remaining, completed) + NotReadyOf(remaining, completed) == remaining
  {
    hide Sorted, Within, ReadyOf, NotReadyOf, ReadyNow, DepGraph;
    forall i, j | 0 <= i < j < |remaining| && ReadyNow(remaining[j], completed)
      ensures ReadyNow(remaining[i], completed)
    {
      EarlierReady(steps, sorted, |done| + i, |done| + j, k);
    }
    ReadyPrefix(remaining, completed);
  }

  lemma OneWave(steps: seq<PlanStep>, sorted: seq<PlanStep>, done: seq<PlanStep>, remaining: seq<PlanStep>,
                completed: set<int>, k: nat)
    requires Sorted(steps, sorted) && GroupInv(steps, sorted, done, remaining, completed, k)
    requires remaining != []
    ensures var ready, notReady := ReadyOf(remaining, completed), NotReadyOf(remaining, completed);
            && ready != []
            && (forall s :: s in ready ==> s in steps && InWave(DepGraph(steps), s.id, k))
            && GroupInv(steps, sorted, done + ready, notReady, completed + IdSet(ready), k + 1)
  {
    hide Sortable, Within, StepOf, ReadyOf, NotReadyOf, ReadyNow, IdSet;
    var ready, notReady := ReadyOf(remaining, completed), NotReadyOf(remaining, completed);
    ReadyMembers(remaining, completed);
    FirstIsReady(steps, sorted, done, remaining, completed);
    assert remaining[0] in ready;
    ReadyInOrder(steps, sorted, done, remaining, completed, k);
    assert done + ready + notReady == done + remaining;
    WaveComplete(steps, sorted, done, remaining, ready, completed, k);
    forall s | s in remaining
      ensures s in steps && (ReadyNow(s, completed) <==> s.id in Within(DepGraph(steps), k + 1))
    {
      assert s in sorted;
      ReadyIsWithin(steps, s, k);
    }
    WithinMonotone(DepGraph(steps), k, k + 1);
  }

  lemma FirstIsReady(steps: seq<PlanStep>, sorted: seq<PlanStep>, done: seq<PlanStep>, remaining: seq<PlanStep>, completed: set<int>)
    requires Sorted(steps, sorted) && sorted == done + remaining && remaining != []
    requires forall s :: s in done ==> s.id in completed
    ensures ReadyNow(remaining[0], completed)
  {
    hide Sortable, InWaveOrder, StepOf;
    var order, n := IdsOf(sorted), |done|;
    assert sorted[n] == remaining[0] && sorted[n] in sorted;
    StepDeps(steps, sorted[n]);
    forall d | d in sorted[n].dependsOn ensures d in completed {
      assert d in order[..n];
      var i :| 0 <= i < n && order[i] == d;
      assert sorted[i] in done;
    }
  }

  lemma WaveComplete(steps: seq<PlanStep>, sorted: seq<PlanStep>, done: seq<PlanStep>, remaining: seq<PlanStep>,
                     ready: seq<PlanStep>, completed: set<int>, k: nat)
    requires Sorted(steps, sorted) && GroupInv(steps, sorted, done, remaining, completed, k)
    requires forall s :: s in ready <==> s in remaining && ReadyNow(s, completed)
    ensures completed + IdSet(ready) == Within(DepGraph(steps), k + 1)
  {
    hide Sortable, Within, StepOf;
    var g := DepGraph(steps);
    WithinMonotone(g, k, k + 1);
    forall id | id in Within(g, k + 1) ensures id in completed + IdSet(ready) {
      WithinIsSortable(g, k + 1, id);
      var s := StepOf(steps, id);
      assert s in sorted;
      ReadyIsWithin(steps, s, k);
      if s in remaining {
        var i :| 0 <= i < |ready| && ready[i] == s;
        assert IdsOf(ready)[i] == id;
      }
    }
    forall id | id in IdSet(ready) ensures id in Within(g, k + 1) {
      var i :| 0 <= i < |ready| && IdsOf(ready)[i] == id;
      assert ready[i] in remaining && ready[i] in sorted;
      ReadyIsWithin(steps, ready[i], k);
    }
  }

  /** The grouping of `remaining` when `completed` is done; steps that never get ready form a last group. */
  function GroupsFrom(remaining: seq<PlanStep>, completed: set<int>): seq<seq<PlanStep>>
    decreases |remaining|
  {
    if remaining == [] then []
    else
      var ready, notReady := ReadyOf(remaining, completed), NotReadyOf(remaining, completed);
      SplitSize(remaining, completed);
      if ready == [] then [remaining] else [ready] + GroupsFrom(notReady, completed + IdSet(ready))
  }

  lemma {:induction false} SplitSize(steps: seq<PlanStep>, completed: set<int>)
    ensures |ReadyOf(steps, completed)| + |NotReadyOf(steps, completed)| == |steps|
  {
    hide ReadyNow;
    if steps != [] {
      SplitSize(steps[..|steps| - 1], completed);
    }
  }

  lemma {:induction false} SplitConserves(steps: seq<PlanStep>, completed: set<int>)
    ensures multiset(ReadyOf(steps, completed) + NotReadyOf(steps, completed)) == multiset(steps)
  {
    hide ReadyNow;
    if steps != [] {
      var init, last := steps[..|steps| - 1], steps[|steps| - 1];
      var r, n := ReadyOf(init, completed), NotReadyOf(init, completed);
      SplitConserves(init, completed);
      assert steps == init + [last];
      if ReadyNow(last, completed) {
        assert multiset(r + [last] + n) == multiset(r + n) + multiset([last]);
      } else {
        Regroup(r, n, [last]);
      }
    }
  }

  function ParallelGroups(steps: seq<PlanStep>): seq<seq<PlanStep>> {
    GroupsFrom(Topological(steps), {})
  }

  method GetParallelGroups(steps: seq<PlanStep>) returns (groups: seq<seq<PlanStep>>)
    ensures groups == ParallelGroups(steps)
  {
    hide ReadyOf, NotReadyOf, IdSet, Topological;
    var sortedSteps, _ := TopologicalSort(steps);
    var completed: set<int> := {};
    groups := [];
    var remaining := sortedSteps;
    while remaining != []
      invariant ParallelGroups(steps) == groups + GroupsFrom(remaining, completed)
      decreases |remaining|
    {
      var ready, notReady := Split(remaining, completed);
      SplitSize(remaining, completed);
      if ready != [] {
        Regroup(groups, [ready], GroupsFrom(notReady, completed + IdSet(ready)));
        groups := groups + [ready];
        completed := completed + IdSet(ready);
      }
      if ready == [] && notReady != [] {
        NoneReady(remaining, completed);
        groups := groups + [notReady];
        return;
      }
      remaining := notReady;
    }
    assert groups + [] == groups;
  }

  lemma {:induction false} NoneReady(steps: seq<PlanStep>, completed: set<int>)
    ensures ReadyOf(steps, completed) == [] ==> NotReadyOf(steps, completed) == steps
  {
    hide ReadyNow;
    if steps != [] {
      NoneReady(steps[..|steps| - 1], completed);
      assert steps == steps[..|steps| - 1] + [steps[|steps| - 1]];
    }
  }

  lemma FlattenCons(head: seq<PlanStep>, tail: seq<seq<PlanStep>>)
    ensures Flatten([head] + tail) == head + Flatten(tail)
  {
    var all := [head] + tail;
    if tail == [] {
      assert all[..0] == [] && head + [] == head == [] + head;
    } else {
      var n := |tail| - 1;
      assert all[..n + 1] == [head] + tail[..n];
      FlattenCons(head, tail[..n]);
      Regroup(head, Flatten(tail[..n]), tail[n]);
    }
  }

  lemma {:induction false} GroupsConserve(remaining: seq<PlanStep>, completed: set<int>)
    ensures multiset(Flatten(GroupsFrom(remaining, completed))) == multiset(remaining)
    decreases |remaining|
  {
    hide ReadyOf, NotReadyOf, IdSet, Flatten;
    if remaining != [] {
      var ready, notReady := ReadyOf(remaining, completed), NotReadyOf(remaining, completed);
      SplitSize(remaining, completed);
      SplitConserves(remaining, completed);
      if ready == [] {
        FlattenCons(remaining, []);
        FlattenNothing();
        assert [remaining] + [] == [remaining] && remaining + [] == remaining;
      } else {
        var later := GroupsFrom(notReady, completed + IdSet(ready));
        GroupsConserve(notReady, completed + IdSet(ready));
        FlattenCons(ready, later);
        assert multiset(ready + Flatten(later)) == multiset(ready) + multiset(notReady) == multiset(ready + notReady);
      }
    } else {
      FlattenNothing();
    }
  }

  lemma FlattenNothing()
    ensures Flatten([]) == []
  {
  }

  /** For every plan the groups hold exactly the sorted steps, each as often as it was sorted. */
  lemma GroupsHoldSorted(steps: seq<PlanStep>)
    ensures multiset(Flatten(ParallelGroups(steps))) == multiset(Topological(steps))
  {
    GroupsConserve(Topological(steps), {});
  }

  /** From wave `k` on, the groups are the waves and their concatenation is what was left of the order. */
  lemma {:induction false} WavesFrom(steps: seq<PlanStep>, sorted: seq<PlanStep>, done: seq<PlanStep>, remaining: seq<PlanStep>,
                                     completed: set<int>, k: nat)
    requires Sorted(steps, sorted) && GroupInv(steps, sorted, done, remaining, completed, k)
    ensures var groups := GroupsFrom(remaining, completed);
            && Flatten(groups) == remaining
            && forall w :: 0 <= w < |groups| ==>
                 groups[w] != [] && forall s :: s in groups[w] ==> s in steps && InWave(DepGraph(steps), s.id, k + w)
    decreases |remaining|
  {
    hide Sorted, GroupInv, InWave, DepGraph, ReadyOf, NotReadyOf, IdSet;
    if remaining != [] {
      var ready, notReady := ReadyOf(remaining, completed), NotReadyOf(remaining, completed);
      OneWave(steps, sorted, done, remaining, completed, k);
      ReadyInOrder(steps, sorted, done, remaining, completed, k);
      SplitSize(remaining, completed);
      var later := GroupsFrom(notReady, completed + IdSet(ready));
      WavesFrom(steps, sorted, done + ready, notReady, completed + IdSet(ready), k + 1);
      FlattenCons(ready, later);
      forall w | 0 <= w < |later| + 1
        ensures var g := ([ready] + later)[w];
                g != [] && forall s :: s in g ==> s in steps && InWave(DepGraph(steps), s.id, k + w) {
        if w > 0 {
          assert ([ready] + later)[w] == later[w - 1] && k + 1 + (w - 1) == k + w;
        }
      }
    }
  }

  /** With unique ids the groups are the waves, and their concatenation is the topological order itself. */
  lemma GroupsAreWaves(steps: seq<PlanStep>)
    requires UniqueIds(steps)
    ensures var groups := ParallelGroups(steps);
            && Flatten(groups) == Topological(steps)
            && (forall s :: s in Flatten(groups) <==> s in steps && Sortable(DepGraph(steps), s.id))
            && forall w :: 0 <= w < |groups| ==>
                 groups[w] != [] && forall s :: s in groups[w] ==> s in steps && InWave(DepGraph(steps), s.id, w)
  {
    hide Topological, InWave, Sortable, DepGraph, Ordered, InWaveOrder, GroupsFrom;
    var sorted := Topological(steps);
    TopologicalOrder(steps);
    WithinNone(DepGraph(steps));
    assert [] + sorted == sorted;
    WavesFrom(steps, sorted, [], sorted, {}, 0);
  }

  lemma WithinNone(g: Graph)
    ensures Within(g, 0) == {}
  {
  }

  /** Every step of a non-empty last wave forces that many waves on any assignment that respects the dependencies. */
  lemma WaveNeedsLevels(g: Graph, level: map<int, nat>, waves: nat, id: int, w: nat)
    requires id in level && InWave(g, id, w)
    requires forall x :: x in level ==> level[x] < waves && x in g && forall d :: d in g[x] ==> d in level && level[d] < level[x]
    ensures w < waves
  {
    hide Within;
    WavesAreMinimal(g, level, id);
    if level[id] < w {
      WithinMonotone(g, level[id] + 1, w);
    }
  }

  /** No assignment of the sorted steps to waves that respects the dependencies needs fewer waves. */
  lemma NoFewerWaves(steps: seq<PlanStep>, level: map<int, nat>, waves: nat)
    requires UniqueIds(steps)
    requires forall s :: s in Topological(steps) ==> s.id in level
    requires forall x :: x in level ==>
      level[x] < waves && x in DepGraph(steps) && forall d :: d in DepGraph(steps)[x] ==> d in level && level[d] < level[x]
    ensures |ParallelGroups(steps)| <= waves
  {
    hide Topological, ParallelGroups, DepGraph, InWave, Sortable;
    var groups := ParallelGroups(steps);
    GroupsAreWaves(steps);
    if groups != [] {
      var w := |groups| - 1;
      var s := groups[w][0];
      assert s in groups[w];
      InFlatten(groups, w, s);
      WaveNeedsLevels(DepGraph(steps), level, waves, s.id, w);
    }
  }

  lemma {:induction false} InFlatten(groups: seq<seq<PlanStep>>, w: nat, s: PlanStep)
    requires w < |groups| && s in groups[w]
    ensures s in Flatten(groups)
  {
    var n := |groups| - 1;
    if w < n {
      InFlatten(groups[..n], w, s);
    }
  }
}
