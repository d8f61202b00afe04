/** Dependency graphs of plans: what can be scheduled at all, and in which wave. */
module PlanGraph {

  /** Step id -> the ids it depends on, repetitions included. */
  type Graph = map<int, seq<int>>

  function Elements(s: seq<int>): set<int> {
    set x | x in s
  }

  predicate NoDup(s: seq<int>) {
    forall i, j :: 0 <= i < j < |s| ==> s[i] != s[j]
  }

  ghost predicate IsPath(g: Graph, p: seq<int>) {
    && p != []
    && forall i :: 0 <= i < |p| - 1 ==> p[i] in g && p[i + 1] in g[p[i]]
  }

  ghost predicate ReachesCycle(g: Graph, id: int) {
    exists p, i, j :: IsPath(g, p) && p[0] == id && 0 <= i < j < |p| && p[i] == p[j]
  }

  ghost predicate ReachesDangling(g: Graph, id: int) {
    exists p :: IsPath(g, p) && p[0] == id && p[|p| - 1] !in g
  }

  /** No path of dependencies from `id` runs into a cycle or out of the plan. */
  ghost predicate Sortable(g: Graph, id: int) {
    !ReachesCycle(g, id) && !ReachesDangling(g, id)
  }

  predicate DepsIn(g: Graph, id: int, done: set<int>)
    requires id in g
  {
    forall d :: d in g[id] ==> d in done
  }

  lemma DependencyIn(g: Graph, id: int, done: set<int>, d: int)
    requires id in g && DepsIn(g, id, done) && d in g[id]
    ensures d in done
  {
  }

  /** The steps that can be done within the first `k` waves. */
  function Within(g: Graph, k: nat): set<int> {
    if k == 0 then {} else set id | id in g && DepsIn(g, id, Within(g, k - 1))
  }

  /** `id` belongs to wave `w`, counted from 0. */
  predicate InWave(g: Graph, id: int, w: nat) {
    id in Within(g, w + 1) && id !in Within(g, w)
  }

  /** The wave of every step of `a` is at most the wave of `b`. */
  ghost predicate NoLater(g: Graph, a: int, b: int) {
    forall k: nat :: b in Within(g, k) ==> a in Within(g, k)
  }

  lemma {:induction false} WithinMonotone(g: Graph, k: nat, m: nat)
    requires k <= m
    ensures Within(g, k) <= Within(g, m)
    decreases m
  {
    if 0 < k {
      WithinMonotone(g, k - 1, m - 1);
    }
  }

  lemma WithinStep(g: Graph, id: int, k: nat)
    requires id in g
    ensures id in Within(g, k + 1) <==> DepsIn(g, id, Within(g, k))
  {
  }

  /** A wave is 0 without dependencies, and otherwise one more than the latest wave among them. */
  lemma WaveOfDependencies(g: Graph, id: int, w: nat)
    requires id in g
    ensures InWave(g, id, w) <==>
      if w == 0 then g[id] == []
      else && DepsIn(g, id, Within(g, w))
           && exists d :: d in g[id] && InWave(g, d, w - 1)
  {
    WithinStep(g, id, w);
    if w == 0 {
      assert Within(g, w) == {};
      if g[id] != [] {
        var d := g[id][0];
        assert d in g[id] && d !in Within(g, w);
      }
    } else {
      WithinMonotone(g, w - 1, w);
      WithinStep(g, id, w - 1);
      assert InWave(g, id, w) <==> DepsIn(g, id, Within(g, w)) && !DepsIn(g, id, Within(g, w - 1));
      if DepsIn(g, id, Within(g, w)) && !DepsIn(g, id, Within(g, w - 1)) {
        var d :| d in g[id] && d !in Within(g, w - 1);
        assert InWave(g, d, w - 1);
      }
      assert (exists d :: d in g[id] && InWave(g, d, w - 1)) ==> !DepsIn(g, id, Within(g, w - 1));
    }
  }

  /** Any assignment of waves in which a step comes after its dependencies is at least as late everywhere. */
  lemma {:induction false} WavesAreMinimal(g: Graph, level: map<int, nat>, id: int)
    requires forall x :: x in level ==>
      x in g && forall d :: d in g[x] ==> d in level && level[d] < level[x]
    requires id in level
    ensures id in Within(g, level[id] + 1)
    decreases level[id]
  {
    forall d | d in g[id] ensures d in Within(g, level[id]) {
      WavesAreMinimal(g, level, d);
      WithinMonotone(g, level[d] + 1, level[id]);
    }
  }

  // ---- What a topological order contains ----

  /** `order` lists steps of the plan once each, every step after all its dependencies. */
  ghost predicate Ordered(g: Graph, order: seq<int>) {
    && NoDup(order)
    && forall i :: 0 <= i < |order| ==> order[i] in g && forall d :: d in g[order[i]] ==> d in order[..i]
  }

  /** Every step left out still waits for a dependency that is left out as well. */
  ghost predicate Stuck(g: Graph, done: set<int>) {
    forall id :: id in g && id !in done ==> exists d :: d in g[id] && d !in done
  }

  lemma EdgeOnPath(g: Graph, p: seq<int>, i: nat)
    requires IsPath(g, p) && i + 1 < |p|
    ensures p[i] in g && p[i + 1] in g[p[i]]
  {
  }

  lemma {:induction false} PathDescends(g: Graph, order: seq<int>, i: nat, p: seq<int>, k: nat)
    requires Ordered(g, order) && i < |order|
    requires IsPath(g, p) && p[0] == order[i] && 0 < k < |p|
    ensures p[k] in order[..i]
    decreases k
  {
    EdgeOnPath(g, p, 0);
    assert forall d :: d in g[order[i]] ==> d in order[..i];
    assert p[1] in order[..i];
    var j :| 0 <= j < i && order[j] == p[1];
    if k > 1 {
      var q := p[1..];
      assert IsPath(g, q);
      PathDescends(g, order, j, q, k - 1);
      assert order[..j] <= order[..i];
    }
  }

  lemma OrderedIsSortable(g: Graph, order: seq<int>, i: nat)
    requires Ordered(g, order) && i < |order|
    ensures Sortable(g, order[i])
  {
    forall p | IsPath(g, p) && p[0] == order[i] ensures p[|p| - 1] in g {
      if |p| > 1 {
        PathDescends(g, order, i, p, |p| - 1);
      }
    }
    forall p, a, b | IsPath(g, p) && p[0] == order[i] && 0 <= a < b < |p| ensures p[a] != p[b] {
      PathDoesNotRepeat(g, order, i, p, a, b);
    }
  }

  lemma PathDoesNotRepeat(g: Graph, order: seq<int>, i: nat, p: seq<int>, a: nat, b: nat)
    requires Ordered(g, order) && i < |order|
    requires IsPath(g, p) && p[0] == order[i] && a < b < |p|
    ensures p[a] != p[b]
  {
    if a > 0 {
      PathDescends(g, order, i, p, a);
    }
    assert p[a] in order;
    var j :| 0 <= j < |order| && order[j] == p[a];
    var q := p[a..];
    assert IsPath(g, q);
    PathDescends(g, order, j, q, b - a);
  }

  lemma {:induction false} NoDupBound(s: seq<int>, inside: set<int>)
    requires NoDup(s) && forall x :: x in s ==> x in inside
    ensures |s| <= |inside|
  {
    if s != [] {
      var rest := s[1..];
      assert forall x :: x in rest ==> x in s;
      assert s[0] in s && s[0] !in rest;
      NoDupBound(rest, inside - {s[0]});
    }
  }

  lemma {:induction false} NoDupCard(s: seq<int>)
    requires NoDup(s)
    ensures |Elements(s)| == |s|
  {
    if s != [] {
      var rest := s[1..];
      NoDupCard(rest);
      assert Elements(s) == Elements(rest) + {s[0]};
      assert s[0] !in rest;
    }
  }

  /** Walking from a stuck step through stuck dependencies runs into a cycle or out of the plan. */
  lemma {:induction false} StuckWalk(g: Graph, done: set<int>, p: seq<int>)
    requires Stuck(g, done) && IsPath(g, p) && NoDup(p)
    requires forall x :: x in p ==> x in g && x !in done
    ensures !Sortable(g, p[0])
    decreases |g| - |p|
  {
    NoDupBound(p, g.Keys);
    var last := p[|p| - 1];
    assert last in p;
    var d :| d in g[last] && d !in done;
    var q := p + [d];
    assert IsPath(g, q) && q[0] == p[0];
    if d !in g {
      assert q[|q| - 1] !in g;
    } else if d in p {
      var i :| 0 <= i < |p| && p[i] == d;
      assert q[i] == q[|p|];
    } else {
      NoDupBound(q, g.Keys);
      StuckWalk(g, done, q);
    }
  }

  /** A topological order that leaves only stuck steps out holds exactly the sortable steps. */
  lemma OrderIsExact(g: Graph, order: seq<int>, id: int)
    requires Ordered(g, order) && Stuck(g, Elements(order))
    requires id in g
    ensures id in order <==> Sortable(g, id)
  {
    if id in order {
      var i :| 0 <= i < |order| && order[i] == id;
      OrderedIsSortable(g, order, i);
    } else {
      StuckWalk(g, Elements(order), [id]);
    }
  }

  // ---- Waves reach every sortable step ----

  lemma {:induction false} WithinIsSortable(g: Graph, k: nat, id: int)
    requires id in Within(g, k)
    ensures id in g && Sortable(g, id)
    decreases k
  {
    forall p | IsPath(g, p) && p[0] == id ensures p[|p| - 1] in g {
      if |p| > 1 {
        SuffixIsPath(g, p);
        WithinIsSortable(g, k - 1, p[1]);
        assert p[1..][|p[1..]| - 1] == p[|p| - 1];
      }
    }
    forall p, a, b | IsPath(g, p) && p[0] == id && 0 <= a < b < |p| ensures p[a] != p[b] {
      WithinNoRepeat(g, k, p, a, b);
    }
  }

  lemma SuffixIsPath(g: Graph, p: seq<int>)
    requires IsPath(g, p) && |p| > 1
    ensures IsPath(g, p[1..])
  {
  }

  /** Along a path waves go down strictly. */
  lemma {:induction false} PathWaves(g: Graph, k: nat, p: seq<int>, b: nat)
    requires IsPath(g, p) && p[0] in Within(g, k) && b < |p|
    ensures b < k && p[b] in Within(g, k - b)
    decreases b
  {
    if b > 0 {
      PathWaves(g, k, p, b - 1);
      EdgeOnPath(g, p, b - 1);
      var rest := k - b;
      assert k - (b - 1) == rest + 1;
      WithinStep(g, p[b - 1], rest);
      DependencyIn(g, p[b - 1], Within(g, rest), p[b]);
    }
  }

  lemma WithinNoRepeat(g: Graph, k: nat, p: seq<int>, a: nat, b: nat)
    requires IsPath(g, p) && p[0] in Within(g, k) && a < b < |p|
    ensures p[a] != p[b]
  {
    PathWaves(g, k, p, a);
    if p[a] == p[b] {
      LoopNeverStarts(g, p[a..b + 1], k - a);
    }
  }

  /** A step on a cycle is in no wave. */
  lemma {:induction false} LoopNeverStarts(g: Graph, p: seq<int>, k: nat)
    requires IsPath(g, p) && |p| > 1 && p[0] == p[|p| - 1]
    ensures p[0] !in Within(g, k)
    decreases k
  {
    if p[0] in Within(g, k) {
      PathWaves(g, k, p, |p| - 1);
      LoopNeverStarts(g, p, k - (|p| - 1));
    }
  }

  // ---- Acyclic, closed plans ----

  ghost predicate Acyclic(g: Graph) {
    forall p :: IsPath(g, p) && |p| > 1 ==> p[0] != p[|p| - 1]
  }

  predicate Closed(g: Graph) {
    forall id :: id in g ==> DepsIn(g, id, g.Keys)
  }

  lemma {:induction false} ClosedPaths(g: Graph, p: seq<int>)
    requires Closed(g) && IsPath(g, p) && p[0] in g
    ensures p[|p| - 1] in g
  {
    if |p| > 1 {
      EdgeOnPath(g, p, 0);
      DependencyIn(g, p[0], g.Keys, p[1]);
      SuffixIsPath(g, p);
      ClosedPaths(g, p[1..]);
    }
  }

  lemma AllSortable(g: Graph)
    ensures Acyclic(g) && Closed(g) <==> forall id :: id in g ==> Sortable(g, id)
  {
    if Acyclic(g) && Closed(g) {
      forall id | id in g ensures Sortable(g, id) {
        forall p | IsPath(g, p) && p[0] == id ensures p[|p| - 1] in g {
          ClosedPaths(g, p);
        }
        forall p, i, j | IsPath(g, p) && 0 <= i < j < |p| ensures p[i] != p[j] {
          assert IsPath(g, p[i..j + 1]);
        }
      }
    }
    if forall id :: id in g ==> Sortable(g, id) {
      forall p | IsPath(g, p) && |p| > 1 ensures p[0] != p[|p| - 1] {
        EdgeOnPath(g, p, 0);
        assert Sortable(g, p[0]);
      }
      forall id, d | id in g && d in g[id] ensures d in g {
        assert IsPath(g, [id, d]) && [id, d][0] == id && [id, d][|[id, d]| - 1] == d;
        assert Sortable(g, id);
      }
    }
  }

  // ---- Sortable steps are those of some wave ----

  /** The waves stop growing. */
  lemma {:induction false} Saturation(g: Graph, k: nat) returns (m: nat)
    ensures k <= m && Within(g, m + 1) == Within(g, m)
    decreases |g| - |Within(g, k)|
  {
    WithinMonotone(g, k, k + 1);
    WithinInGraph(g, k);
    WithinInGraph(g, k + 1);
    if Within(g, k + 1) == Within(g, k) {
      m := k;
    } else {
      Grows(Within(g, k), Within(g, k + 1), g.Keys);
      m := Saturation(g, k + 1);
    }
  }

  lemma Grows(a: set<int>, b: set<int>, all: set<int>)
    requires a < b <= all
    ensures |a| < |b| <= |all|
  {
    assert b == a + (b - a) && all == b + (all - b);
  }

  lemma WithinInGraph(g: Graph, k: nat)
    ensures Within(g, k) <= g.Keys
  {
  }

  lemma SortableHasWave(g: Graph, id: int)
    ensures id in g && Sortable(g, id) <==> exists k: nat :: id in Within(g, k)
  {
    if k: nat :| id in Within(g, k) {
      WithinIsSortable(g, k, id);
    } else if id in g {
      var m := Saturation(g, 0);
      forall x | x in g && x !in Within(g, m) ensures exists d :: d in g[x] && d !in Within(g, m) {
        WithinStep(g, x, m);
      }
      assert IsPath(g, [id]) && NoDup([id]);
      StuckWalk(g, Within(g, m), [id]);
    }
  }
}
