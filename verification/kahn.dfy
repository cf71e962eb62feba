/**
 * Kahn's layered topological sort, as the three epoch builders use it.
 *
 * Nodes are 0..n-1; the dependency graph is a sequence of edges in the
 * order the builders generate them (it may repeat an edge or hold a
 * self-loop). `Waves` is the reference definition of the layering: wave k
 * holds every node not yet scheduled whose predecessors all lie in waves
 * 0..k-1. `Layer` is the queue-and-indegree loop of the program, proved
 * to compute exactly those waves.
 */
module Kahn {
  import opened Wrappers

  type Edge = (nat, nat)

  /** Every edge joins two of the nodes 0..n-1. */
  predicate ValidEdges(n: nat, edges: seq<Edge>) {
    forall k | 0 <= k < |edges| :: edges[k].0 < n && edges[k].1 < n
  }

  predicate IsNode(n: nat, v: nat) {
    v < n
  }

  /** The nodes 0..n-1. */
  function Nodes(n: nat): set<nat> {
    set v: nat | v < n && IsNode(n, v)
  }

  predicate Distinct(s: seq<nat>) {
    forall i, j | 0 <= i < j < |s| :: s[i] != s[j]
  }

  predicate AllDistinct(ws: seq<seq<nat>>) {
    forall k | 0 <= k < |ws| :: Distinct(ws[k])
  }

  lemma AllDistinctAppend(ws: seq<seq<nat>>, w: seq<nat>)
    requires AllDistinct(ws) && Distinct(w)
    ensures AllDistinct(ws + [w])
  {
    forall k | 0 <= k < |ws| + 1 ensures Distinct((ws + [w])[k]) {
      if k < |ws| {
        assert (ws + [w])[k] == ws[k];
      }
    }
  }

  function Elems(s: seq<nat>): set<nat> {
    set x | x in s
  }

  /** Sources of the edges that end at `v`. */
  function Preds(edges: seq<Edge>, v: nat): set<nat> {
    if |edges| == 0 then {}
    else (if edges[0].1 == v then {edges[0].0} else {}) + Preds(edges[1..], v)
  }

  /** Targets of the edges that start at `u`, in edge order: the program's `outgoing[u]`. */
  function Outgoing(edges: seq<Edge>, u: nat): seq<nat> {
    if |edges| == 0 then []
    else (if edges[0].0 == u then [edges[0].1] else []) + Outgoing(edges[1..], u)
  }

  /**
   * The targets of the edges whose source is not in `done`, counted with
   * multiplicity: once the nodes of `done` are processed, the program's
   * in-degree of `v` is `Remaining(edges, done)[v]`.
   */
  function Remaining(edges: seq<Edge>, done: set<nat>): multiset<nat> {
    if |edges| == 0 then multiset{}
    else (if edges[0].0 in done then multiset{} else multiset{edges[0].1}) + Remaining(edges[1..], done)
  }

  /** The nodes that become schedulable once `done` is scheduled. */
  function Ready(n: nat, edges: seq<Edge>, done: set<nat>): set<nat> {
    set v: nat | v < n && v !in done && Preds(edges, v) <= done
  }

  /** Reference layering: the waves scheduled after `done`. */
  function Waves(n: nat, edges: seq<Edge>, done: set<nat>): seq<set<nat>>
    requires done <= Nodes(n)
    decreases n - |done|
  {
    var w := Ready(n, edges, done);
    if w == {} then []
    else
      SubsetCard(done + w, Nodes(n));
      NodesCard(n);
      [w] + Waves(n, edges, done + w)
  }

  /** The layering of the whole graph. */
  function Schedule(n: nat, edges: seq<Edge>): seq<set<nat>> {
    Waves(n, edges, {})
  }

  function Union(ws: seq<set<nat>>): set<nat> {
    if |ws| == 0 then {} else ws[0] + Union(ws[1..])
  }

  /** The waves as sets, forgetting the order within each wave. */
  function ToSets(ws: seq<seq<nat>>): (r: seq<set<nat>>)
    ensures |r| == |ws| && forall k | 0 <= k < |ws| :: r[k] == Elems(ws[k])
  {
    if |ws| == 0 then [] else ToSets(ws[..|ws| - 1]) + [Elems(ws[|ws| - 1])]
  }

  /** The wave that holds `v`: the first one, and (by `ScheduleDisjoint`) the only one. */
  function WaveOf(ws: seq<set<nat>>, v: nat): (k: nat)
    requires v in Union(ws)
    ensures k < |ws| && v in ws[k]
    ensures forall j | 0 <= j < k :: v !in ws[j]
  {
    if v in ws[0] then 0 else 1 + WaveOf(ws[1..], v)
  }

  // ---------------------------------------------------------------------
  // Set and multiset facts

  lemma NodesCard(n: nat)
    ensures |Nodes(n)| == n
  {
    if n > 0 {
      assert Nodes(n) == Nodes(n - 1) + {n - 1};
      NodesCard(n - 1);
    } else {
      assert Nodes(0) == {};
    }
  }

  lemma SubsetCard<T>(a: set<T>, b: set<T>)
    requires a <= b
    ensures |a| <= |b|
  {
    if a != {} {
      var x :| x in a;
      SubsetCard(a - {x}, b - {x});
    }
  }

  /** A subset as large as its superset is the whole superset. */
  lemma SubsetFull<T>(a: set<T>, b: set<T>)
    requires a <= b && |a| >= |b|
    ensures a == b
  {
    if a != b {
      var x :| x in b && x !in a;
      SubsetCard(a, b - {x});
    }
  }

  lemma DistinctCard(s: seq<nat>)
    requires Distinct(s)
    ensures |Elems(s)| == |s|
  {
    if |s| > 0 {
      var t := s[..|s| - 1];
      assert Distinct(t);
      assert Elems(s) == Elems(t) + {s[|s| - 1]};
      assert s[|s| - 1] !in Elems(t);
      DistinctCard(t);
    } else {
      assert Elems(s) == {};
    }
  }

  lemma {:induction false} OutgoingAppend(a: seq<Edge>, b: seq<Edge>, u: nat)
    ensures Outgoing(a + b, u) == Outgoing(a, u) + Outgoing(b, u)
  {
    if |a| > 0 {
      assert (a + b)[1..] == a[1..] + b;
      OutgoingAppend(a[1..], b, u);
    } else {
      assert a + b == b;
    }
  }

  lemma {:induction false} RemainingAppend(a: seq<Edge>, b: seq<Edge>, done: set<nat>)
    ensures Remaining(a + b, done) == Remaining(a, done) + Remaining(b, done)
  {
    if |a| > 0 {
      assert (a + b)[1..] == a[1..] + b;
      RemainingAppend(a[1..], b, done);
    } else {
      assert a + b == b;
    }
  }

  lemma {:induction false} OutgoingBound(n: nat, edges: seq<Edge>, u: nat)
    requires ValidEdges(n, edges)
    ensures forall x | x in Outgoing(edges, u) :: x < n
  {
    if |edges| > 0 {
      assert ValidEdges(n, edges[1..]);
      OutgoingBound(n, edges[1..], u);
    }
  }

  lemma {:induction false} PredsBound(n: nat, edges: seq<Edge>, v: nat)
    requires ValidEdges(n, edges)
    ensures Preds(edges, v) <= Nodes(n)
  {
    if |edges| > 0 {
      assert ValidEdges(n, edges[1..]);
      PredsBound(n, edges[1..], v);
    }
  }

  /** Processing node `u` removes exactly its outgoing targets from the remaining in-degrees. */
  lemma {:induction false} RemainingSplit(edges: seq<Edge>, done: set<nat>, u: nat)
    requires u !in done
    ensures Remaining(edges, done) == Remaining(edges, done + {u}) + multiset(Outgoing(edges, u))
  {
    if |edges| > 0 {
      RemainingSplit(edges[1..], done, u);
    }
  }

  /** The remaining in-degree of `v` is zero exactly when all its predecessors are done. */
  lemma {:induction false} RemainingZero(edges: seq<Edge>, done: set<nat>, v: nat)
    ensures Remaining(edges, done)[v] == 0 <==> Preds(edges, v) <= done
  {
    if |edges| > 0 {
      RemainingZero(edges[1..], done, v);
    }
  }

  lemma {:induction false} RemainingMono(edges: seq<Edge>, small: set<nat>, big: set<nat>, v: nat)
    requires small <= big
    ensures Remaining(edges, big)[v] <= Remaining(edges, small)[v]
  {
    if |edges| > 0 {
      RemainingMono(edges[1..], small, big, v);
    }
  }

  lemma {:induction false} UnionAppend(ws: seq<set<nat>>, w: set<nat>)
    ensures Union(ws + [w]) == Union(ws) + w
  {
    if |ws| > 0 {
      assert (ws + [w])[1..] == ws[1..] + [w];
      UnionAppend(ws[1..], w);
    } else {
      assert ws + [w] == [w];
    }
  }

  lemma {:induction false} UnionMember(ws: seq<set<nat>>, v: nat)
    ensures v in Union(ws) <==> exists k | 0 <= k < |ws| :: v in ws[k]
  {
    if |ws| > 0 {
      UnionMember(ws[1..], v);
      if v in Union(ws[1..]) {
        var k :| 0 <= k < |ws[1..]| && v in ws[1..][k];
        assert v in ws[k + 1];
      }
      if exists k | 0 <= k < |ws| :: v in ws[k] {
        var k :| 0 <= k < |ws| && v in ws[k];
        if k > 0 {
          assert v in ws[1..][k - 1];
        }
      }
    }
  }

  // ---------------------------------------------------------------------
  // The reference layering

  /** Every node of `done` has all its predecessors in `done`. */
  predicate Closed(edges: seq<Edge>, done: set<nat>) {
    forall v | v in done :: Preds(edges, v) <= done
  }

  /** Wave k of `Waves(done)` is what becomes ready after `done` and waves 0..k-1. */
  lemma {:induction false} WaveAt(n: nat, edges: seq<Edge>, done: set<nat>, k: nat)
    requires done <= Nodes(n) && k < |Waves(n, edges, done)|
    ensures Waves(n, edges, done)[k] != {}
    ensures Waves(n, edges, done)[k] == Ready(n, edges, done + Union(Waves(n, edges, done)[..k]))
    decreases k
  {
    var w := Ready(n, edges, done);
    WavesUnfold(n, edges, done);
    var rest := Waves(n, edges, done + w);
    if k == 0 {
      assert Waves(n, edges, done)[..0] == [];
    } else {
      WaveAt(n, edges, done + w, k - 1);
      UnionConsPrefix(w, rest, k);
      SetAssoc(done, w, Union(rest[..k - 1]));
    }
  }

  /** Once the waves run out, nothing more is ready. */
  lemma {:induction false} WavesEnd(n: nat, edges: seq<Edge>, done: set<nat>)
    requires done <= Nodes(n)
    decreases n - |done|
    ensures Ready(n, edges, done + Union(Waves(n, edges, done))) == {}
    ensures done + Union(Waves(n, edges, done)) <= Nodes(n)
  {
    var w := Ready(n, edges, done);
    if w == {} {
      assert Waves(n, edges, done) == [];
      assert done + {} == done;
    } else {
      WavesUnfold(n, edges, done);
      SubsetCard(done + w, Nodes(n));
      NodesCard(n);
      var rest := Waves(n, edges, done + w);
      WavesEnd(n, edges, done + w);
      assert Union([w] + rest) == w + Union(rest);
      assert done + Union([w] + rest) == (done + w) + Union(rest);
    }
  }

  /** The layering schedules at most the n nodes. */
  lemma ScheduleBound(n: nat, edges: seq<Edge>)
    ensures Union(Schedule(n, edges)) <= Nodes(n) && |Union(Schedule(n, edges))| <= n
  {
    WavesEnd(n, edges, {});
    assert {} + Union(Schedule(n, edges)) == Union(Schedule(n, edges));
    SubsetCard(Union(Schedule(n, edges)), Nodes(n));
    NodesCard(n);
  }

  lemma SetAssoc(a: set<nat>, b: set<nat>, c: set<nat>)
    ensures a + (b + c) == (a + b) + c
  {
  }

  lemma UnionConsPrefix(w: set<nat>, rest: seq<set<nat>>, k: nat)
    requires 1 <= k <= 1 + |rest|
    ensures Union(([w] + rest)[..k]) == w + Union(rest[..k - 1])
  {
    assert ([w] + rest)[..k][1..] == rest[..k - 1];
  }

  lemma UnionPrefixMono(ws: seq<set<nat>>, j: nat, k: nat)
    requires j <= k <= |ws|
    ensures Union(ws[..j]) <= Union(ws[..k])
  {
    forall v | v in Union(ws[..j]) ensures v in Union(ws[..k]) {
      UnionMember(ws[..j], v);
      var i :| 0 <= i < j && v in ws[..j][i];
      assert v in ws[..k][i];
      UnionMember(ws[..k], v);
    }
  }

  lemma WaveInPrefix(ws: seq<set<nat>>, j: nat, k: nat, v: nat)
    requires j < k <= |ws| && v in ws[j]
    ensures v in Union(ws[..k])
  {
    assert v in ws[..k][j];
    UnionMember(ws[..k], v);
  }

  lemma PrefixMember(ws: seq<set<nat>>, k: nat, v: nat) returns (j: nat)
    requires k <= |ws| && v in Union(ws[..k])
    ensures j < k && v in ws[j]
  {
    UnionMember(ws[..k], v);
    j :| 0 <= j < k && v in ws[..k][j];
  }

  /** Wave k of the schedule is what becomes ready after waves 0..k-1. */
  lemma WaveIsReady(n: nat, edges: seq<Edge>, k: nat)
    requires k < |Schedule(n, edges)|
    ensures Schedule(n, edges)[k] != {}
    ensures Schedule(n, edges)[k] == Ready(n, edges, Union(Schedule(n, edges)[..k]))
  {
    WaveAt(n, edges, {}, k);
    var ws := Schedule(n, edges);
    assert {} + Union(ws[..k]) == Union(ws[..k]);
  }

  /** After the last wave nothing more is ready. */
  lemma ScheduleFinal(n: nat, edges: seq<Edge>)
    ensures Union(Schedule(n, edges)) <= Nodes(n)
    ensures Ready(n, edges, Union(Schedule(n, edges))) == {}
  {
    WavesEnd(n, edges, {});
    var d := Union(Schedule(n, edges));
    assert {} + d == d;
  }

  /** Every wave is non-empty and no node is scheduled twice. */
  lemma ScheduleDisjoint(n: nat, edges: seq<Edge>)
    ensures var ws := Schedule(n, edges);
      forall k | 0 <= k < |ws| :: ws[k] != {} && ws[k] <= Nodes(n)
    ensures var ws := Schedule(n, edges);
      forall j, k | 0 <= j < k < |ws| :: ws[j] * ws[k] == {}
  {
    var ws := Schedule(n, edges);
    forall k | 0 <= k < |ws| ensures ws[k] != {} && ws[k] <= Nodes(n) {
      WaveIsReady(n, edges, k);
    }
    forall j, k | 0 <= j < k < |ws| ensures ws[j] * ws[k] == {} {
      WaveIsReady(n, edges, k);
      forall v | v in ws[j] ensures v !in ws[k] {
        WaveInPrefix(ws, j, k, v);
      }
    }
  }

  /** A scheduled node's wave is the only wave holding it. */
  lemma OnlyWave(n: nat, edges: seq<Edge>, v: nat, j: nat)
    requires j < |Schedule(n, edges)| && v in Schedule(n, edges)[j]
    ensures v in Union(Schedule(n, edges)) && WaveOf(Schedule(n, edges), v) == j
  {
    var ws := Schedule(n, edges);
    UnionMember(ws, v);
    var k := WaveOf(ws, v);
    if k < j {
      WaveIsReady(n, edges, j);
      WaveInPrefix(ws, k, j, v);
    }
  }

  /** The predecessors of a scheduled node are scheduled in earlier waves. */
  lemma PredsEarlier(n: nat, edges: seq<Edge>, v: nat, u: nat)
    requires v in Union(Schedule(n, edges)) && u in Preds(edges, v)
    ensures u in Union(Schedule(n, edges))
    ensures WaveOf(Schedule(n, edges), u) < WaveOf(Schedule(n, edges), v)
  {
    var ws := Schedule(n, edges);
    var k := WaveOf(ws, v);
    WaveIsReady(n, edges, k);
    var j := PrefixMember(ws, k, u);
    OnlyWave(n, edges, u, j);
  }

  /** A node in a wave k > 0 has a predecessor in wave k-1. */
  lemma DepthParent(n: nat, edges: seq<Edge>, v: nat) returns (u: nat)
    requires v in Union(Schedule(n, edges)) && WaveOf(Schedule(n, edges), v) > 0
    ensures u in Preds(edges, v) && u in Union(Schedule(n, edges))
    ensures WaveOf(Schedule(n, edges), u) == WaveOf(Schedule(n, edges), v) - 1
  {
    var ws := Schedule(n, edges);
    var k := WaveOf(ws, v);
    WaveIsReady(n, edges, k);
    WaveIsReady(n, edges, k - 1);
    UnionPrefixMono(ws, k - 1, k);
    // v was not ready after waves 0..k-2, so one of its predecessors lies outside them
    assert v !in Ready(n, edges, Union(ws[..k - 1]));
    u :| u in Preds(edges, v) && u !in Union(ws[..k - 1]);
    var j := PrefixMember(ws, k, u);
    if j < k - 1 {
      WaveInPrefix(ws, j, k - 1, u);
    }
    OnlyWave(n, edges, u, j);
  }

  /**
   * The layering is a longest-path depth: a scheduled node's predecessors
   * are all scheduled in earlier waves, and a node in wave k > 0 has a
   * predecessor in wave k-1 (so its wave is 1 + the largest wave of its
   * predecessors); wave 0 holds exactly the scheduled nodes with no
   * predecessor.
   */
  lemma ScheduleDepth(n: nat, edges: seq<Edge>, v: nat)
    requires v in Union(Schedule(n, edges))
    ensures forall u | u in Preds(edges, v) ::
      u in Union(Schedule(n, edges)) && WaveOf(Schedule(n, edges), u) < WaveOf(Schedule(n, edges), v)
    ensures WaveOf(Schedule(n, edges), v) == 0 <==> Preds(edges, v) == {}
    ensures WaveOf(Schedule(n, edges), v) > 0 ==>
      exists u | u in Preds(edges, v) ::
        u in Union(Schedule(n, edges)) && WaveOf(Schedule(n, edges), u) == WaveOf(Schedule(n, edges), v) - 1
  {
    forall u | u in Preds(edges, v)
      ensures u in Union(Schedule(n, edges)) && WaveOf(Schedule(n, edges), u) < WaveOf(Schedule(n, edges), v)
    {
      PredsEarlier(n, edges, v, u);
    }
    if WaveOf(Schedule(n, edges), v) > 0 {
      var u := DepthParent(n, edges, v);
    } else {
      WaveIsReady(n, edges, 0);
      assert Schedule(n, edges)[..0] == [];
    }
  }

  /** Every edge into a scheduled node comes from an earlier wave. */
  lemma EdgesForward(n: nat, edges: seq<Edge>)
    ensures forall k | 0 <= k < |edges| && edges[k].1 in Union(Schedule(n, edges)) ::
      edges[k].0 in Union(Schedule(n, edges))
      && WaveOf(Schedule(n, edges), edges[k].0) < WaveOf(Schedule(n, edges), edges[k].1)
  {
    forall k | 0 <= k < |edges| && edges[k].1 in Union(Schedule(n, edges))
      ensures edges[k].0 in Union(Schedule(n, edges))
      ensures WaveOf(Schedule(n, edges), edges[k].0) < WaveOf(Schedule(n, edges), edges[k].1)
    {
      EdgeIsPred(edges, k);
      PredsEarlier(n, edges, edges[k].1, edges[k].0);
    }
  }

  lemma {:induction false} EdgeIsPred(edges: seq<Edge>, k: nat)
    requires k < |edges|
    ensures edges[k].0 in Preds(edges, edges[k].1)
  {
    if k > 0 {
      EdgeIsPred(edges[1..], k - 1);
    }
  }

  /** The predecessors of `v` are exactly the sources of the edges into `v`. */
  lemma {:induction false} PredsMember(edges: seq<Edge>, u: nat, v: nat)
    ensures u in Preds(edges, v) <==> (u, v) in edges
  {
    if |edges| > 0 {
      PredsMember(edges[1..], u, v);
      assert edges == [edges[0]] + edges[1..];
    }
  }

  /**
   * When the layering stops short, the unscheduled nodes are non-empty and
   * each of them has an unscheduled predecessor: they cannot be ordered.
   */
  lemma ScheduleStuck(n: nat, edges: seq<Edge>)
    requires ValidEdges(n, edges)
    requires Union(Schedule(n, edges)) != Nodes(n)
    ensures exists v | v in Nodes(n) :: v !in Union(Schedule(n, edges))
    ensures forall v | v in Nodes(n) && v !in Union(Schedule(n, edges)) ::
      exists u | u in Preds(edges, v) :: u in Nodes(n) && u !in Union(Schedule(n, edges))
  {
    ScheduleFinal(n, edges);
    var d := Union(Schedule(n, edges));
    forall v | v in Nodes(n) && v !in d
      ensures exists u | u in Preds(edges, v) :: u in Nodes(n) && u !in d
    {
      var u := UnscheduledPred(n, edges, v);
    }
  }

  lemma UnscheduledPred(n: nat, edges: seq<Edge>, v: nat) returns (u: nat)
    requires ValidEdges(n, edges)
    requires v in Nodes(n) && v !in Union(Schedule(n, edges))
    ensures u in Preds(edges, v) && u in Nodes(n) && u !in Union(Schedule(n, edges))
  {
    ScheduleFinal(n, edges);
    var d := Union(Schedule(n, edges));
    assert v !in Ready(n, edges, d);
    u :| u in Preds(edges, v) && u !in d;
    PredsBound(n, edges, v);
  }

  // ---------------------------------------------------------------------
  // Cycles

  /** `p` follows edges: each node is a predecessor of the next. */
  predicate IsPath(edges: seq<Edge>, p: seq<nat>) {
    forall i | 0 <= i < |p| - 1 :: Step(edges, p, i)
  }

  predicate Step(edges: seq<Edge>, p: seq<nat>, i: nat)
    requires i < |p| - 1
  {
    p[i] in Preds(edges, p[i + 1])
  }

  predicate IsCycle(edges: seq<Edge>, p: seq<nat>) {
    |p| >= 2 && IsPath(edges, p) && p[0] == p[|p| - 1]
  }

  lemma PathTail(edges: seq<Edge>, p: seq<nat>)
    requires IsPath(edges, p) && |p| >= 1
    ensures IsPath(edges, p[1..])
  {
    forall i | 0 <= i < |p[1..]| - 1 ensures Step(edges, p[1..], i) {
      assert Step(edges, p, i + 1);
    }
  }

  lemma {:induction false} PathRises(n: nat, edges: seq<Edge>, p: seq<nat>)
    requires Union(Schedule(n, edges)) == Nodes(n)
    requires IsPath(edges, p) && |p| >= 2 && forall i | 0 <= i < |p| :: p[i] < n
    ensures WaveOf(Schedule(n, edges), p[0]) < WaveOf(Schedule(n, edges), p[|p| - 1])
  {
    assert Step(edges, p, 0);
    assert IsNode(n, p[1]);
    PredsEarlier(n, edges, p[1], p[0]);
    if |p| > 2 {
      PathTail(edges, p);
      PathRises(n, edges, p[1..]);
    }
  }

  /** A fully scheduled graph has no cycle. */
  lemma ScheduledAcyclic(n: nat, edges: seq<Edge>, p: seq<nat>)
    requires ValidEdges(n, edges)
    requires Union(Schedule(n, edges)) == Nodes(n)
    ensures !IsCycle(edges, p)
  {
    if IsCycle(edges, p) {
      forall i | 0 <= i < |p| - 1 ensures p[i] < n {
        assert Step(edges, p, i);
        PredsBound(n, edges, p[i + 1]);
      }
      PathRises(n, edges, p);
    }
  }

  /**
   * Walking backwards from an unscheduled node through unscheduled
   * predecessors: a path of `len` unscheduled nodes ending at `v`.
   */
  lemma BackWalk(n: nat, edges: seq<Edge>, v: nat, len: nat) returns (p: seq<nat>)
    requires ValidEdges(n, edges)
    requires v in Nodes(n) && v !in Union(Schedule(n, edges))
    requires len >= 1
    ensures |p| == len && IsPath(edges, p) && p[|p| - 1] == v
    ensures forall i | 0 <= i < |p| :: p[i] < n
    decreases len
  {
    if len == 1 {
      p := [v];
    } else {
      var u := UnscheduledPred(n, edges, v);
      var q := BackWalk(n, edges, u, len - 1);
      p := q + [v];
      forall i | 0 <= i < |p| - 1 ensures Step(edges, p, i) {
        if i < |q| - 1 {
          assert Step(edges, q, i);
        }
      }
    }
  }

  /** Pigeonhole: n + 1 nodes of 0..n-1 repeat one. */
  lemma Pigeonhole(n: nat, p: seq<nat>) returns (i: nat, j: nat)
    requires |p| > n && forall k | 0 <= k < |p| :: p[k] < n
    ensures i < j < |p| && p[i] == p[j]
  {
    if Distinct(p) {
      DistinctCard(p);
      assert Elems(p) <= Nodes(n);
      SubsetCard(Elems(p), Nodes(n));
      NodesCard(n);
      assert false;
    }
    i, j :| 0 <= i < j < |p| && p[i] == p[j];
  }

  /** A graph the layering cannot finish has a cycle. */
  lemma StuckHasCycle(n: nat, edges: seq<Edge>) returns (c: seq<nat>)
    requires ValidEdges(n, edges)
    requires Union(Schedule(n, edges)) != Nodes(n)
    ensures IsCycle(edges, c)
  {
    ScheduleFinal(n, edges);
    var d := Union(Schedule(n, edges));
    var v :| v in Nodes(n) && v !in d;
    var p := BackWalk(n, edges, v, n + 1);
    var i, j := Pigeonhole(n, p);
    c := p[i..j + 1];
    forall k | 0 <= k < |c| - 1 ensures Step(edges, c, k) {
      assert c[k] == p[i + k] && c[k + 1] == p[i + k + 1];
      assert Step(edges, p, i + k);
    }
  }

  // ---------------------------------------------------------------------
  // The program's loop

  /** The program's `outgoing` table, filled edge by edge. */
  method BuildOutgoing(n: nat, edges: seq<Edge>) returns (out: seq<seq<nat>>)
    requires ValidEdges(n, edges)
    ensures |out| == n && forall u | 0 <= u < n :: out[u] == Outgoing(edges, u)
  {
    out := seq(n, _ => []);
    var k := 0;
    while k < |edges|
      invariant 0 <= k <= |edges|
      invariant |out| == n && forall u | 0 <= u < n :: out[u] == Outgoing(edges[..k], u)
    {
      var src := edges[k].0;
      var dst := edges[k].1;
      forall u | 0 <= u < n
        ensures Outgoing(edges[..k + 1], u) == Outgoing(edges[..k], u) + (if src == u then [dst] else [])
      {
        assert edges[..k + 1] == edges[..k] + [edges[k]];
        OutgoingAppend(edges[..k], [edges[k]], u);
        var one: seq<Edge> := [edges[k]];
        assert |one[1..]| == 0;
      }
      out := out[src := out[src] + [dst]];
      k := k + 1;
    }
    assert edges[..|edges|] == edges;
  }

  /** The program's `indegree` table, counted edge by edge. */
  method BuildInDegrees(n: nat, edges: seq<Edge>) returns (indeg: seq<nat>)
    requires ValidEdges(n, edges)
    ensures |indeg| == n && forall v | 0 <= v < n :: indeg[v] == Remaining(edges, {})[v]
  {
    indeg := seq(n, _ => 0);
    var k := 0;
    while k < |edges|
      invariant 0 <= k <= |edges|
      invariant |indeg| == n && forall v | 0 <= v < n :: indeg[v] == Remaining(edges[..k], {})[v]
    {
      var dst := edges[k].1;
      RemainingPrefix(edges, k);
      indeg := indeg[dst := indeg[dst] + 1];
      k := k + 1;
    }
    assert edges[..|edges|] == edges;
  }

  /** One more edge adds one to the count of its target. */
  lemma RemainingPrefix(edges: seq<Edge>, k: nat)
    requires k < |edges|
    ensures Remaining(edges[..k + 1], {}) == Remaining(edges[..k], {}) + multiset{edges[k].1}
  {
    assert edges[..k + 1] == edges[..k] + [edges[k]];
    RemainingAppend(edges[..k], [edges[k]], {});
    var one: seq<Edge> := [edges[k]];
    assert |one[1..]| == 0;
  }

  /** The initial queue: the nodes of in-degree zero, in index order. */
  method ZeroInDegree(indeg: seq<nat>) returns (queue: seq<nat>)
    ensures Distinct(queue)
    ensures forall i | 0 <= i < |queue| :: queue[i] < |indeg|
    ensures forall i, j | 0 <= i < j < |queue| :: queue[i] < queue[j]
    ensures Elems(queue) == set v: nat | v < |indeg| && indeg[v] == 0
  {
    queue := [];
    var i := 0;
    while i < |indeg|
      invariant 0 <= i <= |indeg|
      invariant forall a | 0 <= a < |queue| :: queue[a] < i
      invariant forall a, b | 0 <= a < b < |queue| :: queue[a] < queue[b]
      invariant forall v: nat :: v in queue <==> v < i && indeg[v] == 0
    {
      if indeg[i] == 0 {
        queue := queue + [i];
      }
      i := i + 1;
    }
    forall a, b | 0 <= a < b < |queue| ensures queue[a] != queue[b] {
    }
  }

  /**
   * The inner loop of one wave: decrement the in-degree of each target in
   * order, queueing a target when its in-degree reaches zero. `base` is the
   * in-degree table on entry and `orig` the one at the start of the wave.
   */
  method DecrementTargets(n: nat, targets: seq<nat>, indeg0: seq<nat>, next0: seq<nat>,
                          ghost base: multiset<nat>, ghost after: multiset<nat>, ghost orig: multiset<nat>)
    returns (indeg: seq<nat>, next: seq<nat>)
    requires forall x | x in targets :: x < n
    requires |indeg0| == n && forall v | 0 <= v < n :: indeg0[v] == base[v] <= orig[v]
    requires base == after + multiset(targets)
    requires Distinct(next0) && forall x | x in next0 :: x < n
    requires forall v | 0 <= v < n :: v in next0 <==> orig[v] > 0 && indeg0[v] == 0
    ensures |indeg| == n && forall v | 0 <= v < n :: indeg[v] == after[v]
    ensures Distinct(next) && forall x | x in next :: x < n
    ensures forall v | 0 <= v < n :: v in next <==> orig[v] > 0 && indeg[v] == 0
  {
    indeg := indeg0;
    next := next0;
    var b := 0;
    while b < |targets|
      invariant 0 <= b <= |targets|
      invariant |indeg| == n && forall v | 0 <= v < n :: indeg[v] + multiset(targets[..b])[v] == base[v]
      invariant Distinct(next) && forall x | x in next :: x < n
      invariant forall v | 0 <= v < n :: v in next <==> orig[v] > 0 && indeg[v] == 0
    {
      var v := targets[b];
      assert v in targets && v < n;
      PrefixStep(targets, b);
      indeg := indeg[v := indeg[v] - 1];
      if indeg[v] == 0 {
        next := next + [v];
      }
      b := b + 1;
    }
    assert targets[..|targets|] == targets;
  }

  /** Extending a prefix by one element adds that element, and a prefix counts no more than the whole. */
  lemma PrefixStep(targets: seq<nat>, b: nat)
    requires b < |targets|
    ensures multiset(targets[..b + 1]) == multiset(targets[..b]) + multiset{targets[b]}
    ensures multiset(targets[..b + 1]) <= multiset(targets)
  {
    assert targets[..b + 1] == targets[..b] + [targets[b]];
    assert targets == targets[..b + 1] + targets[b + 1..];
  }

  /** What processing the a-th node of a wave needs to know. */
  lemma WaveNodeFacts(n: nat, edges: seq<Edge>, done: set<nat>, wave: seq<nat>, a: nat)
    requires ValidEdges(n, edges)
    requires Distinct(wave) && a < |wave| && wave[a] !in done
    ensures var s := done + Elems(wave[..a]);
      && Remaining(edges, s) == Remaining(edges, s + {wave[a]}) + multiset(Outgoing(edges, wave[a]))
      && (forall v | 0 <= v < n :: Remaining(edges, s)[v] <= Remaining(edges, done)[v])
      && (forall x | x in Outgoing(edges, wave[a]) :: x < n)
      && done + Elems(wave[..a + 1]) == s + {wave[a]}
  {
    var u := wave[a];
    var s := done + Elems(wave[..a]);
    assert u !in s by {
      assert forall i | 0 <= i < a :: wave[..a][i] == wave[i] != u;
    }
    assert Remaining(edges, s) == Remaining(edges, s + {u}) + multiset(Outgoing(edges, u)) by {
      RemainingSplit(edges, s, u);
    }
    forall v | 0 <= v < n ensures Remaining(edges, s)[v] <= Remaining(edges, done)[v] {
      RemainingMono(edges, done, s, v);
    }
    OutgoingBound(n, edges, u);
    assert done + Elems(wave[..a + 1]) == s + {u} by {
      assert wave[..a + 1] == wave[..a] + [u];
    }
  }

  /**
   * One wave of the program: process the wave's nodes in order, each
   * through `DecrementTargets` over its outgoing targets.
   */
  method DrainWave(n: nat, edges: seq<Edge>, outgoing: seq<seq<nat>>, indeg0: seq<nat>, wave: seq<nat>, ghost done: set<nat>)
    returns (indeg: seq<nat>, next: seq<nat>)
    requires ValidEdges(n, edges)
    requires |outgoing| == n && forall u | 0 <= u < n :: outgoing[u] == Outgoing(edges, u)
    requires |indeg0| == n && forall v | 0 <= v < n :: indeg0[v] == Remaining(edges, done)[v]
    requires Distinct(wave) && forall a | 0 <= a < |wave| :: wave[a] < n && wave[a] !in done
    ensures |indeg| == n && forall v | 0 <= v < n :: indeg[v] == Remaining(edges, done + Elems(wave))[v]
    ensures Distinct(next) && forall x | x in next :: x < n
    ensures forall v | 0 <= v < n ::
      v in next <==> Remaining(edges, done)[v] > 0 && Remaining(edges, done + Elems(wave))[v] == 0
  {
    indeg := indeg0;
    next := [];
    var a := 0;
    assert done + Elems(wave[..0]) == done;
    while a < |wave|
      invariant 0 <= a <= |wave|
      invariant Drained(n, edges, done, wave, a, indeg, next)
    {
      indeg, next := DrainNode(n, edges, outgoing, indeg, next, wave, a, done);
      a := a + 1;
    }
    assert wave[..|wave|] == wave;
  }

  /**
   * After the first `a` nodes of a wave: the in-degrees count the edges
   * left once they are done, and the queue holds, without repeats, the
   * nodes that had edges before the wave and have none now.
   */
  ghost predicate Drained(n: nat, edges: seq<Edge>, done: set<nat>, wave: seq<nat>, a: nat, indeg: seq<nat>, next: seq<nat>)
    requires a <= |wave|
  {
    && |indeg| == n && (forall v | 0 <= v < n :: indeg[v] == Remaining(edges, done + Elems(wave[..a]))[v])
    && Distinct(next) && (forall x | x in next :: x < n)
    && (forall v | 0 <= v < n :: v in next <==> Remaining(edges, done)[v] > 0 && indeg[v] == 0)
  }

  /** Processing the a-th node of a wave: its targets lose the edges from it. */
  method DrainNode(n: nat, edges: seq<Edge>, outgoing: seq<seq<nat>>, indeg0: seq<nat>, next0: seq<nat>,
                   wave: seq<nat>, a: nat, ghost done: set<nat>)
    returns (indeg: seq<nat>, next: seq<nat>)
    requires ValidEdges(n, edges)
    requires |outgoing| == n && forall u | 0 <= u < n :: outgoing[u] == Outgoing(edges, u)
    requires Distinct(wave) && a < |wave| && wave[a] < n && wave[a] !in done
    requires Drained(n, edges, done, wave, a, indeg0, next0)
    ensures Drained(n, edges, done, wave, a + 1, indeg, next)
  {
    var u := wave[a];
    ghost var s := done + Elems(wave[..a]);
    WaveNodeFacts(n, edges, done, wave, a);
    indeg, next := DecrementTargets(n, outgoing[u], indeg0, next0,
      Remaining(edges, s), Remaining(edges, s + {u}), Remaining(edges, done));
  }

  /** What `DrainWave` queues is exactly the next reference wave. */
  lemma NextWave(n: nat, edges: seq<Edge>, done: set<nat>, w: set<nat>, next: seq<nat>)
    requires ValidEdges(n, edges)
    requires Closed(edges, done)
    requires w == Ready(n, edges, done)
    requires forall x | x in next :: x < n
    requires forall v | 0 <= v < n ::
      v in next <==> Remaining(edges, done)[v] > 0 && Remaining(edges, done + w)[v] == 0
    ensures Closed(edges, done + w)
    ensures Elems(next) == Ready(n, edges, done + w)
  {
    forall v | v in Ready(n, edges, done + w) ensures v in Elems(next) {
      RemainingZero(edges, done + w, v);
      RemainingZero(edges, done, v);
    }
    forall v | v in Elems(next) ensures v in Ready(n, edges, done + w) {
      RemainingZero(edges, done + w, v);
      RemainingZero(edges, done, v);
    }
  }

  /** The initial queue is the first reference wave. */
  lemma LayerStart(n: nat, edges: seq<Edge>, indeg: seq<nat>, queue: seq<nat>)
    requires |indeg| == n && forall v | 0 <= v < n :: indeg[v] == Remaining(edges, {})[v]
    requires Elems(queue) == set v: nat | v < |indeg| && indeg[v] == 0
    ensures Elems(queue) == Ready(n, edges, {})
    ensures Schedule(n, edges) == ToSets([]) + Waves(n, edges, {})
    ensures {} == Union(ToSets([]))
  {
    forall v | v in Elems(queue) ensures v in Ready(n, edges, {}) {
      RemainingZero(edges, {}, v);
    }
    forall v | v in Ready(n, edges, {}) ensures v in Elems(queue) {
      RemainingZero(edges, {}, v);
    }
    assert ToSets([]) == [];
  }

  /** The bookkeeping of one wave: the scheduled set and the emitted waves grow together. */
  lemma LayerStep(n: nat, edges: seq<Edge>, sched: seq<set<nat>>, epochs: seq<seq<nat>>, done: set<nat>, wave: seq<nat>)
    requires done <= Nodes(n)
    requires done == Union(ToSets(epochs))
    requires sched == ToSets(epochs) + Waves(n, edges, done)
    requires Distinct(wave) && Elems(wave) == Ready(n, edges, done) && |wave| > 0
    ensures done + Elems(wave) <= Nodes(n)
    ensures |done + Elems(wave)| == |done| + |wave| <= n
    ensures done + Elems(wave) == Union(ToSets(epochs + [wave]))
    ensures sched == ToSets(epochs + [wave]) + Waves(n, edges, done + Elems(wave))
  {
    LayerCount(n, edges, done, wave);
    LayerSets(epochs, done, wave);
    var w := Elems(wave);
    assert wave[0] in w;
    WavesUnfold(n, edges, done);
    SeqAssoc(ToSets(epochs), w, Waves(n, edges, done + w));
  }

  lemma SeqAssoc<T>(a: seq<T>, x: T, b: seq<T>)
    ensures a + ([x] + b) == (a + [x]) + b
  {
  }

  lemma WavesUnfold(n: nat, edges: seq<Edge>, done: set<nat>)
    requires done <= Nodes(n)
    requires Ready(n, edges, done) != {}
    ensures done + Ready(n, edges, done) <= Nodes(n)
    ensures Waves(n, edges, done) == [Ready(n, edges, done)] + Waves(n, edges, done + Ready(n, edges, done))
  {
  }

  lemma LayerCount(n: nat, edges: seq<Edge>, done: set<nat>, wave: seq<nat>)
    requires done <= Nodes(n)
    requires Distinct(wave) && Elems(wave) == Ready(n, edges, done)
    ensures done + Elems(wave) <= Nodes(n)
    ensures |done + Elems(wave)| == |done| + |wave| <= n
  {
    var w := Elems(wave);
    DistinctCard(wave);
    assert w * done == {};
    assert |done + w| == |done| + |w|;
    SubsetCard(done + w, Nodes(n));
    NodesCard(n);
  }

  lemma LayerSets(epochs: seq<seq<nat>>, done: set<nat>, wave: seq<nat>)
    requires done == Union(ToSets(epochs))
    ensures ToSets(epochs + [wave]) == ToSets(epochs) + [Elems(wave)]
    ensures done + Elems(wave) == Union(ToSets(epochs + [wave]))
  {
    assert (epochs + [wave])[..|epochs|] == epochs;
    UnionAppend(ToSets(epochs), Elems(wave));
  }

  /**
   * The program's layering loop. It returns the waves of node indices, or
   * the number of nodes it could not schedule; the waves are exactly the
   * reference `Schedule`, each without repeats, and the error happens
   * exactly when `Schedule` misses a node.
   */
  method Layer(n: nat, edges: seq<Edge>) returns (r: Result<seq<seq<nat>>, nat>)
    requires ValidEdges(n, edges)
    ensures r.Ok? <==> Union(Schedule(n, edges)) == Nodes(n)
    ensures r.Ok? ==> ToSets(r.value) == Schedule(n, edges)
    ensures r.Ok? ==> AllDistinct(r.value)
    ensures r.Err? ==> r.error == n - |Union(Schedule(n, edges))| && r.error > 0
  {
    var outgoing := BuildOutgoing(n, edges);
    var indeg := BuildInDegrees(n, edges);
    var queue := ZeroInDegree(indeg);
    LayerStart(n, edges, indeg, queue);
    var epochs: seq<seq<nat>> := [];
    var seen := 0;
    ghost var done: set<nat> := {};
    ghost var sched := Schedule(n, edges);
    while |queue| > 0
      invariant done <= Nodes(n) && Closed(edges, done) && |done| <= n
      invariant |indeg| == n && forall v | 0 <= v < n :: indeg[v] == Remaining(edges, done)[v]
      invariant Distinct(queue) && Elems(queue) == Ready(n, edges, done)
      invariant seen == |done|
      invariant done == Union(ToSets(epochs))
      invariant sched == ToSets(epochs) + Waves(n, edges, done)
      invariant AllDistinct(epochs)
      decreases n - |done|
    {
      var width := |queue|;
      epochs, indeg, queue, done := LayerWave(n, edges, outgoing, indeg, queue, epochs, done, sched);
      seen := seen + width;
    }
    ScheduleEnd(n, edges, sched, epochs, done);
    NodesCard(n);
    if seen != n {
      SubsetCard(done, Nodes(n));
      r := Err(n - seen);
    } else {
      SubsetFull(done, Nodes(n));
      r := Ok(epochs);
    }
  }

  /** One round of the program's loop: emit the queue as a wave and queue the next one. */
  method LayerWave(n: nat, edges: seq<Edge>, outgoing: seq<seq<nat>>, indeg0: seq<nat>, queue0: seq<nat>,
                   epochs0: seq<seq<nat>>, ghost done0: set<nat>, ghost sched: seq<set<nat>>)
    returns (epochs: seq<seq<nat>>, indeg: seq<nat>, queue: seq<nat>, ghost done: set<nat>)
    requires ValidEdges(n, edges)
    requires |outgoing| == n && forall u | 0 <= u < n :: outgoing[u] == Outgoing(edges, u)
    requires done0 <= Nodes(n) && Closed(edges, done0)
    requires |indeg0| == n && forall v | 0 <= v < n :: indeg0[v] == Remaining(edges, done0)[v]
    requires Distinct(queue0) && Elems(queue0) == Ready(n, edges, done0) && |queue0| > 0
    requires done0 == Union(ToSets(epochs0))
    requires sched == ToSets(epochs0) + Waves(n, edges, done0)
    requires AllDistinct(epochs0)
    ensures done <= Nodes(n) && Closed(edges, done) && |done| == |done0| + |queue0| <= n
    ensures |indeg| == n && forall v | 0 <= v < n :: indeg[v] == Remaining(edges, done)[v]
    ensures Distinct(queue) && Elems(queue) == Ready(n, edges, done)
    ensures done == Union(ToSets(epochs))
    ensures sched == ToSets(epochs) + Waves(n, edges, done)
    ensures AllDistinct(epochs)
  {
    var wave := queue0;
    ghost var w := Elems(wave);
    assert forall a | 0 <= a < |wave| :: wave[a] in w;
    indeg, queue := DrainWave(n, edges, outgoing, indeg0, wave, done0);
    NextWave(n, edges, done0, w, queue);
    LayerStep(n, edges, sched, epochs0, done0, wave);
    AllDistinctAppend(epochs0, wave);
    epochs := epochs0 + [wave];
    done := done0 + w;
  }

  lemma ScheduleEnd(n: nat, edges: seq<Edge>, sched: seq<set<nat>>, epochs: seq<seq<nat>>, done: set<nat>)
    requires done <= Nodes(n)
    requires Ready(n, edges, done) == {}
    requires done == Union(ToSets(epochs))
    requires sched == ToSets(epochs) + Waves(n, edges, done)
    ensures sched == ToSets(epochs)
    ensures Union(sched) == done
  {
    assert Waves(n, edges, done) == [];
    assert ToSets(epochs) + [] == ToSets(epochs);
  }
}
