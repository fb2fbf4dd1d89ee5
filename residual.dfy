// The residual network of Dinic's algorithm in Exact.cpp: edge lists whose
// entries name their partner edge, and what the level graph, the augmenting
// step and breadth-first reachability mean on it.

module Residual {
  import opened Util

  /** An entry of a vertex's edge list: its head, the position of its partner in the head's list, and its residual capacity. */
  datatype Edge = Edge(to: nat, rev: nat, cap: int)

  type Network = seq<seq<Edge>>

  /** Every edge names a vertex of the network and a position in that vertex's list. */
  ghost predicate Indexed(g: Network) {
    forall x, i :: 0 <= x < |g| && 0 <= i < |g[x]| ==> g[x][i].to < |g| && g[x][i].rev < |g[g[x][i].to]|
  }

  /** Edge i of x and the edge it names as its partner name each other. */
  ghost predicate PairedAt(g: Network, x: nat, i: nat)
    requires Indexed(g) && x < |g| && i < |g[x]|
  {
    var e := g[x][i];
    g[e.to][e.rev].to == x && g[e.to][e.rev].rev == i
  }

  /** Every edge between two different vertices is paired with its partner. */
  ghost predicate Paired(g: Network) {
    Indexed(g)
    && forall x: nat, i: nat {:trigger PairedAt(g, x, i)} :: x < |g| && i < |g[x]| && g[x][i].to != x ==> PairedAt(g, x, i)
  }

  /** No residual capacity is negative. */
  ghost predicate NonNegative(g: Network) {
    forall x, i :: 0 <= x < |g| && 0 <= i < |g[x]| ==> g[x][i].cap >= 0
  }

  /** The same lists with the same heads and partners; only capacities may differ. */
  ghost predicate SameShape(g: Network, h: Network) {
    |g| == |h|
    && (forall x :: 0 <= x < |g| ==> |g[x]| == |h[x]|)
    && forall x, i :: 0 <= x < |g| && 0 <= i < |g[x]| ==> g[x][i].to == h[x][i].to && g[x][i].rev == h[x][i].rev
  }

  lemma PairedShape(g: Network, h: Network)
    requires Paired(g) && SameShape(g, h)
    ensures Paired(h)
  {
    forall x: nat, i: nat | x < |h| && i < |h[x]| && h[x][i].to != x ensures PairedAt(h, x, i) {
      assert PairedAt(g, x, i);
    }
  }

  /**
   * add_edge: a forward edge from `from` with capacity cap, then an edge
   * back with capacity 0, each recording the other's position as it is
   * computed at that moment.
   */
  function Added(g: Network, from: nat, to: nat, cap: int): (r: Network)
    requires from < |g| && to < |g|
    ensures |r| == |g|
  {
    var g1 := g[from := g[from] + [Edge(to, |g[to]|, cap)]];
    g1[to := g1[to] + [Edge(from, |g1[from]| - 1, 0)]]
  }

  /** add_edge keeps every edge between two different vertices paired, and pairs the two new ones when from != to. */
  lemma AddedPaired(g: Network, from: nat, to: nat, cap: int)
    requires Paired(g) && from < |g| && to < |g|
    ensures Paired(Added(g, from, to, cap))
    ensures from != to ==> PairedAt(Added(g, from, to, cap), from, |g[from]|) && PairedAt(Added(g, from, to, cap), to, |g[to]|)
  {
    var r := Added(g, from, to, cap);
    if from != to {
      assert r[from] == g[from] + [Edge(to, |g[to]|, cap)];
      assert r[to] == g[to] + [Edge(from, |g[from]|, 0)];
    } else {
      assert r[from] == g[from] + [Edge(to, |g[to]|, cap), Edge(from, |g[from]|, 0)];
    }
    forall x: nat, i: nat | x < |r| && i < |r[x]| ensures r[x][i].to < |r| && r[x][i].rev < |r[r[x][i].to]| {
      if i < |g[x]| {
        assert r[x][i] == g[x][i];
      }
    }
    forall x: nat, i: nat | x < |r| && i < |r[x]| && r[x][i].to != x ensures PairedAt(r, x, i) {
      if i < |g[x]| {
        var e := g[x][i];
        assert r[x][i] == e && PairedAt(g, x, i);
        assert r[e.to][e.rev] == g[e.to][e.rev];
      }
    }
  }

  /**
   * add_edge on a self-loop: the back edge names the forward edge as its
   * partner, but the forward edge names itself, so the back edge is left
   * unpaired.
   */
  lemma SelfLoopMisPaired(g: Network, v: nat, cap: int)
    requires Indexed(g) && v < |g|
    ensures var r := Added(g, v, v, cap); var k := |g[v]|;
      Indexed(r) && r[v][k] == Edge(v, k, cap) && r[v][k + 1] == Edge(v, k, 0) && !PairedAt(r, v, k + 1)
  {
    var r := Added(g, v, v, cap);
    var k := |g[v]|;
    assert r[v] == g[v] + [Edge(v, k, cap), Edge(v, k, 0)];
    forall x: nat, i: nat | x < |r| && i < |r[x]| ensures r[x][i].to < |r| && r[x][i].rev < |r[r[x][i].to]| {
      if i < |g[x]| {
        assert r[x][i] == g[x][i];
      }
    }
  }

  /** add_edge keeps capacities non-negative when the new one is. */
  lemma AddedNonNegative(g: Network, from: nat, to: nat, cap: int)
    requires NonNegative(g) && from < |g| && to < |g| && cap >= 0
    ensures NonNegative(Added(g, from, to, cap))
  {
    var r: Network := Added(g, from, to, cap);
    forall x: nat, i: nat | x < |r| && i < |r[x]| ensures r[x][i].cap >= 0 {
      if i < |g[x]| {
        assert r[x][i] == g[x][i];
      }
    }
  }

  /** The total residual capacity on a vertex's list. */
  function CapSum(list: seq<Edge>): int {
    if list == [] then 0 else CapSum(list[..|list| - 1]) + list[|list| - 1].cap
  }

  lemma {:induction false} CapSumNonNegative(list: seq<Edge>)
    requires forall i :: 0 <= i < |list| ==> list[i].cap >= 0
    ensures CapSum(list) >= 0
  {
    if list != [] {
      CapSumNonNegative(list[..|list| - 1]);
    }
  }

  /**
   * h is g after d units of flow left v and reached t: every vertex keeps its
   * total residual capacity except v, which loses d, and t, which gains d.
   */
  ghost predicate Moved(g: Network, h: Network, v: nat, t: nat, d: int) {
    |h| == |g|
    && forall x {:trigger CapSum(h[x])} :: 0 <= x < |g| ==> CapSum(h[x]) == CapSum(g[x]) - (if x == v then d else 0) + (if x == t then d else 0)
  }

  /** d units carried from v to w and then on from w to t have gone from v to t. */
  lemma MovedChain(g: Network, h: Network, k: Network, v: nat, w: nat, t: nat, d: int)
    requires Moved(g, h, w, t, d) && Moved(h, k, v, w, d)
    ensures Moved(g, k, v, t, d)
  {
  }

  /** Two successive transfers from v to t add up. */
  lemma MovedAdd(g: Network, h: Network, k: Network, v: nat, t: nat, d: int, e: int)
    requires Moved(g, h, v, t, d) && Moved(h, k, v, t, e)
    ensures Moved(g, k, v, t, d + e)
  {
  }

  /** The source of a transfer to another vertex has lost exactly what was transferred. */
  lemma MovedSource(g: Network, h: Network, s: nat, t: nat, d: int)
    requires Moved(g, h, s, t, d) && s < |g| && s != t
    ensures CapSum(h[s]) == CapSum(g[s]) - d
  {
  }

  /** Changing one capacity changes the total by the same amount. */
  lemma {:induction false} CapSumUpdate(list: seq<Edge>, i: nat, c: int)
    requires i < |list|
    ensures CapSum(list[i := list[i].(cap := c)]) == CapSum(list) - list[i].cap + c
  {
    var l2 := list[i := list[i].(cap := c)];
    var n := |list|;
    if i < n - 1 {
      assert l2[..n - 1] == list[..n - 1][i := list[i].(cap := c)];
      CapSumUpdate(list[..n - 1], i, c);
    } else {
      assert l2[..n - 1] == list[..n - 1];
    }
  }

  // ---------------------------------------------------------------------------
  // Levels and the augmenting step

  /** Every level is -1 (unreached) or below the number of vertices. */
  ghost predicate LevelsBounded(g: Network, level: seq<int>) {
    |level| == |g| && forall x :: 0 <= x < |g| ==> -1 <= level[x] < |g|
  }

  /** An edge dfs may follow: positive capacity, into a strictly higher level. */
  ghost predicate Admissible(g: Network, level: seq<int>, x: nat, i: nat)
    requires Indexed(g) && |level| == |g| && x < |g| && i < |g[x]|
  {
    g[x][i].cap > 0 && level[x] < level[g[x][i].to]
  }

  /** No admissible path leads from w to t. */
  ghost predicate Dead(g: Network, level: seq<int>, t: nat, w: nat)
    requires Indexed(g) && LevelsBounded(g, level) && w < |g|
    decreases |g| - level[w]
  {
    w != t
    && forall i {:trigger Admissible(g, level, w, i)} :: 0 <= i < |g[w]| && Admissible(g, level, w, i) ==> Dead(g, level, t, g[w][i].to)
  }

  /** h has the shape of g and no admissible edge that g lacks. */
  ghost predicate Shrinks(g: Network, h: Network, level: seq<int>) {
    Indexed(g) && SameShape(g, h) && |level| == |g|
    && forall x: nat, i: nat {:trigger Admissible(h, level, x, i)} :: x < |g| && i < |g[x]| && Admissible(h, level, x, i) ==> Admissible(g, level, x, i)
  }

  lemma ShrinksTrans(g: Network, h: Network, k: Network, level: seq<int>)
    requires Shrinks(g, h, level) && Shrinks(h, k, level)
    ensures Shrinks(g, k, level)
  {
  }

  /** A vertex with no admissible path stays so when admissible edges are only lost. */
  lemma {:induction false} DeadShrinks(g: Network, h: Network, level: seq<int>, t: nat, w: nat)
    requires Shrinks(g, h, level) && LevelsBounded(g, level) && w < |g| && Dead(g, level, t, w)
    ensures Dead(h, level, t, w)
    decreases |g| - level[w]
  {
    forall i | 0 <= i < |h[w]| && Admissible(h, level, w, i) ensures Dead(h, level, t, h[w][i].to) {
      DeadShrinks(g, h, level, t, g[w][i].to);
    }
  }

  /** Every edge iter[x] has passed over is not admissible or leads to a dead vertex. */
  ghost predicate Blocked(g: Network, level: seq<int>, iter: seq<nat>, t: nat)
    requires Indexed(g) && LevelsBounded(g, level)
  {
    |iter| == |g|
    && forall x: nat, j: nat {:trigger Admissible(g, level, x, j)} :: x < |g| && j < |g[x]| && j < iter[x] ==>
      !Admissible(g, level, x, j) || Dead(g, level, t, g[x][j].to)
  }

  lemma BlockedShrinks(g: Network, h: Network, level: seq<int>, iter: seq<nat>, t: nat)
    requires Shrinks(g, h, level) && LevelsBounded(g, level) && Blocked(g, level, iter, t)
    ensures Blocked(h, level, iter, t)
  {
    forall x: nat, j: nat | x < |h| && j < |h[x]| && j < iter[x] && Admissible(h, level, x, j)
      ensures Dead(h, level, t, h[x][j].to)
    {
      DeadShrinks(g, h, level, t, g[x][j].to);
    }
  }

  /** The cursor of v may pass an edge that is not admissible or leads to a dead vertex. */
  lemma BlockedAdvance(g: Network, level: seq<int>, iter: seq<nat>, t: nat, v: nat)
    requires Indexed(g) && LevelsBounded(g, level) && Blocked(g, level, iter, t) && v < |g| && iter[v] < |g[v]|
    requires !Admissible(g, level, v, iter[v]) || Dead(g, level, t, g[v][iter[v]].to)
    ensures Blocked(g, level, iter[v := iter[v] + 1], t)
  {
  }

  /** A vertex other than t whose cursor has passed its whole list is dead. */
  lemma BlockedDead(g: Network, level: seq<int>, iter: seq<nat>, t: nat, v: nat)
    requires Indexed(g) && LevelsBounded(g, level) && Blocked(g, level, iter, t) && v < |g| && v != t && iter[v] >= |g[v]|
    ensures Dead(g, level, t, v)
  {
  }

  /** The augmenting step of dfs: d units leave edge i of v and return on its partner. */
  function Augmented(g: Network, v: nat, i: nat, d: int): (r: Network)
    requires Indexed(g) && v < |g| && i < |g[v]|
    ensures |r| == |g|
  {
    var e := g[v][i];
    var g1 := g[v := g[v][i := e.(cap := e.cap - d)]];
    var back := g1[e.to][e.rev];
    g1[e.to := g1[e.to][e.rev := back.(cap := back.cap + d)]]
  }

  /** The capacity of edge i of x plus that of the edge it names as its partner. */
  ghost function PairSum(g: Network, x: nat, i: nat): int
    requires Indexed(g) && x < |g| && i < |g[x]|
  {
    g[x][i].cap + g[g[x][i].to][g[x][i].rev].cap
  }

  /** h is g with flow moved along edges: same shape, and every pair of partner edges keeps its joint capacity. */
  ghost predicate Conserved(g: Network, h: Network) {
    Indexed(g) && SameShape(g, h)
    && forall x: nat, i: nat {:trigger PairSum(h, x, i)} :: x < |g| && i < |g[x]| && g[x][i].to != x ==> PairSum(h, x, i) == PairSum(g, x, i)
  }

  lemma ConservedTrans(g: Network, h: Network, k: Network)
    requires Conserved(g, h) && Conserved(h, k)
    ensures Conserved(g, k)
  {
  }

  /** Only the two capacities touched by the augmenting step differ. */
  lemma AugmentEntries(g: Network, v: nat, i: nat, d: int)
    requires Indexed(g) && v < |g| && i < |g[v]| && g[v][i].to != v
    ensures var r := Augmented(g, v, i, d); var e := g[v][i];
      SameShape(g, r)
      && r[v][i].cap == e.cap - d
      && r[e.to][e.rev].cap == g[e.to][e.rev].cap + d
      && forall x: nat, j: nat :: x < |g| && j < |g[x]| && (x, j) != (v, i) && (x, j) != (e.to, e.rev) ==> r[x][j] == g[x][j]
  {
    var r := Augmented(g, v, i, d);
    var e := g[v][i];
    assert r[v] == g[v][i := e.(cap := e.cap - d)];
    assert r[e.to] == g[e.to][e.rev := g[e.to][e.rev].(cap := g[e.to][e.rev].cap + d)];
  }

  /** The augmenting step keeps capacities non-negative and only loses admissible edges. */
  lemma AugmentShape(g: Network, level: seq<int>, v: nat, i: nat, d: int)
    requires Paired(g) && NonNegative(g) && |level| == |g| && v < |g| && i < |g[v]|
    requires Admissible(g, level, v, i) && 0 < d <= g[v][i].cap
    ensures var r := Augmented(g, v, i, d);
      Paired(r) && NonNegative(r) && Shrinks(g, r, level)
  {
    var r := Augmented(g, v, i, d);
    var e := g[v][i];
    assert e.to != v && PairedAt(g, v, i);
    AugmentEntries(g, v, i, d);
    PairedShape(g, r);
    forall x: nat, j: nat | x < |g| && j < |g[x]| ensures r[x][j].cap >= 0 {
    }
    assert r[e.to][e.rev].to == v && !Admissible(r, level, e.to, e.rev);
    forall x: nat, j: nat | x < |g| && j < |g[x]| && Admissible(r, level, x, j) ensures Admissible(g, level, x, j) {
    }
  }

  /** The augmenting step moves d units of residual capacity from v's list to its head's list. */
  lemma AugmentSums(g: Network, v: nat, i: nat, d: int)
    requires Indexed(g) && v < |g| && i < |g[v]| && g[v][i].to != v
    ensures Moved(g, Augmented(g, v, i, d), v, g[v][i].to, d)
  {
    var r := Augmented(g, v, i, d);
    var e := g[v][i];
    var back := g[e.to][e.rev];
    assert r[v] == g[v][i := e.(cap := e.cap - d)];
    assert r[e.to] == g[e.to][e.rev := back.(cap := back.cap + d)];
    CapSumUpdate(g[v], i, e.cap - d);
    CapSumUpdate(g[e.to], e.rev, back.cap + d);
  }

  /** The augmenting step keeps the joint capacity of every pair of partner edges. */
  lemma AugmentConserved(g: Network, v: nat, i: nat, d: int)
    requires Paired(g) && v < |g| && i < |g[v]| && g[v][i].to != v
    ensures Conserved(g, Augmented(g, v, i, d))
  {
    var r := Augmented(g, v, i, d);
    var e := g[v][i];
    var w := e.to;
    assert PairedAt(g, v, i);
    assert r[v] == g[v][i := e.(cap := e.cap - d)];
    assert r[w] == g[w][e.rev := g[w][e.rev].(cap := g[w][e.rev].cap + d)];
    assert SameShape(g, r);
    forall x: nat, j: nat | x < |g| && j < |g[x]| && g[x][j].to != x ensures PairSum(r, x, j) == PairSum(g, x, j) {
      assert PairedAt(g, x, j);
      if (x, j) != (v, i) && (x, j) != (w, e.rev) {
        assert r[x][j] == g[x][j];
        var y, k := g[x][j].to, g[x][j].rev;
        assert (y, k) != (v, i) && (y, k) != (w, e.rev);
        assert r[y][k] == g[y][k];
      }
    }
  }

  // ---------------------------------------------------------------------------
  // Reachability in the residual network

  /** Some edge of x with positive residual capacity leads to y. */
  ghost predicate Step(g: Network, x: nat, y: nat) {
    x < |g| && exists i :: 0 <= i < |g[x]| && g[x][i].to == y && g[x][i].cap > 0
  }

  /** A walk from s to x along edges with positive residual capacity. */
  ghost predicate PathFrom(g: Network, s: nat, x: nat, p: seq<nat>) {
    |p| > 0 && p[0] == s && p[|p| - 1] == x
    && forall k :: 0 <= k < |p| - 1 ==> Step(g, p[k], p[k + 1])
  }

  /** x can be reached from s in the residual network. */
  ghost predicate Reachable(g: Network, s: nat, x: nat) {
    exists p :: PathFrom(g, s, x, p)
  }

  /** A set of vertices that no positive-capacity edge leaves. */
  ghost predicate Closed(g: Network, seen: set<nat>) {
    forall x: nat, i: nat :: x in seen && x < |g| && i < |g[x]| && g[x][i].cap > 0 ==> g[x][i].to in seen
  }

  /** A closed set holding s holds everything reachable from s. */
  lemma ClosedReach(g: Network, seen: set<nat>, s: nat, x: nat)
    requires Closed(g, seen) && s in seen && Reachable(g, s, x)
    ensures x in seen
  {
    var p :| PathFrom(g, s, x, p);
    for k := 0 to |p|
      invariant forall j :: 0 <= j < k ==> p[j] in seen
    {
      if k > 0 {
        assert Step(g, p[k - 1], p[k]);
      }
    }
  }

  /** A walk extends by one positive-capacity edge. */
  lemma PathSnoc(g: Network, s: nat, x: nat, p: seq<nat>, i: nat)
    requires PathFrom(g, s, x, p) && x < |g| && i < |g[x]| && g[x][i].cap > 0
    ensures PathFrom(g, s, g[x][i].to, p + [g[x][i].to])
  {
    var q := p + [g[x][i].to];
    forall k | 0 <= k < |q| - 1 ensures Step(g, q[k], q[k + 1]) {
      if k < |p| - 1 {
        assert q[k] == p[k] && q[k + 1] == p[k + 1];
      }
    }
  }

  /** A walk from s to x whose k-th vertex has level k. */
  ghost predicate LevelPath(g: Network, level: seq<int>, s: nat, x: nat, p: seq<nat>)
    requires |level| == |g| && x < |g|
  {
    PathFrom(g, s, x, p) && |p| == level[x] + 1
    && forall k :: 0 <= k < |p| ==> p[k] < |g| && level[p[k]] == k
  }

  /** Every vertex with a level has a level walk from s. */
  ghost predicate LevelPaths(g: Network, level: seq<int>, s: nat)
    requires |level| == |g|
  {
    forall x: nat :: x < |g| && level[x] >= 0 ==> exists p :: LevelPath(g, level, s, x, p)
  }

  /** Giving an unreached head of a positive edge out of v the level after v's keeps every level walk. */
  lemma LevelPathsGrow(g: Network, level: seq<int>, s: nat, v: nat, i: nat)
    requires |level| == |g| && LevelPaths(g, level, s) && Indexed(g)
    requires v < |g| && level[v] >= 0 && i < |g[v]| && g[v][i].cap > 0 && level[g[v][i].to] < 0
    ensures LevelPaths(g, level[g[v][i].to := level[v] + 1], s)
  {
    var w := g[v][i].to;
    var lv := level[w := level[v] + 1];
    forall x: nat | x < |g| && lv[x] >= 0 ensures exists p :: LevelPath(g, lv, s, x, p) {
      if x == w {
        var p :| LevelPath(g, level, s, v, p);
        PathSnoc(g, s, v, p, i);
        assert LevelPath(g, lv, s, w, p + [w]);
      } else {
        var p :| LevelPath(g, level, s, x, p);
        assert forall k :: 0 <= k < |p| ==> p[k] != w;
        assert LevelPath(g, lv, s, x, p);
      }
    }
  }

  /**
   * What bfs leaves: s has level 0, every vertex with a level is reached by
   * a walk climbing one level per edge, and no positive-capacity edge
   * leaves the vertices with a level.
   */
  ghost predicate Layered(g: Network, level: seq<int>, s: nat) {
    Indexed(g) && LevelsBounded(g, level) && s < |g| && level[s] == 0
    && LevelPaths(g, level, s)
    && forall x: nat, i: nat :: x < |g| && level[x] >= 0 && i < |g[x]| && g[x][i].cap > 0 ==> level[g[x][i].to] >= 0
  }

  /** After bfs, exactly the vertices reachable from s have a level. */
  lemma LayeredReach(g: Network, level: seq<int>, s: nat, x: nat)
    requires Layered(g, level, s) && x < |g|
    ensures level[x] >= 0 <==> Reachable(g, s, x)
  {
    var seen := set y: nat | y < |g| && level[y] >= 0;
    assert s in seen;
    if Reachable(g, s, x) {
      ClosedReach(g, seen, s, x);
    }
    if level[x] >= 0 {
      var p :| LevelPath(g, level, s, x, p);
    }
  }

  /** Along a level walk that ends at t, no vertex is dead. */
  lemma {:induction false} AliveAlong(g: Network, level: seq<int>, s: nat, t: nat, p: seq<nat>, k: nat)
    requires Indexed(g) && LevelsBounded(g, level) && t < |g| && LevelPath(g, level, s, t, p) && k < |p|
    ensures !Dead(g, level, t, p[k])
    decreases |p| - k
  {
    if k < |p| - 1 {
      AliveAlong(g, level, s, t, p, k + 1);
      assert Step(g, p[k], p[k + 1]);
      var i :| 0 <= i < |g[p[k]]| && g[p[k]][i].to == p[k + 1] && g[p[k]][i].cap > 0;
      assert Admissible(g, level, p[k], i);
    }
  }

  /** If bfs gave t a level, an admissible path leads from s to t. */
  lemma LayeredAlive(g: Network, level: seq<int>, s: nat, t: nat)
    requires Layered(g, level, s) && t < |g| && level[t] >= 0
    ensures !Dead(g, level, t, s)
  {
    var p :| LevelPath(g, level, s, t, p);
    AliveAlong(g, level, s, t, p, 0);
  }
}
