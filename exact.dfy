// Exact.cpp: Dinic's maximum flow over paired residual edges, the flow
// network of the densest-subgraph test and the residual cut read off it.

module Exact {
  import opened Util
  import opened Residual

  /** The capacity dfs starts from at the source. */
  const INF: int := 1000000000

  function Min(a: int, b: int): (m: int)
    ensures m <= a && m <= b && (m == a || m == b)
  {
    if a < b then a else b
  }

  /**
   * The state dfs works in: paired edges with non-negative capacities,
   * levels in range, and cursors that have passed only blocked edges.
   */
  ghost predicate Blocking(g: Network, level: seq<int>, iter: seq<nat>, t: nat) {
    Paired(g) && NonNegative(g) && LevelsBounded(g, level) && t < |g| && Blocked(g, level, iter, t)
  }

  /**
   * h is g after d units went from v to t: no admissible edge was gained,
   * partner pairs kept their joint capacity and only v's and t's capacity
   * sums changed, by d.
   */
  ghost predicate Transfer(g: Network, h: Network, level: seq<int>, v: nat, t: nat, d: int) {
    Shrinks(g, h, level) && Conserved(g, h) && Moved(g, h, v, t, d)
  }

  /** Vertices on a level below v's keep their edge lists and their cursors. */
  ghost predicate LowerKept(g: Network, h: Network, iter: seq<nat>, iter': seq<nat>, level: seq<int>, v: nat) {
    |h| == |g| && |level| == |g| && |iter| == |g| && |iter'| == |g| && v < |g|
    && forall x :: 0 <= x < |g| && level[x] < level[v] ==> h[x] == g[x] && iter'[x] == iter[x]
  }

  /** Nothing moved, or flow from t to itself: the network is unchanged. */
  lemma TransferNone(g: Network, level: seq<int>, v: nat, t: nat, d: int)
    requires Indexed(g) && |level| == |g| && (v == t || d == 0)
    ensures Transfer(g, g, level, v, t, d)
  {
  }

  lemma TransferAdd(g: Network, h: Network, k: Network, level: seq<int>, v: nat, t: nat, d: int, e: int)
    requires Transfer(g, h, level, v, t, d) && Transfer(h, k, level, v, t, e)
    ensures Transfer(g, k, level, v, t, d + e)
  {
    ShrinksTrans(g, h, k, level);
    ConservedTrans(g, h, k);
    MovedAdd(g, h, k, v, t, d, e);
  }

  lemma LowerKeptTrans(g: Network, h: Network, k: Network, i0: seq<nat>, i1: seq<nat>, i2: seq<nat>, level: seq<int>, v: nat)
    requires LowerKept(g, h, i0, i1, level, v) && LowerKept(h, k, i1, i2, level, v)
    ensures LowerKept(g, k, i0, i2, level, v)
  {
  }

  /** What is kept below a higher level is kept below a lower one. */
  lemma LowerKeptBelow(g: Network, h: Network, i0: seq<nat>, i1: seq<nat>, level: seq<int>, w: nat, v: nat)
    requires LowerKept(g, h, i0, i1, level, w) && v < |g| && level[v] < level[w]
    ensures LowerKept(g, h, i0, i1, level, v) && h[v] == g[v] && i1[v] == i0[v]
  {
  }

  /** Augmenting an admissible edge of the dfs state keeps the dfs state. */
  lemma AugmentBlocking(g: Network, level: seq<int>, iter: seq<nat>, t: nat, v: nat, i: nat, f: int)
    requires Blocking(g, level, iter, t) && v < |g| && i < |g[v]| && Admissible(g, level, v, i) && 0 < f <= g[v][i].cap
    ensures Blocking(Augmented(g, v, i, f), level, iter, t) && Shrinks(g, Augmented(g, v, i, f), level)
  {
    AugmentShape(g, level, v, i, f);
    BlockedShrinks(g, Augmented(g, v, i, f), level, iter, t);
  }

  /** Augmenting edge i of v, whose head w already passed f units on to t, carries them from v to t. */
  lemma AugmentTransfer(g0: Network, g1: Network, level: seq<int>, t: nat, v: nat, i: nat, f: int)
    requires Paired(g1) && NonNegative(g1) && |level| == |g1| && v < |g1| && i < |g1[v]| && Admissible(g1, level, v, i) && 0 < f <= g1[v][i].cap
    requires Transfer(g0, g1, level, g1[v][i].to, t, f)
    ensures Transfer(g0, Augmented(g1, v, i, f), level, v, t, f)
  {
    var g2 := Augmented(g1, v, i, f);
    AugmentShape(g1, level, v, i, f);
    AugmentSums(g1, v, i, f);
    AugmentConserved(g1, v, i, f);
    ShrinksTrans(g0, g1, g2, level);
    ConservedTrans(g0, g1, g2);
    MovedChain(g0, g1, g2, v, g1[v][i].to, t, f);
  }

  /** Augmenting an edge from v into a higher level touches no vertex below v's level. */
  lemma AugmentKept(g0: Network, g1: Network, level: seq<int>, iter0: seq<nat>, iter: seq<nat>, v: nat, i: nat, f: int)
    requires Indexed(g1) && |level| == |g1| && v < |g1| && i < |g1[v]| && g1[v][i].to != v && level[v] < level[g1[v][i].to]
    requires LowerKept(g0, g1, iter0, iter, level, g1[v][i].to)
    ensures LowerKept(g0, Augmented(g1, v, i, f), iter0, iter, level, v)
  {
    var w := g1[v][i].to;
    var g2 := Augmented(g1, v, i, f);
    AugmentEntries(g1, v, i, f);
    forall x | 0 <= x < |g0| && level[x] < level[v] ensures g2[x] == g0[x] && iter[x] == iter0[x] {
      assert x != v && x != w;
      assert g2[x] == g1[x];
    }
  }

  /**
   * The state of bfs from s: levels, the queue and the set of vertices with
   * a level. Every queued vertex has a level, every level is below the
   * number of levelled vertices, and every level is witnessed by a path.
   */
  ghost predicate Frontier(net: Network, s: nat, lv: seq<int>, q: seq<nat>, seen: set<nat>) {
    |lv| == |net| && s < |net| && lv[s] == 0
    && (forall x: nat :: x in seen <==> x < |net| && lv[x] >= 0)
    && (forall x :: 0 <= x < |net| ==> -1 <= lv[x] < |seen|)
    && NoDup(q) && (forall k :: 0 <= k < |q| ==> q[k] in seen)
    && LevelPaths(net, lv, s)
  }

  /**
   * The inner loop of bfs for the vertex v just taken off the queue: every
   * head of a positive-capacity edge of v without a level gets the level
   * after v's and joins the queue.
   */
  method Relax(net: Network, s: nat, v: nat, lv: seq<int>, q: seq<nat>, ghost seen: set<nat>)
    returns (lv': seq<int>, q': seq<nat>, ghost seen': set<nat>)
    requires Indexed(net) && v < |net| && Frontier(net, s, lv, q, seen) && v in seen && v !in q
    requires forall x: nat, j: nat :: x in seen && x !in q && x != v && j < |net[x]| && net[x][j].cap > 0 ==> lv[net[x][j].to] >= 0
    ensures Frontier(net, s, lv', q', seen') && v in seen' && v !in q'
    ensures forall x: nat, j: nat :: x in seen' && x !in q' && j < |net[x]| && net[x][j].cap > 0 ==> lv'[net[x][j].to] >= 0
    ensures |seen'| >= |seen| && (|seen'| == |seen| ==> q' == q)
  {
    lv', q', seen' := lv, q, seen;
    for i := 0 to |net[v]|
      invariant Frontier(net, s, lv', q', seen') && v in seen' && v !in q'
      invariant forall x: nat, j: nat :: x in seen' && x !in q' && x != v && j < |net[x]| && net[x][j].cap > 0 ==> lv'[net[x][j].to] >= 0
      invariant forall j :: 0 <= j < i && net[v][j].cap > 0 ==> lv'[net[v][j].to] >= 0
      invariant |seen'| >= |seen| && (|seen'| == |seen| ==> q' == q)
    {
      var e := net[v][i];
      if e.cap > 0 && lv'[e.to] < 0 {
        LevelPathsGrow(net, lv', s, v, i);
        lv' := lv'[e.to := lv'[v] + 1];
        NoDupSnoc(q', e.to);
        q' := q' + [e.to];
        seen' := seen' + {e.to};
      }
    }
  }

  /** Dinic's algorithm: edge lists g, bfs levels and the per-vertex dfs cursor iter. */
  class MaxFlow {
    var g: Network
    var level: seq<int>
    var iter: seq<nat>

    constructor(n: nat)
      ensures g == seq(n, _ => []) && level == seq(n, _ => 0) && iter == seq(n, _ => 0)
    {
      g := seq(n, _ => []);
      level := seq(n, _ => 0);
      iter := seq(n, _ => 0);
    }

    /** add_edge: the forward edge and its zero-capacity partner. */
    method AddEdge(from: nat, to: nat, cap: int)
      requires from < |g| && to < |g|
      modifies this
      ensures g == Added(old(g), from, to, cap) && level == old(level) && iter == old(iter)
    {
      g := g[from := g[from] + [Edge(to, |g[to]|, cap)]];
      g := g[to := g[to] + [Edge(from, |g[from]| - 1, 0)]];
    }

    /**
     * bfs: levels by breadth-first search from s over edges with positive
     * residual capacity; unreached vertices keep level -1.
     */
    method Bfs(s: nat)
      requires Indexed(g) && s < |g|
      modifies this
      ensures g == old(g) && iter == old(iter) && Layered(g, level, s)
    {
      var net := g;
      var n := |net|;
      var lv: seq<int> := seq(n, _ => -1);
      lv := lv[s := 0];
      var q: seq<nat> := [s];
      ghost var seen: set<nat> := {s};
      assert LevelPath(net, lv, s, s, [s]);
      while q != []
        invariant Frontier(net, s, lv, q, seen)
        invariant forall x: nat, i: nat :: x in seen && x !in q && i < |net[x]| && net[x][i].cap > 0 ==> lv[net[x][i].to] >= 0
        invariant g == old(g) && iter == old(iter)
        decreases n - |seen|, |q|
      {
        BoundedSetSize(seen, n);
        var v := q[0];
        lv, q, seen := Relax(net, s, v, lv, q[1..], seen);
        BoundedSetSize(seen, n);
      }
      BoundedSetSize(seen, n);
      level := lv;
    }

    /**
     * dfs: push up to upTo units from v towards t along admissible edges,
     * resuming each vertex's scan where iter left it.
     */
    method Dfs(v: nat, t: nat, upTo: int) returns (d: int)
      requires Blocking(g, level, iter, t) && v < |g| && upTo > 0
      modifies this
      decreases |g| - level[v], 1, 0
      ensures level == old(level) && Blocking(g, level, iter, t)
      ensures 0 <= d <= upTo && Transfer(old(g), g, level, v, t, d)
      ensures d == 0 ==> g == old(g) && Dead(g, level, t, v)
      ensures LowerKept(old(g), g, old(iter), iter, level, v)
    {
      if v == t {
        TransferNone(g, level, v, t, upTo);
        return upTo;
      }
      while iter[v] < |g[v]|
        invariant g == old(g) && level == old(level) && Blocking(g, level, iter, t)
        invariant LowerKept(old(g), g, old(iter), iter, level, v)
        decreases |g[v]| - iter[v]
      {
        ghost var iter1 := iter;
        d := Visit(v, t, upTo);
        LowerKeptTrans(old(g), old(g), g, old(iter), iter1, iter, level, v);
        if d > 0 {
          return;
        }
      }
      BlockedDead(g, level, iter, t, v);
      TransferNone(g, level, v, t, 0);
      return 0;
    }

    /**
     * One turn of dfs's scan of v: the edge under v's cursor is explored
     * when it is admissible and skipped otherwise.
     */
    method Visit(v: nat, t: nat, upTo: int) returns (f: int)
      requires Blocking(g, level, iter, t) && v < |g| && v != t && upTo > 0 && iter[v] < |g[v]|
      modifies this
      decreases |g| - level[v], 0, 1
      ensures level == old(level) && Blocking(g, level, iter, t)
      ensures 0 <= f <= upTo
      ensures f == 0 ==> g == old(g) && iter[v] == old(iter)[v] + 1
      ensures f > 0 ==> Transfer(old(g), g, level, v, t, f)
      ensures LowerKept(old(g), g, old(iter), iter, level, v)
    {
      var i := iter[v];
      var e := g[v][i];
      if e.cap > 0 && level[v] < level[e.to] {
        f := Explore(v, t, upTo);
      } else {
        Skip(v, t);
        f := 0;
      }
    }

    /**
     * dfs's exploration of the admissible edge under v's cursor: dfs from its
     * head; a successful push moves the amount through the edge and returns
     * it, otherwise the cursor moves on.
     */
    method Explore(v: nat, t: nat, upTo: int) returns (f: int)
      requires Blocking(g, level, iter, t) && v < |g| && upTo > 0 && iter[v] < |g[v]|
      requires Admissible(g, level, v, iter[v])
      modifies this
      decreases |g| - level[v], 0, 0
      ensures level == old(level) && Blocking(g, level, iter, t)
      ensures 0 <= f <= upTo
      ensures f == 0 ==> g == old(g) && iter[v] == old(iter)[v] + 1
      ensures f > 0 ==> Transfer(old(g), g, level, v, t, f)
      ensures LowerKept(old(g), g, old(iter), iter, level, v)
    {
      var i := iter[v];
      var e := g[v][i];
      f := Dfs(e.to, t, Min(upTo, e.cap));
      LowerKeptBelow(old(g), g, old(iter), iter, level, e.to, v);
      if f > 0 {
        ghost var g1 := g;
        Push(v, i, f);
        AugmentBlocking(g1, level, iter, t, v, i, f);
        AugmentTransfer(old(g), g1, level, t, v, i, f);
        AugmentKept(old(g), g1, level, old(iter), iter, v, i, f);
      } else {
        ghost var iter1 := iter;
        Skip(v, t);
        LowerKeptTrans(old(g), g, g, old(iter), iter1, iter, level, v);
      }
    }

    /** dfs moves v's cursor past an edge that cannot carry flow to t. */
    method Skip(v: nat, t: nat)
      requires Blocking(g, level, iter, t) && v < |g| && iter[v] < |g[v]|
      requires !Admissible(g, level, v, iter[v]) || Dead(g, level, t, g[v][iter[v]].to)
      modifies this
      ensures g == old(g) && level == old(level) && iter == old(iter)[v := old(iter)[v] + 1]
      ensures Blocking(g, level, iter, t) && LowerKept(g, g, old(iter), iter, level, v)
    {
      BlockedAdvance(g, level, iter, t, v);
      iter := iter[v := iter[v] + 1];
    }

    /** The two in-place capacity updates of dfs's augmenting step. */
    method Push(v: nat, i: nat, f: int)
      requires Indexed(g) && v < |g| && i < |g[v]|
      modifies this
      ensures g == Augmented(old(g), v, i, f) && level == old(level) && iter == old(iter)
    {
      var e := g[v][i];
      g := g[v := g[v][i := e.(cap := e.cap - f)]];
      var back := g[e.to][e.rev];
      g := g[e.to := g[e.to][e.rev := back.(cap := back.cap + f)]];
    }

    /**
     * max_flow: phases of bfs then repeated dfs from s with the cursors
     * reset, until bfs no longer reaches t.
     */
    method Flow(s: nat, t: nat) returns (flow: int)
      requires Paired(g) && NonNegative(g) && |level| == |g| && |iter| == |g| && s < |g| && t < |g| && s != t
      modifies this
      ensures flow >= 0 && Paired(g) && NonNegative(g) && Conserved(old(g), g)
      ensures Moved(old(g), g, s, t, flow)
      ensures !Reachable(g, s, t)
    {
      flow := 0;
      ghost var g0 := g;
      CapSumNonNegative(g[s]);
      while true
        invariant Paired(g) && NonNegative(g) && Conserved(g0, g) && |iter| == |g| && flow >= 0
        invariant Moved(g0, g, s, t, flow) && CapSum(g[s]) >= 0
        decreases CapSum(g[s])
      {
        Bfs(s);
        if level[t] < 0 {
          LayeredReach(g, level, s, t);
          break;
        }
        ghost var before := g;
        var f := Phase(s, t);
        ConservedTrans(g0, before, g);
        MovedAdd(g0, before, g, s, t, flow, f);
        flow := flow + f;
      }
    }

    /**
     * One phase of max_flow: the cursors are reset and dfs is repeated from
     * s until it returns 0. The first call succeeds because bfs reached t.
     */
    method Phase(s: nat, t: nat) returns (pushed: int)
      requires Paired(g) && NonNegative(g) && Layered(g, level, s) && s < |g| && t < |g| && s != t && level[t] >= 0
      modifies this
      ensures pushed > 0 && |iter| == |g| && level == old(level)
      ensures Paired(g) && NonNegative(g) && Transfer(old(g), g, level, s, t, pushed)
      ensures 0 <= CapSum(g[s]) < CapSum(old(g)[s])
    {
      iter := seq(|g|, _ => 0);
      LayeredAlive(g, level, s, t);
      var f := Dfs(s, t, INF);
      pushed := Drain(s, t, old(g), f);
    }

    /**
     * The rest of a phase after a first dfs that moved first units: dfs is
     * repeated from s until it returns 0.
     */
    method Drain(s: nat, t: nat, ghost g0: Network, first: int) returns (pushed: int)
      requires Blocking(g, level, iter, t) && s < |g| && s != t && first > 0
      requires Transfer(g0, g, level, s, t, first)
      modifies this
      ensures pushed >= first && |iter| == |g| && level == old(level)
      ensures Paired(g) && NonNegative(g) && Transfer(g0, g, level, s, t, pushed)
      ensures 0 <= CapSum(g[s]) < CapSum(g0[s])
    {
      var f := first;
      pushed := 0;
      MovedSource(g0, g, s, t, f);
      while f > 0
        invariant level == old(level) && Blocking(g, level, iter, t) && f >= 0 && pushed >= 0 && pushed + f >= first
        invariant Transfer(g0, g, level, s, t, pushed + f)
        invariant CapSum(g[s]) == CapSum(g0[s]) - (pushed + f)
        decreases CapSum(g[s]) + (if f > 0 then 1 else 0)
      {
        pushed := pushed + f;
        ghost var before := g;
        CapSumNonNegative(g[s]);
        f := Dfs(s, t, INF);
        MovedSource(before, g, s, t, f);
        TransferAdd(g0, before, g, level, s, t, pushed, f);
      }
      CapSumNonNegative(g[s]);
    }
  }
}
