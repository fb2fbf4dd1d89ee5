// Exact.cpp, class DensestSubgraph: the edge store of the graph, the flow
// network build_and_solve_flow hands to MaxFlow, and the cut it reads off
// the residual network.

module Densest {
  import opened Util
  import opened Residual
  import opened Exact

  // ---------------------------------------------------------------------------
  // Adjacency lists as add_edge builds them

  /**
   * The adjacency list of x after the edges in order: each edge (u, v)
   * appends v to u's list and then u to v's list, so a self-loop appears
   * twice.
   */
  function NbrList(edges: seq<(nat, nat)>, x: nat): seq<nat> {
    if edges == [] then []
    else
      var e := edges[|edges| - 1];
      NbrList(edges[..|edges| - 1], x) + (if e.0 == x then [e.1] else []) + (if e.1 == x then [e.0] else [])
  }

  /** Every endpoint names one of the n vertices. */
  predicate Endpoints(edges: seq<(nat, nat)>, n: nat) {
    forall k :: 0 <= k < |edges| ==> edges[k].0 < n && edges[k].1 < n
  }

  /** deg[0] + ... + deg[k-1]. */
  function SumOf(deg: seq<nat>, k: nat): nat
    requires k <= |deg|
  {
    if k == 0 then 0 else SumOf(deg, k - 1) + deg[k - 1]
  }

  /** The total length of the lists NbrList builds for vertices 0 .. k-1. */
  function NbrSum(edges: seq<(nat, nat)>, k: nat): nat {
    if k == 0 then 0 else NbrSum(edges, k - 1) + |NbrList(edges, k - 1)|
  }

  /** One more edge lengthens the lists below k by its endpoints below k. */
  lemma {:induction false} NbrSumSnoc(edges: seq<(nat, nat)>, e: (nat, nat), k: nat)
    ensures NbrSum(edges + [e], k) == NbrSum(edges, k) + (if e.0 < k then 1 else 0) + (if e.1 < k then 1 else 0)
  {
    var es := edges + [e];
    assert es[..|es| - 1] == edges;
    if k > 0 {
      NbrSumSnoc(edges, e, k - 1);
    }
  }

  lemma {:induction false} NbrSumNone(k: nat)
    ensures NbrSum([], k) == 0
  {
    if k > 0 {
      NbrSumNone(k - 1);
    }
  }

  /** The handshake lemma: the lists hold every edge twice. */
  lemma {:induction false} Handshake(edges: seq<(nat, nat)>, n: nat)
    requires Endpoints(edges, n)
    ensures NbrSum(edges, n) == 2 * |edges|
  {
    if edges != [] {
      var front := edges[..|edges| - 1];
      var e := edges[|edges| - 1];
      assert edges == front + [e];
      assert Endpoints(front, n) && e.0 < n && e.1 < n;
      Handshake(front, n);
      NbrSumSnoc(front, e, n);
    } else {
      NbrSumNone(n);
    }
  }

  /** Lists that agree with NbrList have its total length. */
  lemma {:induction false} DegreeSumNbr(adj: seq<seq<nat>>, edges: seq<(nat, nat)>, k: nat)
    requires k <= |adj| && forall x :: 0 <= x < k ==> adj[x] == NbrList(edges, x)
    ensures SumOf(Lengths(adj), k) == NbrSum(edges, k)
  {
    if k > 0 {
      DegreeSumNbr(adj, edges, k - 1);
    }
  }

  // ---------------------------------------------------------------------------
  // The graph

  /** DensestSubgraph: n vertices, the edge count m, the edges in order and the adjacency lists. */
  class DensestSubgraph {
    var n: nat
    var m: nat
    var edges: seq<(nat, nat)>
    var adj: seq<seq<nat>>

    /** adj is what add_edge built from edges, and m counts them. */
    ghost predicate Valid()
      reads this
    {
      |adj| == n && m == |edges| && Endpoints(edges, n)
      && forall x :: 0 <= x < n ==> adj[x] == NbrList(edges, x)
    }

    constructor(n: nat)
      ensures Valid() && this.n == n && m == 0 && edges == [] && adj == seq(n, _ => [])
    {
      this.n := n;
      m := 0;
      edges := [];
      adj := seq(n, _ => []);
    }

    /** add_edge: v onto u's list, u onto v's list, the pair onto edges, and one more edge counted. */
    method AddEdge(u: nat, v: nat)
      requires Valid() && u < n && v < n
      modifies this
      ensures Valid() && n == old(n) && m == old(m) + 1 && edges == old(edges) + [(u, v)]
      ensures forall x :: 0 <= x < n ==> adj[x] == old(adj)[x] + (if x == u then [v] else []) + (if x == v then [u] else [])
    {
      adj := adj[u := adj[u] + [v]];
      adj := adj[v := adj[v] + [u]];
      edges := edges + [(u, v)];
      assert edges[..|edges| - 1] == old(edges);
      m := m + 1;
    }

    /** The lists hold every edge twice. */
    lemma DegreeTotal()
      requires Valid()
      ensures SumOf(Lengths(adj), n) == 2 * m
    {
      DegreeSumNbr(adj, edges, n);
      Handshake(edges, n);
    }

    /**
     * build_and_solve_flow with the sink capacity given as an integer: the
     * network of the source n and the sink n + 1, max_flow on it, and the
     * cut of the residual network.
     */
    method BuildAndSolveFlow(sinkCap: int) returns (result: seq<nat>, ghost flow: int, ghost residual: Network)
      requires Valid() && sinkCap >= 0
      ensures |residual| == n + 2 && Paired(residual) && NonNegative(residual)
      ensures Conserved(FlowNetwork(Lengths(adj), edges, sinkCap), residual)
      ensures Moved(FlowNetwork(Lengths(adj), edges, sinkCap), residual, n, n + 1, flow) && 0 <= flow <= 2 * m
      ensures !Reachable(residual, n, n + 1)
      ensures Ascending(result) && forall k :: 0 <= k < |result| ==> result[k] < n
      ensures result == [] <==>
        (forall x :: 0 <= x < n ==> Reachable(residual, n, x)) || (forall x :: 0 <= x < n ==> !Reachable(residual, n, x))
      ensures result != [] ==> forall x :: 0 <= x < n ==> (x in result <==> Reachable(residual, n, x))
    {
      var mf := BuildNetwork(sinkCap);
      ghost var net := mf.g;
      FlowNetworkSound(Lengths(adj), edges, sinkCap);
      var f := mf.Flow(n, n + 1);
      flow := f;
      residual := mf.g;
      result := ResidualCut(mf.g, n);
      FlowBound(net, residual, sinkCap, flow);
    }

    /** The two loops of build_and_solve_flow that fill a fresh MaxFlow of n + 2 vertices. */
    method BuildNetwork(sinkCap: int) returns (mf: MaxFlow)
      requires Valid()
      ensures fresh(mf) && mf.g == FlowNetwork(Lengths(adj), edges, sinkCap)
      ensures |mf.level| == n + 2 && |mf.iter| == n + 2
    {
      mf := new MaxFlow(n + 2);
      AddSpokes(mf, Lengths(adj), sinkCap);
      AddLinks(mf, edges);
    }

    /** No flow out of the source exceeds its capacity, the sum of the degrees, 2m. */
    lemma FlowBound(net: Network, residual: Network, sinkCap: int, flow: int)
      requires Valid() && net == FlowNetwork(Lengths(adj), edges, sinkCap) && NonNegative(residual)
      requires Moved(net, residual, n, n + 1, flow)
      ensures flow <= 2 * m
    {
      SourceCapacity(Lengths(adj), edges, sinkCap);
      DegreeTotal();
      MovedSource(net, residual, n, n + 1, flow);
      CapSumNonNegative(residual[n]);
    }
  }

  // ---------------------------------------------------------------------------
  // The flow network of build_and_solve_flow

  /**
   * The first loop of build_and_solve_flow for vertices 0 .. k-1: an edge
   * from the source n to v with capacity deg[v], then one from v to the
   * sink n + 1 with capacity sinkCap.
   */
  function Spokes(g: Network, deg: seq<nat>, sinkCap: int, k: nat): (r: Network)
    requires |g| == |deg| + 2 && k <= |deg|
    ensures |r| == |g|
  {
    if k == 0 then g else Spoke(Spokes(g, deg, sinkCap, k - 1), deg, sinkCap, k - 1)
  }

  /** One round of the first loop: source n to v with capacity deg[v], then v to the sink n + 1. */
  function Spoke(g: Network, deg: seq<nat>, sinkCap: int, v: nat): (r: Network)
    requires |g| == |deg| + 2 && v < |deg|
    ensures |r| == |g|
  {
    var n := |deg|;
    Added(Added(g, n, v, deg[v]), v, n + 1, sinkCap)
  }

  /** The second loop for the first k edges (u, v): an edge each way, capacity 1 each. */
  function Links(g: Network, edges: seq<(nat, nat)>, k: nat): (r: Network)
    requires k <= |edges| && Endpoints(edges, |g|)
    ensures |r| == |g|
  {
    if k == 0 then g
    else
      var e := edges[k - 1];
      Added(Added(Links(g, edges, k - 1), e.0, e.1, 1), e.1, e.0, 1)
  }

  /** The whole network for n vertices: source n, sink n + 1. */
  function FlowNetwork(deg: seq<nat>, edges: seq<(nat, nat)>, sinkCap: int): Network
    requires Endpoints(edges, |deg|)
  {
    Links(Spokes(seq(|deg| + 2, _ => []), deg, sinkCap, |deg|), edges, |edges|)
  }

  /** The first loop of build_and_solve_flow on mf, deg[v] being the degree of v. */
  method AddSpokes(mf: MaxFlow, deg: seq<nat>, sinkCap: int)
    requires |mf.g| == |deg| + 2
    modifies mf
    ensures mf.g == Spokes(old(mf.g), deg, sinkCap, |deg|) && mf.level == old(mf.level) && mf.iter == old(mf.iter)
  {
    var n := |deg|;
    for v := 0 to n
      invariant mf.g == Spokes(old(mf.g), deg, sinkCap, v)
      invariant mf.level == old(mf.level) && mf.iter == old(mf.iter)
    {
      mf.AddEdge(n, v, deg[v]);
      mf.AddEdge(v, n + 1, sinkCap);
    }
  }

  /** The second loop of build_and_solve_flow on mf. */
  method AddLinks(mf: MaxFlow, edges: seq<(nat, nat)>)
    requires Endpoints(edges, |mf.g|)
    modifies mf
    ensures mf.g == Links(old(mf.g), edges, |edges|) && mf.level == old(mf.level) && mf.iter == old(mf.iter)
  {
    for k := 0 to |edges|
      invariant mf.g == Links(old(mf.g), edges, k)
      invariant mf.level == old(mf.level) && mf.iter == old(mf.iter)
    {
      var (u, v) := edges[k];
      mf.AddEdge(u, v, 1);
      mf.AddEdge(v, u, 1);
    }
  }

  lemma {:induction false} SpokesSound(g: Network, deg: seq<nat>, sinkCap: int, k: nat)
    requires |g| == |deg| + 2 && k <= |deg| && Paired(g) && NonNegative(g) && sinkCap >= 0
    ensures Paired(Spokes(g, deg, sinkCap, k)) && NonNegative(Spokes(g, deg, sinkCap, k))
  {
    if k > 0 {
      var h := Spokes(g, deg, sinkCap, k - 1);
      SpokesSound(g, deg, sinkCap, k - 1);
      SpokeSound(h, deg, sinkCap, k - 1);
      assert Spokes(g, deg, sinkCap, k) == Spoke(h, deg, sinkCap, k - 1);
    }
  }

  lemma SpokeSound(g: Network, deg: seq<nat>, sinkCap: int, v: nat)
    requires |g| == |deg| + 2 && v < |deg| && Paired(g) && NonNegative(g) && sinkCap >= 0
    ensures Paired(Spoke(g, deg, sinkCap, v)) && NonNegative(Spoke(g, deg, sinkCap, v))
  {
    var n := |deg|;
    AddedSound(g, n, v, deg[v]);
    AddedSound(Added(g, n, v, deg[v]), v, n + 1, sinkCap);
  }

  /** One added edge keeps a network paired and its capacities non-negative. */
  lemma AddedSound(g: Network, from: nat, to: nat, cap: int)
    requires Paired(g) && NonNegative(g) && from < |g| && to < |g| && cap >= 0
    ensures Paired(Added(g, from, to, cap)) && NonNegative(Added(g, from, to, cap))
  {
    AddedPaired(g, from, to, cap);
    AddedNonNegative(g, from, to, cap);
  }

  lemma {:induction false} LinksSound(g: Network, edges: seq<(nat, nat)>, k: nat)
    requires k <= |edges| && Endpoints(edges, |g|) && Paired(g) && NonNegative(g)
    ensures Paired(Links(g, edges, k)) && NonNegative(Links(g, edges, k))
  {
    if k > 0 {
      var e := edges[k - 1];
      var h := Links(g, edges, k - 1);
      LinksSound(g, edges, k - 1);
      AddedSound(h, e.0, e.1, 1);
      AddedSound(Added(h, e.0, e.1, 1), e.1, e.0, 1);
    }
  }

  lemma FlowNetworkSound(deg: seq<nat>, edges: seq<(nat, nat)>, sinkCap: int)
    requires Endpoints(edges, |deg|) && sinkCap >= 0
    ensures Paired(FlowNetwork(deg, edges, sinkCap)) && NonNegative(FlowNetwork(deg, edges, sinkCap))
  {
    var g := seq(|deg| + 2, _ => []);
    SpokesSound(g, deg, sinkCap, |deg|);
    LinksSound(Spokes(g, deg, sinkCap, |deg|), edges, |edges|);
  }

  /** Appending an edge adds its capacity to a list's total. */
  lemma CapSumSnoc(list: seq<Edge>, e: Edge)
    ensures CapSum(list + [e]) == CapSum(list) + e.cap
  {
    assert (list + [e])[..|list|] == list;
  }

  /** The source's list after the first loop carries deg[0] + ... + deg[k-1]. */
  lemma {:induction false} SpokesSource(g: Network, deg: seq<nat>, sinkCap: int, k: nat)
    requires |g| == |deg| + 2 && k <= |deg| && g[|deg|] == []
    ensures CapSum(Spokes(g, deg, sinkCap, k)[|deg|]) == SumOf(deg, k)
  {
    if k > 0 {
      var h := Spokes(g, deg, sinkCap, k - 1);
      SpokesSource(g, deg, sinkCap, k - 1);
      SpokeSource(h, deg, sinkCap, k - 1);
      assert Spokes(g, deg, sinkCap, k) == Spoke(h, deg, sinkCap, k - 1);
    }
  }

  /** One round of the first loop adds deg[v] to the capacity out of the source. */
  lemma SpokeSource(g: Network, deg: seq<nat>, sinkCap: int, v: nat)
    requires |g| == |deg| + 2 && v < |deg|
    ensures CapSum(Spoke(g, deg, sinkCap, v)[|deg|]) == CapSum(g[|deg|]) + deg[v]
  {
    var n := |deg|;
    var e := Edge(v, |g[v]|, deg[v]);
    var g1 := Added(g, n, v, deg[v]);
    assert g1[n] == g[n] + [e];
    assert Spoke(g, deg, sinkCap, v)[n] == g1[n];
    CapSumSnoc(g[n], e);
  }

  /** The second loop leaves the lists of the source and the sink alone. */
  lemma {:induction false} LinksKeepSource(g: Network, edges: seq<(nat, nat)>, k: nat, x: nat)
    requires k <= |edges| && Endpoints(edges, |g|) && x < |g|
    requires forall j :: 0 <= j < |edges| ==> edges[j].0 != x && edges[j].1 != x
    ensures Links(g, edges, k)[x] == g[x]
  {
    if k > 0 {
      LinksKeepSource(g, edges, k - 1, x);
    }
  }

  /** The capacity out of the source is the sum of the degrees. */
  lemma SourceCapacity(deg: seq<nat>, edges: seq<(nat, nat)>, sinkCap: int)
    requires Endpoints(edges, |deg|)
    ensures CapSum(FlowNetwork(deg, edges, sinkCap)[|deg|]) == SumOf(deg, |deg|)
  {
    var n := |deg|;
    var g := seq(n + 2, _ => []);
    SpokesSource(g, deg, sinkCap, n);
    LinksKeepSource(Spokes(g, deg, sinkCap, n), edges, |edges|, n);
  }

  // ---------------------------------------------------------------------------
  // The residual cut

  /**
   * The last part of build_and_solve_flow: breadth-first search from the
   * source n over positive residual capacities, then the vertices below n
   * it reached, in increasing order; none at all when it reached none of
   * them or all n of them.
   */
  method ResidualCut(g: Network, n: nat) returns (result: seq<nat>)
    requires Indexed(g) && |g| == n + 2
    ensures Ascending(result) && forall k :: 0 <= k < |result| ==> result[k] < n
    ensures result == [] <==>
      (forall x :: 0 <= x < n ==> Reachable(g, n, x)) || (forall x :: 0 <= x < n ==> !Reachable(g, n, x))
    ensures result != [] ==> forall x :: 0 <= x < n ==> (x in result <==> Reachable(g, n, x))
  {
    var vis := Search(g, n);
    result := [];
    for i := 0 to n
      invariant Ascending(result) && forall k :: 0 <= k < |result| ==> result[k] < i
      invariant forall x :: 0 <= x < i ==> (x in result <==> vis[x])
    {
      if vis[i] {
        result := result + [i];
      }
    }
    AscendingBelow(result, n);
    if |result| == 0 || |result| == n {
      result := [];
    } else {
      assert result[0] in result && !Reachable(g, n, result[0]) ==> false;
      var x :| 0 <= x < n && x !in result;
      assert !Reachable(g, n, x);
    }
  }

  /** An ascending list of values below n has at most n entries, and n exactly when it holds them all. */
  lemma AscendingBelow(s: seq<nat>, n: nat)
    requires Ascending(s) && forall k :: 0 <= k < |s| ==> s[k] < n
    ensures |s| <= n && (|s| == n <==> forall x :: 0 <= x < n ==> x in s)
  {
    assert NoDup(s);
    NoDupCard(s);
    RangeSize(n);
    SubsetSize(Elems(s), Range(n));
    if |s| == n {
      forall x | 0 <= x < n ensures x in s {
        if x !in s {
          SubsetSize(Elems(s), Range(n) - {x});
        }
      }
    } else {
      if forall x :: 0 <= x < n ==> x in s {
        SubsetSize(Range(n), Elems(s));
      }
    }
  }

  /**
   * The state of the cut search from s: vis marks exactly the vertices in
   * seen, each reachable from s; the queue holds marked vertices once each.
   */
  ghost predicate Searched(g: Network, s: nat, vis: seq<bool>, q: seq<nat>, seen: set<nat>) {
    |vis| == |g| && s < |g| && vis[s]
    && (forall x: nat :: x in seen <==> x < |g| && vis[x])
    && NoDup(q) && (forall k :: 0 <= k < |q| ==> q[k] in seen)
    && forall x :: 0 <= x < |g| && vis[x] ==> Reachable(g, s, x)
  }

  /** The breadth-first search of build_and_solve_flow from the source n: vis marks what is reachable. */
  method Search(g: Network, n: nat) returns (vis: seq<bool>)
    requires Indexed(g) && |g| == n + 2
    ensures |vis| == |g| && forall x :: 0 <= x < |g| ==> (vis[x] <==> Reachable(g, n, x))
  {
    vis := seq(n + 2, _ => false);
    vis := vis[n := true];
    var q: seq<nat> := [n];
    ghost var seen: set<nat> := {n};
    assert PathFrom(g, n, n, [n]);
    while q != []
      invariant Searched(g, n, vis, q, seen)
      invariant forall x: nat, i: nat :: x in seen && x !in q && i < |g[x]| && g[x][i].cap > 0 ==> vis[g[x][i].to]
      decreases |g| - |seen|, |q|
    {
      BoundedSetSize(seen, |g|);
      var u := q[0];
      vis, q, seen := Spread(g, n, u, vis, q[1..], seen);
      BoundedSetSize(seen, |g|);
    }
    assert Closed(g, seen);
    forall x | 0 <= x < |g| && Reachable(g, n, x) ensures vis[x] {
      ClosedReach(g, seen, n, x);
    }
  }

  /** The inner loop of the cut search for u: every unmarked head of a positive-capacity edge of u is marked and queued. */
  method Spread(g: Network, s: nat, u: nat, vis: seq<bool>, q: seq<nat>, ghost seen: set<nat>)
    returns (vis': seq<bool>, q': seq<nat>, ghost seen': set<nat>)
    requires Indexed(g) && u < |g| && Searched(g, s, vis, q, seen) && u in seen && u !in q
    requires forall x: nat, j: nat :: x in seen && x !in q && x != u && j < |g[x]| && g[x][j].cap > 0 ==> vis[g[x][j].to]
    ensures Searched(g, s, vis', q', seen') && u in seen' && u !in q'
    ensures forall x: nat, j: nat :: x in seen' && x !in q' && j < |g[x]| && g[x][j].cap > 0 ==> vis'[g[x][j].to]
    ensures |seen'| >= |seen| && (|seen'| == |seen| ==> q' == q)
  {
    vis', q', seen' := vis, q, seen;
    ghost var p :| PathFrom(g, s, u, p);
    for i := 0 to |g[u]|
      invariant Searched(g, s, vis', q', seen') && u in seen' && u !in q'
      invariant forall x: nat, j: nat :: x in seen' && x !in q' && x != u && j < |g[x]| && g[x][j].cap > 0 ==> vis'[g[x][j].to]
      invariant forall j :: 0 <= j < i && g[u][j].cap > 0 ==> vis'[g[u][j].to]
      invariant |seen'| >= |seen| && (|seen'| == |seen| ==> q' == q)
    {
      var e := g[u][i];
      if e.cap > 0 && !vis'[e.to] {
        PathSnoc(g, s, u, p, i);
        vis' := vis'[e.to := true];
        NoDupSnoc(q', e.to);
        q' := q' + [e.to];
        seen' := seen' + {e.to};
      }
    }
  }
}
