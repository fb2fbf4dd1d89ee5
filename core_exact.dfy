// The integer part of the CoreExact program: a graph built by a
// de-duplicating add_edge, its edge, triangle and subgraph edge counts, and
// the bucket-based k-core decomposition.

module CoreExact {
  import opened Util

  /** Adjacency lists of a graph on the vertices 0 .. |adj|-1. */
  type AdjList = seq<seq<nat>>

  /**
   * The shape add_edge keeps: every entry names a vertex, no list repeats an
   * entry, and v lists u exactly when u lists v (a self-loop is listed once).
   */
  ghost predicate WellFormed(adj: AdjList) {
    && (forall u, v :: 0 <= u < |adj| && v in adj[u] ==> v < |adj|)
    && (forall u :: 0 <= u < |adj| ==> NoDup(adj[u]))
    && (forall u, v :: 0 <= u < |adj| && 0 <= v < |adj| ==> (v in adj[u] <==> u in adj[v]))
  }

  class Graph {
    var n: nat
    var adj: AdjList

    ghost predicate Valid()
      reads this
    {
      |adj| == n && WellFormed(adj)
    }

    /** Graph(n): n vertices and no edges. */
    constructor(n: nat)
      ensures Valid() && this.n == n && adj == seq(n, _ => [])
    {
      this.n := n;
      adj := seq(n, _ => []);
    }

    /**
     * add_edge: an endpoint outside 0 .. n-1 is rejected with no change; an
     * edge already present is not added again; otherwise v is appended to
     * u's list and, unless the edge is a self-loop, u to v's list.
     */
    method AddEdge(u: int, v: int)
      requires Valid()
      modifies this
      ensures Valid() && n == old(n)
      ensures !(0 <= u < n && 0 <= v < n) ==> adj == old(adj)
      ensures 0 <= u < n && 0 <= v < n && v in old(adj[u]) ==> adj == old(adj)
      ensures 0 <= u < n && 0 <= v < n && v !in old(adj[u]) ==>
                adj == if u == v then old(adj)[u := old(adj[u]) + [v]]
                       else old(adj)[u := old(adj[u]) + [v]][v := old(adj[v]) + [u]]
      ensures 0 <= u < n && 0 <= v < n ==>
                forall a, b :: 0 <= a < n ==>
                  (b in adj[a] <==> b in old(adj[a]) || (a == u && b == v) || (a == v && b == u))
    {
      if u < 0 || u >= n || v < 0 || v >= n {
        return;
      }
      if v !in adj[u] {
        assert u !in adj[v];
        NoDupSnoc(adj[u], v);
        adj := adj[u := adj[u] + [v]];
        if u != v {
          NoDupSnoc(adj[v], u);
          adj := adj[v := adj[v] + [u]];
        }
      }
    }
  }

  // ---------------------------------------------------------------------------
  // What the counts count

  /** Which edges a count keeps: all of them, those inside S, those leaving S upwards. */
  datatype Filter = All | Inside(s: seq<bool>) | Leaving(s: seq<bool>)

  predicate Keeps(f: Filter, u: nat, v: nat) {
    match f
    case All => true
    case Inside(s) => u < |s| && v < |s| && s[u] && s[v]
    case Leaving(s) => u < |s| && v < |s| && s[u] && !s[v]
  }

  /** The pairs u < v with v in adj[u] and u below k that the filter keeps. */
  ghost function PairsBelow(adj: AdjList, f: Filter, k: nat): set<(nat, nat)> {
    set u: nat, v: nat | u < k && u < |adj| && v in adj[u] && u < v && Keeps(f, u, v) :: (u, v)
  }

  /** The pairs (u, v) with v among vs that the filter keeps. */
  ghost function RowPairs(f: Filter, u: nat, vs: seq<nat>): set<(nat, nat)> {
    set v: nat | v in vs && u < v && Keeps(f, u, v) :: (u, v)
  }

  /** The edges of the graph, each once, as u < v. */
  ghost function Edges(adj: AdjList): set<(nat, nat)> {
    PairsBelow(adj, All, |adj|)
  }

  /** The edges with both ends in S. */
  ghost function InternalEdges(adj: AdjList, s: seq<bool>): set<(nat, nat)> {
    PairsBelow(adj, Inside(s), |adj|)
  }

  /** The edges u < v with u in S and v outside it. */
  ghost function ExternalEdges(adj: AdjList, s: seq<bool>): set<(nat, nat)> {
    PairsBelow(adj, Leaving(s), |adj|)
  }

  /** Each further list entry adds its pair, if kept; the list has no repeats. */
  lemma RowPairsSnoc(f: Filter, u: nat, vs: seq<nat>, x: nat)
    requires NoDup(vs + [x])
    ensures |RowPairs(f, u, vs + [x])| == |RowPairs(f, u, vs)| + (if u < x && Keeps(f, u, x) then 1 else 0)
  {
    var before := RowPairs(f, u, vs);
    var after := RowPairs(f, u, vs + [x]);
    var added: set<(nat, nat)> := if u < x && Keeps(f, u, x) then {(u, x)} else {};
    assert x !in vs by {
      forall i | 0 <= i < |vs| ensures vs[i] != x {
        assert (vs + [x])[i] == vs[i] && (vs + [x])[|vs|] == x;
      }
    }
    forall p | p in after ensures p in before + added {
      var v :| v in vs + [x] && u < v && Keeps(f, u, v) && p == (u, v);
      if v != x {
        assert v in vs;
      }
    }
    forall p | p in before + added ensures p in after {
      if p in before {
        var v :| v in vs && u < v && Keeps(f, u, v) && p == (u, v);
        assert v in vs + [x];
      } else {
        assert x in vs + [x];
      }
    }
    assert after == before + added;
    assert (u, x) !in before;
  }

  /** Row k joins the pairs below k; its pairs all start at k. */
  lemma PairsBelowNext(adj: AdjList, f: Filter, k: nat)
    requires k < |adj|
    ensures |PairsBelow(adj, f, k + 1)| == |PairsBelow(adj, f, k)| + |RowPairs(f, k, adj[k])|
  {
    var lower := PairsBelow(adj, f, k);
    var row := RowPairs(f, k, adj[k]);
    assert PairsBelow(adj, f, k + 1) == lower + row;
    assert lower * row == {} by {
      forall p | p in row ensures p !in lower {
        assert p.0 == k;
      }
    }
  }

  /** A prefix of a list extended by the list's next entry. */
  lemma PrefixNext(list: seq<nat>, i: nat)
    requires i < |list| && NoDup(list)
    ensures list[..i + 1] == list[..i] + [list[i]] && NoDup(list[..i + 1])
  {
    assert list[..i + 1] == list[..i] + [list[i]];
  }

  // ---------------------------------------------------------------------------
  // count_2cliques, count_internal_edges, count_subgraph_edges

  /**
   * The loop over u's list shared by the three edge counts: how many entries
   * v > u the filter keeps, added to count.
   */
  method CountRow(adj: AdjList, f: Filter, u: nat, count: nat) returns (count': nat)
    requires u < |adj| && WellFormed(adj)
    ensures count' == count + |RowPairs(f, u, adj[u])|
  {
    count' := count;
    var list := adj[u];
    for i := 0 to |list|
      invariant count' == count + |RowPairs(f, u, list[..i])|
    {
      PrefixNext(list, i);
      RowPairsSnoc(f, u, list[..i], list[i]);
      var v := list[i];
      if v > u && Keeps(f, u, v) {
        count' := count' + 1;
      }
    }
    assert list[..|list|] == list;
  }

  /** count_2cliques: the number of edges. */
  method Count2Cliques(adj: AdjList) returns (count: nat)
    requires WellFormed(adj)
    ensures count == |Edges(adj)|
  {
    count := 0;
    for u := 0 to |adj|
      invariant count == |PairsBelow(adj, All, u)|
    {
      PairsBelowNext(adj, All, u);
      count := CountRow(adj, All, u, count);
    }
  }

  /** A row whose first vertex lies outside S holds no pair the subgraph counts keep. */
  lemma RowOutside(s: seq<bool>, u: nat, vs: seq<nat>)
    requires u < |s| && !s[u]
    ensures RowPairs(Inside(s), u, vs) == {} && RowPairs(Leaving(s), u, vs) == {}
  {
  }

  /** count_internal_edges: the number of edges with both ends in S. */
  method CountInternalEdges(adj: AdjList, inSubgraph: seq<bool>) returns (edges: nat)
    requires WellFormed(adj) && |inSubgraph| == |adj|
    ensures edges == |InternalEdges(adj, inSubgraph)|
  {
    edges := 0;
    for u := 0 to |adj|
      invariant edges == |PairsBelow(adj, Inside(inSubgraph), u)|
    {
      PairsBelowNext(adj, Inside(inSubgraph), u);
      if inSubgraph[u] {
        edges := CountRow(adj, Inside(inSubgraph), u, edges);
      } else {
        RowOutside(inSubgraph, u, adj[u]);
      }
    }
  }

  /**
   * count_subgraph_edges: the edges inside S, and the edges u < v leaving S
   * from their lower end u; an edge whose lower end is outside S and upper
   * end inside is in neither count.
   */
  method CountSubgraphEdges(adj: AdjList, inSubgraph: seq<bool>) returns (internal: nat, external: nat)
    requires WellFormed(adj) && |inSubgraph| == |adj|
    ensures internal == |InternalEdges(adj, inSubgraph)|
    ensures external == |ExternalEdges(adj, inSubgraph)|
  {
    internal, external := 0, 0;
    for u := 0 to |adj|
      invariant internal == |PairsBelow(adj, Inside(inSubgraph), u)|
      invariant external == |PairsBelow(adj, Leaving(inSubgraph), u)|
    {
      PairsBelowNext(adj, Inside(inSubgraph), u);
      PairsBelowNext(adj, Leaving(inSubgraph), u);
      if inSubgraph[u] {
        var list := adj[u];
        ghost var external0 := external;
        ghost var internal0 := internal;
        for i := 0 to |list|
          invariant internal == internal0 + |RowPairs(Inside(inSubgraph), u, list[..i])|
          invariant external == external0 + |RowPairs(Leaving(inSubgraph), u, list[..i])|
        {
          PrefixNext(list, i);
          RowPairsSnoc(Inside(inSubgraph), u, list[..i], list[i]);
          RowPairsSnoc(Leaving(inSubgraph), u, list[..i], list[i]);
          var v := list[i];
          assert v in adj[u];
          if v > u {
            if inSubgraph[v] {
              internal := internal + 1;
            } else {
              external := external + 1;
            }
          }
        }
        assert list[..|list|] == list;
      } else {
        RowOutside(inSubgraph, u, adj[u]);
      }
    }
  }

  /** With S holding every vertex, the internal edges are all the edges. */
  lemma InternalOfAll(adj: AdjList, s: seq<bool>)
    requires |s| == |adj| && forall u :: 0 <= u < |s| ==> s[u]
    requires WellFormed(adj)
    ensures InternalEdges(adj, s) == Edges(adj)
  {
    forall p | p in Edges(adj) ensures p in InternalEdges(adj, s) {
      assert p.1 in adj[p.0];
    }
  }

  /** Every edge between two distinct vertices is counted once, as (lower, upper); a self-loop is not counted. */
  lemma EdgeOnce(adj: AdjList, u: nat, v: nat)
    requires WellFormed(adj) && u < |adj| && v < |adj|
    ensures (u, v) in Edges(adj) <==> u < v && v in adj[u]
    ensures v in adj[u] && u != v ==> ((u, v) in Edges(adj) <==> (v, u) !in Edges(adj))
  {
  }

  /**
   * The two counts of count_subgraph_edges split the edges whose lower end
   * is in S: each such edge is internal or external, never both.
   */
  lemma SubgraphSplit(adj: AdjList, s: seq<bool>)
    requires WellFormed(adj) && |s| == |adj|
    ensures InternalEdges(adj, s) * ExternalEdges(adj, s) == {}
    ensures InternalEdges(adj, s) + ExternalEdges(adj, s) == set p | p in Edges(adj) && s[p.0]
  {
    forall p | p in Edges(adj) && s[p.0] ensures p in InternalEdges(adj, s) + ExternalEdges(adj, s) {
      assert p.1 in adj[p.0];
    }
  }

  /**
   * The external count is not symmetric in S: on the single edge 0-1 it
   * counts the edge when S = {0} but not when S = {1}.
   */
  lemma ExternalOneSided()
    ensures WellFormed([[1], [0]])
    ensures |ExternalEdges([[1], [0]], [true, false])| == 1
    ensures |ExternalEdges([[1], [0]], [false, true])| == 0
  {
    var adj: AdjList := [[1], [0]];
    assert ExternalEdges(adj, [true, false]) == {(0, 1)} by {
      assert 1 in adj[0];
    }
    assert ExternalEdges(adj, [false, true]) == {};
  }

  // ---------------------------------------------------------------------------
  // count_triangles

  /** The triangles u < v < w: v in u's list, w in v's list and in u's. */
  ghost function TrianglesBelow(adj: AdjList, k: nat): set<(nat, nat, nat)> {
    set u: nat, v: nat, w: nat | u < k && u < |adj| && v in adj[u] && u < v && v < |adj| && w in adj[v] && v < w && w in adj[u]
      :: (u, v, w)
  }

  ghost function Triangles(adj: AdjList): set<(nat, nat, nat)> {
    TrianglesBelow(adj, |adj|)
  }

  /** The triangles (u, v, w) with v among vs. */
  ghost function TriRow(adj: AdjList, u: nat, vs: seq<nat>): set<(nat, nat, nat)> {
    set v: nat, w: nat | v in vs && u < v && v < |adj| && w in adj[v] && v < w && u < |adj| && w in adj[u] :: (u, v, w)
  }

  /** The triangles (u, v, w) with w among ws. */
  ghost function TriCell(adj: AdjList, u: nat, v: nat, ws: seq<nat>): set<(nat, nat, nat)> {
    set w: nat | w in ws && v < w && u < |adj| && w in adj[u] :: (u, v, w)
  }

  lemma TriCellSnoc(adj: AdjList, u: nat, v: nat, ws: seq<nat>, x: nat)
    requires NoDup(ws + [x])
    ensures |TriCell(adj, u, v, ws + [x])| == |TriCell(adj, u, v, ws)| + (if v < x && u < |adj| && x in adj[u] then 1 else 0)
  {
    var before := TriCell(adj, u, v, ws);
    var after := TriCell(adj, u, v, ws + [x]);
    var added: set<(nat, nat, nat)> := if v < x && u < |adj| && x in adj[u] then {(u, v, x)} else {};
    assert x !in ws by {
      forall i | 0 <= i < |ws| ensures ws[i] != x {
        assert (ws + [x])[i] == ws[i] && (ws + [x])[|ws|] == x;
      }
    }
    forall t | t in after ensures t in before + added {
      var w :| w in ws + [x] && v < w && u < |adj| && w in adj[u] && t == (u, v, w);
      if w != x {
        assert w in ws;
      }
    }
    forall t | t in before + added ensures t in after {
      if t in before {
        var w :| w in ws && v < w && u < |adj| && w in adj[u] && t == (u, v, w);
        assert w in ws + [x];
      } else {
        assert x in ws + [x];
      }
    }
    assert after == before + added;
    assert (u, v, x) !in before;
  }

  lemma TriRowSnoc(adj: AdjList, u: nat, vs: seq<nat>, x: nat)
    requires NoDup(vs + [x])
    ensures |TriRow(adj, u, vs + [x])| == |TriRow(adj, u, vs)| + (if u < x && x < |adj| then |TriCell(adj, u, x, adj[x])| else 0)
  {
    var before := TriRow(adj, u, vs);
    var after := TriRow(adj, u, vs + [x]);
    var added := if u < x && x < |adj| then TriCell(adj, u, x, adj[x]) else {};
    assert x !in vs by {
      forall i | 0 <= i < |vs| ensures vs[i] != x {
        assert (vs + [x])[i] == vs[i] && (vs + [x])[|vs|] == x;
      }
    }
    forall t | t in after ensures t in before + added {
      var v, w :| v in vs + [x] && u < v && v < |adj| && w in adj[v] && v < w && u < |adj| && w in adj[u] && t == (u, v, w);
      if v != x {
        assert v in vs;
      }
    }
    forall t | t in before + added ensures t in after {
      if t in before {
        var v, w :| v in vs && u < v && v < |adj| && w in adj[v] && v < w && u < |adj| && w in adj[u] && t == (u, v, w);
        assert v in vs + [x];
      } else {
        assert x in vs + [x];
      }
    }
    assert after == before + added;
    assert before * added == {} by {
      forall t | t in added ensures t !in before {
        assert t.1 == x;
      }
    }
  }

  lemma TrianglesBelowNext(adj: AdjList, k: nat)
    requires k < |adj|
    ensures |TrianglesBelow(adj, k + 1)| == |TrianglesBelow(adj, k)| + |TriRow(adj, k, adj[k])|
  {
    var lower := TrianglesBelow(adj, k);
    var row := TriRow(adj, k, adj[k]);
    assert TrianglesBelow(adj, k + 1) == lower + row;
    assert lower * row == {} by {
      forall t | t in row ensures t !in lower {
        assert t.0 == k;
      }
    }
  }

  /** The neighbour matrix of count_triangles: entry [u][w] is set exactly when w is in u's list. */
  method NeighbourMatrix(adj: AdjList) returns (m: seq<seq<bool>>)
    requires WellFormed(adj)
    ensures |m| == |adj| && forall u :: 0 <= u < |adj| ==> |m[u]| == |adj|
    ensures forall u, w :: 0 <= u < |adj| && 0 <= w < |adj| ==> (m[u][w] <==> w in adj[u])
  {
    var n := |adj|;
    m := seq(n, _ => seq(n, _ => false));
    for u := 0 to n
      invariant |m| == n && forall a :: 0 <= a < n ==> |m[a]| == n
      invariant forall a, b {:trigger m[a][b]} :: 0 <= a < n && 0 <= b < n ==> (m[a][b] <==> a < u && b in adj[a])
    {
      var list := adj[u];
      for i := 0 to |list|
        invariant |m| == n && forall a :: 0 <= a < n ==> |m[a]| == n
        invariant forall a, b {:trigger m[a][b]} :: 0 <= a < n && 0 <= b < n ==> (m[a][b] <==> (a < u && b in adj[a]) || (a == u && b in list[..i]))
      {
        var v := list[i];
        assert v in adj[u];
        assert list[..i + 1] == list[..i] + [v];
        m := m[u := m[u][v := true]];
      }
      assert list[..|list|] == list;
    }
  }

  /** count_triangles: the number of triangles, each counted once. */
  method CountTriangles(adj: AdjList) returns (count: nat)
    requires WellFormed(adj)
    ensures count == |Triangles(adj)|
  {
    var n := |adj|;
    var matrix := NeighbourMatrix(adj);
    count := 0;
    for u := 0 to n
      invariant count == |TrianglesBelow(adj, u)|
    {
      TrianglesBelowNext(adj, u);
      var listU := adj[u];
      ghost var start := count;
      for i := 0 to |listU|
        invariant count == start + |TriRow(adj, u, listU[..i])|
      {
        PrefixNext(listU, i);
        TriRowSnoc(adj, u, listU[..i], listU[i]);
        var v := listU[i];
        assert v in adj[u];
        if v > u {
          var listV := adj[v];
          ghost var mid := count;
          for j := 0 to |listV|
            invariant count == mid + |TriCell(adj, u, v, listV[..j])|
          {
            PrefixNext(listV, j);
            TriCellSnoc(adj, u, v, listV[..j], listV[j]);
            var w := listV[j];
            assert w in adj[v];
            if w > v && matrix[u][w] {
              count := count + 1;
            }
          }
          assert listV[..|listV|] == listV;
        }
      }
      assert listU[..|listU|] == listU;
    }
  }

  /** Three pairwise adjacent distinct vertices are counted once, in increasing order. */
  lemma TriangleOnce(adj: AdjList, a: nat, b: nat, c: nat)
    requires WellFormed(adj) && a < |adj| && b < |adj| && c < |adj|
    requires b in adj[a] && c in adj[b] && c in adj[a]
    ensures (a, b, c) in Triangles(adj) <==> a < b < c
  {
  }

  /** A counted triangle has three distinct, pairwise adjacent corners. */
  lemma TriangleAdjacent(adj: AdjList, t: (nat, nat, nat))
    requires WellFormed(adj) && t in Triangles(adj)
    ensures t.0 < t.1 < t.2 < |adj|
    ensures t.1 in adj[t.0] && t.2 in adj[t.0] && t.2 in adj[t.1]
    ensures t.0 in adj[t.1] && t.0 in adj[t.2] && t.1 in adj[t.2]
  {
  }

  // ---------------------------------------------------------------------------
  // k-cores

  /** How many entries of a list lie in s. */
  function CountIn(list: seq<nat>, s: set<nat>): (c: nat)
    ensures c <= |list|
  {
    if list == [] then 0 else (if list[0] in s then 1 else 0) + CountIn(list[1..], s)
  }

  /** Every member of s is a vertex with at least k neighbours in s. */
  ghost predicate Dense(adj: AdjList, s: set<nat>, k: nat) {
    forall v :: v in s ==> v < |adj| && CountIn(adj[v], s) >= k
  }

  /** The vertices whose core number is at least k. */
  function AtLeast(core: seq<nat>, k: nat): (s: set<nat>)
    ensures forall w :: w in s <==> 0 <= w < |core| && core[w] >= k
  {
    set w | 0 <= w < |core| && core[w] >= k
  }

  lemma NoDupTail(list: seq<nat>)
    requires list != [] && NoDup(list)
    ensures NoDup(list[1..]) && list[0] !in list[1..]
  {
    forall i, j | 0 <= i < j < |list[1..]| ensures list[1..][i] != list[1..][j] {
      assert list[1..][i] == list[i + 1] && list[1..][j] == list[j + 1];
    }
    forall i | 0 <= i < |list[1..]| ensures list[1..][i] != list[0] {
      assert list[1..][i] == list[i + 1];
    }
  }

  /** Taking x out of s loses one entry when the list holds x once and x was in s. */
  lemma {:induction false} CountInRemove(list: seq<nat>, s: set<nat>, x: nat)
    requires NoDup(list)
    ensures CountIn(list, s) == CountIn(list, s - {x}) + (if x in list && x in s then 1 else 0)
  {
    if list != [] {
      NoDupTail(list);
      CountInRemove(list[1..], s, x);
      assert x in list <==> x == list[0] || x in list[1..];
    }
  }

  /** A set that holds more of the list's entries counts at least as many. */
  lemma {:induction false} CountInMono(list: seq<nat>, s: set<nat>, t: set<nat>)
    requires forall w :: w in list && w in s ==> w in t
    ensures CountIn(list, s) <= CountIn(list, t)
  {
    if list != [] {
      assert forall w :: w in list[1..] ==> w in list;
      CountInMono(list[1..], s, t);
    }
  }

  /** A set that holds every entry counts the whole list. */
  lemma {:induction false} CountInAll(list: seq<nat>, s: set<nat>)
    requires forall w :: w in list ==> w in s
    ensures CountIn(list, s) == |list|
  {
    if list != [] {
      assert forall w :: w in list[1..] ==> w in list;
      CountInAll(list[1..], s);
    }
  }

  /** The vertices not among the first i of the order: those still unprocessed when order[i] was taken. */
  ghost function NotBefore(n: nat, order: seq<nat>, i: nat): set<nat>
    requires i <= |order|
  {
    set w | 0 <= w < n && w !in order[..i]
  }

  /** The position of the first member of s in the order. */
  lemma FirstOf(order: seq<nat>, s: set<nat>, u: nat) returns (i: nat)
    requires u in s && u in order
    ensures i < |order| && order[i] in s
    ensures forall j :: 0 <= j < i ==> order[j] !in s
  {
    var positions := set j | 0 <= j < |order| && order[j] in s;
    var ju :| 0 <= ju < |order| && order[ju] == u;
    assert ju in positions;
    i := Least(positions);
    forall j | 0 <= j < i ensures order[j] !in s {
      assert order[j] in s ==> j in positions;
    }
  }

  /**
   * The peeling argument: if the vertices are taken in an order of
   * non-decreasing core value, and each has at most its core value in
   * neighbours not taken before it, then no vertex lies in a set where
   * every member has more than its core value in neighbours.
   */
  lemma CoreUpperBound(adj: AdjList, core: seq<nat>, order: seq<nat>, s: set<nat>, k: nat, u: nat)
    requires |core| == |adj| && NoDup(order)
    requires forall w :: 0 <= w < |adj| ==> w in order
    requires forall i :: 0 <= i < |order| ==> order[i] < |adj|
    requires forall i, j :: 0 <= i < j < |order| ==> core[order[i]] <= core[order[j]]
    requires forall i :: 0 <= i < |order| ==> CountIn(adj[order[i]], NotBefore(|adj|, order, i)) <= core[order[i]]
    requires Dense(adj, s, k) && u in s
    ensures k <= core[u]
  {
    var i := FirstOf(order, s, u);
    var w := order[i];
    forall x | x in adj[w] && x in s ensures x in NotBefore(|adj|, order, i) {
      assert x < |adj|;
      assert forall j :: 0 <= j < i ==> order[..i][j] != x;
    }
    CountInMono(adj[w], s, NotBefore(|adj|, order, i));
    var ju :| 0 <= ju < |order| && order[ju] == u;
    assert order[ju] in s;
  }

  /** Overwrite position i with the back entry and drop the back: s without s[i]. */
  function SwapPop(s: seq<nat>, i: nat): (r: seq<nat>)
    requires i < |s|
  {
    s[i := s[|s| - 1]][..|s| - 1]
  }

  lemma SwapPopElems(s: seq<nat>, i: nat)
    requires i < |s| && NoDup(s)
    ensures forall y :: y in SwapPop(s, i) <==> y in s && y != s[i]
    ensures NoDup(SwapPop(s, i))
  {
    var r := SwapPop(s, i);
    var last := |s| - 1;
    assert forall j :: 0 <= j < |r| ==> r[j] == (if j == i then s[last] else s[j]);
    forall y | y in s && y != s[i] ensures y in r {
      var j :| 0 <= j < |s| && s[j] == y;
      if j == last {
        assert r[i] == y;
      } else {
        assert r[j] == y;
      }
    }
  }

  /** max_element over a non-empty sequence of degrees. */
  function MaxOf(s: seq<nat>): (m: nat)
    requires s != []
    ensures m in s && forall x :: x in s ==> x <= m
  {
    if |s| == 1 then s[0]
    else
      var rest := MaxOf(s[1..]);
      assert forall x :: x in s ==> x == s[0] || x in s[1..];
      if s[0] >= rest then s[0] else rest
  }

  // ---------------------------------------------------------------------------
  // core_decomposition: the bin-sorted peeling and what it keeps true

  /**
   * A core numbering: every set of the vertices whose value is at least k
   * gives each member at least k neighbours inside it, and no set with that
   * property holds a vertex whose value is below k.
   */
  ghost predicate IsCoreNumbering(adj: AdjList, core: seq<nat>) {
    |core| == |adj|
    && (forall k: nat :: Dense(adj, AtLeast(core, k), k))
    && forall s: set<nat>, k: nat, u: nat :: Dense(adj, s, k) && u in s ==> u < |core| && k <= core[u]
  }

  /** There is only one core numbering of a graph. */
  lemma CoreNumberingUnique(adj: AdjList, c1: seq<nat>, c2: seq<nat>)
    requires IsCoreNumbering(adj, c1) && IsCoreNumbering(adj, c2)
    ensures c1 == c2
  {
    forall u | 0 <= u < |c1| ensures c1[u] == c2[u] {
      assert u in AtLeast(c1, c1[u]) && Dense(adj, AtLeast(c1, c1[u]), c1[u]);
      assert u in AtLeast(c2, c2[u]) && Dense(adj, AtLeast(c2, c2[u]), c2[u]);
    }
  }

  /** The degree a pending vertex is filed under: its live degree, never below the level d. */
  function Level(live: nat, d: nat): nat {
    if live > d then live else d
  }

  /** The vectors of the peeling: degree, core and bin, with the proof's record of the processed order and the pending set. */
  datatype Peeling = Peeling(degree: seq<nat>, core: seq<nat>, bin: seq<seq<nat>>, order: seq<nat>, pending: set<nat>)

  /** Every degree fits the bins made for the largest one, and never exceeds the vertex's list size. */
  ghost predicate Shaped(adj: AdjList, degree: seq<nat>, core: seq<nat>, bin: seq<seq<nat>>) {
    |degree| == |adj| && |core| == |adj|
    && forall w :: 0 <= w < |adj| ==> degree[w] <= |adj[w]| < |bin|
  }

  /** order lists the processed vertices once each; pending holds the others. */
  ghost predicate Tracked(n: nat, order: seq<nat>, pending: set<nat>) {
    NoDup(order)
    && (forall i :: 0 <= i < |order| ==> order[i] < n)
    && forall w: nat :: w in pending <==> w < n && w !in order
  }

  /** Each bin holds pending vertices of its own degree, once each. */
  ghost predicate BinsSound(n: nat, degree: seq<nat>, bin: seq<seq<nat>>, pending: set<nat>)
    requires |degree| == n
  {
    (forall k, w {:trigger w in bin[k]} :: 0 <= k < |bin| && w in bin[k] ==> w < n && w in pending && degree[w] == k)
    && forall k :: 0 <= k < |bin| ==> NoDup(bin[k])
  }

  /** Every pending vertex sits in the bin of its degree. */
  ghost predicate Filed(n: nat, degree: seq<nat>, bin: seq<seq<nat>>, pending: set<nat>)
    requires |degree| == n && forall w :: 0 <= w < n ==> degree[w] < |bin|
  {
    forall w: nat :: w in pending && w < n ==> w in bin[degree[w]]
  }

  /**
   * At level d, a pending vertex's degree is its count of pending
   * neighbours, raised to d; while a processed vertex's list is being
   * walked, the entries still to visit (rest) have not yet lost it.
   */
  ghost predicate Degrees(adj: AdjList, d: nat, rest: seq<nat>, degree: seq<nat>, pending: set<nat>)
    requires |degree| == |adj|
  {
    forall w: nat :: w in pending && w < |adj| ==>
      degree[w] == Level(CountIn(adj[w], pending) + (if w in rest then 1 else 0), d)
  }

  /** Pending vertices still read core 0; a processed vertex kept the degree it was given as its core, at most d. */
  ghost predicate Cores(n: nat, d: nat, degree: seq<nat>, core: seq<nat>, pending: set<nat>)
    requires |degree| == n && |core| == n
  {
    forall w :: 0 <= w < n ==>
      if w in pending then core[w] == 0 else core[w] <= d && degree[w] == core[w]
  }

  /** Along the order, cores never decrease, and each vertex had at most its core in neighbours not yet taken. */
  ghost predicate History(adj: AdjList, core: seq<nat>, order: seq<nat>)
    requires |core| == |adj| && forall i :: 0 <= i < |order| ==> order[i] < |adj|
  {
    (forall i, j :: 0 <= i < j < |order| ==> core[order[i]] <= core[order[j]])
    && forall i :: 0 <= i < |order| ==> CountIn(adj[order[i]], NotBefore(|adj|, order, i)) <= core[order[i]]
  }

  /** The vertices still pending or already given a core of at least k. */
  ghost function Up(n: nat, core: seq<nat>, pending: set<nat>, k: nat): set<nat>
    requires |core| == n
  {
    set w: nat | w < n && (w in pending || core[w] >= k)
  }

  /** For every level up to d, those vertices are dense at that level. */
  ghost predicate DenseBelow(adj: AdjList, d: nat, core: seq<nat>, pending: set<nat>)
    requires |core| == |adj|
  {
    forall k: nat :: k <= d ==> Dense(adj, Up(|adj|, core, pending, k), k)
  }

  /** The vectors have their sizes and every pending vertex is in its bin. */
  ghost predicate Placed(adj: AdjList, st: Peeling) {
    Shaped(adj, st.degree, st.core, st.bin)
    && Tracked(|adj|, st.order, st.pending)
    && BinsSound(|adj|, st.degree, st.bin, st.pending)
    && Filed(|adj|, st.degree, st.bin, st.pending)
  }

  /** Everything the peeling keeps true at level d, with rest the part of a list still to walk. */
  ghost predicate Inv(adj: AdjList, d: nat, rest: seq<nat>, st: Peeling) {
    WellFormed(adj) && Placed(adj, st) && d <= |st.bin|
    && Degrees(adj, d, rest, st.degree, st.pending)
    && Cores(|adj|, d, st.degree, st.core, st.pending)
    && History(adj, st.core, st.order)
    && DenseBelow(adj, d, st.core, st.pending)
  }

  lemma InitialPlaced(adj: AdjList, degree: seq<nat>, core: seq<nat>, bin: seq<seq<nat>>)
    requires WellFormed(adj) && |degree| == |adj| && |core| == |adj|
    requires forall w :: 0 <= w < |adj| ==> degree[w] == |adj[w]| && core[w] == 0
    requires forall w :: 0 <= w < |adj| ==> degree[w] < |bin|
    requires forall k :: 0 <= k < |bin| ==> bin[k] == Bucket(degree, k, |adj|)
    ensures Placed(adj, Peeling(degree, core, bin, [], Range(|adj|)))
  {
    forall k | 0 <= k < |bin| ensures NoDup(bin[k]) {
      BucketAscending(degree, k, |adj|);
    }
  }

  /** The state right after the degrees are filed into their bins. */
  lemma InitialInv(adj: AdjList, degree: seq<nat>, core: seq<nat>, bin: seq<seq<nat>>)
    requires WellFormed(adj) && |degree| == |adj| && |core| == |adj|
    requires forall w :: 0 <= w < |adj| ==> degree[w] == |adj[w]| && core[w] == 0
    requires forall w :: 0 <= w < |adj| ==> degree[w] < |bin|
    requires forall k :: 0 <= k < |bin| ==> bin[k] == Bucket(degree, k, |adj|)
    ensures Inv(adj, 0, [], Peeling(degree, core, bin, [], Range(|adj|)))
  {
    var n := |adj|;
    InitialPlaced(adj, degree, core, bin);
    forall w: nat | w < n ensures CountIn(adj[w], Range(n)) == |adj[w]| {
      CountInAll(adj[w], Range(n));
    }
    assert Up(n, core, Range(n), 0) == Range(n);
  }

  /** The back of bin d is popped and given core d. */
  ghost function Marked(adj: AdjList, d: nat, st: Peeling): (r: Peeling)
    requires Inv(adj, d, [], st) && d < |st.bin| && st.bin[d] != []
    ensures r.degree == st.degree && |r.core| == |adj| && |r.bin| == |st.bin|
    ensures forall i :: 0 <= i < |r.order| ==> r.order[i] < |adj|
  {
    var b := st.bin[d];
    var u := b[|b| - 1];
    assert u in b;
    Peeling(st.degree, st.core[u := d], st.bin[d := b[..|b| - 1]], st.order + [u], st.pending - {u})
  }

  /** Popping the back of a list without repeats leaves exactly its other entries, still without repeats. */
  lemma DropLast(b: seq<nat>)
    requires b != [] && NoDup(b)
    ensures forall w :: w in b[..|b| - 1] <==> w in b && w != b[|b| - 1]
    ensures NoDup(b[..|b| - 1])
  {
    var r := b[..|b| - 1];
    assert forall i :: 0 <= i < |r| ==> r[i] == b[i];
    forall w | w in b && w != b[|b| - 1] ensures w in r {
      var j :| 0 <= j < |b| && b[j] == w;
      assert r[j] == w;
    }
  }

  /** Popping the back of bin d, and retiring that vertex, keeps the bins sound. */
  lemma BinsSoundPop(n: nat, degree: seq<nat>, bin: seq<seq<nat>>, pending: set<nat>, d: nat)
    requires |degree| == n && BinsSound(n, degree, bin, pending) && d < |bin| && bin[d] != []
    ensures BinsSound(n, degree, bin[d := bin[d][..|bin[d]| - 1]], pending - {bin[d][|bin[d]| - 1]})
  {
    var b := bin[d];
    var u := b[|b| - 1];
    var bin1 := bin[d := b[..|b| - 1]];
    DropLast(b);
    assert u in bin[d] && degree[u] == d;
    forall k, w {:trigger w in bin1[k]} | 0 <= k < |bin1| && w in bin1[k]
      ensures w < n && w in pending - {u} && degree[w] == k
    {
      if k == d {
        assert w in b && w != u;
      } else {
        assert bin1[k] == bin[k];
      }
    }
    forall k | 0 <= k < |bin1| ensures NoDup(bin1[k]) {
      if k != d {
        assert bin1[k] == bin[k];
      }
    }
  }

  lemma PopSound(adj: AdjList, d: nat, st: Peeling)
    requires Inv(adj, d, [], st) && d < |st.bin| && st.bin[d] != []
    ensures var st1 := Marked(adj, d, st);
      Shaped(adj, st1.degree, st1.core, st1.bin)
      && BinsSound(|adj|, st1.degree, st1.bin, st1.pending)
  {
    BinsSoundPop(|adj|, st.degree, st.bin, st.pending, d);
  }

  lemma PopFiled(adj: AdjList, d: nat, st: Peeling)
    requires Inv(adj, d, [], st) && d < |st.bin| && st.bin[d] != []
    ensures var st1 := Marked(adj, d, st);
      Shaped(adj, st1.degree, st1.core, st1.bin)
      && Filed(|adj|, st1.degree, st1.bin, st1.pending)
  {
    var st1 := Marked(adj, d, st);
    var b := st.bin[d];
    var u := b[|b| - 1];
    DropLast(b);
    assert st1.bin[d] == b[..|b| - 1] && st1.pending == st.pending - {u};
    forall w: nat | w in st1.pending && w < |adj| ensures w in st1.bin[st1.degree[w]] {
      assert w in st.bin[st.degree[w]];
    }
  }

  lemma PopBins(adj: AdjList, d: nat, st: Peeling)
    requires Inv(adj, d, [], st) && d < |st.bin| && st.bin[d] != []
    ensures Placed(adj, Marked(adj, d, st))
  {
    PopSound(adj, d, st);
    PopFiled(adj, d, st);
    PopOrder(adj, d, st);
  }

  lemma PopOrder(adj: AdjList, d: nat, st: Peeling)
    requires Inv(adj, d, [], st) && d < |st.bin| && st.bin[d] != []
    ensures var st1 := Marked(adj, d, st);
      Tracked(|adj|, st1.order, st1.pending)
      && Cores(|adj|, d, st1.degree, st1.core, st1.pending)
  {
    var b := st.bin[d];
    var u := b[|b| - 1];
    assert u in b;
    NoDupSnoc(st.order, u);
  }

  lemma PopHistory(adj: AdjList, d: nat, st: Peeling)
    requires Inv(adj, d, [], st) && d < |st.bin| && st.bin[d] != []
    ensures var st1 := Marked(adj, d, st);
      Tracked(|adj|, st1.order, st1.pending)
      && History(adj, st1.core, st1.order)
  {
    PopOrder(adj, d, st);
    var st1 := Marked(adj, d, st);
    var b := st.bin[d];
    var u := b[|b| - 1];
    assert u in b;
    var m := |st.order|;
    assert st1.order[m] == u;
    forall i | 0 <= i < m ensures st1.order[i] == st.order[i] && st1.core[st.order[i]] == st.core[st.order[i]] <= d {
      assert st.order[i] in st.order;
    }
    forall i | 0 <= i < m ensures NotBefore(|adj|, st1.order, i) == NotBefore(|adj|, st.order, i) {
      assert st1.order[..i] == st.order[..i];
    }
    assert st1.order[..m] == st.order;
    assert NotBefore(|adj|, st1.order, m) == st.pending;
  }

  lemma PopDegrees(adj: AdjList, d: nat, st: Peeling)
    requires Inv(adj, d, [], st) && d < |st.bin| && st.bin[d] != []
    ensures var st1 := Marked(adj, d, st);
      var u := st1.order[|st1.order| - 1];
      u < |adj| && u !in st1.pending && st1.core[u] == st1.degree[u] == d
      && Degrees(adj, d, adj[u], st1.degree, st1.pending)
  {
    var st1 := Marked(adj, d, st);
    var b := st.bin[d];
    var u := b[|b| - 1];
    assert u in b;
    forall w: nat | w in st1.pending && w < |adj|
      ensures CountIn(adj[w], st.pending) == CountIn(adj[w], st1.pending) + (if w in adj[u] then 1 else 0)
    {
      CountInRemove(adj[w], st.pending, u);
      assert u in adj[w] <==> w in adj[u];
    }
  }

  lemma PopDense(adj: AdjList, d: nat, st: Peeling)
    requires Inv(adj, d, [], st) && d < |st.bin| && st.bin[d] != []
    ensures var st1 := Marked(adj, d, st);
      DenseBelow(adj, d, st1.core, st1.pending)
  {
    var st1 := Marked(adj, d, st);
    var b := st.bin[d];
    var u := b[|b| - 1];
    assert u in b;
    forall k: nat | k <= d ensures Up(|adj|, st1.core, st1.pending, k) == Up(|adj|, st.core, st.pending, k) {
    }
  }

  /** After the pop, the invariant holds with all of u's list still to walk. */
  lemma PopInv(adj: AdjList, d: nat, st: Peeling)
    requires Inv(adj, d, [], st) && d < |st.bin| && st.bin[d] != []
    ensures var u := st.bin[d][|st.bin[d]| - 1];
      u < |adj| && u in st.pending && Inv(adj, d, adj[u], Marked(adj, d, st))
  {
    var u := st.bin[d][|st.bin[d]| - 1];
    assert u in st.bin[d];
    PopBins(adj, d, st);
    PopHistory(adj, d, st);
    PopDegrees(adj, d, st);
    PopDense(adj, d, st);
  }

  /** Neighbour v of the vertex just processed leaves bin degree[v] and moves one bin down. */
  ghost function Relieved(adj: AdjList, d: nat, v: nat, st: Peeling): (r: Peeling)
    requires Placed(adj, st)
    requires v in st.pending && v < |adj| && st.degree[v] > d
    ensures r.core == st.core && r.order == st.order && r.pending == st.pending && |r.bin| == |st.bin|
    ensures |r.degree| == |adj| && r.degree == st.degree[v := st.degree[v] - 1]
  {
    var k := st.degree[v];
    var j := Find(st.bin[k], v);
    assert j < |st.bin[k]|;
    var bin1 := st.bin[k := SwapPop(st.bin[k], j)];
    Peeling(st.degree[v := k - 1], st.core, bin1[k - 1 := bin1[k - 1] + [v]], st.order, st.pending)
  }

  lemma RelievedPlaced(adj: AdjList, d: nat, v: nat, st: Peeling)
    requires Placed(adj, st)
    requires v in st.pending && v < |adj| && st.degree[v] > d
    ensures Placed(adj, Relieved(adj, d, v, st))
  {
    var st1 := Relieved(adj, d, v, st);
    var k := st.degree[v];
    var j := Find(st.bin[k], v);
    SwapPopElems(st.bin[k], j);
    var popped := SwapPop(st.bin[k], j);
    assert st1.bin == st.bin[k := popped][k - 1 := st.bin[k - 1] + [v]];
    assert v !in st.bin[k - 1];
    NoDupSnoc(st.bin[k - 1], v);
    forall m, w | 0 <= m < |st1.bin| && w in st1.bin[m]
      ensures w < |adj| && w in st1.pending && st1.degree[w] == m
    {
      if m == k - 1 {
        assert w == v || w in st.bin[m];
      } else if m == k {
        assert w in st.bin[m] && w != v;
      } else {
        assert w in st.bin[m];
      }
    }
    forall w: nat | w in st1.pending && w < |adj| ensures w in st1.bin[st1.degree[w]] {
      assert w in st.bin[st.degree[w]];
    }
  }

  /** The entries of a list from position i on: its entry i, then those after it, which differ from it. */
  lemma SuffixStep(list: seq<nat>, i: nat)
    requires NoDup(list) && i < |list|
    ensures forall w :: w in list[i..] <==> w == list[i] || w in list[i + 1..]
    ensures list[i] !in list[i + 1..]
  {
    assert list[i..] == [list[i]] + list[i + 1..];
    forall j | i + 1 <= j < |list| ensures list[j] != list[i] {
    }
  }

  lemma RelievedDegrees(adj: AdjList, d: nat, u: nat, i: nat, st: Peeling)
    requires u < |adj| && i < |adj[u]| && Inv(adj, d, adj[u][i..], st)
    requires adj[u][i] in st.pending && st.degree[adj[u][i]] > d
    ensures Degrees(adj, d, adj[u][i + 1..], Relieved(adj, d, adj[u][i], st).degree, st.pending)
  {
    SuffixStep(adj[u], i);
  }

  lemma KeptDegrees(adj: AdjList, d: nat, u: nat, i: nat, st: Peeling)
    requires u < |adj| && i < |adj[u]| && Inv(adj, d, adj[u][i..], st)
    requires !(adj[u][i] in st.pending && st.degree[adj[u][i]] > d)
    ensures Degrees(adj, d, adj[u][i + 1..], st.degree, st.pending)
  {
    SuffixStep(adj[u], i);
  }

  /** The source's test on a neighbour (still core 0, degree above d) picks out the pending ones above d. */
  lemma StepTest(adj: AdjList, d: nat, rest: seq<nat>, st: Peeling, v: nat)
    requires Inv(adj, d, rest, st) && v < |adj|
    ensures (st.core[v] == 0 && st.degree[v] > d) <==> (v in st.pending && st.degree[v] > d)
  {
  }

  lemma RelievedInv(adj: AdjList, d: nat, u: nat, i: nat, st: Peeling)
    requires u < |adj| && i < |adj[u]| && Inv(adj, d, adj[u][i..], st)
    requires adj[u][i] in st.pending && st.degree[adj[u][i]] > d
    ensures Inv(adj, d, adj[u][i + 1..], Relieved(adj, d, adj[u][i], st))
  {
    RelievedPlaced(adj, d, adj[u][i], st);
    RelievedDegrees(adj, d, u, i, st);
  }

  /** With bin d empty, every pending vertex has more than d pending neighbours: move to level d + 1. */
  lemma LevelUp(adj: AdjList, d: nat, st: Peeling)
    requires Inv(adj, d, [], st) && d < |st.bin| && st.bin[d] == []
    ensures Inv(adj, d + 1, [], st)
  {
    forall w: nat | w in st.pending && w < |adj| ensures CountIn(adj[w], st.pending) == st.degree[w] > d {
      assert w in st.bin[st.degree[w]];
    }
    var top := Up(|adj|, st.core, st.pending, d + 1);
    assert top == st.pending;
  }

  /** Past the last level nothing is pending, and the values given are the core numbers. */
  lemma Finished(adj: AdjList, st: Peeling)
    requires Inv(adj, |st.bin|, [], st)
    ensures st.pending == {}
    ensures NoDup(st.order) && forall w :: w in st.order <==> 0 <= w < |adj|
    ensures forall i, j :: 0 <= i < j < |st.order| ==> st.core[st.order[i]] <= st.core[st.order[j]]
    ensures IsCoreNumbering(adj, st.core)
    ensures forall w :: 0 <= w < |adj| ==> st.core[w] <= |adj[w]|
  {
    var d := |st.bin|;
    assert forall w: nat :: w in st.pending ==> w < |adj| && st.degree[w] >= d;
    assert forall w :: w in st.order ==> w < |adj| by {
      forall w | w in st.order ensures w < |adj| {
        var i :| 0 <= i < |st.order| && st.order[i] == w;
      }
    }
    forall k: nat ensures Dense(adj, AtLeast(st.core, k), k) {
      if k <= d {
        assert AtLeast(st.core, k) == Up(|adj|, st.core, st.pending, k);
      } else {
        assert AtLeast(st.core, k) == {};
      }
    }
    forall s: set<nat>, k: nat, u: nat | Dense(adj, s, k) && u in s ensures u < |st.core| && k <= st.core[u] {
      CoreUpperBound(adj, st.core, st.order, s, k, u);
    }
  }

  /** The neighbour loop of core_decomposition: each neighbour of u still above d moves one bin down. */
  method RelieveNeighbours(adj: AdjList, d: nat, u: nat, degree: seq<nat>, core: seq<nat>, bin: seq<seq<nat>>,
                           ghost order: seq<nat>, ghost pending: set<nat>)
    returns (degree': seq<nat>, bin': seq<seq<nat>>)
    requires u < |adj| && Inv(adj, d, adj[u], Peeling(degree, core, bin, order, pending))
    ensures Inv(adj, d, [], Peeling(degree', core, bin', order, pending))
    ensures |bin'| == |bin|
  {
    degree', bin' := degree, bin;
    var list := adj[u];
    assert list[0..] == list;
    for i := 0 to |list|
      invariant Inv(adj, d, list[i..], Peeling(degree', core, bin', order, pending))
      invariant |bin'| == |bin|
    {
      var v := list[i];
      assert v in adj[u];
      ghost var before := Peeling(degree', core, bin', order, pending);
      StepTest(adj, d, list[i..], before, v);
      if core[v] == 0 && degree'[v] > d {
        var k := degree'[v];
        var j := Find(bin'[k], v);
        if j < |bin'[k]| {
          bin' := bin'[k := SwapPop(bin'[k], j)];
        }
        degree' := degree'[v := k - 1];
        bin' := bin'[k - 1 := bin'[k - 1] + [v]];
        assert Peeling(degree', core, bin', order, pending) == Relieved(adj, d, v, before);
        RelievedInv(adj, d, u, i, before);
      } else {
        KeptDegrees(adj, d, u, i, before);
      }
    }
    assert list[|list|..] == [];
  }

  /**
   * One turn of the inner loop of core_decomposition: pop the back of
   * bin d and give it core d, then relieve its neighbours.
   */
  method ProcessTop(adj: AdjList, d: nat, degree: seq<nat>, core: seq<nat>, bin: seq<seq<nat>>,
                    ghost order: seq<nat>, ghost pending: set<nat>)
    returns (degree': seq<nat>, core': seq<nat>, bin': seq<seq<nat>>, ghost order': seq<nat>, ghost pending': set<nat>)
    requires Inv(adj, d, [], Peeling(degree, core, bin, order, pending)) && d < |bin| && bin[d] != []
    ensures Inv(adj, d, [], Peeling(degree', core', bin', order', pending'))
    ensures |bin'| == |bin| && |pending'| < |pending|
  {
    ghost var st := Peeling(degree, core, bin, order, pending);
    var u := bin[d][|bin[d]| - 1];
    assert u in bin[d];
    bin' := bin[d := bin[d][..|bin[d]| - 1]];
    if core[u] != 0 {
      assert false;
    }
    core' := core[u := d];
    order' := order + [u];
    pending' := pending - {u};
    assert Peeling(degree, core', bin', order', pending') == Marked(adj, d, st);
    PopInv(adj, d, st);
    degree', bin' := RelieveNeighbours(adj, d, u, degree, core', bin', order', pending');
  }

  /** The bins of core_decomposition: bin k lists the vertices of degree k, in increasing order. */
  method FileBins(degree: seq<nat>, maxDeg: nat) returns (bin: seq<seq<nat>>)
    requires forall w :: 0 <= w < |degree| ==> degree[w] <= maxDeg
    ensures |bin| == maxDeg + 1
    ensures forall k :: 0 <= k <= maxDeg ==> bin[k] == Bucket(degree, k, |degree|)
  {
    bin := seq(maxDeg + 1, _ => []);
    for u := 0 to |degree|
      invariant |bin| == maxDeg + 1
      invariant forall k :: 0 <= k <= maxDeg ==> bin[k] == Bucket(degree, k, u)
    {
      bin := bin[degree[u] := bin[degree[u]] + [u]];
      forall k | 0 <= k <= maxDeg ensures bin[k] == Bucket(degree, k, u + 1) {
        assert Bucket(degree, k, u + 1) == Bucket(degree, k, u) + (if degree[u] == k then [u] else []);
      }
    }
  }

  /** The first half of core_decomposition: every vertex's degree, and the bins filed by degree. */
  method StartPeeling(adj: AdjList) returns (degree: seq<nat>, core: seq<nat>, maxDeg: nat, bin: seq<seq<nat>>)
    requires WellFormed(adj) && |adj| > 0
    ensures Inv(adj, 0, [], Peeling(degree, core, bin, [], Range(|adj|)))
    ensures forall w :: 0 <= w < |adj| ==> degree[w] == |adj[w]| <= maxDeg
    ensures |bin| == maxDeg + 1 && maxDeg in degree
  {
    var n := |adj|;
    degree := seq(n, _ => 0);
    core := seq(n, _ => 0);
    for u := 0 to n
      invariant |degree| == n
      invariant forall w :: 0 <= w < u ==> degree[w] == |adj[w]|
    {
      degree := degree[u := |adj[u]|];
    }
    maxDeg := MaxOf(degree);
    forall w | 0 <= w < n ensures degree[w] <= maxDeg {
      assert degree[w] in degree;
    }
    bin := FileBins(degree, maxDeg);
    InitialInv(adj, degree, core, bin);
  }

  /** The inner while loop of core_decomposition at level d, until bin d is empty. */
  method DrainLevel(adj: AdjList, d: nat, degree: seq<nat>, core: seq<nat>, bin: seq<seq<nat>>,
                    ghost order: seq<nat>, ghost pending: set<nat>)
    returns (degree': seq<nat>, core': seq<nat>, bin': seq<seq<nat>>, ghost order': seq<nat>, ghost pending': set<nat>)
    requires Inv(adj, d, [], Peeling(degree, core, bin, order, pending)) && d < |bin|
    ensures Inv(adj, d + 1, [], Peeling(degree', core', bin', order', pending'))
    ensures |bin'| == |bin|
  {
    degree', core', bin', order', pending' := degree, core, bin, order, pending;
    while bin'[d] != []
      invariant |bin'| == |bin|
      invariant Inv(adj, d, [], Peeling(degree', core', bin', order', pending'))
      decreases |pending'|
    {
      degree', core', bin', order', pending' := ProcessTop(adj, d, degree', core', bin', order', pending');
    }
    LevelUp(adj, d, Peeling(degree', core', bin', order', pending'));
  }

  /**
   * core_decomposition: bin the vertices by degree, then for each level d
   * upwards repeatedly take a vertex of bin d, give it core d and lower the
   * degree of its neighbours still above d. The order the vertices were
   * taken in is returned as a ghost witness.
   */
  method CoreDecomposition(adj: AdjList) returns (core: seq<nat>, ghost order: seq<nat>)
    requires WellFormed(adj) && |adj| > 0
    ensures IsCoreNumbering(adj, core) && |core| == |adj|
    ensures forall u :: 0 <= u < |adj| ==> core[u] <= |adj[u]|
    ensures NoDup(order) && forall w :: w in order <==> 0 <= w < |adj|
    ensures forall i :: 0 <= i < |order| ==> order[i] < |adj|
    ensures forall i, j :: 0 <= i < j < |order| ==> core[order[i]] <= core[order[j]]
  {
    var degree, maxDeg, bin;
    degree, core, maxDeg, bin := StartPeeling(adj);
    order := [];
    ghost var pending := Range(|adj|);
    for d := 0 to maxDeg + 1
      invariant |bin| == maxDeg + 1
      invariant Inv(adj, d, [], Peeling(degree, core, bin, order, pending))
    {
      degree, core, bin, order, pending := DrainLevel(adj, d, degree, core, bin, order, pending);
    }
    Finished(adj, Peeling(degree, core, bin, order, pending));
  }
}
