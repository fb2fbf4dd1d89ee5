/**
 * Tomita.cpp: the Tomita et al. search over adjacency lists and ordered
 * sets. std::set iterates in increasing order, so every `for (x : someSet)`
 * visits the least remaining member first. Adjacency lists keep duplicate
 * entries; the clique search is correct on simple graphs.
 */
module Tomita {
  import opened Util
  import opened Cliques

  /** struct Graph: V vertices and one neighbour vector per vertex. */
  class Graph {
    const V: nat
    var adjList: AdjList

    ghost predicate Valid()
      reads this
    {
      |adjList| == V && Symmetric(AdjSets(adjList))
    }

    constructor (v: nat)
      ensures Valid() && V == v
      ensures forall u :: 0 <= u < v ==> adjList[u] == []
    {
      V := v;
      adjList := seq(v, _ => []);
    }

    /**
     * Graph::addEdge: both endpoints below V, then append v to u's list and
     * u to v's, whether or not the edge is already there.
     */
    method AddEdge(u: nat, v: nat)
      requires Valid()
      modifies this
      ensures Valid()
      ensures u >= V || v >= V ==> adjList == old(adjList)
      ensures u < V && v < V ==>
        var once := old(adjList)[u := old(adjList)[u] + [v]];
        adjList == once[v := once[v] + [u]]
      ensures u < V && v < V ==> v in adjList[u] && u in adjList[v]
    {
      if u >= V || v >= V {
        return;
      }
      ghost var before := AdjSets(adjList);
      adjList := adjList[u := adjList[u] + [v]];
      adjList := adjList[v := adjList[v] + [u]];
      ghost var after := AdjSets(adjList);
      forall a | 0 <= a < V ensures after[a] == if a == u && a == v then before[a] + {v}
                                    else if a == u then before[a] + {v}
                                    else if a == v then before[a] + {u}
                                    else before[a]
      {
        assert after[a] == Elems(adjList[a]);
      }
      forall a, w | 0 <= a < V && w in after[a] ensures w < V && a in after[w] {
        if w !in before[a] {
          assert (a == u && w == v) || (a == v && w == u);
        }
      }
    }
  }

  // ---------------------------------------------------------------------------
  // findPivot

  /** How many entries of `list` lie in P, counting repeated entries each time. */
  function Hits(list: seq<nat>, p: set<nat>): (h: nat)
    ensures h <= |list|
    ensures h == 0 <==> forall i :: 0 <= i < |list| ==> list[i] !in p
  {
    if list == [] then 0
    else Hits(list[..|list| - 1], p) + (if list[|list| - 1] in p then 1 else 0)
  }

  /** The inner loop of findPivot: count the entries of adjList[u] in P. */
  method CountHits(list: seq<nat>, p: set<nat>) returns (count: nat)
    ensures count == Hits(list, p)
  {
    count := 0;
    for i := 0 to |list|
      invariant count == Hits(list[..i], p)
    {
      assert list[..i + 1][..i] == list[..i];
      if list[i] in p {
        count := count + 1;
      }
    }
    assert list[..|list|] == list;
  }

  /**
   * The pivot findPivot returns: a member of P + X with the most adjacency
   * entries in P, and the least such member.
   */
  ghost predicate IsLeastBestPivot(adjList: AdjList, p: set<nat>, x: set<nat>, pivot: nat)
    requires forall w :: w in p + x ==> w < |adjList|
  {
    && pivot in p + x
    && (forall w :: w in p + x ==> Hits(adjList[w], p) <= Hits(adjList[pivot], p))
    && (forall w :: w in p + x && w < pivot ==> Hits(adjList[w], p) < Hits(adjList[pivot], p))
  }

  /** findPivot: -1 exactly when P + X is empty, otherwise the least best pivot. */
  method FindPivot(p: set<nat>, x: set<nat>, adjList: AdjList) returns (pivot: int)
    requires forall w :: w in p + x ==> w < |adjList|
    ensures pivot == -1 <==> p + x == {}
    ensures pivot != -1 ==> pivot >= 0 && IsLeastBestPivot(adjList, p, x, pivot)
  {
    pivot := -1;
    var maxIntersectSize: int := -1;
    var pUnionX := p + x;
    var todo := pUnionX;
    while todo != {}
      invariant todo <= pUnionX
      invariant forall a, b :: a in pUnionX - todo && b in todo ==> a < b
      invariant pivot == -1 <==> todo == pUnionX
      invariant pivot == -1 ==> maxIntersectSize == -1
      invariant pivot != -1 ==> 0 <= pivot && pivot in pUnionX - todo && maxIntersectSize == Hits(adjList[pivot], p)
      invariant forall w :: w in pUnionX - todo ==> Hits(adjList[w], p) <= maxIntersectSize
      invariant forall w :: w in pUnionX - todo && w < pivot ==> Hits(adjList[w], p) < maxIntersectSize
      decreases todo
    {
      var u := Least(todo);
      forall a, b | a in pUnionX - (todo - {u}) && b in todo - {u} ensures a < b {
        if a != u {
          assert a in pUnionX - todo;
        }
      }
      todo := todo - {u};
      var intersectSize := CountHits(adjList[u], p);
      if intersectSize > maxIntersectSize {
        maxIntersectSize := intersectSize;
        pivot := u;
      }
    }
  }

  // ---------------------------------------------------------------------------
  // Expand

  /** The inner loop of the P_minus_NP construction: does `list` hold v? */
  method ContainsEntry(list: seq<nat>, v: nat) returns (found: bool)
    ensures found <==> v in list
  {
    found := false;
    var i := 0;
    while i < |list|
      invariant 0 <= i <= |list|
      invariant v !in list[..i]
    {
      if list[i] == v {
        found := true;
        break;
      }
      assert list[..i + 1] == list[..i] + [list[i]];
      i := i + 1;
    }
    if !found {
      assert list[..i] == list;
    }
  }

  /** P_minus_NP before the fallback: the members of P missing from the pivot's list. */
  method NonNeighbours(p: set<nat>, list: seq<nat>) returns (b: set<nat>)
    ensures b == p - Elems(list)
  {
    b := {};
    var todo := p;
    while todo != {}
      invariant todo <= p
      invariant b == (p - todo) - Elems(list)
      decreases todo
    {
      var v := Least(todo);
      todo := todo - {v};
      var isAdjToPivot := ContainsEntry(list, v);
      if !isAdjToPivot {
        b := b + {v};
      }
    }
  }

  /** P_new and X_new: the members of S that appear in `list`. */
  method Restrict(list: seq<nat>, s: set<nat>) returns (r: set<nat>)
    ensures r == s * Elems(list)
  {
    r := {};
    for i := 0 to |list|
      invariant r == s * Elems(list[..i])
    {
      assert list[..i + 1] == list[..i] + [list[i]];
      if list[i] in s {
        r := r + {list[i]};
      }
    }
    assert list[..|list|] == list;
  }

  /**
   * The vertices Expand branches on: P minus the pivot's list, or the least
   * member of P when that is empty.
   */
  function BranchSet(adjList: AdjList, p: set<nat>, pivot: nat): (b: set<nat>)
    requires pivot < |adjList| && p != {}
    ensures b != {} && b <= p
    ensures p - Elems(adjList[pivot]) <= b
    ensures p - Elems(adjList[pivot]) == {} ==> |b| == 1
  {
    var nonAdjacent := p - Elems(adjList[pivot]);
    if nonAdjacent == {} then {Least(p)} else nonAdjacent
  }

  /**
   * Expand. P and X are passed by reference in the source; they come in as
   * values and their final values are returned. R is only copied, never
   * changed. `found` lists the cliques recorded, in order.
   */
  method Expand(r: set<nat>, p: set<nat>, x: set<nat>, adjList: AdjList, ghost adj: Adjacency,
                cliqueCounts: Histogram, totalCliques: nat)
    returns (p': set<nat>, x': set<nat>, cliqueCounts': Histogram, totalCliques': nat,
             ghost found: seq<set<nat>>, ghost pivot: int)
    requires adj == AdjSets(adjList) && Simple(adj)
    requires Frame(adj, Range(|adj|), r, p, x)
    ensures Reports(adj, Range(|adj|), r, p, found)
    ensures cliqueCounts' == Tally(cliqueCounts, found) && totalCliques' == totalCliques + |found|
    ensures p == {} && x == {} ==> found == [r]
    ensures p == {} && x != {} ==> found == []
    ensures p == {} ==> p' == p && x' == x
    ensures p != {} ==> 0 <= pivot < |adj| && IsLeastBestPivot(adjList, p, x, pivot)
    ensures p != {} ==> p' == p - BranchSet(adjList, p, pivot) && x' == x + BranchSet(adjList, p, pivot)
    decreases p, 2
  {
    ghost var all := Range(|adj|);
    p', x', cliqueCounts', totalCliques', pivot := p, x, cliqueCounts, totalCliques, -1;
    if p == {} && x == {} {
      // found a maximal clique
      cliqueCounts' := Record(cliqueCounts, |r|);
      totalCliques' := totalCliques + 1;
      found := [r];
      LeafReports(adj, all, r);
      return;
    }
    if p == {} {
      found := [];
      DeadEndReports(adj, all, r, x);
      return;
    }
    assert InRange(adj, p + x);
    var chosen := FindPivot(p, x, adjList);
    pivot := chosen;
    var pMinusNP := NonNeighbours(p, adjList[chosen]);
    if pMinusNP == {} {
      // every member of P is adjacent to the pivot: branch on the least one
      pMinusNP := {Least(p)};
    }
    p', x', cliqueCounts', totalCliques', found :=
      ExpandAll(r, p, x, chosen, pMinusNP, adjList, adj, cliqueCounts, totalCliques);
  }

  /** The loop of Expand over P_minus_NP, in increasing order. */
  method ExpandAll(r: set<nat>, p: set<nat>, x: set<nat>, pivot: nat, branch: set<nat>,
                   adjList: AdjList, ghost adj: Adjacency, cliqueCounts: Histogram, totalCliques: nat)
    returns (p': set<nat>, x': set<nat>, cliqueCounts': Histogram, totalCliques': nat,
             ghost found: seq<set<nat>>)
    requires adj == AdjSets(adjList) && Simple(adj)
    requires Frame(adj, Range(|adj|), r, p, x) && pivot in p + x
    requires p - adj[pivot] <= branch <= p
    ensures Reports(adj, Range(|adj|), r, p, found)
    ensures cliqueCounts' == Tally(cliqueCounts, found) && totalCliques' == totalCliques + |found|
    ensures p' == p - branch && x' == x + branch
    decreases p, 1
  {
    ghost var all := Range(|adj|);
    assert pivot in CommonNeighbours(adj, r, all);
    p', x', cliqueCounts', totalCliques' := p, x, cliqueCounts, totalCliques;
    found := [];
    ghost var done: set<nat> := {};
    var todo := branch;
    while todo != {}
      invariant todo <= branch
      invariant done == branch - todo
      invariant p' == p - done && x' == x + done && done <= p
      invariant Frame(adj, all, r, p', x')
      invariant PartialReports(adj, all, r, p, done, found)
      invariant cliqueCounts' == Tally(cliqueCounts, found) && totalCliques' == totalCliques + |found|
      decreases todo
    {
      var v := Least(todo);
      VisitStep(p, x, branch, todo, done, v);
      todo := todo - {v};
      var counts, total, child := ExpandOne(r, p', x', v, adjList, adj, cliqueCounts', totalCliques');
      BranchOn(adj, all, r, p, x, p', x', done, found, v, child);
      TallyAppend(cliqueCounts, found, child);
      found := found + child;
      cliqueCounts', totalCliques' := counts, total;
      // move v from P to X
      p' := p' - {v};
      x' := x' + {v};
      done := done + {v};
    }
    BranchesDone(adj, all, r, p, x, pivot, done, found);
  }

  /** One branch of Expand: recurse on R + {v}, P and X narrowed to v's list. */
  method ExpandOne(r: set<nat>, p: set<nat>, x: set<nat>, v: nat, adjList: AdjList, ghost adj: Adjacency,
                   cliqueCounts: Histogram, totalCliques: nat)
    returns (cliqueCounts': Histogram, totalCliques': nat, ghost child: seq<set<nat>>)
    requires adj == AdjSets(adjList) && Simple(adj)
    requires Frame(adj, Range(|adj|), r, p, x) && v in p
    ensures Reports(adj, Range(|adj|), r + {v}, p * adj[v], child)
    ensures cliqueCounts' == Tally(cliqueCounts, child) && totalCliques' == totalCliques + |child|
    decreases p, 0
  {
    ChildFrame(adj, Range(|adj|), r, p, x, v);
    var rNew := r + {v};
    var pNew := Restrict(adjList[v], p);
    var xNew := Restrict(adjList[v], x);
    var _, _, counts, total, found, _ := Expand(rNew, pNew, xNew, adjList, adj, cliqueCounts, totalCliques);
    cliqueCounts', totalCliques', child := counts, total, found;
  }

  // ---------------------------------------------------------------------------
  // The root frame of main

  /** The loop of main that fills P with every vertex. */
  method AllVertices(numVertices: nat) returns (p: set<nat>)
    ensures p == Range(numVertices)
  {
    p := {};
    for i := 0 to numVertices
      invariant p == Range(i)
    {
      p := p + {i};
    }
  }

  /** The root frame (R = X = {}, P = every vertex) is a search frame. */
  lemma RootFrame(adj: Adjacency)
    requires Closed(adj)
    ensures Frame(adj, Range(|adj|), {}, Range(|adj|), {})
  {
    var all := Range(|adj|);
    forall w | w in all ensures AdjacentToAll(adj, {}, w) { }
  }

  /**
   * main's search: Expand from the root frame. Every maximal clique of the
   * graph is recorded exactly once and nothing else is.
   */
  method MaximalCliques(g: Graph, cliqueCounts: Histogram, totalCliques: nat)
    returns (cliqueCounts': Histogram, totalCliques': nat, ghost found: seq<set<nat>>)
    requires g.Valid() && Loopless(AdjSets(g.adjList))
    ensures NoDup(found)
    ensures forall c :: c in found <==> IsMaximalClique(AdjSets(g.adjList), c)
    ensures cliqueCounts' == Tally(cliqueCounts, found) && totalCliques' == totalCliques + |found|
  {
    var r: set<nat> := {};
    var p := AllVertices(g.V);
    var x: set<nat> := {};
    ghost var adj := AdjSets(g.adjList);
    RootFrame(adj);
    var _, _, counts, total, cliques, _ := Expand(r, p, x, g.adjList, adj, cliqueCounts, totalCliques);
    cliqueCounts', totalCliques', found := counts, total, cliques;
    forall c ensures c in found <==> IsMaximalClique(adj, c) {
      if IsMaximalClique(adj, c) {
        assert Extends(adj, Range(|adj|), r, p, c);
      }
    }
  }
}
