/**
 * Arboricity.cpp: the clique search over adjacency bitsets, and the
 * bucket-based ordering that seeds it. A bitset over vertex ids is modelled
 * as the set of ids whose bit is set; bitset operations (`&`, `|`, `~`,
 * `count`) are set operations.
 */
module Arboricity {
  import opened Util
  import opened Cliques

  /** struct Graph: V vertices, neighbour vectors and the same neighbours as bitsets. */
  class Graph {
    const V: nat
    var adjList: AdjList
    var adjBits: Adjacency

    /** The bitsets hold exactly the listed neighbours, and adjacency is symmetric. */
    ghost predicate Valid()
      reads this
    {
      && |adjList| == V
      && adjBits == AdjSets(adjList)
      && Symmetric(adjBits)
    }

    constructor (v: nat)
      ensures Valid() && V == v
      ensures forall u :: 0 <= u < v ==> adjList[u] == [] && adjBits[u] == {}
    {
      V := v;
      adjList := seq(v, _ => []);
      adjBits := seq(v, _ => {});
      new;
      forall w | 0 <= w < v ensures adjBits[w] == Elems(adjList[w]) { }
    }

    /**
     * Graph::addEdge: both endpoints below V, then append each endpoint to
     * the other's vector and set the matching bits.
     */
    method AddEdge(u: nat, v: nat)
      requires Valid()
      modifies this
      ensures Valid()
      ensures u >= V || v >= V ==> adjList == old(adjList) && adjBits == old(adjBits)
      ensures u < V && v < V ==>
        var once := old(adjList)[u := old(adjList)[u] + [v]];
        adjList == once[v := once[v] + [u]]
      ensures u < V && v < V ==>
        var once := old(adjBits)[u := old(adjBits)[u] + {v}];
        adjBits == once[v := once[v] + {u}]
    {
      if u >= V || v >= V {
        return;
      }
      adjList := adjList[u := adjList[u] + [v]];
      adjList := adjList[v := adjList[v] + [u]];
      ghost var before := adjBits;
      adjBits := adjBits[u := adjBits[u] + {v}];
      adjBits := adjBits[v := adjBits[v] + {u}];
      forall a | 0 <= a < V ensures adjBits[a] == Elems(adjList[a]) {
        assert adjBits[a] == if a == u && a == v then before[a] + {v}
                             else if a == u then before[a] + {v}
                             else if a == v then before[a] + {u}
                             else before[a];
      }
      forall a, w | 0 <= a < V && w in adjBits[a] ensures w < V && a in adjBits[w] {
        if w !in before[a] {
          assert (a == u && w == v) || (a == v && w == u);
        }
      }
    }
  }

  // ---------------------------------------------------------------------------
  // selectPivot

  /** (P & ~adjBits[i]).count(): how many members of P are not neighbours of i. */
  function NonNeighbourCount(adj: Adjacency, p: set<nat>, i: nat): nat
    requires i < |adj|
  {
    |p - adj[i]|
  }

  /**
   * The pivot selectPivot returns: a member of P + X with the most
   * non-neighbours in P, and the least such member.
   */
  ghost predicate IsLeastBestPivot(adj: Adjacency, p: set<nat>, x: set<nat>, pivot: nat) {
    && pivot < |adj|
    && pivot in p + x
    && (forall w {:trigger NonNeighbourCount(adj, p, w)} :: w < |adj| && w in p + x ==> NonNeighbourCount(adj, p, w) <= NonNeighbourCount(adj, p, pivot))
    && (forall w {:trigger NonNeighbourCount(adj, p, w)} :: w < pivot && w in p + x ==> NonNeighbourCount(adj, p, w) < NonNeighbourCount(adj, p, pivot))
  }

  /** selectPivot: scan the ids below V; -1 exactly when P + X has no member there. */
  method SelectPivot(p: set<nat>, x: set<nat>, adj: Adjacency) returns (pivot: int)
    ensures pivot == -1 <==> forall w :: w in p + x ==> w >= |adj|
    ensures pivot != -1 ==> pivot >= 0 && IsLeastBestPivot(adj, p, x, pivot)
  {
    var maxCount: int := -1;
    pivot := -1;
    var candidates := p + x;
    for i := 0 to |adj|
      invariant pivot == -1 ==> maxCount == -1 && forall w :: w in candidates ==> w >= i
      invariant pivot != -1 ==> 0 <= pivot < i && pivot in candidates && maxCount == NonNeighbourCount(adj, p, pivot)
      invariant forall w {:trigger NonNeighbourCount(adj, p, w)} :: w < i && w in candidates ==> NonNeighbourCount(adj, p, w) <= maxCount
      invariant forall w {:trigger NonNeighbourCount(adj, p, w)} :: w < pivot && w in candidates ==> NonNeighbourCount(adj, p, w) < maxCount
    {
      if i in candidates {
        var count := NonNeighbourCount(adj, p, i);
        if count > maxCount {
          maxCount := count;
          pivot := i;
        }
      }
    }
  }

  // ---------------------------------------------------------------------------
  // ArboricityClique

  /**
   * ArboricityClique over the universe U of the vertices main put in P.
   * P and X are passed by reference; their final values are returned. R is
   * set and reset around each branch, so it comes back as it went in.
   * `found` lists the cliques recorded, in order.
   */
  method ArboricityClique(p: set<nat>, r: set<nat>, x: set<nat>, adj: Adjacency, ghost u: set<nat>,
                          cliqueCounts: Histogram, totalCliques: nat)
    returns (p': set<nat>, r': set<nat>, x': set<nat>, cliqueCounts': Histogram, totalCliques': nat,
             ghost found: seq<set<nat>>, ghost pivot: int)
    requires Simple(adj)
    requires Frame(adj, u, r, p, x)
    ensures Reports(adj, u, r, p, found)
    ensures cliqueCounts' == Tally(cliqueCounts, found) && totalCliques' == totalCliques + |found|
    ensures r' == r
    ensures p == {} && x == {} ==> found == [r]
    ensures p == {} && x != {} ==> found == []
    ensures p == {} ==> p' == p && x' == x
    ensures p != {} ==> 0 <= pivot && IsLeastBestPivot(adj, p, x, pivot)
    ensures p != {} ==> p' == p - (p - adj[pivot]) && x' == x + (p - adj[pivot])
    decreases p, 2
  {
    p', r', x', cliqueCounts', totalCliques', pivot := p, r, x, cliqueCounts, totalCliques, -1;
    if p == {} && x == {} {
      // found a maximal clique
      cliqueCounts' := Record(cliqueCounts, |r|);
      totalCliques' := totalCliques + 1;
      found := [r];
      LeafReports(adj, u, r);
      return;
    }
    if p == {} {
      found := [];
      DeadEndReports(adj, u, r, x);
      return;
    }
    assert InRange(adj, p + x);
    var chosen := SelectPivot(p, x, adj);
    pivot := chosen;
    var nonNeighbours := p - adj[chosen];
    p', r', x', cliqueCounts', totalCliques', found :=
      CliqueAll(p, r, x, chosen, nonNeighbours, adj, u, cliqueCounts, totalCliques);
  }

  /** The members of `s` below `v`: the bits of a bitset visited before index v. */
  function Below(s: set<nat>, v: nat): (b: set<nat>)
    ensures forall w :: w in b <==> w in s && w < v
  {
    set w | w in s && w < v
  }

  /** One more index takes in at most the bit at v. */
  lemma BelowNext(s: set<nat>, v: nat)
    ensures Below(s, v + 1) == if v in s then Below(s, v) + {v} else Below(s, v)
  {
  }

  /** The loop of ArboricityClique over the ids 0 .. V-1, branching where nonNeighbors is set. */
  method CliqueAll(p: set<nat>, r: set<nat>, x: set<nat>, pivot: nat, branch: set<nat>,
                   adj: Adjacency, ghost u: set<nat>, cliqueCounts: Histogram, totalCliques: nat)
    returns (p': set<nat>, r': set<nat>, x': set<nat>, cliqueCounts': Histogram, totalCliques': nat,
             ghost found: seq<set<nat>>)
    requires Simple(adj)
    requires Frame(adj, u, r, p, x) && pivot in p + x && pivot < |adj|
    requires branch == p - adj[pivot]
    ensures Reports(adj, u, r, p, found)
    ensures cliqueCounts' == Tally(cliqueCounts, found) && totalCliques' == totalCliques + |found|
    ensures r' == r && p' == p - branch && x' == x + branch
    decreases p, 1
  {
    p', r', x', cliqueCounts', totalCliques' := p, r, x, cliqueCounts, totalCliques;
    found := [];
    ghost var done: set<nat> := {};
    for v := 0 to |adj|
      invariant done == Below(branch, v)
      invariant r' == r && p' == p - done && x' == x + done && done <= p
      invariant Frame(adj, u, r, p', x')
      invariant PartialReports(adj, u, r, p, done, found)
      invariant cliqueCounts' == Tally(cliqueCounts, found) && totalCliques' == totalCliques + |found|
    {
      BelowNext(branch, v);
      if v in branch {
        VisitStep(p, x, branch, branch - done, done, v);
        var counts, total;
        ghost var child;
        r', counts, total, child := CliqueOne(p', r', x', v, adj, u, cliqueCounts', totalCliques');
        BranchOn(adj, u, r, p, x, p', x', done, found, v, child);
        TallyAppend(cliqueCounts, found, child);
        found := found + child;
        cliqueCounts', totalCliques' := counts, total;
        // move v from P to X
        p' := p' - {v};
        x' := x' + {v};
        done := done + {v};
      }
    }
    assert branch <= done;
    BranchesDone(adj, u, r, p, x, pivot, done, found);
  }

  /**
   * One branch: set v in R, recurse on P & adjBits[v] and X & adjBits[v],
   * then reset v in R.
   */
  method CliqueOne(p: set<nat>, r: set<nat>, x: set<nat>, v: nat, adj: Adjacency, ghost u: set<nat>,
                   cliqueCounts: Histogram, totalCliques: nat)
    returns (r': set<nat>, cliqueCounts': Histogram, totalCliques': nat, ghost child: seq<set<nat>>)
    requires Simple(adj)
    requires Frame(adj, u, r, p, x) && v in p
    ensures r' == r
    ensures Reports(adj, u, r + {v}, p * adj[v], child)
    ensures cliqueCounts' == Tally(cliqueCounts, child) && totalCliques' == totalCliques + |child|
    decreases p, 0
  {
    ChildFrame(adj, u, r, p, x, v);
    r' := r + {v};
    var pNew := p * adj[v];
    var xNew := x * adj[v];
    var _, rBack, _, counts, total, cliques, _ := ArboricityClique(pNew, r', xNew, adj, u, cliqueCounts, totalCliques);
    RemoveAdded(r, v);
    r' := rBack - {v};
    cliqueCounts', totalCliques', child := counts, total, cliques;
  }

  // ---------------------------------------------------------------------------
  // degeneracyOrdering: the peeling state and what one pass of the source does to it

  /** Adjacency lists of a simple graph: no repeated entry, no self-loop, symmetric. */
  ghost predicate SimpleLists(adjList: AdjList) {
    forall u :: 0 <= u < |adjList| ==>
      && NoDup(adjList[u])
      && u !in adjList[u]
      && forall w :: w in adjList[u] ==> w < |adjList| && u in adjList[w]
  }

  /** How many entries of `list` are not removed yet. */
  function Live(list: seq<nat>, removed: seq<bool>): (c: nat)
    requires forall w :: w in list ==> w < |removed|
    ensures c <= |list|
  {
    if list == [] then 0
    else
      assert list[0] in list && forall w :: w in list[1..] ==> w in list;
      (if removed[list[0]] then 0 else 1) + Live(list[1..], removed)
  }

  /** How many vertices are not removed yet. */
  function Remaining(removed: seq<bool>): nat {
    if removed == [] then 0
    else (if removed[0] then 0 else 1) + Remaining(removed[1..])
  }

  /** The locals of degeneracyOrdering: order, degree, bins and removed. */
  datatype Peel = Peel(order: seq<nat>, degree: seq<nat>, bins: seq<seq<nat>>, removed: seq<bool>)

  ghost predicate Shaped(n: nat, st: Peel) {
    |st.degree| == n && |st.removed| == n && |st.bins| == n + 1
  }

  /** A vertex still in the graph has as degree its live neighbours, plus one while it is pending. */
  ghost predicate DegreesLive(adjList: AdjList, pending: seq<nat>, st: Peel)
    requires SimpleLists(adjList) && Shaped(|adjList|, st)
  {
    forall w :: 0 <= w < |adjList| && !st.removed[w] ==>
      st.degree[w] == Live(adjList[w], st.removed) + (if w in pending then 1 else 0)
  }

  /** Bin k holds only vertices still in the graph whose degree is k, each once. */
  ghost predicate BinsSound(n: nat, st: Peel)
    requires Shaped(n, st)
  {
    && (forall k, w {:trigger w in st.bins[k]} :: 0 <= k <= n && w in st.bins[k] ==> w < n && !st.removed[w] && st.degree[w] == k)
    && (forall k :: 0 <= k <= n ==> NoDup(st.bins[k]))
  }

  /** Every vertex still in the graph sits in the bin of its degree. */
  ghost predicate Filed(n: nat, st: Peel)
    requires Shaped(n, st)
  {
    forall w :: 0 <= w < n && !st.removed[w] ==> st.degree[w] <= n && w in st.bins[st.degree[w]]
  }

  /** order lists, once each, exactly the removed vertices. */
  ghost predicate OrderSound(n: nat, st: Peel)
    requires Shaped(n, st)
  {
    NoDup(st.order) && forall w: nat :: w in st.order <==> w < n && st.removed[w]
  }

  /**
   * The invariant of the peeling loop while the neighbours in `pending`
   * have not been updated yet: the popped vertex is already removed, so
   * each of them is one above its live degree.
   */
  ghost predicate MidInv(adjList: AdjList, pending: seq<nat>, st: Peel) {
    && SimpleLists(adjList)
    && Shaped(|adjList|, st)
    && NoDup(pending)
    && (forall w :: w in pending ==> w < |adjList|)
    && DegreesLive(adjList, pending, st)
    && BinsSound(|adjList|, st)
    && Filed(|adjList|, st)
    && OrderSound(|adjList|, st)
  }

  /** The invariant of the peeling loop. */
  ghost predicate Inv(adjList: AdjList, st: Peel) {
    MidInv(adjList, [], st)
  }

  /** remove(...) then erase(...): every copy of x taken out of s. */
  function EraseAll(s: seq<nat>, x: nat): (r: seq<nat>)
    ensures forall y :: y in r <==> y in s && y != x
    ensures NoDup(s) ==> NoDup(r)
  {
    if s == [] then []
    else
      var rest := EraseAll(s[1..], x);
      if s[0] == x then rest
      else
        assert s[0] !in s[1..] ==> s[0] !in rest;
        [s[0]] + rest
  }

  /** One neighbour still in the graph: out of bin degree, degree one less, into the bin below. */
  function Move(st: Peel, nb: nat): Peel
    requires nb < |st.degree| && 1 <= st.degree[nb] < |st.bins|
  {
    var k := st.degree[nb];
    var bins := st.bins[k := EraseAll(st.bins[k], nb)];
    st.(degree := st.degree[nb := k - 1], bins := bins[k - 1 := bins[k - 1] + [nb]])
  }

  /** One iteration of the neighbour loop: only neighbours still in the graph move. */
  function Visit(st: Peel, nb: nat): Peel
    requires nb < |st.removed| && |st.degree| == |st.removed|
    requires !st.removed[nb] ==> 1 <= st.degree[nb] < |st.bins|
  {
    if st.removed[nb] then st else Move(st, nb)
  }

  /** Removing v takes exactly one live entry from a list that holds v, and none from one that does not. */
  lemma {:induction false} LiveMark(list: seq<nat>, removed: seq<bool>, v: nat)
    requires forall w :: w in list ==> w < |removed|
    requires NoDup(list) && v < |removed| && !removed[v]
    ensures Live(list, removed[v := true]) + (if v in list then 1 else 0) == Live(list, removed)
  {
    if list != [] {
      assert forall w :: w in list[1..] ==> w in list;
      assert NoDup(list[1..]) by {
        forall i, j | 0 <= i < j < |list[1..]| ensures list[1..][i] != list[1..][j] {
          assert list[1..][i] == list[i + 1] && list[1..][j] == list[j + 1];
        }
      }
      var marked := removed[v := true];
      var head := list[0];
      assert head in list;
      LiveMark(list[1..], removed, v);
      assert Live(list, removed) == (if removed[head] then 0 else 1) + Live(list[1..], removed);
      assert Live(list, marked) == (if marked[head] then 0 else 1) + Live(list[1..], marked);
      assert v in list <==> v == head || v in list[1..];
      if head == v {
        assert v !in list[1..];
      }
    }
  }

  /** Before anything is removed every entry is live. */
  lemma {:induction false} LiveFresh(list: seq<nat>, removed: seq<bool>)
    requires forall w :: w in list ==> w < |removed| && !removed[w]
    ensures Live(list, removed) == |list|
  {
    if list != [] {
      assert list[0] in list && forall w :: w in list[1..] ==> w in list;
      LiveFresh(list[1..], removed);
    }
  }

  /** A vertex of a simple graph on n vertices has fewer than n neighbours. */
  lemma ListBound(adjList: AdjList, u: nat)
    requires SimpleLists(adjList) && u < |adjList|
    ensures |adjList[u]| < |adjList|
  {
    NoDupCard(adjList[u]);
    var s := Elems(adjList[u]) + {u};
    BoundedSetSize(s, |adjList|);
    assert u !in Elems(adjList[u]);
  }

  /** Removing a vertex still in the graph leaves one fewer. */
  lemma {:induction false} RemainingMark(removed: seq<bool>, v: nat)
    requires v < |removed| && !removed[v]
    ensures Remaining(removed[v := true]) + 1 == Remaining(removed)
  {
    if v > 0 {
      assert removed[v := true][1..] == removed[1..][v - 1 := true];
      RemainingMark(removed[1..], v - 1);
    } else {
      assert removed[v := true][1..] == removed[1..];
    }
  }

  /** The next pending neighbour can be visited: it is a vertex, and if still in the graph its degree has a bin below it. */
  lemma VisitBound(adjList: AdjList, pending: seq<nat>, st: Peel)
    requires MidInv(adjList, pending, st) && pending != []
    ensures pending[0] < |st.removed|
    ensures !st.removed[pending[0]] ==> 1 <= st.degree[pending[0]] < |st.bins|
  {
    var nb := pending[0];
    assert nb in pending;
    if !st.removed[nb] {
      ListBound(adjList, nb);
    }
  }

  /** Moving a neighbour between bins keeps the bins sound. */
  lemma MoveBins(n: nat, st: Peel, nb: nat)
    requires Shaped(n, st) && BinsSound(n, st) && Filed(n, st)
    requires nb < n && !st.removed[nb] && 1 <= st.degree[nb] <= n
    ensures Shaped(n, Move(st, nb)) && BinsSound(n, Move(st, nb)) && Filed(n, Move(st, nb))
  {
    var k := st.degree[nb];
    var st' := Move(st, nb);
    assert nb !in st.bins[k - 1];
    assert st'.removed == st.removed;
    assert forall w :: 0 <= w < n ==> st'.degree[w] == if w == nb then k - 1 else st.degree[w];
    forall j, w | 0 <= j <= n && w in st'.bins[j]
      ensures w < n && !st'.removed[w] && st'.degree[w] == j
    {
      if j == k - 1 {
        assert st'.bins[j] == st.bins[j] + [nb];
        if w != nb {
          assert w in st.bins[j];
        }
      } else if j == k {
        assert st'.bins[j] == EraseAll(st.bins[k], nb);
        assert w in st.bins[j] && w != nb;
      } else {
        assert st'.bins[j] == st.bins[j];
        assert w in st.bins[j];
        assert w != nb;
      }
    }
    forall j | 0 <= j <= n ensures NoDup(st'.bins[j]) {
      if j == k - 1 {
        NoDupSnoc(st.bins[j], nb);
      }
    }
    forall w | 0 <= w < n && !st'.removed[w] ensures st'.degree[w] <= n && w in st'.bins[st'.degree[w]] {
      var j := st.degree[w];
      assert w in st.bins[j];
      if w == nb {
        assert st'.bins[k - 1] == st.bins[k - 1] + [nb];
      } else if j == k {
        assert st'.bins[j] == EraseAll(st.bins[k], nb);
      } else if j == k - 1 {
        assert st'.bins[j] == st.bins[j] + [nb];
      } else {
        assert st'.bins[j] == st.bins[j];
      }
    }
  }

  /** One iteration of the neighbour loop keeps the invariant, with one fewer pending neighbour. */
  lemma VisitKeeps(adjList: AdjList, pending: seq<nat>, st: Peel)
    requires MidInv(adjList, pending, st) && pending != []
    requires pending[0] < |st.removed|
    requires !st.removed[pending[0]] ==> 1 <= st.degree[pending[0]] < |st.bins|
    ensures MidInv(adjList, pending[1..], Visit(st, pending[0]))
  {
    var n := |adjList|;
    var nb := pending[0];
    var rest := pending[1..];
    assert forall w :: w in pending <==> w == nb || w in rest;
    assert nb !in rest;
    assert NoDup(rest) by {
      forall i, j | 0 <= i < j < |rest| ensures rest[i] != rest[j] {
        assert rest[i] == pending[i + 1] && rest[j] == pending[j + 1];
      }
    }
    var st' := Visit(st, nb);
    if !st.removed[nb] {
      MoveBins(n, st, nb);
    }
    forall w | 0 <= w < n && !st'.removed[w]
      ensures st'.degree[w] == Live(adjList[w], st'.removed) + (if w in rest then 1 else 0)
    {
      assert st'.removed == st.removed;
      if w != nb {
        assert st'.degree[w] == st.degree[w];
      }
    }
  }

  /** The neighbour loop of one removal, over `pending` front to back. */
  function Release(adjList: AdjList, pending: seq<nat>, st: Peel): (st': Peel)
    requires MidInv(adjList, pending, st)
    ensures Inv(adjList, st')
    ensures st'.order == st.order && st'.removed == st.removed
    decreases |pending|
  {
    if pending == [] then st
    else
      VisitBound(adjList, pending, st);
      VisitKeeps(adjList, pending, st);
      Release(adjList, pending[1..], Visit(st, pending[0]))
  }

  /** bins[d].back() */
  function Top(st: Peel, d: nat): nat
    requires d < |st.bins| && st.bins[d] != []
  {
    st.bins[d][|st.bins[d]| - 1]
  }

  /** bins[d].pop_back(), removed[v] = true, order.push_back(v) for v the popped vertex. */
  function Mark(st: Peel, d: nat): Peel
    requires d < |st.bins| && st.bins[d] != [] && Top(st, d) < |st.removed|
  {
    var b := st.bins[d];
    var v := Top(st, d);
    Peel(st.order + [v], st.degree, st.bins[d := b[..|b| - 1]], st.removed[v := true])
  }

  /** Popping, removing and recording the top of a bin keeps the bins sound. */
  lemma MarkSound(n: nat, d: nat, st: Peel)
    requires Shaped(n, st) && BinsSound(n, st)
    requires d <= n && st.bins[d] != []
    ensures Top(st, d) < n && !st.removed[Top(st, d)]
    ensures Shaped(n, Mark(st, d)) && BinsSound(n, Mark(st, d))
  {
    var b := st.bins[d];
    var v := Top(st, d);
    assert v in st.bins[d];
    var st' := Mark(st, d);
    var rest := b[..|b| - 1];
    assert st'.bins[d] == rest;
    assert v !in rest by {
      forall i | 0 <= i < |rest| ensures rest[i] != v {
        assert rest[i] == b[i];
      }
    }
    assert st'.removed == st.removed[v := true] && st'.degree == st.degree;
    forall j, w | 0 <= j <= n && w in st'.bins[j]
      ensures w < n && !st'.removed[w] && st'.degree[w] == j
    {
      if j == d {
        assert w in rest && w != v;
        assert w in b;
      } else {
        assert st'.bins[j] == st.bins[j];
        assert w in st.bins[j];
      }
      assert w < n && !st.removed[w] && st.degree[w] == j;
    }
    forall j | 0 <= j <= n ensures NoDup(st'.bins[j]) {
      if j == d {
        assert forall i :: 0 <= i < |rest| ==> rest[i] == b[i];
      }
    }
  }

  /** Recording a vertex that was not yet removed keeps the order sound. */
  lemma MarkOrder(n: nat, d: nat, st: Peel)
    requires Shaped(n, st) && OrderSound(n, st)
    requires d <= n && st.bins[d] != [] && Top(st, d) < n && !st.removed[Top(st, d)]
    ensures OrderSound(n, Mark(st, d))
  {
    NoDupSnoc(st.order, Top(st, d));
  }

  /** Popping the top of a bin and removing it keeps every other vertex filed. */
  lemma MarkFiled(n: nat, d: nat, st: Peel)
    requires Shaped(n, st) && Filed(n, st)
    requires d <= n && st.bins[d] != [] && Top(st, d) < n
    ensures Filed(n, Mark(st, d))
  {
    var b := st.bins[d];
    var v := Top(st, d);
    var st' := Mark(st, d);
    var rest := b[..|b| - 1];
    assert b == rest + [v];
    forall w | 0 <= w < n && !st'.removed[w] ensures st'.degree[w] <= n && w in st'.bins[st'.degree[w]] {
      assert w in st.bins[st.degree[w]];
    }
  }

  /** After removing v, its neighbours are exactly the vertices one above their live degree. */
  lemma MarkDegrees(adjList: AdjList, d: nat, st: Peel)
    requires Inv(adjList, st) && d <= |adjList| && st.bins[d] != []
    requires Top(st, d) < |adjList| && !st.removed[Top(st, d)]
    ensures Shaped(|adjList|, Mark(st, d))
    ensures DegreesLive(adjList, adjList[Top(st, d)], Mark(st, d))
  {
    var v := Top(st, d);
    var st' := Mark(st, d);
    forall w | 0 <= w < |adjList| && !st'.removed[w]
      ensures st'.degree[w] == Live(adjList[w], st'.removed) + (if w in adjList[v] then 1 else 0)
    {
      LiveMark(adjList[w], st.removed, v);
      assert v in adjList[w] <==> w in adjList[v];
    }
  }

  /** The state at the start of the neighbour loop satisfies the loop's invariant, with one vertex fewer left. */
  lemma StartRelease(adjList: AdjList, d: nat, st: Peel)
    requires Inv(adjList, st) && d <= |adjList| && st.bins[d] != []
    ensures Top(st, d) < |adjList| && !st.removed[Top(st, d)]
    ensures MidInv(adjList, adjList[Top(st, d)], Mark(st, d))
    ensures Remaining(Mark(st, d).removed) < Remaining(st.removed)
  {
    MarkSound(|adjList|, d, st);
    MarkOrder(|adjList|, d, st);
    MarkFiled(|adjList|, d, st);
    MarkDegrees(adjList, d, st);
    RemainingMark(st.removed, Top(st, d));
  }

  /**
   * One iteration of the while loop on bins[d]: pop the back vertex, remove
   * it, record it, update its neighbours. The `removed[v]` test never fires
   * (a bin holds only vertices still in the graph), so it is not modelled.
   */
  function Step(adjList: AdjList, d: nat, st: Peel): (st': Peel)
    requires Inv(adjList, st) && d <= |adjList| && st.bins[d] != []
    ensures Inv(adjList, st')
    ensures Remaining(st'.removed) < Remaining(st.removed)
  {
    StartRelease(adjList, d, st);
    Release(adjList, adjList[Top(st, d)], Mark(st, d))
  }

  /** The for loop over d, from d to V, each level drained by its while loop. */
  function Scan(adjList: AdjList, d: nat, st: Peel): (st': Peel)
    requires Inv(adjList, st) && d <= |adjList| + 1
    ensures Inv(adjList, st')
    decreases Remaining(st.removed), |adjList| + 1 - d
  {
    if d > |adjList| then st
    else if st.bins[d] == [] then Scan(adjList, d + 1, st)
    else Scan(adjList, d, Step(adjList, d, st))
  }

  /** The state after the initialisation loop: every vertex in the bin of its list size. */
  function Initial(adjList: AdjList): Peel {
    var n := |adjList|;
    var degree := Lengths(adjList);
    Peel([], degree, seq(n + 1, k requires 0 <= k => Bucket(degree, k, n)), seq(n, _ => false))
  }

  lemma InitialInv(adjList: AdjList)
    requires SimpleLists(adjList)
    ensures Inv(adjList, Initial(adjList))
  {
    var n := |adjList|;
    var st := Initial(adjList);
    forall w | 0 <= w < n ensures st.degree[w] == Live(adjList[w], st.removed) {
      LiveFresh(adjList[w], st.removed);
    }
    forall k | 0 <= k <= n ensures NoDup(st.bins[k]) {
      BucketAscending(st.degree, k, n);
    }
    forall w | 0 <= w < n ensures st.degree[w] <= n && w in st.bins[st.degree[w]] {
      ListBound(adjList, w);
    }
  }

  /** degeneracyOrdering's result: the removal order, reversed. */
  function Ordering(adjList: AdjList): (order: seq<nat>)
    requires SimpleLists(adjList)
  {
    InitialInv(adjList);
    Reversed(Scan(adjList, 0, Initial(adjList)).order)
  }

  /** The ordering lists vertices only, each at most once. */
  lemma OrderingDistinct(adjList: AdjList)
    requires SimpleLists(adjList)
    ensures NoDup(Ordering(adjList))
    ensures forall w :: w in Ordering(adjList) ==> w < |adjList|
  {
    InitialInv(adjList);
    ReversedSame(Scan(adjList, 0, Initial(adjList)).order);
  }

  /** Initialisation on the single edge 0-1: both vertices in bin 1, vertex 0 first. */
  lemma SingleEdgeStart()
    ensures Initial([[1], [0]]) == Peel([], [1, 1], [[], [0, 1], []], [false, false])
  {
    var adjList: AdjList := [[1], [0]];
    var st := Initial(adjList);
    assert st.degree == [1, 1];
    assert Bucket([1, 1], 0, 1) == [] && Bucket([1, 1], 0, 2) == [];
    assert Bucket([1, 1], 1, 1) == [0] && Bucket([1, 1], 1, 2) == [0, 1];
    assert Bucket([1, 1], 2, 1) == [] && Bucket([1, 1], 2, 2) == [];
    assert st.bins == [[], [0, 1], []];
  }

  /** The one removal on the single edge 0-1: vertex 1 goes, vertex 0 drops to bin 0. */
  lemma SingleEdgeStep()
    ensures Inv([[1], [0]], Peel([], [1, 1], [[], [0, 1], []], [false, false]))
    ensures Step([[1], [0]], 1, Peel([], [1, 1], [[], [0, 1], []], [false, false]))
         == Peel([1], [0, 1], [[0], [], []], [false, true])
  {
    var adjList: AdjList := [[1], [0]];
    InitialInv(adjList);
    SingleEdgeStart();
    var s0 := Peel([], [1, 1], [[], [0, 1], []], [false, false]);
    assert Top(s0, 1) == 1;
    assert [0, 1][..1] == [0];
    var marked := Peel([1], [1, 1], [[], [0], []], [false, true]);
    assert Mark(s0, 1) == marked;
    SingleEdgeVisit();
    assert [0][1..] == [];
  }

  /** Vertex 0 loses its one live neighbour and moves from bin 1 down to bin 0. */
  lemma SingleEdgeVisit()
    ensures Visit(Peel([1], [1, 1], [[], [0], []], [false, true]), 0)
         == Peel([1], [0, 1], [[0], [], []], [false, true])
  {
    var st := Peel([1], [1, 1], [[], [0], []], [false, true]);
    assert EraseAll([0], 0) == [];
    assert st.bins[1 := EraseAll(st.bins[1], 0)] == [[], [], []];
    assert st.degree[0 := 0] == [0, 1];
    var r := Visit(st, 0);
    var erased := st.bins[1 := EraseAll(st.bins[1], 0)];
    assert erased[0] + [0] == [0];
    assert r.bins == [[0], [], []];
  }

  /**
   * On the single edge 0-1 the ordering is [1]: vertex 1 is removed first,
   * vertex 0 drops to bin 0 while the scan is at d = 1, and the scan never
   * returns to bin 0.
   */
  lemma SingleEdgeOrdering()
    ensures SimpleLists([[1], [0]])
    ensures Ordering([[1], [0]]) == [1]
  {
    var adjList: AdjList := [[1], [0]];
    SingleEdgeStart();
    SingleEdgeStep();
    var s0 := Peel([], [1, 1], [[], [0, 1], []], [false, false]);
    var s1 := Peel([1], [0, 1], [[0], [], []], [false, true]);
    assert Scan(adjList, 0, s0) == Scan(adjList, 1, s0) == Scan(adjList, 1, s1);
    assert Scan(adjList, 1, s1) == Scan(adjList, 2, s1) == Scan(adjList, 3, s1) == s1;
  }

  // ---------------------------------------------------------------------------
  // degeneracyOrdering: the method

  /** The initialisation loop: degree[i] = adjList[i].size(), then i pushed onto bins[degree[i]]. */
  method InitialBins(adjList: AdjList) returns (degree: seq<nat>, bins: seq<seq<nat>>)
    requires SimpleLists(adjList)
    ensures degree == Initial(adjList).degree && bins == Initial(adjList).bins
  {
    var n := |adjList|;
    ghost var sizes := Lengths(adjList);
    degree := seq(n, _ => 0);
    bins := seq(n + 1, _ => []);
    for i := 0 to n
      invariant |degree| == n && |bins| == n + 1
      invariant forall j :: 0 <= j < i ==> degree[j] == sizes[j]
      invariant forall k :: 0 <= k <= n ==> bins[k] == Bucket(sizes, k, i)
    {
      ListBound(adjList, i);
      degree := degree[i := |adjList[i]|];
      bins := bins[degree[i] := bins[degree[i]] + [i]];
      forall k | 0 <= k <= n ensures bins[k] == Bucket(sizes, k, i + 1) {
        assert Bucket(sizes, k, i + 1) == Bucket(sizes, k, i) + (if sizes[i] == k then [i] else []);
      }
    }
    assert degree == sizes;
    ghost var start := Initial(adjList);
    forall k | 0 <= k <= n ensures bins[k] == start.bins[k] { }
  }

  /**
   * The neighbour loop after removing v: each neighbour still in the graph
   * is erased from its bin, loses one degree and is pushed onto the bin below.
   */
  method ReleaseNeighbours(adjList: AdjList, v: nat, ghost order: seq<nat>, degree: seq<nat>,
                           bins: seq<seq<nat>>, removed: seq<bool>)
    returns (degree': seq<nat>, bins': seq<seq<nat>>)
    requires v < |adjList| && MidInv(adjList, adjList[v], Peel(order, degree, bins, removed))
    ensures Peel(order, degree', bins', removed) == Release(adjList, adjList[v], Peel(order, degree, bins, removed))
  {
    degree', bins' := degree, bins;
    var list := adjList[v];
    for i := 0 to |list|
      invariant MidInv(adjList, list[i..], Peel(order, degree', bins', removed))
      invariant Release(adjList, list[i..], Peel(order, degree', bins', removed))
             == Release(adjList, list, Peel(order, degree, bins, removed))
    {
      ghost var cur := Peel(order, degree', bins', removed);
      VisitBound(adjList, list[i..], cur);
      VisitKeeps(adjList, list[i..], cur);
      var neighbor := list[i];
      assert list[i..][0] == neighbor && list[i..][1..] == list[i + 1..];
      if !removed[neighbor] {
        var k := degree'[neighbor];
        bins' := bins'[k := EraseAll(bins'[k], neighbor)];
        degree' := degree'[neighbor := k - 1];
        bins' := bins'[k - 1 := bins'[k - 1] + [neighbor]];
        assert Peel(order, degree', bins', removed) == Move(cur, neighbor);
      }
    }
    assert list[|list|..] == [];
  }

  /** One iteration of the while loop on bins[d]: pop the back vertex, remove it, update its neighbours. */
  method RemoveTop(adjList: AdjList, d: nat, order: seq<nat>, degree: seq<nat>, bins: seq<seq<nat>>, removed: seq<bool>)
    returns (order': seq<nat>, degree': seq<nat>, bins': seq<seq<nat>>, removed': seq<bool>)
    requires d <= |adjList| && Inv(adjList, Peel(order, degree, bins, removed)) && bins[d] != []
    ensures Peel(order', degree', bins', removed') == Step(adjList, d, Peel(order, degree, bins, removed))
  {
    ghost var cur := Peel(order, degree, bins, removed);
    StartRelease(adjList, d, cur);
    var v := bins[d][|bins[d]| - 1];
    bins' := bins[d := bins[d][..|bins[d]| - 1]];
    if removed[v] {
      // never taken: a bin holds only vertices still in the graph
      assert false;
    }
    removed' := removed[v := true];
    order' := order + [v];
    assert Peel(order', degree, bins', removed') == Mark(cur, d);
    degree', bins' := ReleaseNeighbours(adjList, v, order', degree, bins', removed');
  }

  /** The while loop on bins[d]: remove vertices from its back until it is empty. */
  method DrainBin(adjList: AdjList, d: nat, order: seq<nat>, degree: seq<nat>, bins: seq<seq<nat>>, removed: seq<bool>)
    returns (order': seq<nat>, degree': seq<nat>, bins': seq<seq<nat>>, removed': seq<bool>)
    requires d <= |adjList| && Inv(adjList, Peel(order, degree, bins, removed))
    ensures Inv(adjList, Peel(order', degree', bins', removed')) && bins'[d] == []
    ensures Scan(adjList, d + 1, Peel(order', degree', bins', removed')) == Scan(adjList, d, Peel(order, degree, bins, removed))
  {
    order', degree', bins', removed' := order, degree, bins, removed;
    while bins'[d] != []
      invariant Inv(adjList, Peel(order', degree', bins', removed'))
      invariant Scan(adjList, d, Peel(order', degree', bins', removed')) == Scan(adjList, d, Peel(order, degree, bins, removed))
      decreases Remaining(removed')
    {
      order', degree', bins', removed' := RemoveTop(adjList, d, order', degree', bins', removed');
    }
    assert Scan(adjList, d, Peel(order', degree', bins', removed')) == Scan(adjList, d + 1, Peel(order', degree', bins', removed'));
  }

  /** The locals of degeneracyOrdering before the scan: an empty order, the sizes, the bins, nothing removed. */
  method StartPeel(adjList: AdjList) returns (order: seq<nat>, degree: seq<nat>, bins: seq<seq<nat>>, removed: seq<bool>)
    requires SimpleLists(adjList)
    ensures Peel(order, degree, bins, removed) == Initial(adjList)
    ensures Inv(adjList, Peel(order, degree, bins, removed))
  {
    order := [];
    degree, bins := InitialBins(adjList);
    removed := seq(|adjList|, _ => false);
    InitialInv(adjList);
  }

  /** degeneracyOrdering. */
  method DegeneracyOrdering(adjList: AdjList) returns (order: seq<nat>)
    requires SimpleLists(adjList)
    ensures order == Ordering(adjList)
  {
    var n := |adjList|;
    var degree, bins, removed;
    order, degree, bins, removed := StartPeel(adjList);
    ghost var last := Scan(adjList, 0, Initial(adjList));
    for d := 0 to n + 1
      invariant Inv(adjList, Peel(order, degree, bins, removed))
      invariant Scan(adjList, d, Peel(order, degree, bins, removed)) == last
    {
      order, degree, bins, removed := DrainBin(adjList, d, order, degree, bins, removed);
    }
    order := Reversed(order);
  }

  // ---------------------------------------------------------------------------
  // The corrected ordering: the scan steps back a level after each removal

  /** Every bin below d is empty. */
  ghost predicate BelowEmpty(d: nat, st: Peel) {
    forall j :: 0 <= j < d && j < |st.bins| ==> st.bins[j] == []
  }

  /**
   * The scan with the step back: a removal at level d can bring a
   * neighbour down to d - 1, so the scan resumes at d - 1. Started with
   * the bins below d empty, it ends with every vertex removed.
   */
  function ScanFixed(adjList: AdjList, d: nat, st: Peel): (st': Peel)
    requires Inv(adjList, st) && d <= |adjList| + 1 && BelowEmpty(d, st)
    ensures Inv(adjList, st')
    ensures forall w :: 0 <= w < |adjList| ==> st'.removed[w]
    decreases Remaining(st.removed), |adjList| + 1 - d
  {
    if d > |adjList| then
      AllBinsEmpty(adjList, st);
      st
    else if st.bins[d] == [] then
      ScanFixed(adjList, d + 1, st)
    else
      StepFloor(adjList, d, st);
      ScanFixed(adjList, if d > 0 then d - 1 else 0, Step(adjList, d, st))
  }

  /** The neighbour loop leaves the bins below f empty when every pending neighbour is above f. */
  lemma {:induction false} ReleaseFloor(adjList: AdjList, pending: seq<nat>, st: Peel, f: nat)
    requires MidInv(adjList, pending, st) && BelowEmpty(f, st)
    requires forall w :: w in pending && !st.removed[w] ==> st.degree[w] > f
    ensures BelowEmpty(f, Release(adjList, pending, st))
    decreases |pending|
  {
    if pending != [] {
      VisitBound(adjList, pending, st);
      VisitKeeps(adjList, pending, st);
      var nb := pending[0];
      var next := Visit(st, nb);
      assert forall w :: w in pending[1..] ==> w in pending && w != nb by {
        assert NoDup(pending);
        forall w | w in pending[1..] ensures w in pending && w != nb {
          var i :| 0 <= i < |pending[1..]| && pending[1..][i] == w;
          assert pending[i + 1] == w;
        }
      }
      ReleaseFloor(adjList, pending[1..], next, f);
    }
  }

  /** A removal at level d, with the bins below d empty, leaves the bins below d - 1 empty. */
  lemma StepFloor(adjList: AdjList, d: nat, st: Peel)
    requires Inv(adjList, st) && d <= |adjList| && st.bins[d] != [] && BelowEmpty(d, st)
    ensures BelowEmpty(if d > 0 then d - 1 else 0, Step(adjList, d, st))
  {
    if d > 0 {
      StartRelease(adjList, d, st);
      var v := Top(st, d);
      var marked := Mark(st, d);
      forall w | w in adjList[v] && !marked.removed[w] ensures marked.degree[w] > d - 1 {
        assert w in marked.bins[marked.degree[w]];
      }
      ReleaseFloor(adjList, adjList[v], marked, d - 1);
    }
  }

  /** With every bin empty, every vertex is removed: an unremoved one would be filed in a bin. */
  lemma AllBinsEmpty(adjList: AdjList, st: Peel)
    requires Inv(adjList, st) && BelowEmpty(|adjList| + 1, st)
    ensures forall w :: 0 <= w < |adjList| ==> st.removed[w]
  {
  }

  /** The corrected degeneracyOrdering's result. */
  function FixedOrdering(adjList: AdjList): (order: seq<nat>)
    requires SimpleLists(adjList)
  {
    InitialInv(adjList);
    Reversed(ScanFixed(adjList, 0, Initial(adjList)).order)
  }

  /** Once every vertex is removed, the order lists each vertex once. */
  lemma OrderAllOnce(adjList: AdjList, st: Peel)
    requires Inv(adjList, st) && forall w :: 0 <= w < |adjList| ==> st.removed[w]
    ensures NoDup(Reversed(st.order))
    ensures forall w :: w in Reversed(st.order) <==> 0 <= w < |adjList|
  {
    ReversedSame(st.order);
    assert OrderSound(|adjList|, st);
    forall w ensures w in Reversed(st.order) <==> 0 <= w < |adjList| {
      if 0 <= w {
        assert w in st.order <==> w < |adjList| && st.removed[w];
      }
    }
  }

  /** The corrected ordering lists every vertex exactly once. */
  lemma FixedOrderingComplete(adjList: AdjList)
    requires SimpleLists(adjList)
    ensures NoDup(FixedOrdering(adjList))
    ensures forall w :: w in FixedOrdering(adjList) <==> 0 <= w < |adjList|
    ensures |FixedOrdering(adjList)| == |adjList|
  {
    InitialInv(adjList);
    OrderAllOnce(adjList, ScanFixed(adjList, 0, Initial(adjList)));
    var order := FixedOrdering(adjList);
    assert Elems(order) == Range(|adjList|);
    NoDupCard(order);
    RangeSize(|adjList|);
  }

  /**
   * One step of the corrected scan at level d: move up when bins[d] is
   * empty, otherwise remove its back vertex and step back a level.
   */
  method ScanFixedStep(adjList: AdjList, d: nat, order: seq<nat>, degree: seq<nat>, bins: seq<seq<nat>>, removed: seq<bool>)
    returns (d': nat, order': seq<nat>, degree': seq<nat>, bins': seq<seq<nat>>, removed': seq<bool>)
    requires d <= |adjList| && Inv(adjList, Peel(order, degree, bins, removed)) && BelowEmpty(d, Peel(order, degree, bins, removed))
    ensures d' <= |adjList| + 1 && Inv(adjList, Peel(order', degree', bins', removed'))
    ensures BelowEmpty(d', Peel(order', degree', bins', removed'))
    ensures ScanFixed(adjList, d', Peel(order', degree', bins', removed')) == ScanFixed(adjList, d, Peel(order, degree, bins, removed))
    ensures Remaining(removed') < Remaining(removed) || (removed' == removed && d' == d + 1)
  {
    if bins[d] == [] {
      d', order', degree', bins', removed' := d + 1, order, degree, bins, removed;
    } else {
      StepFloor(adjList, d, Peel(order, degree, bins, removed));
      order', degree', bins', removed' := RemoveTop(adjList, d, order, degree, bins, removed);
      d' := if d > 0 then d - 1 else 0;
    }
  }

  /** The corrected degeneracyOrdering: after each removal at level d > 0 the scan goes back to d - 1. */
  method FixedDegeneracyOrdering(adjList: AdjList) returns (order: seq<nat>)
    requires SimpleLists(adjList)
    ensures order == FixedOrdering(adjList)
  {
    var n := |adjList|;
    var degree, bins, removed;
    order, degree, bins, removed := StartPeel(adjList);
    ghost var last := ScanFixed(adjList, 0, Initial(adjList));
    var d: nat := 0;
    while d <= n
      invariant d <= n + 1 && Inv(adjList, Peel(order, degree, bins, removed))
      invariant BelowEmpty(d, Peel(order, degree, bins, removed))
      invariant ScanFixed(adjList, d, Peel(order, degree, bins, removed)) == last
      decreases Remaining(removed), n + 1 - d
    {
      d, order, degree, bins, removed := ScanFixedStep(adjList, d, order, degree, bins, removed);
    }
    order := Reversed(order);
  }

  // ---------------------------------------------------------------------------
  // main

  /** The loop of main that sets P's bit for each vertex of the ordering. */
  method SeedCandidates(ordering: seq<nat>) returns (p: set<nat>)
    ensures p == Elems(ordering)
  {
    p := {};
    for i := 0 to |ordering|
      invariant p == Elems(ordering[..i])
    {
      assert ordering[..i + 1] == ordering[..i] + [ordering[i]];
      p := p + {ordering[i]};
    }
    assert ordering[..|ordering|] == ordering;
  }

  /** The root frame over U: R = X = {}, P = U. */
  lemma RootFrame(adj: Adjacency, u: set<nat>)
    requires InRange(adj, u)
    ensures Frame(adj, u, {}, u, {})
  {
    forall w | w in u ensures AdjacentToAll(adj, {}, w) { }
  }

  /** Lists of a simple graph give loopless, symmetric bitsets. */
  lemma SimpleBits(g: Graph)
    requires g.Valid() && SimpleLists(g.adjList)
    ensures Simple(g.adjBits)
  {
    forall u | 0 <= u < |g.adjBits| ensures u !in g.adjBits[u] {
      assert g.adjBits[u] == Elems(g.adjList[u]);
    }
  }

  /**
   * The search of main once the ordering is known: P holds the ordering's
   * vertices, R and X are empty. Recorded is every maximal clique of the
   * subgraph induced by the ordering's vertices, once, and nothing else.
   */
  method SearchFrom(g: Graph, ordering: seq<nat>, cliqueCounts: Histogram, totalCliques: nat)
    returns (cliqueCounts': Histogram, totalCliques': nat, ghost found: seq<set<nat>>)
    requires g.Valid() && SimpleLists(g.adjList)
    requires forall w :: w in ordering ==> w < g.V
    ensures NoDup(found)
    ensures forall c :: c in found <==> IsMaximalCliqueIn(g.adjBits, c, Elems(ordering))
    ensures cliqueCounts' == Tally(cliqueCounts, found) && totalCliques' == totalCliques + |found|
  {
    var r: set<nat> := {};
    var p := SeedCandidates(ordering);
    var x: set<nat> := {};
    ghost var u := Elems(ordering);
    SimpleBits(g);
    RootFrame(g.adjBits, u);
    var _, _, _, counts, total, cliques, _ := ArboricityClique(p, r, x, g.adjBits, u, cliqueCounts, totalCliques);
    cliqueCounts', totalCliques', found := counts, total, cliques;
    forall c ensures c in found <==> IsMaximalCliqueIn(g.adjBits, c, u) {
      if IsMaximalCliqueIn(g.adjBits, c, u) {
        assert Extends(g.adjBits, u, r, p, c);
      }
    }
  }

  /**
   * main with the corrected ordering: every maximal clique of the graph is
   * recorded exactly once and nothing else is.
   */
  method MaximalCliques(g: Graph, cliqueCounts: Histogram, totalCliques: nat)
    returns (cliqueCounts': Histogram, totalCliques': nat, ghost found: seq<set<nat>>)
    requires g.Valid() && SimpleLists(g.adjList)
    ensures NoDup(found)
    ensures forall c :: c in found <==> IsMaximalClique(g.adjBits, c)
    ensures cliqueCounts' == Tally(cliqueCounts, found) && totalCliques' == totalCliques + |found|
  {
    var ordering := FixedDegeneracyOrdering(g.adjList);
    FixedOrderingComplete(g.adjList);
    cliqueCounts', totalCliques', found := SearchFrom(g, ordering, cliqueCounts, totalCliques);
    assert Elems(ordering) == Range(|g.adjBits|);
  }

  /** The single edge 0-1: {0, 1} is its one maximal clique; within {1} alone, {1} is maximal. */
  lemma SingleEdgeCliques()
    ensures var adj := AdjSets([[1], [0]]);
            && IsMaximalClique(adj, {0, 1}) && !IsMaximalCliqueIn(adj, {0, 1}, {1})
            && IsMaximalCliqueIn(adj, {1}, {1}) && !IsMaximalClique(adj, {1})
  {
    var adj := AdjSets([[1], [0]]);
    assert adj[0] == {1} && adj[1] == {0};
    assert AdjacentToAll(adj, {1}, 0);
    assert !AdjacentToAll(adj, {0, 1}, 0) by {
      assert 0 !in adj[0];
    }
  }

  /**
   * With the ordering as written, the search on the single edge 0-1 sees
   * only vertex 1: it records {1}, which is not a maximal clique of the
   * graph, and misses {0, 1}, which is.
   */
  lemma SingleEdgeMissesClique()
    ensures SimpleLists([[1], [0]])
    ensures var adj := AdjSets([[1], [0]]);
            var u := Elems(Ordering([[1], [0]]));
            && IsMaximalClique(adj, {0, 1}) && !IsMaximalCliqueIn(adj, {0, 1}, u)
            && IsMaximalCliqueIn(adj, {1}, u) && !IsMaximalClique(adj, {1})
  {
    SingleEdgeOrdering();
    SingleEdgeCliques();
    assert Elems([1]) == {1};
  }
}
