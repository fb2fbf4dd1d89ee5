/**
 * Bron.cpp: Bron–Kerbosch with pivoting over hash-set adjacency, driven by
 * a bucket-sorted vertex ordering. Hash-set iteration order is unspecified,
 * so every `for (x : someUnorderedSet)` is a loop that picks an arbitrary
 * remaining member.
 */
module Bron {
  import opened Util
  import opened Cliques

  /** struct Graph: V vertices and one neighbour hash set per vertex. */
  class Graph {
    const V: nat
    var adjSet: seq<set<nat>>

    ghost predicate Valid()
      reads this
    {
      |adjSet| == V && Symmetric(adjSet)
    }

    constructor (v: nat)
      ensures Valid() && V == v
      ensures forall u :: 0 <= u < v ==> adjSet[u] == {}
    {
      V := v;
      adjSet := seq(v, _ => {});
    }

    /**
     * Graph::addEdge. The source only rejects endpoints >= V (a negative
     * endpoint would index out of bounds), so the endpoints are naturals.
     */
    method AddEdge(u: nat, v: nat)
      requires Valid()
      modifies this
      ensures Valid()
      ensures u >= V || v >= V ==> adjSet == old(adjSet)
      ensures u < V && v < V ==>
        adjSet == old(adjSet)[u := old(adjSet)[u] + {v}][v := old(adjSet)[v] + {u}]
      ensures u < V && v < V ==> v in adjSet[u] && u in adjSet[v]
      ensures u < V && v < V && v in old(adjSet)[u] ==> adjSet == old(adjSet)
    {
      if u >= V || v >= V {
        return;
      }
      ghost var before := adjSet;
      adjSet := adjSet[u := adjSet[u] + {v}];
      adjSet := adjSet[v := adjSet[v] + {u}];
      assert forall a :: 0 <= a < |adjSet| ==> before[a] <= adjSet[a];
      assert v in adjSet[u] && u in adjSet[v];
      forall a, w | 0 <= a < |adjSet| && w in adjSet[a] ensures w < |adjSet| && a in adjSet[w] {
        if w !in before[a] {
          assert (a == u && w == v) || (a == v && w == u);
        }
      }
      if v in before[u] {
        assert u in before[v];
        assert before[u] + {v} == before[u] && before[v] + {u} == before[v];
      }
    }
  }

  /** The count loop of findPivot: how many members of P lie in `nbrs`. */
  method CountIn(p: set<nat>, nbrs: set<nat>) returns (connections: nat)
    ensures connections == |p * nbrs|
  {
    connections := 0;
    var todo := p;
    ghost var counted: set<nat> := {};
    while todo != {}
      invariant todo <= p
      invariant counted == (p - todo) * nbrs && connections == |counted|
      decreases todo
    {
      var v :| v in todo;
      todo := todo - {v};
      if v in nbrs {
        assert v !in counted;
        counted := counted + {v};
        connections := connections + 1;
      }
    }
  }

  /** The loops building P_new and X_new: the members of S that lie in `nbrs`. */
  method Intersect(s: set<nat>, nbrs: set<nat>) returns (r: set<nat>)
    ensures r == s * nbrs
  {
    r := {};
    var todo := s;
    while todo != {}
      invariant todo <= s
      invariant r == (s - todo) * nbrs
      decreases todo
    {
      var u :| u in todo;
      todo := todo - {u};
      if u in nbrs {
        r := r + {u};
      }
    }
  }

  /** How many members of P are neighbours of u. */
  function Connections(adj: Adjacency, p: set<nat>, u: nat): nat
    requires u < |adj|
  {
    |p * adj[u]|
  }

  /** A pivot of P + X is one with the most neighbours in P. */
  ghost predicate IsBestPivot(adj: Adjacency, p: set<nat>, x: set<nat>, pivot: nat)
    requires InRange(adj, p + x)
  {
    pivot in p + x && forall w {:trigger Connections(adj, p, w)} :: w in p + x ==> Connections(adj, p, w) <= Connections(adj, p, pivot)
  }

  /** findPivot: -1 exactly when P + X is empty, otherwise a best pivot. */
  method FindPivot(p: set<nat>, x: set<nat>, adj: Adjacency) returns (pivot: int)
    requires InRange(adj, p + x)
    ensures pivot == -1 <==> p + x == {}
    ensures pivot != -1 ==> pivot >= 0 && IsBestPivot(adj, p, x, pivot)
  {
    pivot := -1;
    var maxConnections: int := -1;
    var pUnionX := p + x;
    var todo := pUnionX;
    while todo != {}
      invariant todo <= pUnionX
      invariant pivot == -1 <==> todo == pUnionX
      invariant pivot == -1 ==> maxConnections == -1
      invariant pivot != -1 ==> 0 <= pivot && pivot in pUnionX && maxConnections == Connections(adj, p, pivot)
      invariant forall w {:trigger Connections(adj, p, w)} :: w in pUnionX - todo ==> Connections(adj, p, w) <= maxConnections
      decreases todo
    {
      var u :| u in todo;
      todo := todo - {u};
      var connections := CountIn(p, adj[u]);
      if connections > maxConnections {
        maxConnections := connections;
        pivot := u;
      }
    }
  }

  /**
   * BronKerboschWithPivot. R, P and X are passed by reference in the source;
   * here they come in as values and their final values are returned. The
   * histogram and the total counter are threaded the same way, and `found`
   * lists the cliques recorded, in order.
   */
  method BronKerboschWithPivot(r: set<nat>, p: set<nat>, x: set<nat>, adj: Adjacency,
                               cliqueCounts: Histogram, totalCliques: nat)
    returns (r': set<nat>, p': set<nat>, x': set<nat>, cliqueCounts': Histogram,
             totalCliques': nat, ghost found: seq<set<nat>>, ghost pivot: int)
    requires Simple(adj)
    requires Frame(adj, Range(|adj|), r, p, x)
    ensures Reports(adj, Range(|adj|), r, p, found)
    ensures cliqueCounts' == Tally(cliqueCounts, found) && totalCliques' == totalCliques + |found|
    ensures p == {} && x == {} ==> found == [r]
    ensures p == {} && x != {} ==> found == []
    ensures r' == r
    ensures p == {} ==> p' == p && x' == x
    ensures p != {} ==> 0 <= pivot < |adj| && IsBestPivot(adj, p, x, pivot)
    ensures p != {} ==> p' == p * adj[pivot] && x' == x + (p - adj[pivot])
    decreases p, 2
  {
    ghost var all := Range(|adj|);
    r', p', x', cliqueCounts', totalCliques', pivot := r, p, x, cliqueCounts, totalCliques, -1;
    if p == {} && x == {} {
      // found a maximal clique
      cliqueCounts' := Record(cliqueCounts, |r|);
      totalCliques' := totalCliques + 1;
      found := [r];
      LeafReports(adj, all, r);
      return;
    }
    if p == {} {
      found := [];
      DeadEndReports(adj, all, r, x);
      return;
    }
    assert InRange(adj, p + x);
    var chosen := FindPivot(p, x, adj);
    pivot := chosen;
    r', p', x', cliqueCounts', totalCliques', found :=
      BranchAll(r, p, x, chosen, adj, cliqueCounts, totalCliques);
  }

  /**
   * The loop of BronKerboschWithPivot over a copy of P, once the pivot is
   * chosen: branch on the pivot and on P's non-neighbours of it, moving each
   * from P to X afterwards.
   */
  method BranchAll(r: set<nat>, p: set<nat>, x: set<nat>, pivot: nat, adj: Adjacency,
                   cliqueCounts: Histogram, totalCliques: nat)
    returns (r': set<nat>, p': set<nat>, x': set<nat>, cliqueCounts': Histogram,
             totalCliques': nat, ghost found: seq<set<nat>>)
    requires Simple(adj)
    requires Frame(adj, Range(|adj|), r, p, x) && pivot in p + x
    ensures Reports(adj, Range(|adj|), r, p, found)
    ensures cliqueCounts' == Tally(cliqueCounts, found) && totalCliques' == totalCliques + |found|
    ensures r' == r && p' == p * adj[pivot] && x' == x + (p - adj[pivot])
    decreases p, 1
  {
    ghost var all := Range(|adj|);
    assert pivot in CommonNeighbours(adj, r, all);
    r', p', x', cliqueCounts', totalCliques' := r, p, x, cliqueCounts, totalCliques;
    var pivotNeighbours := adj[pivot];
    var pCopy := p;
    // the pivot is not its own neighbour, so the branch test picks out P \ N(pivot)
    assert pivot !in pivotNeighbours;
    ghost var branch := p - pivotNeighbours;
    found := [];
    ghost var done: set<nat> := {};
    var todo := pCopy;
    while todo != {}
      invariant todo <= pCopy
      invariant done == branch - todo
      invariant r' == r && p' == p - done && x' == x + done && done <= p
      invariant Frame(adj, all, r, p', x')
      invariant PartialReports(adj, all, r, p, done, found)
      invariant cliqueCounts' == Tally(cliqueCounts, found) && totalCliques' == totalCliques + |found|
      decreases todo
    {
      var v :| v in todo;
      VisitStep(p, x, branch, todo, done, v);
      todo := todo - {v};
      // neighbours of the pivot are skipped: they extend to cliques with the pivot
      if pivot != v && v in pivotNeighbours {
        continue;
      }
      var rBack, counts, total, child := Branch(r, p', x', v, adj, cliqueCounts', totalCliques');
      BranchOn(adj, all, r, p, x, p', x', done, found, v, child);
      TallyAppend(cliqueCounts, found, child);
      found := found + child;
      cliqueCounts', totalCliques', r' := counts, total, rBack;
      // move v from P to X
      p' := p' - {v};
      x' := x' + {v};
      done := done + {v};
    }
    KeepCommon(p, pivotNeighbours);
    BranchesDone(adj, all, r, p, x, pivot, done, found);
  }

  /**
   * The branch on v inside BronKerboschWithPivot's loop: add v to R, narrow P
   * and X to v's neighbours, recurse, and take v out of R again.
   */
  method Branch(r: set<nat>, p: set<nat>, x: set<nat>, v: nat, adj: Adjacency,
                cliqueCounts: Histogram, totalCliques: nat)
    returns (r': set<nat>, cliqueCounts': Histogram, totalCliques': nat, ghost child: seq<set<nat>>)
    requires Simple(adj)
    requires Frame(adj, Range(|adj|), r, p, x) && v in p
    ensures r' == r
    ensures Reports(adj, Range(|adj|), r + {v}, p * adj[v], child)
    ensures cliqueCounts' == Tally(cliqueCounts, child) && totalCliques' == totalCliques + |child|
    decreases p, 0
  {
    ChildFrame(adj, Range(|adj|), r, p, x, v);
    r' := r + {v};
    var pNew := Intersect(p, adj[v]);
    var xNew := Intersect(x, adj[v]);
    var rBack, _, _, counts, total, found, _ :=
      BronKerboschWithPivot(r', pNew, xNew, adj, cliqueCounts, totalCliques);
    cliqueCounts', totalCliques', child := counts, total, found;
    // backtrack
    RemoveAdded(r, v);
    r' := rBack - {v};
  }

  // ---------------------------------------------------------------------------
  // degeneracyOrdering

  /** Popping the back of a filled bucket: the popped vertex does not occur again in what was already popped. */
  lemma BucketPop(degree: seq<nat>, d: nat, n: nat, k: nat)
    requires n <= |degree| && 0 < k <= |Bucket(degree, d, n)|
    ensures var b := Bucket(degree, d, n); b[k - 1] !in b[k..]
  {
    var b := Bucket(degree, d, n);
    BucketAscending(degree, d, n);
    forall j | k <= j < |b| ensures b[j] != b[k - 1] { }
  }

  /** Sorted by non-decreasing initial degree, ties by decreasing id. */
  ghost predicate DegreeSorted(ordering: seq<nat>, degree: seq<nat>)
    requires forall i :: 0 <= i < |ordering| ==> ordering[i] < |degree|
  {
    forall i, j :: 0 <= i < j < |ordering| ==>
      degree[ordering[i]] < degree[ordering[j]]
      || (degree[ordering[i]] == degree[ordering[j]] && ordering[i] > ordering[j])
  }

  lemma AppendSorted(ordering: seq<nat>, degree: seq<nat>, v: nat)
    requires forall i :: 0 <= i < |ordering| ==> ordering[i] < |degree|
    requires v < |degree| && DegreeSorted(ordering, degree)
    requires forall i :: 0 <= i < |ordering| ==>
      degree[ordering[i]] < degree[v] || (degree[ordering[i]] == degree[v] && ordering[i] > v)
    ensures DegreeSorted(ordering + [v], degree)
  {
    var s := ordering + [v];
    forall i, j | 0 <= i < j < |s|
      ensures degree[s[i]] < degree[s[j]] || (degree[s[i]] == degree[s[j]] && s[i] > s[j])
    {
      assert s[i] == ordering[i];
      if j < |ordering| {
        assert s[j] == ordering[j];
      }
    }
  }

  /** Every vertex 0 .. n-1 exactly once. */
  ghost predicate IsPermutation(ordering: seq<nat>, n: nat) {
    && |ordering| == n
    && NoDup(ordering)
    && (forall i :: 0 <= i < |ordering| ==> ordering[i] < n)
    && (forall w: nat :: w in ordering <==> w < n)
  }

  lemma PermutationFromCover(ordering: seq<nat>, n: nat)
    requires NoDup(ordering)
    requires forall w: nat :: w in ordering <==> w < n
    ensures IsPermutation(ordering, n)
  {
    forall i | 0 <= i < |ordering| ensures ordering[i] < n {
      assert ordering[i] in ordering;
    }
    NoDupCard(ordering);
    assert Elems(ordering) == Range(n);
    RangeSize(n);
  }

  /** The initial degrees: the neighbour-set sizes. */
  function Degrees(adj: Adjacency): (degree: seq<nat>)
    ensures |degree| == |adj| && forall v :: 0 <= v < |adj| ==> degree[v] == |adj[v]|
  {
    seq(|adj|, v requires 0 <= v < |adj| => |adj[v]|)
  }

  /**
   * degeneracyOrdering. Neighbour decrements never move a vertex to another
   * bucket, so the result is every vertex once, sorted by initial degree with
   * ties broken by decreasing id; the `removed` and `degree[v] > d` branches
   * are never taken.
   */
  method DegeneracyOrdering(adj: Adjacency) returns (ordering: seq<nat>)
    requires Closed(adj)
    ensures IsPermutation(ordering, |adj|)
    ensures DegreeSorted(ordering, Degrees(adj))
  {
    var n := |adj|;
    var degree, maxDegree := InitialDegrees(adj);
    ghost var deg0 := degree;
    var removed: seq<bool> := seq(n, _ => false);
    var buckets := FillBuckets(degree, maxDegree);
    ordering := [];
    var d := 0;
    while d <= maxDegree
      invariant 0 <= d <= maxDegree + 1 && |buckets| == maxDegree + 1
      invariant forall e :: d <= e <= maxDegree ==> buckets[e] == Bucket(deg0, e, n)
      invariant OrderedBelow(deg0, d, ordering, removed, degree)
    {
      ordering, removed, degree := DrainBucket(adj, deg0, d, buckets[d], ordering, removed, degree);
      buckets := buckets[d := []];
      d := d + 1;
    }
    PermutationFromCover(ordering, n);
  }

  /** The first loop of degeneracyOrdering: initial degrees and their maximum. */
  method InitialDegrees(adj: Adjacency) returns (degree: seq<nat>, maxDegree: nat)
    ensures degree == Degrees(adj)
    ensures forall w :: 0 <= w < |adj| ==> degree[w] <= maxDegree
    ensures |adj| > 0 ==> exists w :: 0 <= w < |adj| && degree[w] == maxDegree
    ensures |adj| == 0 ==> maxDegree == 0
  {
    var n := |adj|;
    degree := seq(n, _ => 0);
    maxDegree := 0;
    var v := 0;
    while v < n
      invariant 0 <= v <= n && |degree| == n
      invariant forall w :: 0 <= w < v ==> degree[w] == |adj[w]| <= maxDegree
      invariant forall w :: v <= w < n ==> degree[w] == 0
      invariant v > 0 ==> exists w :: 0 <= w < v && degree[w] == maxDegree
      invariant v == 0 ==> maxDegree == 0
    {
      degree := degree[v := |adj[v]|];
      maxDegree := if maxDegree < degree[v] then degree[v] else maxDegree;
      v := v + 1;
    }
  }

  /** The second loop of degeneracyOrdering: bucket e holds the vertices of degree e, in increasing id. */
  method FillBuckets(degree: seq<nat>, maxDegree: nat) returns (buckets: seq<seq<nat>>)
    requires forall w :: 0 <= w < |degree| ==> degree[w] <= maxDegree
    ensures |buckets| == maxDegree + 1
    ensures forall e :: 0 <= e <= maxDegree ==> buckets[e] == Bucket(degree, e, |degree|)
  {
    buckets := seq(maxDegree + 1, _ => []);
    var v := 0;
    while v < |degree|
      invariant 0 <= v <= |degree| && |buckets| == maxDegree + 1
      invariant forall e :: 0 <= e <= maxDegree ==> buckets[e] == Bucket(degree, e, v)
    {
      buckets := buckets[degree[v] := buckets[degree[v]] + [v]];
      v := v + 1;
    }
  }

  /**
   * The neighbour loop of degeneracyOrdering: every neighbour of v not yet
   * removed loses one from its current degree, which never drops below 0.
   */
  method ReleaseNeighbours(adj: Adjacency, v: nat, removed: seq<bool>, degree: seq<nat>)
    returns (degree': seq<nat>)
    requires v < |adj| && InRange(adj, adj[v]) && |removed| == |degree| == |adj|
    ensures |degree'| == |degree|
    ensures forall w :: 0 <= w < |degree| ==>
      degree'[w] == if w in adj[v] && !removed[w] && degree[w] > 0 then degree[w] - 1 else degree[w]
  {
    degree' := degree;
    var todo := adj[v];
    while todo != {}
      invariant todo <= adj[v] && |degree'| == |degree|
      invariant forall w :: 0 <= w < |degree| ==>
        degree'[w] == if w in adj[v] - todo && !removed[w] && degree[w] > 0 then degree[w] - 1 else degree[w]
      decreases todo
    {
      var u :| u in todo;
      todo := todo - {u};
      if !removed[u] && degree'[u] > 0 {
        degree' := degree'[u := degree'[u] - 1];
      }
    }
  }

  /**
   * The state of degeneracyOrdering once buckets 0 .. d-1 are drained: the
   * removed vertices are those of initial degree below d, the ordering lists
   * exactly them, sorted, and current degrees never exceed initial ones.
   */
  ghost predicate OrderedBelow(deg0: seq<nat>, d: nat, ordering: seq<nat>, removed: seq<bool>, degree: seq<nat>) {
    var n := |deg0|;
    && |degree| == n && |removed| == n
    && (forall w :: 0 <= w < n ==> degree[w] <= deg0[w])
    && (forall w :: 0 <= w < n ==> (removed[w] <==> deg0[w] < d))
    && (forall w: nat :: w in ordering <==> w < n && removed[w])
    && NoDup(ordering)
    && (forall i :: 0 <= i < |ordering| ==> ordering[i] < n)
    && DegreeSorted(ordering, deg0)
  }

  /** Appending bucket d, back to front, to an ordering of the lower buckets: which vertices are in it. */
  lemma AppendBucketMembers(deg0: seq<nat>, d: nat, ordering: seq<nat>, removed: seq<bool>, degree: seq<nat>,
                            bucket: seq<nat>, removed': seq<bool>)
    requires OrderedBelow(deg0, d, ordering, removed, degree)
    requires bucket == Bucket(deg0, d, |deg0|)
    requires |removed'| == |deg0|
    requires forall w :: 0 <= w < |deg0| ==> (removed'[w] <==> deg0[w] < d || w in bucket)
    ensures forall w: nat :: w in ordering + Reversed(bucket) <==> w < |deg0| && removed'[w]
  {
    var back := Reversed(bucket);
    var m := |bucket|;
    forall w: nat ensures w in back <==> w in bucket {
      if w in back {
        var i :| 0 <= i < m && back[i] == w;
        assert bucket[m - 1 - i] == w;
      }
      if w in bucket {
        var i :| 0 <= i < m && bucket[i] == w;
        assert back[m - 1 - i] == w;
      }
    }
  }

  /** A filled bucket read back to front: vertices of degree d, in strictly decreasing id. */
  lemma ReversedBucket(degree: seq<nat>, d: nat, n: nat, back: seq<nat>)
    requires n <= |degree| && back == Reversed(Bucket(degree, d, n))
    ensures forall i :: 0 <= i < |back| ==> back[i] < n && degree[back[i]] == d
    ensures forall i, j :: 0 <= i < j < |back| ==> back[i] > back[j]
  {
    var bucket := Bucket(degree, d, n);
    var m := |bucket|;
    forall i | 0 <= i < m ensures back[i] < n && degree[back[i]] == d {
      assert back[i] == bucket[m - 1 - i] && back[i] in bucket;
    }
    BucketAscending(degree, d, n);
    ReversedDescending(bucket, back);
  }

  /** An ascending sequence read back to front is descending. */
  lemma ReversedDescending(s: seq<nat>, back: seq<nat>)
    requires Ascending(s) && back == Reversed(s)
    ensures forall i, j :: 0 <= i < j < |back| ==> back[i] > back[j]
  {
    var m := |s|;
    forall i, j | 0 <= i < j < m ensures back[i] > back[j] {
      assert back[i] == s[m - 1 - i] && back[j] == s[m - 1 - j];
    }
  }

  /**
   * Appending a block of degree-d vertices in decreasing id to a sorted,
   * duplicate-free ordering of vertices of degree below d keeps it sorted
   * and duplicate-free.
   */
  lemma AppendBlock(deg0: seq<nat>, d: nat, a: seq<nat>, b: seq<nat>)
    requires forall i :: 0 <= i < |a| ==> a[i] < |deg0| && deg0[a[i]] < d
    requires forall i :: 0 <= i < |b| ==> b[i] < |deg0| && deg0[b[i]] == d
    requires NoDup(a) && DegreeSorted(a, deg0)
    requires forall i, j :: 0 <= i < j < |b| ==> b[i] > b[j]
    ensures forall i :: 0 <= i < |a + b| ==> (a + b)[i] < |deg0|
    ensures NoDup(a + b) && DegreeSorted(a + b, deg0)
  {
    var s := a + b;
    var k := |a|;
    forall i | 0 <= i < |s| ensures s[i] < |deg0| && (i < k ==> deg0[s[i]] < d) && (i >= k ==> deg0[s[i]] == d) {
      if i >= k {
        assert s[i] == b[i - k];
      }
    }
    forall i, j | 0 <= i < j < |s|
      ensures s[i] != s[j] && (deg0[s[i]] < deg0[s[j]] || (deg0[s[i]] == deg0[s[j]] && s[i] > s[j]))
    {
      if j < k {
        assert s[i] == a[i] && s[j] == a[j];
      } else if i >= k {
        assert s[i] == b[i - k] && s[j] == b[j - k];
      }
    }
  }

  /** Appending bucket d, back to front, to an ordering of the lower buckets keeps it sorted and duplicate-free. */
  lemma AppendBucketOrder(deg0: seq<nat>, d: nat, ordering: seq<nat>, removed: seq<bool>, degree: seq<nat>,
                          bucket: seq<nat>)
    requires OrderedBelow(deg0, d, ordering, removed, degree)
    requires bucket == Bucket(deg0, d, |deg0|)
    ensures NoDup(ordering + Reversed(bucket))
    ensures forall i :: 0 <= i < |ordering + Reversed(bucket)| ==> (ordering + Reversed(bucket))[i] < |deg0|
    ensures DegreeSorted(ordering + Reversed(bucket), deg0)
  {
    forall i | 0 <= i < |ordering| ensures deg0[ordering[i]] < d {
      assert ordering[i] in ordering;
    }
    ReversedBucket(deg0, d, |deg0|, Reversed(bucket));
    AppendBlock(deg0, d, ordering, Reversed(bucket));
  }

  /**
   * One pop from the back of bucket d: the popped vertex has initial degree
   * d, is not yet removed, and marking it removed extends the removed set by
   * exactly the popped suffix.
   */
  lemma PopStep(deg0: seq<nat>, d: nat, bucket: seq<nat>, k: nat, removed: seq<bool>, ordering: seq<nat>)
    requires bucket == Bucket(deg0, d, |deg0|) && 0 < k <= |bucket| && |removed| == |deg0|
    requires forall w :: 0 <= w < |deg0| ==> (removed[w] <==> deg0[w] < d || w in bucket[k..])
    ensures bucket[..k][k - 1] == bucket[k - 1] && bucket[..k][..k - 1] == bucket[..k - 1]
    ensures bucket[k - 1] < |deg0| && deg0[bucket[k - 1]] == d && !removed[bucket[k - 1]]
    ensures forall w :: 0 <= w < |deg0| ==>
      (removed[bucket[k - 1] := true][w] <==> deg0[w] < d || w in bucket[k - 1..])
    ensures ordering + Reversed(bucket[k..]) + [bucket[k - 1]] == ordering + Reversed(bucket[k - 1..])
  {
    var v := bucket[k - 1];
    assert v in bucket && bucket[k - 1..] == [v] + bucket[k..];
    assert Reversed(bucket[k - 1..]) == Reversed(bucket[k..]) + [v];
    BucketPop(deg0, d, |deg0|, k);
  }

  /**
   * The `while (!buckets[d].empty())` loop of degeneracyOrdering: pop vertices
   * from the back of bucket d and append them to the ordering.
   */
  method DrainBucket(adj: Adjacency, ghost deg0: seq<nat>, d: nat, bucket: seq<nat>, ordering: seq<nat>,
                     removed: seq<bool>, degree: seq<nat>)
    returns (ordering': seq<nat>, removed': seq<bool>, degree': seq<nat>)
    requires Closed(adj) && |deg0| == |adj|
    requires bucket == Bucket(deg0, d, |adj|)
    requires OrderedBelow(deg0, d, ordering, removed, degree)
    ensures ordering' == ordering + Reversed(bucket)
    ensures OrderedBelow(deg0, d + 1, ordering', removed', degree')
  {
    var n := |adj|;
    var rest := bucket;
    ordering', removed', degree' := ordering, removed, degree;
    while rest != []
      invariant |degree'| == n && |removed'| == n
      invariant |rest| <= |bucket| && rest == bucket[..|rest|]
      invariant ordering' == ordering + Reversed(bucket[|rest|..])
      invariant forall w :: 0 <= w < n ==> degree'[w] <= deg0[w]
      invariant forall w :: 0 <= w < n ==>
        (removed'[w] <==> deg0[w] < d || w in bucket[|rest|..])
      decreases |rest|
    {
      var k := |rest|;
      var v: nat := rest[k - 1];
      rest := rest[..k - 1];
      PopStep(deg0, d, bucket, k, removed', ordering);
      if removed'[v] {
        assert false;
      }
      if degree'[v] > d {
        assert false;
      }
      ordering' := ordering' + [v];
      removed' := removed'[v := true];
      degree' := ReleaseNeighbours(adj, v, removed', degree');
    }
    assert bucket[0..] == bucket;
    AppendBucketMembers(deg0, d, ordering, removed, degree, bucket, removed');
    AppendBucketOrder(deg0, d, ordering, removed, degree, bucket);
  }

  // ---------------------------------------------------------------------------
  // BronKerboschDegeneracy

  /** The seed frame loops: P gets the later neighbours of v, X gets every neighbour of v. */
  method SeedFrame(adj: Adjacency, ordering: seq<nat>, i: nat) returns (p: set<nat>, x: set<nat>)
    requires i < |ordering| && ordering[i] < |adj|
    ensures p == adj[ordering[i]] * Elems(ordering[i + 1..])
    ensures x == adj[ordering[i]]
  {
    var v := ordering[i];
    p := {};
    var todo := adj[v];
    while todo != {}
      invariant todo <= adj[v]
      invariant p == (adj[v] - todo) * Elems(ordering[i + 1..])
      decreases todo
    {
      var u :| u in todo;
      todo := todo - {u};
      // u comes after v in the ordering
      var it := i + 1 + Find(ordering[i + 1..], u);
      if it != |ordering| {
        p := p + {u};
      }
    }
    x := {};
    todo := adj[v];
    while todo != {}
      invariant todo <= adj[v]
      invariant x == adj[v] - todo
      decreases todo
    {
      var u :| u in todo;
      todo := todo - {u};
      // meant as "u comes before v", but a failed search returns position i, not the end
      var it := Find(ordering[..i], u);
      if it != |ordering| {
        x := x + {u};
      }
    }
  }

  /** The seed frame ({v}, later neighbours, all neighbours) is a search frame. */
  lemma SeedIsFrame(adj: Adjacency, v: nat, later: set<nat>)
    requires Simple(adj) && v < |adj|
    ensures Frame(adj, Range(|adj|), {v}, adj[v] * later, adj[v])
  {
    var cn := CommonNeighbours(adj, {v}, Range(|adj|));
    forall w ensures w in cn <==> w in adj[v] {
      if w in adj[v] {
        assert w < |adj| && AdjacentToAll(adj, {v}, w);
      }
      if w in cn {
        assert AdjacentToAll(adj, {v}, w);
      }
    }
  }

  /** The cliques recorded by the seeds at positions 0 .. i-1. */
  ghost predicate SeedsReported(adj: Adjacency, ordering: seq<nat>, i: nat, found: seq<set<nat>>)
    requires i <= |ordering|
  {
    && NoDup(found)
    && (forall c :: c in found ==> IsMaximalClique(adj, c) && c * Elems(ordering[..i]) != {})
    && (forall c :: IsMaximalClique(adj, c) && c * Elems(ordering[..i]) != {} ==> c in found)
  }

  /** Seed i reports exactly the maximal cliques whose earliest vertex in the ordering is ordering[i]. */
  lemma SeedStep(adj: Adjacency, ordering: seq<nat>, i: nat, found: seq<set<nat>>, child: seq<set<nat>>)
    requires Simple(adj) && IsPermutation(ordering, |adj|) && i < |ordering|
    requires SeedsReported(adj, ordering, i, found)
    requires Reports(adj, Range(|adj|), {ordering[i]}, adj[ordering[i]] * Elems(ordering[i + 1..]), child)
    ensures SeedsReported(adj, ordering, i + 1, found + child)
  {
    var v := ordering[i];
    var all := Range(|adj|);
    var later := Elems(ordering[i + 1..]);
    var earlier := Elems(ordering[..i]);
    assert ordering[..i + 1] == ordering[..i] + [v];
    assert Elems(ordering[..i + 1]) == earlier + {v};
    assert earlier !! ({v} + later) by {
      forall a, b | 0 <= a < i && i <= b < |ordering| ensures ordering[a] != ordering[b] { }
      forall w | w in earlier ensures w !in {v} + later {
        var a :| 0 <= a < i && ordering[..i][a] == w;
        assert ordering[a] == w;
        forall b | i + 1 <= b < |ordering| ensures ordering[b] != w { }
      }
    }
    forall c | c in child ensures IsMaximalClique(adj, c) && c * Elems(ordering[..i + 1]) != {} && c * earlier == {} {
      assert Extends(adj, all, {v}, adj[v] * later, c);
      assert v in c && c <= {v} + later;
    }
    forall c | IsMaximalClique(adj, c) && c * Elems(ordering[..i + 1]) != {} ensures c in found + child {
      if c * earlier == {} {
        assert v in c;
        forall y | y in c && y != v ensures y in adj[v] * later {
          assert y in adj[v];
          assert y in ordering;
          var k :| 0 <= k < |ordering| && ordering[k] == y;
          assert k != i;
          assert y !in earlier;
          forall j | 0 <= j < i ensures ordering[j] != y {
            assert ordering[..i][j] == ordering[j];
          }
          assert ordering[i + 1..][k - i - 1] == y;
        }
        assert Extends(adj, all, {v}, adj[v] * later, c);
      }
    }
    forall a, b | 0 <= a < |found| && 0 <= b < |child| ensures found[a] != child[b] {
      assert found[a] in found && child[b] in child;
    }
    NoDupAppend(found, child);
  }

  /**
   * BronKerboschDegeneracy: one search per vertex, seeded with R = {v}. The
   * recorded cliques are exactly the non-empty maximal cliques, each once.
   */
  method BronKerboschDegeneracy(adj: Adjacency, cliqueCounts: Histogram, totalCliques: nat)
    returns (cliqueCounts': Histogram, totalCliques': nat, ghost found: seq<set<nat>>)
    requires Simple(adj)
    ensures NoDup(found)
    ensures forall c :: c in found ==> IsMaximalClique(adj, c) && c != {}
    ensures forall c :: IsMaximalClique(adj, c) && c != {} ==> c in found
    ensures cliqueCounts' == Tally(cliqueCounts, found) && totalCliques' == totalCliques + |found|
  {
    assert Closed(adj);
    var ordering := DegeneracyOrdering(adj);
    cliqueCounts', totalCliques', found := cliqueCounts, totalCliques, [];
    var i := 0;
    while i < |ordering|
      invariant 0 <= i <= |ordering|
      invariant SeedsReported(adj, ordering, i, found)
      invariant cliqueCounts' == Tally(cliqueCounts, found) && totalCliques' == totalCliques + |found|
    {
      var v := ordering[i];
      assert v in ordering;
      var r := {v};
      var p, x := SeedFrame(adj, ordering, i);
      SeedIsFrame(adj, v, Elems(ordering[i + 1..]));
      var _, _, _, counts, total, child, _ := BronKerboschWithPivot(r, p, x, adj, cliqueCounts', totalCliques');
      SeedStep(adj, ordering, i, found, child);
      TallyAppend(cliqueCounts, found, child);
      found := found + child;
      cliqueCounts', totalCliques' := counts, total;
      i := i + 1;
    }
    assert ordering[..i] == ordering;
    forall c: set<nat> | IsMaximalClique(adj, c) && c != {} ensures c * Elems(ordering) != {} {
      var w :| w in c;
      assert w < |adj|;
    }
  }
}
