/**
 * The vocabulary shared by the three maximal-clique programs (Bron.cpp,
 * Tomita.cpp, Arboricity.cpp): neighbour sets, cliques, maximality, the
 * Bron–Kerbosch frame (R, P, X), and the size histogram `cliqueCounts`.
 *
 * The lemmas here are the correctness argument of Bron–Kerbosch with a
 * pivot, stated once and used by all three searches: a frame whose P and X
 * together are the common neighbourhood of R reports, exactly once each,
 * the maximal cliques C with R <= C <= R + P.
 */
module Cliques {
  import opened Util

  /** adj[u] is the neighbour set of vertex u; the vertices are 0 .. |adj|-1. */
  type Adjacency = seq<set<nat>>

  /** How many times each clique size was recorded (`map<int,int> cliqueCounts`). */
  type Histogram = map<nat, nat>

  /** adjList[u] lists the neighbours of u, possibly more than once. */
  type AdjList = seq<seq<nat>>

  /** The neighbour sets the lists denote. */
  function AdjSets(adjList: AdjList): (adj: Adjacency)
    ensures |adj| == |adjList| && forall u :: 0 <= u < |adjList| ==> adj[u] == Elems(adjList[u])
  {
    seq(|adjList|, u requires 0 <= u < |adjList| => Elems(adjList[u]))
  }

  predicate InRange(adj: Adjacency, s: set<nat>) {
    forall w :: w in s ==> w < |adj|
  }

  /** Every neighbour is a vertex. */
  predicate Closed(adj: Adjacency) {
    forall u :: 0 <= u < |adj| ==> InRange(adj, adj[u])
  }

  /** Undirected: every neighbour is a vertex, and lists u back. */
  predicate Symmetric(adj: Adjacency) {
    && Closed(adj)
    && forall u, w :: 0 <= u < |adj| && w in adj[u] ==> u in adj[w]
  }

  predicate Loopless(adj: Adjacency) {
    forall u :: 0 <= u < |adj| ==> u !in adj[u]
  }

  /** The searches are correct only on simple graphs. */
  predicate Simple(adj: Adjacency) {
    Symmetric(adj) && Loopless(adj)
  }

  predicate IsClique(adj: Adjacency, c: set<nat>) {
    InRange(adj, c) && forall a, b :: a in c && b in c && a != b ==> b in adj[a]
  }

  /** w is a neighbour of every member of C. */
  predicate AdjacentToAll(adj: Adjacency, c: set<nat>, w: nat)
    requires InRange(adj, c)
  {
    forall x :: x in c ==> w in adj[x]
  }

  /** The members of U adjacent to every member of R. */
  function CommonNeighbours(adj: Adjacency, r: set<nat>, u: set<nat>): set<nat>
    requires InRange(adj, r)
  {
    set w | w in u && AdjacentToAll(adj, r, w)
  }

  /**
   * C is a clique of the subgraph induced by U that no vertex of U extends.
   * (The trigger keeps the solver from instantiating maximality for every
   * vertex it meets; proofs name the vertex they need.)
   */
  ghost predicate IsMaximalCliqueIn(adj: Adjacency, c: set<nat>, u: set<nat>) {
    && c <= u
    && IsClique(adj, c)
    && forall w {:trigger AdjacentToAll(adj, c, w)} :: w in u && w !in c ==> !AdjacentToAll(adj, c, w)
  }

  /** A maximal clique of the whole graph. */
  ghost predicate IsMaximalClique(adj: Adjacency, c: set<nat>) {
    IsMaximalCliqueIn(adj, c, Range(|adj|))
  }

  /**
   * The search invariant of a frame: R is a clique and P + X is exactly the
   * set of vertices of U that extend it.
   */
  ghost predicate Frame(adj: Adjacency, u: set<nat>, r: set<nat>, p: set<nat>, x: set<nat>) {
    && InRange(adj, u)
    && r <= u
    && IsClique(adj, r)
    && p + x == CommonNeighbours(adj, r, u)
  }

  /** C is one of the cliques the frame (R, P, _) is responsible for. */
  ghost predicate Extends(adj: Adjacency, u: set<nat>, r: set<nat>, p: set<nat>, c: set<nat>) {
    IsMaximalCliqueIn(adj, c, u) && r <= c && c <= r + p
  }

  /** `found` lists each clique the frame is responsible for, once, and nothing else. */
  ghost predicate Reports(adj: Adjacency, u: set<nat>, r: set<nat>, p: set<nat>, found: seq<set<nat>>) {
    && NoDup(found)
    && (forall c :: c in found ==> Extends(adj, u, r, p, c))
    && (forall c :: Extends(adj, u, r, p, c) ==> c in found)
  }

  /** Reports restricted to the cliques that contain an already-branched vertex. */
  ghost predicate PartialReports(adj: Adjacency, u: set<nat>, r: set<nat>, p: set<nat>,
                                 done: set<nat>, found: seq<set<nat>>)
  {
    && NoDup(found)
    && (forall c :: c in found ==> Extends(adj, u, r, p, c) && c * done != {})
    && (forall c :: Extends(adj, u, r, p, c) && c * done != {} ==> c in found)
  }

  /** Terminal success: with P and X empty, R itself is the one maximal clique. */
  lemma LeafReports(adj: Adjacency, u: set<nat>, r: set<nat>)
    requires Frame(adj, u, r, {}, {})
    ensures Reports(adj, u, r, {}, [r])
  {
    forall w | w in u && w !in r ensures !AdjacentToAll(adj, r, w) {
      assert w !in CommonNeighbours(adj, r, u);
    }
    assert IsMaximalCliqueIn(adj, r, u);
    forall c | Extends(adj, u, r, {}, c) ensures c in [r] {
      assert c == r;
    }
  }

  /** Terminal dead end: with P empty and X not, no clique is reported. */
  lemma DeadEndReports(adj: Adjacency, u: set<nat>, r: set<nat>, x: set<nat>)
    requires Loopless(adj)
    requires Frame(adj, u, r, {}, x) && x != {}
    ensures Reports(adj, u, r, {}, [])
  {
    var w :| w in x;
    assert w in CommonNeighbours(adj, r, u);
    assert w !in adj[w];
    assert w !in r;
    assert !IsMaximalCliqueIn(adj, r, u);
    forall c ensures !Extends(adj, u, r, {}, c) {
      if c != r {
        assert !(r <= c && c <= r + {});
      }
    }
  }

  /** The child frame (R + {v}, P * N(v), X * N(v)) keeps the invariant. */
  lemma ChildFrame(adj: Adjacency, u: set<nat>, r: set<nat>, p: set<nat>, x: set<nat>, v: nat)
    requires Simple(adj)
    requires Frame(adj, u, r, p, x) && v in p
    ensures v < |adj| && v !in r && v !in adj[v]
    ensures Frame(adj, u, r + {v}, p * adj[v], x * adj[v])
  {
    assert v in CommonNeighbours(adj, r, u);
    assert v < |adj| && v !in adj[v];
    assert v !in r;
    var r' := r + {v};
    forall a, b | a in r' && b in r' && a != b ensures b in adj[a] {
      if a == v {
        assert v in adj[b];
      }
    }
    assert IsClique(adj, r');
    var cn := CommonNeighbours(adj, r, u);
    forall w ensures w in p * adj[v] + x * adj[v] <==> w in CommonNeighbours(adj, r', u) {
      if w in CommonNeighbours(adj, r', u) {
        assert w in cn;
      }
    }
  }

  /** Every clique of a frame meets P \ N(pivot), for any pivot in P + X. */
  lemma PivotCovers(adj: Adjacency, u: set<nat>, r: set<nat>, p: set<nat>, x: set<nat>,
                    pivot: nat, c: set<nat>)
    requires Simple(adj)
    requires Frame(adj, u, r, p, x) && pivot in p + x
    requires Extends(adj, u, r, p, c)
    ensures pivot < |adj| && c * (p - adj[pivot]) != {}
  {
    assert pivot in CommonNeighbours(adj, r, u);
    assert pivot < |adj| && pivot !in adj[pivot];
    assert pivot !in r;
    if pivot in c {
      assert pivot in c * (p - adj[pivot]);
    } else {
      // the pivot does not extend C, so some member y of C is not its neighbour
      assert !AdjacentToAll(adj, c, pivot);
      var y :| y in c && pivot !in adj[y];
      assert y !in r;
      assert y in p;
      assert y !in adj[pivot];
      assert y in c * (p - adj[pivot]);
    }
  }

  lemma NoDupAppend<T>(a: seq<T>, b: seq<T>)
    requires NoDup(a) && NoDup(b)
    requires forall i, j :: 0 <= i < |a| && 0 <= j < |b| ==> a[i] != b[j]
    ensures NoDup(a + b)
  {
    var s := a + b;
    forall i, j | 0 <= i < j < |s| ensures s[i] != s[j] {
      if j < |a| {
      } else if i >= |a| {
        assert s[i] == b[i - |a|] && s[j] == b[j - |a|];
      } else {
        assert s[i] == a[i] && s[j] == b[j - |a|];
      }
    }
  }

  /** Branching on v and recording what its child reported extends the loop invariant. */
  lemma BranchStep(adj: Adjacency, u: set<nat>, r: set<nat>, p: set<nat>,
                   done: set<nat>, found: seq<set<nat>>, v: nat, child: seq<set<nat>>)
    requires InRange(adj, r) && v < |adj|
    requires r !! p && done <= p && v in p - done
    requires PartialReports(adj, u, r, p, done, found)
    requires Reports(adj, u, r + {v}, (p - done) * adj[v], child)
    ensures PartialReports(adj, u, r, p, done + {v}, found + child)
  {
    var pc := (p - done) * adj[v];
    forall c | c in child ensures Extends(adj, u, r, p, c) && c * (done + {v}) != {} && c * done == {} {
      assert Extends(adj, u, r + {v}, pc, c);
      assert v in c * (done + {v});
    }
    forall c | Extends(adj, u, r, p, c) && c * (done + {v}) != {} ensures c in found + child {
      if c * done == {} {
        assert v in c;
        forall y | y in c && y !in r + {v} ensures y in pc {
          assert y in p && y !in done;
          assert y in adj[v];
        }
        assert Extends(adj, u, r + {v}, pc, c);
        assert c in child;
      } else {
        assert c in found;
      }
    }
    forall i, j | 0 <= i < |found| && 0 <= j < |child| ensures found[i] != child[j] {
      assert found[i] in found && child[j] in child;
      assert found[i] * done != {};
    }
    NoDupAppend(found, child);
  }

  /**
   * One iteration of the branching loop: after branching on v (the child
   * reported its frame), v moves from P to X and the frame invariant holds.
   */
  lemma BranchOn(adj: Adjacency, u: set<nat>, r: set<nat>, p: set<nat>, x: set<nat>,
                 pc: set<nat>, xc: set<nat>, done: set<nat>, found: seq<set<nat>>,
                 v: nat, child: seq<set<nat>>)
    requires Simple(adj)
    requires pc == p - done && xc == x + done && done <= p && v in pc
    requires Frame(adj, u, r, pc, xc)
    requires PartialReports(adj, u, r, p, done, found)
    requires Reports(adj, u, r + {v}, pc * adj[v], child)
    ensures Frame(adj, u, r, pc - {v}, xc + {v})
    ensures PartialReports(adj, u, r, p, done + {v}, found + child)
  {
    FrameDisjoint(adj, u, r, pc, xc);
    assert (pc - {v}) + (xc + {v}) == pc + xc;
    ChildFrame(adj, u, r, pc, xc, v);
    BranchStep(adj, u, r, p, done, found, v, child);
  }

  /** Once every vertex of P \ N(pivot) has been branched on, the frame's report is complete. */
  lemma BranchesDone(adj: Adjacency, u: set<nat>, r: set<nat>, p: set<nat>, x: set<nat>,
                     pivot: nat, done: set<nat>, found: seq<set<nat>>)
    requires Simple(adj)
    requires Frame(adj, u, r, p, x) && pivot in p + x
    requires pivot < |adj| && p - adj[pivot] <= done
    requires PartialReports(adj, u, r, p, done, found)
    ensures Reports(adj, u, r, p, found)
  {
    forall c | Extends(adj, u, r, p, c) ensures c in found {
      PivotCovers(adj, u, r, p, x, pivot, c);
      assert c * done != {};
    }
  }

  /** R is disjoint from P + X in a frame of a loopless graph. */
  lemma FrameDisjoint(adj: Adjacency, u: set<nat>, r: set<nat>, p: set<nat>, x: set<nat>)
    requires Loopless(adj) && Frame(adj, u, r, p, x)
    ensures r !! p && r !! x
  {
    forall w | w in r ensures w !in p + x {
      assert w !in adj[w];
    }
  }

  // ---------------------------------------------------------------------------
  // The histogram

  /** `cliqueCounts[k]`, which std::map reads as 0 for a missing key. */
  function Count(h: Histogram, k: nat): nat {
    if k in h then h[k] else 0
  }

  /** `cliqueCounts[k]++`. */
  function Record(h: Histogram, k: nat): (h': Histogram)
    ensures Count(h', k) == Count(h, k) + 1
    ensures forall j :: j != k ==> Count(h', j) == Count(h, j)
    ensures h'.Keys == h.Keys + {k}
  {
    h[k := Count(h, k) + 1]
  }

  /** The histogram after recording the size of each clique of `cs`, in order. */
  function Tally(h: Histogram, cs: seq<set<nat>>): Histogram
    decreases |cs|
  {
    if cs == [] then h else Tally(Record(h, |cs[0]|), cs[1..])
  }

  /** How many cliques of `cs` have k members. */
  function SizeCount(cs: seq<set<nat>>, k: nat): nat {
    if cs == [] then 0 else (if |cs[0]| == k then 1 else 0) + SizeCount(cs[1..], k)
  }

  lemma {:induction false} TallyAppend(h: Histogram, a: seq<set<nat>>, b: seq<set<nat>>)
    ensures Tally(h, a + b) == Tally(Tally(h, a), b)
    decreases |a|
  {
    if a != [] {
      assert (a + b)[0] == a[0] && (a + b)[1..] == a[1..] + b;
      TallyAppend(Record(h, |a[0]|), a[1..], b);
    } else {
      assert a + b == b;
    }
  }

  /** The histogram counts, for each size k, exactly the recorded cliques of size k. */
  lemma {:induction false} TallyCount(h: Histogram, cs: seq<set<nat>>, k: nat)
    ensures Count(Tally(h, cs), k) == Count(h, k) + SizeCount(cs, k)
    decreases |cs|
  {
    if cs != [] {
      TallyCount(Record(h, |cs[0]|), cs[1..], k);
    }
  }

  /** The sum of the histogram's values. */
  ghost function Total(h: Histogram): nat
    decreases |h|
  {
    if h == map[] then 0
    else
      var k :| k in h;
      assert (h - {k}).Keys == h.Keys - {k};
      h[k] + Total(h - {k})
  }

  lemma {:induction false} TotalRemove(h: Histogram, k: nat)
    requires k in h
    ensures Total(h) == h[k] + Total(h - {k})
    decreases |h|
  {
    var j :| j in h && Total(h) == h[j] + Total(h - {j});
    if j != k {
      assert (h - {j}).Keys == h.Keys - {j};
      TotalRemove(h - {j}, k);
      assert (h - {k}).Keys == h.Keys - {k};
      TotalRemove(h - {k}, j);
      assert h - {j} - {k} == h - {k} - {j};
    }
  }

  lemma TotalRecord(h: Histogram, k: nat)
    ensures Total(Record(h, k)) == Total(h) + 1
  {
    var h' := Record(h, k);
    TotalRemove(h', k);
    if k in h {
      TotalRemove(h, k);
    }
    assert h' - {k} == h - {k};
    assert k !in h ==> h - {k} == h;
  }

  /** Summing the histogram gives the number of recorded cliques (the total counter). */
  lemma {:induction false} TotalTally(h: Histogram, cs: seq<set<nat>>)
    ensures Total(Tally(h, cs)) == Total(h) + |cs|
    decreases |cs|
  {
    if cs != [] {
      TotalRecord(h, |cs[0]|);
      TotalTally(Record(h, |cs[0]|), cs[1..]);
    }
  }

  /** For a duplicate-free list, SizeCount counts a set. */
  lemma {:induction false} SizeCountIsCard(cs: seq<set<nat>>, k: nat)
    requires NoDup(cs)
    ensures SizeCount(cs, k) == |set c | c in cs && |c| == k|
  {
    if cs != [] {
      var tail := cs[1..];
      assert NoDup(tail) by {
        forall i, j | 0 <= i < j < |tail| ensures tail[i] != tail[j] {
          assert tail[i] == cs[i + 1] && tail[j] == cs[j + 1];
        }
      }
      SizeCountIsCard(tail, k);
      var s := set c | c in cs && |c| == k;
      var t := set c | c in tail && |c| == k;
      assert cs[0] !in tail by {
        forall j | 0 <= j < |tail| ensures tail[j] != cs[0] {
          assert tail[j] == cs[j + 1];
        }
      }
      if |cs[0]| == k {
        assert s == t + {cs[0]};
      } else {
        assert s == t;
      }
    }
  }

  /**
   * The histogram depends only on which cliques were found, not on the order
   * (pivot choice, hash or bucket order) in which they were found.
   */
  lemma HistogramDetermined(a: seq<set<nat>>, b: seq<set<nat>>, k: nat)
    requires NoDup(a) && NoDup(b)
    requires forall c :: c in a <==> c in b
    ensures Count(Tally(map[], a), k) == Count(Tally(map[], b), k)
  {
    TallyCount(map[], a, k);
    TallyCount(map[], b, k);
    SizeCountIsCard(a, k);
    SizeCountIsCard(b, k);
    assert (set c | c in a && |c| == k) == (set c | c in b && |c| == k);
  }
}
