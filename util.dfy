/** Small facts about finite collections shared by the graph modules. */
module Util {

  /** No element of `s` occurs twice. */
  ghost predicate NoDup<T>(s: seq<T>) {
    forall i, j :: 0 <= i < j < |s| ==> s[i] != s[j]
  }

  /** The vertex ids 0 .. n-1. */
  function Range(n: nat): (r: set<nat>)
    ensures forall w :: w in r <==> 0 <= w < n
  {
    if n == 0 then {} else Range(n - 1) + {n - 1}
  }

  lemma {:induction false} RangeSize(n: nat)
    ensures |Range(n)| == n
  {
    if n > 0 {
      RangeSize(n - 1);
    }
  }

  /** A set of vertex ids below n has at most n members. */
  lemma BoundedSetSize(s: set<nat>, n: nat)
    requires forall w :: w in s ==> w < n
    ensures |s| <= n
  {
    RangeSize(n);
    assert s <= Range(n);
    assert Range(n) == s + (Range(n) - s);
    assert s * (Range(n) - s) == {};
  }

  /** A subset is no larger than its superset. */
  lemma SubsetSize<T>(a: set<T>, b: set<T>)
    requires a <= b
    ensures |a| <= |b|
  {
    assert b == a + (b - a);
    assert a * (b - a) == {};
  }

  /** Every non-empty set of naturals has a least member: descend from any member. */
  lemma {:induction false} LeastExists(s: set<nat>, x: nat)
    requires x in s
    ensures exists m :: m in s && forall y :: y in s ==> m <= y
    decreases x
  {
    if y :| y in s && y < x {
      LeastExists(s, y);
    } else {
      assert forall y :: y in s ==> x <= y;
    }
  }

  /** The least member of a non-empty set of naturals (std::set::begin). */
  function Least(s: set<nat>): (m: nat)
    requires s != {}
    ensures m in s && forall y :: y in s ==> m <= y
  {
    var x :| x in s;
    LeastExists(s, x);
    var m :| m in s && forall y :: y in s ==> m <= y;
    m
  }

  /** Number of occurrences of x in s. */
  function Occurrences(s: seq<nat>, x: nat): (c: nat)
    ensures c == multiset(s)[x]
  {
    if s == [] then 0
    else
      assert s == [s[0]] + s[1..];
      (if s[0] == x then 1 else 0) + Occurrences(s[1..], x)
  }

  /** The elements of a sequence, as a set. */
  function Elems(s: seq<nat>): (r: set<nat>)
    ensures forall x :: x in r <==> x in s
  {
    set x | x in s
  }

  /** A duplicate-free sequence has as many elements as its set of elements. */
  lemma {:induction false} NoDupCard(s: seq<nat>)
    requires NoDup(s)
    ensures |Elems(s)| == |s|
  {
    if s != [] {
      NoDupCard(s[1..]);
      assert Elems(s) == Elems(s[1..]) + {s[0]};
      assert s[0] !in s[1..];
    }
  }

  /**
   * Set bookkeeping of one iteration of a loop over `todo`: v leaves `todo`,
   * and, when it is in `branch`, moves from the P side to the X side.
   */
  lemma VisitStep(p: set<nat>, x: set<nat>, branch: set<nat>, todo: set<nat>, done: set<nat>, v: nat)
    requires done == branch - todo && v in todo
    ensures v !in branch ==> done == branch - (todo - {v})
    ensures v in branch ==> done + {v} == branch - (todo - {v})
    ensures (p - done) - {v} == p - (done + {v})
    ensures (x + done) + {v} == x + (done + {v})
  {
  }

  lemma RemoveAdded(r: set<nat>, v: nat)
    requires v !in r
    ensures (r + {v}) - {v} == r
  {
  }

  lemma KeepCommon(a: set<nat>, b: set<nat>)
    ensures a - (a - b) == a * b
  {
  }

  lemma NoDupSnoc(s: seq<nat>, v: nat)
    requires NoDup(s) && v !in s
    ensures NoDup(s + [v])
  {
    var t := s + [v];
    forall i, j | 0 <= i < j < |t| ensures t[i] != t[j] {
      assert t[i] == s[i];
      if j < |s| {
        assert t[j] == s[j];
      }
    }
  }

  /** The sequence read back to front. */
  function Reversed(s: seq<nat>): (r: seq<nat>)
    ensures |r| == |s| && forall i :: 0 <= i < |s| ==> r[i] == s[|s| - 1 - i]
  {
    if s == [] then [] else Reversed(s[1..]) + [s[0]]
  }

  /** The vertices below n whose initial degree is d, in increasing id: bucket d after filling. */
  function Bucket(degree: seq<nat>, d: nat, n: nat): (b: seq<nat>)
    requires n <= |degree|
    ensures forall w: nat :: w in b <==> w < n && degree[w] == d
  {
    if n == 0 then [] else Bucket(degree, d, n - 1) + (if degree[n - 1] == d then [n - 1] else [])
  }

  /** Strictly increasing. */
  predicate Ascending(s: seq<nat>) {
    forall i, j :: 0 <= i < j < |s| ==> s[i] < s[j]
  }

  /** A filled bucket lists its vertices in strictly increasing id. */
  lemma {:induction false} BucketAscending(degree: seq<nat>, d: nat, n: nat)
    requires n <= |degree|
    ensures Ascending(Bucket(degree, d, n))
  {
    if n > 0 {
      var b := Bucket(degree, d, n - 1);
      var b' := Bucket(degree, d, n);
      BucketAscending(degree, d, n - 1);
      forall i | 0 <= i < |b| ensures b[i] < n - 1 {
        assert b[i] in b;
      }
      assert b' == b + (if degree[n - 1] == d then [n - 1] else []);
      forall i, j | 0 <= i < j < |b'| ensures b'[i] < b'[j] {
        if j < |b| {
          assert b'[i] == b[i] && b'[j] == b[j];
        } else {
          assert b'[i] == b[i] && b'[j] == n - 1;
        }
      }
    }
  }

  /** Reversing keeps the elements, and keeps them distinct. */
  lemma ReversedSame(s: seq<nat>)
    ensures forall x :: x in Reversed(s) <==> x in s
    ensures NoDup(s) ==> NoDup(Reversed(s))
  {
    var r := Reversed(s);
    forall x | x in s ensures x in r {
      var i :| 0 <= i < |s| && s[i] == x;
      assert r[|s| - 1 - i] == x;
    }
    if NoDup(s) {
      forall i, j | 0 <= i < j < |r| ensures r[i] != r[j] {
        assert r[i] == s[|s| - 1 - i] && r[j] == s[|s| - 1 - j];
      }
    }
  }

  /** The lengths of the adjacency lists: what adjList[v].size() reads for each v. */
  function Lengths(lists: seq<seq<nat>>): (len: seq<nat>)
    ensures |len| == |lists| && forall v :: 0 <= v < |lists| ==> len[v] == |lists[v]|
  {
    seq(|lists|, v requires 0 <= v < |lists| => |lists[v]|)
  }

  /** std::find: the first position of x in s, or |s| when x is absent. */
  function Find(s: seq<nat>, x: nat): (i: nat)
    ensures i <= |s| && (i < |s| <==> x in s) && (i < |s| ==> s[i] == x)
    ensures x !in s[..i]
  {
    if s == [] then 0 else if s[0] == x then 0 else 1 + Find(s[1..], x)
  }
}
