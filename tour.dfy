/** Tours over a square distance matrix: the vocabulary shared by every
    nearest-neighbour and 2-opt implementation of the system (the three JavaScript
    copies and the Python experiment). Nodes are indices 0..n-1 into the matrix. */
module Tour {

  type Matrix = seq<seq<int>>

  predicate IsSquare(d: Matrix)
  {
    forall i :: 0 <= i < |d| ==> |d[i]| == |d|
  }

  predicate Symmetric(d: Matrix)
    requires IsSquare(d)
  {
    forall i, j :: 0 <= i < |d| && 0 <= j < |d| ==> d[i][j] == d[j][i]
  }

  predicate NonNegative(d: Matrix)
    requires IsSquare(d)
  {
    forall i, j :: 0 <= i < |d| && 0 <= j < |d| ==> d[i][j] >= 0
  }

  /** The matrices the route solvers accept: square, symmetric, non-negative. */
  predicate IsCostMatrix(d: Matrix)
  {
    IsSquare(d) && Symmetric(d) && NonNegative(d)
  }

  predicate InRange(p: seq<nat>, n: nat)
  {
    forall k :: 0 <= k < |p| ==> p[k] < n
  }

  /** [0, 1, ..., n-1]. */
  function Iota(n: nat): (s: seq<nat>)
    ensures |s| == n && forall k :: 0 <= k < n ==> s[k] == k
  {
    if n == 0 then [] else Iota(n - 1) + [n - 1]
  }

  /** Every node index below n exactly once. */
  predicate IsPermutation(p: seq<nat>, n: nat)
  {
    multiset(p) == multiset(Iota(n))
  }

  lemma {:induction false} IotaCount(n: nat, x: nat)
    ensures multiset(Iota(n))[x] == if x < n then 1 else 0
  {
    if n > 0 {
      IotaCount(n - 1, x);
      SnocCount(Iota(n - 1), n - 1, x);
    }
  }

  /** Appending y adds one occurrence of y and nothing else. */
  lemma SnocCount(s: seq<nat>, y: nat, x: nat)
    ensures multiset(s + [y])[x] == multiset(s)[x] + (if x == y then 1 else 0)
  {
    assert multiset(s + [y]) == multiset(s) + multiset{y};
  }

  /** A permutation of 0..n-1 lists each of those indices exactly once and nothing else. */
  lemma PermutationCounts(p: seq<nat>, n: nat)
    requires IsPermutation(p, n)
    ensures |p| == n && InRange(p, n)
    ensures forall x: nat :: multiset(p)[x] == if x < n then 1 else 0
  {
    forall x: nat ensures multiset(p)[x] == if x < n then 1 else 0 {
      IotaCount(n, x);
    }
    assert |p| == |multiset(p)| == |multiset(Iota(n))| == n;
    forall k | 0 <= k < |p| ensures p[k] < n {
      assert p[k] in multiset(p);
      IotaCount(n, p[k]);
    }
  }

  /** No index occurs twice. */
  predicate Distinct(p: seq<nat>)
  {
    forall i, j :: 0 <= i < j < |p| ==> p[i] != p[j]
  }

  lemma PermutationDistinct(p: seq<nat>, n: nat)
    requires IsPermutation(p, n)
    ensures Distinct(p)
  {
    PermutationCounts(p, n);
    forall i, j | 0 <= i < j < |p| ensures p[i] != p[j] {
      assert p == p[..i] + [p[i]] + p[i + 1..j] + [p[j]] + p[j + 1..];
      assert multiset(p)[p[i]] >= multiset([p[i]] + p[i + 1..j] + [p[j]])[p[i]];
    }
  }

  lemma {:induction false} DistinctCount(p: seq<nat>, x: nat)
    requires Distinct(p)
    ensures multiset(p)[x] == if x in p then 1 else 0
  {
    if p != [] {
      assert p == [p[0]] + p[1..];
      assert Distinct(p[1..]) by {
        forall i, j | 0 <= i < j < |p| - 1 ensures p[1..][i] != p[1..][j] {
          assert p[1..][i] == p[i + 1] && p[1..][j] == p[j + 1];
        }
      }
      DistinctCount(p[1..], x);
      assert p[0] !in p[1..] by {
        forall k | 0 <= k < |p| - 1 ensures p[1..][k] != p[0] {
          assert p[1..][k] == p[k + 1];
        }
      }
    }
  }

  /** A duplicate-free route over indices below n that reaches every one of them is a
      permutation of 0..n-1. */
  lemma CoveringDistinctIsPermutation(p: seq<nat>, n: nat)
    requires Distinct(p) && InRange(p, n)
    requires forall x :: 0 <= x < n ==> x in p
    ensures IsPermutation(p, n)
  {
    forall x: nat ensures multiset(p)[x] == multiset(Iota(n))[x] {
      DistinctCount(p, x);
      IotaCount(n, x);
    }
    assert multiset(p) == multiset(Iota(n));
  }

  /** A duplicate-free route over indices below n that misses some x < n has at
      most n - 1 nodes. */
  lemma DistinctMissingBound(p: seq<nat>, n: nat, x: nat)
    requires Distinct(p) && InRange(p, n) && x < n && x !in p
    ensures |p| <= n - 1
  {
    var m: multiset<nat> := multiset(Iota(n)) - multiset{x};
    DistinctWithin(p, n, x);
    IotaCount(n, x);
    assert multiset(Iota(n)) == m + multiset{x};
    assert |m| == n - 1;
    assert m == multiset(p) + (m - multiset(p));
  }

  /** The nodes of such a route, counted: each at most once, never x. */
  lemma DistinctWithin(p: seq<nat>, n: nat, x: nat)
    requires Distinct(p) && InRange(p, n) && x < n && x !in p
    ensures multiset(p) <= multiset(Iota(n)) - multiset{x}
  {
    forall y: nat ensures multiset(p)[y] <= (multiset(Iota(n)) - multiset{x})[y] {
      DistinctCount(p, y);
      IotaCount(n, y);
      if y in p {
        var k :| 0 <= k < |p| && p[k] == y;
      }
    }
  }

  /** A duplicate-free route of n indices below n misses none of them. */
  lemma DistinctFullCovers(p: seq<nat>, n: nat, x: nat)
    requires Distinct(p) && InRange(p, n) && |p| == n && x < n
    ensures x in p
  {
    if x !in p {
      DistinctMissingBound(p, n, x);
    }
  }

  /** Rearranging a route keeps it within range. */
  lemma SameMultisetInRange(p: seq<nat>, q: seq<nat>, n: nat)
    requires InRange(p, n) && multiset(p) == multiset(q)
    ensures InRange(q, n)
  {
    forall k | 0 <= k < |q| ensures q[k] < n {
      assert q[k] in multiset(p);
      var m :| 0 <= m < |p| && p[m] == q[k];
    }
  }

  /** The `i`-th node of a route of indices, as the caller's node values. */
  function Apply<T>(p: seq<nat>, nodes: seq<T>): (r: seq<T>)
    requires InRange(p, |nodes|)
    ensures |r| == |p|
  {
    seq(|p|, k requires 0 <= k < |p| => nodes[p[k]])
  }

  /** Rearranging indices by a permutation rearranges the node values the same way:
      the route holds every node value as often as the input did. */
  lemma {:induction false} ApplyPermutation<T>(p: seq<nat>, nodes: seq<T>)
    requires IsPermutation(p, |nodes|) && InRange(p, |nodes|)
    ensures multiset(Apply(p, nodes)) == multiset(nodes)
  {
    PermutationCounts(p, |nodes|);
    ApplySameMultiset(p, Iota(|nodes|), nodes);
    forall k | 0 <= k < |nodes| ensures Apply(Iota(|nodes|), nodes)[k] == nodes[k] {
      ApplyAt(Iota(|nodes|), nodes, k);
    }
    assert Apply(Iota(|nodes|), nodes) == nodes;
  }

  /** A permutation that keeps index 0 first maps the rest of the route onto the
      rest of the nodes. */
  lemma ApplyDropFirst<T>(p: seq<nat>, w: seq<T>)
    requires IsPermutation(p, |w|) && InRange(p, |w|) && |p| > 0 && p[0] == 0
    ensures InRange(p[1..], |w|)
    ensures multiset(Apply(p[1..], w)) == multiset(w[1..])
  {
    DropFirstIndex(p, |w|);
    ApplySameMultiset(p[1..], Iota(|w|)[1..], w);
    ApplyIotaTail(w);
  }

  lemma ApplyIotaTail<T>(w: seq<T>)
    requires w != []
    ensures InRange(Iota(|w|)[1..], |w|)
    ensures Apply(Iota(|w|)[1..], w) == w[1..]
  {
    var ids := Iota(|w|)[1..];
    assert |ids| == |w| - 1;
    forall k | 0 <= k < |ids| ensures ids[k] == k + 1 {
      IotaTailAt(|w|, k);
    }
    assert InRange(ids, |w|);
    ApplyShift(ids, w);
  }

  /** Indices 1, 2, ..., |w|-1 pick out the tail. */
  lemma ApplyShift<T>(ids: seq<nat>, w: seq<T>)
    requires |ids| == |w| - 1 && forall k :: 0 <= k < |ids| ==> ids[k] == k + 1
    ensures InRange(ids, |w|) && Apply(ids, w) == w[1..]
  {
    var r := Apply(ids, w);
    forall k | 0 <= k < |r| ensures r[k] == w[1..][k] {
      ApplyAt(ids, w, k);
    }
  }

  lemma IotaTailAt(n: nat, k: nat)
    requires k + 1 < n
    ensures Iota(n)[1..][k] == k + 1
  {
    assert Iota(n)[1..][k] == Iota(n)[k + 1];
  }

  lemma DropFirstIndex(p: seq<nat>, n: nat)
    requires IsPermutation(p, n) && InRange(p, n) && |p| > 0 && p[0] == 0
    ensures n > 0 && InRange(p[1..], n) && InRange(Iota(n)[1..], n)
    ensures multiset(p[1..]) == multiset(Iota(n)[1..])
  {
    assert n > 0 by {
      assert |multiset(p)| == |p| && |multiset(Iota(n))| == n;
    }
    InRangeTail(p, n);
    MultisetTail(p);
    MultisetTail(Iota(n));
  }

  lemma MultisetTail<T>(s: seq<T>)
    requires s != []
    ensures multiset(s[1..]) == multiset(s) - multiset{s[0]}
  {
    assert s == [s[0]] + s[1..];
  }

  lemma MultisetRemoveAt<T>(s: seq<T>, m: nat)
    requires m < |s|
    ensures multiset(s[..m] + s[m + 1..]) == multiset(s) - multiset{s[m]}
  {
    assert s == s[..m] + [s[m]] + s[m + 1..];
  }

  lemma {:induction false} ApplySameMultiset<T>(p: seq<nat>, q: seq<nat>, nodes: seq<T>)
    requires InRange(p, |nodes|) && InRange(q, |nodes|)
    requires multiset(p) == multiset(q)
    ensures multiset(Apply(p, nodes)) == multiset(Apply(q, nodes))
  {
    if p == [] {
      assert |q| == |multiset(q)| == 0;
    } else {
      var x := p[0];
      assert x in multiset(q);
      var m :| 0 <= m < |q| && q[m] == x;
      var q' := q[..m] + q[m + 1..];
      MultisetTail(p);
      MultisetRemoveAt(q, m);
      ApplyRemove(q, m, nodes);
      InRangeTail(p, |nodes|);
      ApplySameMultiset(p[1..], q', nodes);
      ApplyCons(p, nodes);
    }
  }

  lemma ApplyCons<T>(p: seq<nat>, nodes: seq<T>)
    requires InRange(p, |nodes|) && p != []
    ensures InRange(p[1..], |nodes|)
    ensures multiset(Apply(p, nodes)) == multiset(Apply(p[1..], nodes)) + multiset{nodes[p[0]]}
  {
    InRangeTail(p, |nodes|);
    var r := Apply(p[1..], nodes);
    assert Apply(p, nodes) == [nodes[p[0]]] + r;
    assert multiset([nodes[p[0]]] + r) == multiset{nodes[p[0]]} + multiset(r);
  }

  lemma InRangeTail(p: seq<nat>, n: nat)
    requires InRange(p, n) && p != []
    ensures InRange(p[1..], n)
  {
    forall k | 0 <= k < |p| - 1 ensures p[1..][k] < n {
      assert p[1..][k] == p[k + 1];
    }
  }

  lemma ApplyRemove<T>(q: seq<nat>, m: nat, nodes: seq<T>)
    requires InRange(q, |nodes|) && m < |q|
    ensures InRange(q[..m] + q[m + 1..], |nodes|)
    ensures multiset(Apply(q, nodes))
         == multiset(Apply(q[..m] + q[m + 1..], nodes)) + multiset{nodes[q[m]]}
  {
    var a, b := q[..m], q[m + 1..];
    var x := q[m];
    var xb := [x] + b;
    assert q == a + xb;
    ApplyConcat(a, xb, nodes);
    ApplyConcat(a, b, nodes);
    assert xb[1..] == b;
    ApplyCons(xb, nodes);
  }

  lemma {:induction false} ApplyConcat<T>(a: seq<nat>, b: seq<nat>, nodes: seq<T>)
    requires InRange(a, |nodes|) && InRange(b, |nodes|)
    ensures InRange(a + b, |nodes|)
    ensures Apply(a + b, nodes) == Apply(a, nodes) + Apply(b, nodes)
  {
    InRangeConcat(a, b, |nodes|);
    if a == [] {
      assert a + b == b;
    } else {
      assert (a + b)[1..] == a[1..] + b;
      ApplyConcat(a[1..], b, nodes);
    }
  }

  /** Position k of the mapped route is the node at index p[k]. */
  lemma ApplyAt<T>(p: seq<nat>, nodes: seq<T>, k: nat)
    requires InRange(p, |nodes|) && k < |p|
    ensures Apply(p, nodes)[k] == nodes[p[k]]
  {
  }

  /** `s.slice().reverse()`. */
  function Rev(s: seq<nat>): (r: seq<nat>)
    ensures |r| == |s| && forall k :: 0 <= k < |s| ==> r[k] == s[|s| - 1 - k]
  {
    if s == [] then [] else Rev(s[1..]) + [s[0]]
  }

  lemma {:induction false} RevMultiset(s: seq<nat>)
    ensures multiset(Rev(s)) == multiset(s)
  {
    if s != [] {
      RevMultiset(s[1..]);
      assert s == [s[0]] + s[1..];
    }
  }

  /** The route with positions lo..hi (inclusive) reversed. */
  function ReverseSegment(p: seq<nat>, lo: nat, hi: nat): (r: seq<nat>)
    requires lo <= hi < |p|
  {
    p[..lo] + Rev(p[lo..hi + 1]) + p[hi + 1..]
  }

  /** A reversal keeps the length and the node multiset. */
  lemma ReverseSegmentMultiset(p: seq<nat>, lo: nat, hi: nat)
    requires lo <= hi < |p|
    ensures |ReverseSegment(p, lo, hi)| == |p|
    ensures multiset(ReverseSegment(p, lo, hi)) == multiset(p)
  {
    var a, m, c := p[..lo], p[lo..hi + 1], p[hi + 1..];
    RevMultiset(m);
    assert p == a + m + c;
  }

  /** A reversal leaves every node outside the segment in place and mirrors the segment. */
  lemma ReverseSegmentAt(p: seq<nat>, lo: nat, hi: nat, k: nat)
    requires lo <= hi < |p| && k < |p|
    ensures |ReverseSegment(p, lo, hi)| == |p|
    ensures ReverseSegment(p, lo, hi)[k] == if lo <= k <= hi then p[lo + hi - k] else p[k]
  {
    var a, m, c := p[..lo], p[lo..hi + 1], p[hi + 1..];
    var rm := Rev(m);
    var r := a + rm + c;
    assert r == ReverseSegment(p, lo, hi);
    if k < lo {
      assert r[k] == a[k];
    } else if k <= hi {
      assert r[k] == rm[k - lo];
    } else {
      assert r[k] == c[k - hi - 1];
    }
  }

  /** The matrix entry d[i][j]; 0 off the matrix, which no route in range reaches. */
  function Edge(d: Matrix, i: nat, j: nat): (e: int)
    ensures i < |d| && j < |d[i]| ==> e == d[i][j]
  {
    if i < |d| && j < |d[i]| then d[i][j] else 0
  }

  lemma EdgeSymmetric(d: Matrix, i: nat, j: nat)
    requires IsSquare(d) && Symmetric(d)
    ensures Edge(d, i, j) == Edge(d, j, i)
  {
  }

  /** Cost of walking the route in order (an open path, not a closed loop). */
  function PathCost(d: Matrix, p: seq<nat>): int
  {
    if |p| <= 1 then 0 else Edge(d, p[0], p[1]) + PathCost(d, p[1..])
  }

  lemma {:induction false} PathCostNonNegative(d: Matrix, p: seq<nat>)
    requires IsSquare(d) && NonNegative(d)
    ensures PathCost(d, p) >= 0
  {
    if |p| > 1 {
      PathCostNonNegative(d, p[1..]);
    }
  }

  /** Cost of a concatenation: both parts plus the joining edge. */
  lemma {:induction false} PathCostConcat(d: Matrix, a: seq<nat>, b: seq<nat>)
    requires a != [] && b != []
    ensures PathCost(d, a + b) == PathCost(d, a) + Edge(d, a[|a| - 1], b[0]) + PathCost(d, b)
  {
    if |a| == 1 {
      assert (a + b)[1..] == b;
    } else {
      assert (a + b)[1..] == a[1..] + b;
      PathCostConcat(d, a[1..], b);
    }
  }

  /** Walking a segment backwards costs the same when the matrix is symmetric. */
  lemma {:induction false} PathCostRev(d: Matrix, s: seq<nat>)
    requires IsSquare(d) && Symmetric(d)
    ensures PathCost(d, Rev(s)) == PathCost(d, s)
  {
    if |s| > 1 {
      PathCostRev(d, s[1..]);
      PathCostConcat(d, Rev(s[1..]), [s[0]]);
      assert Rev(s[1..])[|s| - 2] == s[1];
      EdgeSymmetric(d, s[0], s[1]);
    }
  }

  /** The 2-opt identity: reversing positions lo..hi replaces the edges
      (p[lo-1], p[lo]) and (p[hi], p[hi+1]) by (p[lo-1], p[hi]) and (p[lo], p[hi+1])
      and changes nothing else in the cost. */
  lemma TwoOptDelta(d: Matrix, p: seq<nat>, lo: nat, hi: nat)
    requires IsSquare(d) && Symmetric(d)
    requires 1 <= lo <= hi < |p| - 1
    ensures PathCost(d, ReverseSegment(p, lo, hi)) == PathCost(d, p) - OldEdges(d, p, lo, hi) + NewEdges(d, p, lo, hi)
  {
    var a, m, c := p[..lo], p[lo..hi + 1], p[hi + 1..];
    assert p == a + m + c;
    assert a[|a| - 1] == p[lo - 1] && c[0] == p[hi + 1];
    assert m[0] == p[lo] && m[|m| - 1] == p[hi];
    ReversalDelta(d, a, m, c);
  }

  /** The same identity on the three parts of the route. */
  lemma ReversalDelta(d: Matrix, a: seq<nat>, m: seq<nat>, c: seq<nat>)
    requires IsSquare(d) && Symmetric(d)
    requires a != [] && m != [] && c != []
    ensures PathCost(d, a + Rev(m) + c)
         == PathCost(d, a + m + c) - (Edge(d, a[|a| - 1], m[0]) + Edge(d, m[|m| - 1], c[0]))
                                   + (Edge(d, a[|a| - 1], m[|m| - 1]) + Edge(d, m[0], c[0]))
  {
    var r := Rev(m);
    assert r[0] == m[|m| - 1] && r[|r| - 1] == m[0];
    PathCostRev(d, m);
    PathCost3(d, a, m, c);
    PathCost3(d, a, r, c);
  }

  lemma InRangeSlice(p: seq<nat>, lo: nat, hi: nat, n: nat)
    requires InRange(p, n) && lo <= hi < |p|
    ensures InRange(p[..lo], n) && InRange(p[lo..hi + 1], n) && InRange(p[hi + 1..], n)
  {
    var m, c := p[lo..hi + 1], p[hi + 1..];
    forall k | 0 <= k < lo ensures p[..lo][k] < n {
      assert p[..lo][k] == p[k];
    }
    forall k | 0 <= k < |m| ensures m[k] < n {
      assert m[k] == p[lo + k];
    }
    forall k | 0 <= k < |c| ensures c[k] < n {
      assert c[k] == p[hi + 1 + k];
    }
  }

  lemma InRangeConcat(a: seq<nat>, b: seq<nat>, n: nat)
    requires InRange(a, n) && InRange(b, n)
    ensures InRange(a + b, n)
  {
    forall k | 0 <= k < |a + b| ensures (a + b)[k] < n {
      if k >= |a| {
        assert (a + b)[k] == b[k - |a|];
      }
    }
  }

  lemma PathCost3(d: Matrix, a: seq<nat>, m: seq<nat>, c: seq<nat>)
    requires a != [] && m != [] && c != []
    ensures PathCost(d, a + m + c)
         == PathCost(d, a) + Edge(d, a[|a| - 1], m[0]) + PathCost(d, m) + Edge(d, m[|m| - 1], c[0]) + PathCost(d, c)
  {
    var am := a + m;
    PathCostConcat(d, am, c);
    PathCostConcat(d, a, m);
    assert am[|am| - 1] == m[|m| - 1];
  }

  /** The edge sums a 2-opt scan compares for the segment lo..hi. */
  function OldEdges(d: Matrix, p: seq<nat>, lo: nat, hi: nat): int
    requires 1 <= lo <= hi < |p| - 1
  {
    Edge(d, p[lo - 1], p[lo]) + Edge(d, p[hi], p[hi + 1])
  }

  function NewEdges(d: Matrix, p: seq<nat>, lo: nat, hi: nat): int
    requires 1 <= lo <= hi < |p| - 1
  {
    Edge(d, p[lo - 1], p[hi]) + Edge(d, p[lo], p[hi + 1])
  }

  /** Step k of a nearest-neighbour tour: from p[k] the next node p[k+1] is a
      closest node not yet visited, and every unvisited node with a smaller index
      is strictly farther (the scan's strict `<` lets the earliest index win). */
  predicate GreedyStep(d: Matrix, p: seq<nat>, k: nat)
    requires IsSquare(d) && InRange(p, |d|) && k + 1 < |p|
  {
    forall y :: 0 <= y < |d| && y !in p[..k + 1] ==>
      d[p[k]][p[k + 1]] <= d[p[k]][y] && (y < p[k + 1] ==> d[p[k]][p[k + 1]] < d[p[k]][y])
  }

  /** A nearest-neighbour tour from `start` over all n nodes. */
  predicate IsNearestNeighbourTour(d: Matrix, p: seq<nat>, start: nat)
    requires IsSquare(d)
  {
    IsPermutation(p, |d|) && InRange(p, |d|) && |p| > 0 && p[0] == start &&
    forall k :: 0 <= k < |p| - 1 ==> GreedyStep(d, p, k)
  }

  /** The nearest-neighbour tour is determined by the matrix and the start: any two
      implementations that meet the definition return the same route. */
  lemma NearestNeighbourUnique(d: Matrix, p: seq<nat>, q: seq<nat>, start: nat)
    requires IsSquare(d)
    requires IsNearestNeighbourTour(d, p, start) && IsNearestNeighbourTour(d, q, start)
    ensures p == q
  {
    PermutationCounts(p, |d|);
    PermutationCounts(q, |d|);
    PermutationDistinct(p, |d|);
    PermutationDistinct(q, |d|);
    var k := 1;
    while k < |p|
      invariant 1 <= k <= |p|
      invariant p[..k] == q[..k]
    {
      var c, x, y := p[k - 1], p[k], q[k];
      assert p[..k] == p[..k - 1 + 1];
      assert x !in q[..k] by {
        assert forall t :: 0 <= t < k ==> p[t] != x;
      }
      assert y !in p[..k] by {
        assert forall t :: 0 <= t < k ==> q[t] != y;
      }
      assert GreedyStep(d, p, k - 1) && GreedyStep(d, q, k - 1);
      assert d[c][x] <= d[c][y] && d[c][y] <= d[c][x];
      assert x == y;
      assert p[..k + 1] == p[..k] + [x];
      assert q[..k + 1] == q[..k] + [y];
      k := k + 1;
    }
    assert p == p[..|p|] && q == q[..|q|];
  }

  /** No pair of positions 1 <= lo < hi <= |p|-2 whose reversal the JavaScript
      2-opt scan would accept. */
  predicate TwoOptLocalOptimum(d: Matrix, p: seq<nat>)
  {
    forall lo, hi :: 1 <= lo < hi < |p| - 1 ==> NewEdges(d, p, lo, hi) >= OldEdges(d, p, lo, hi)
  }

  /** One reversal of the 2-opt scan: it keeps the route's nodes and its two ends,
      and when the new edges are cheaper it strictly lowers the route's cost. */
  lemma ReversalStep(d: Matrix, p: seq<nat>, lo: nat, hi: nat)
    requires IsCostMatrix(d) && InRange(p, |d|) && 1 <= lo <= hi < |p| - 1
    requires NewEdges(d, p, lo, hi) < OldEdges(d, p, lo, hi)
    ensures var q := ReverseSegment(p, lo, hi);
      |q| == |p| && multiset(q) == multiset(p) && InRange(q, |d|) &&
      q[0] == p[0] && q[|q| - 1] == p[|p| - 1] &&
      0 <= PathCost(d, q) < PathCost(d, p)
  {
    var q := ReverseSegment(p, lo, hi);
    ReverseSegmentMultiset(p, lo, hi);
    SameMultisetInRange(p, q, |d|);
    ReverseSegmentAt(p, lo, hi, 0);
    ReverseSegmentAt(p, lo, hi, |p| - 1);
    TwoOptDelta(d, p, lo, hi);
    PathCostNonNegative(d, q);
  }

  /** The routes a 2-opt reversal may produce from `p`: the same nodes, the same
      two ends. */
  predicate SameEnds(p: seq<nat>, q: seq<nat>)
  {
    |q| == |p| && multiset(q) == multiset(p) && (|p| > 0 ==> q[0] == p[0] && q[|q| - 1] == p[|p| - 1])
  }
}
