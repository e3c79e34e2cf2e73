/** The exact search `calc_dp` of the Python route experiment (TSP/logic.py):
    the Held–Karp dynamic programme over subsets of nodes, stored as bit
    masks. `dp[s][v]` is the cheapest open path that starts at the start node,
    visits exactly the nodes of `s` and ends at `v`; `parent[s][v]` is the
    node before `v` on it. The route is rebuilt backwards from the cheapest
    full-mask entry. */
module HeldKarp {
  import opened Tour

  /** `1 << k`. */
  function Pow2(k: nat): (r: nat)
    ensures r >= 1
  {
    if k == 0 then 1 else 2 * Pow2(k - 1)
  }

  /** `s & (1 << v) != 0`: bit v of s is set. */
  predicate Has(s: nat, v: nat)
  {
    if v == 0 then s % 2 == 1 else Has(s / 2, v - 1)
  }

  /** `s ^ (1 << v)`: toggling one bit. */
  function Toggle(s: nat, v: nat): nat
  {
    if Has(s, v) then (HasBound(s, v); s - Pow2(v)) else s + Pow2(v)
  }

  lemma {:induction false} Pow2Mono(a: nat, b: nat)
    requires a <= b
    ensures Pow2(a) <= Pow2(b)
  {
    if a < b {
      Pow2Mono(a, b - 1);
    }
  }

  /** A set bit v is worth at least 2^v. */
  lemma {:induction false} HasBound(s: nat, v: nat)
    requires Has(s, v)
    ensures s >= Pow2(v)
  {
    if v > 0 {
      HasBound(s / 2, v - 1);
    }
  }

  /** A mask below 2^n has no bit at n or above. */
  lemma HasBelow(s: nat, n: nat, v: nat)
    requires s < Pow2(n) && Has(s, v)
    ensures v < n
  {
    HasBound(s, v);
    if v >= n {
      Pow2Mono(n, v);
    }
  }

  /** The empty mask has no bit. */
  lemma {:induction false} HasZero(v: nat)
    ensures !Has(0, v)
  {
    if v > 0 {
      HasZero(v - 1);
    }
  }

  /** `1 << k` has exactly bit k. */
  lemma {:induction false} HasPow2(k: nat, u: nat)
    ensures Has(Pow2(k), u) <==> u == k
  {
    if k == 0 {
      if u > 0 {
        HasZero(u - 1);
      }
    } else if u > 0 {
      assert Pow2(k) / 2 == Pow2(k - 1);
      HasPow2(k - 1, u - 1);
    }
  }

  /** Clearing bit v clears that bit and keeps every other. */
  lemma {:induction false} HasRemove(s: nat, v: nat, u: nat)
    requires Has(s, v)
    ensures s >= Pow2(v)
    ensures Has(s - Pow2(v), u) <==> Has(s, u) && u != v
  {
    HasBound(s, v);
    var t := s - Pow2(v);
    if v == 0 {
      assert t / 2 == s / 2;
    } else {
      var p := Pow2(v - 1);
      HasBound(s / 2, v - 1);
      assert s == 2 * (s / 2) + s % 2;
      assert t == 2 * (s / 2 - p) + s % 2;
      assert t % 2 == s % 2 && t / 2 == s / 2 - p;
      if u > 0 {
        HasRemove(s / 2, v - 1, u - 1);
      }
    }
  }

  /** `(1 << n) - 1` has exactly the bits below n. */
  lemma {:induction false} HasFull(n: nat, x: nat)
    ensures Has(Pow2(n) - 1, x) <==> x < n
  {
    if n == 0 {
      HasZero(x);
    } else {
      var p := Pow2(n - 1);
      assert Pow2(n) - 1 == 2 * (p - 1) + 1;
      assert (Pow2(n) - 1) / 2 == p - 1;
      if x > 0 {
        HasFull(n - 1, x - 1);
      }
    }
  }

  /** A non-empty mask has a set bit. */
  lemma {:induction false} LowBit(s: nat) returns (u: nat)
    requires s > 0
    ensures Has(s, u)
  {
    if s % 2 == 1 {
      u := 0;
    } else {
      var w := LowBit(s / 2);
      u := w + 1;
    }
  }

  /** `float('inf')` or a finite path length. */
  datatype Cost = Inf | Fin(c: int)

  /** The float comparison `a < b` on costs: infinity is never smaller. */
  predicate CostLess(a: Cost, b: Cost)
  {
    a.Fin? && (b.Inf? || a.c < b.c)
  }

  /** The table before the main loop: 0 for the start node alone. */
  function Init(start: nat, s: nat, v: nat): (r: Cost)
    ensures r.Fin? <==> s == Pow2(start) && v == start
  {
    if s == Pow2(start) && v == start then Fin(0) else Inf
  }

  /** The `continue` conditions of the loop body: the mask lacks the start
      node or v, or v is its only node. */
  predicate Skipped(start: nat, s: nat, v: nat)
  {
    !Has(s, start) || !Has(s, v) || Toggle(s, v) == 0
  }

  /** The table entry `dp[s][v]` once the loops are done. */
  function Dp(d: Matrix, start: nat, s: nat, v: nat): Cost
    requires IsSquare(d) && v < |d|
    decreases s, 1, 0
  {
    if Skipped(start, s, v) then Init(start, s, v)
    else
      var r := Scan(d, start, s, v, |d|);
      if r.1 == -1 then Init(start, s, v) else r.0
  }

  /** The table entry `parent[s][v]` once the loops are done. */
  function Parent(d: Matrix, start: nat, s: nat, v: nat): int
    requires IsSquare(d) && v < |d|
  {
    if Skipped(start, s, v) then -1 else Scan(d, start, s, v, |d|).1
  }

  /** The `for u` scan over the first k nodes: `(min_val, best_u)`, the
      first strictly smallest `dp[prev_s][u] + dist[u][v]` among the finite
      entries of the nodes of `prev_s`. */
  function Scan(d: Matrix, start: nat, s: nat, v: nat, k: nat): (r: (Cost, int))
    requires IsSquare(d) && v < |d| && k <= |d| && Has(s, v)
    ensures -1 <= r.1 < k
    ensures r.1 == -1 <==> r.0 == Inf
    decreases s, 0, k
  {
    if k == 0 then (Inf, -1)
    else
      var r := Scan(d, start, s, v, k - 1);
      var prev := Toggle(s, v);
      var u := k - 1;
      if Has(prev, u) && Dp(d, start, prev, u).Fin? && CostLess(Fin(Dp(d, start, prev, u).c + d[u][v]), r.0)
      then (Fin(Dp(d, start, prev, u).c + d[u][v]), u)
      else r
  }

  /** The scan's minimum is at most every candidate it looked at. */
  lemma {:induction false} ScanMin(d: Matrix, start: nat, s: nat, v: nat, k: nat, u: nat)
    requires IsSquare(d) && v < |d| && k <= |d| && Has(s, v) && u < k
    requires Has(Toggle(s, v), u) && Dp(d, start, Toggle(s, v), u).Fin?
    ensures var r := Scan(d, start, s, v, k);
      r.0.Fin? && r.0.c <= Dp(d, start, Toggle(s, v), u).c + d[u][v]
  {
    if u < k - 1 {
      ScanMin(d, start, s, v, k - 1, u);
    }
  }

  /** The scan's choice is a finite entry of a node of the smaller mask, and
      the minimum is that entry plus the last edge. */
  lemma {:induction false} ScanWitness(d: Matrix, start: nat, s: nat, v: nat, k: nat)
    requires IsSquare(d) && v < |d| && k <= |d| && Has(s, v)
    ensures var r := Scan(d, start, s, v, k);
      r.1 >= 0 ==>
        var prev := Toggle(s, v);
        Has(prev, r.1) && Dp(d, start, prev, r.1).Fin? && r.0 == Fin(Dp(d, start, prev, r.1).c + d[r.1][v])
  {
    if k > 0 {
      ScanWitness(d, start, s, v, k - 1);
    }
  }

  /** `p` is an open path from `start` to `v` through exactly the nodes of `s`. */
  predicate PathOver(p: seq<nat>, s: nat, start: nat, v: nat, n: nat)
  {
    |p| > 0 && p[0] == start && p[|p| - 1] == v && Distinct(p) && InRange(p, n) &&
    forall x :: 0 <= x < n ==> (x in p <==> Has(s, x))
  }

  /** The route the `parent` links spell out from `(s, v)` back to the start. */
  function BestPath(d: Matrix, start: nat, s: nat, v: nat): seq<nat>
    requires IsSquare(d) && v < |d|
    decreases s
  {
    var u := Parent(d, start, s, v);
    if u == -1 then [v]
    else
      HasBound(s, v);
      BestPath(d, start, s - Pow2(v), u) + [v]
  }

  /** A finite entry names a real path: `BestPath(s, v)` runs from the start
      to v through exactly the nodes of s, and its cost is the entry. */
  lemma {:induction false} DpSound(d: Matrix, start: nat, s: nat, v: nat)
    requires IsSquare(d) && start < |d| && v < |d| && s < Pow2(|d|)
    requires Dp(d, start, s, v).Fin?
    ensures PathOver(BestPath(d, start, s, v), s, start, v, |d|)
    ensures PathCost(d, BestPath(d, start, s, v)) == Dp(d, start, s, v).c
    decreases s
  {
    var n := |d|;
    var u := Parent(d, start, s, v);
    if u == -1 {
      assert Dp(d, start, s, v) == Init(start, s, v);
      forall x | 0 <= x < n
        ensures x in [v] <==> Has(s, x)
      {
        HasPow2(start, x);
      }
    } else {
      var prev := Toggle(s, v);
      ScanWitness(d, start, s, v, n);
      HasBound(s, v);
      assert prev == s - Pow2(v);
      DpSound(d, start, prev, u);
      var q := BestPath(d, start, prev, u);
      assert BestPath(d, start, s, v) == q + [v];
      AppendOver(q, s, start, u, v, n);
      PathCostConcat(d, q, [v]);
    }
  }

  /** Every path from the start through exactly the nodes of s to v costs
      at least `dp[s][v]`, which is then finite. */
  lemma {:induction false} DpOptimal(d: Matrix, start: nat, s: nat, v: nat, p: seq<nat>)
    requires IsSquare(d) && start < |d| && v < |d| && s < Pow2(|d|)
    requires PathOver(p, s, start, v, |d|)
    ensures Dp(d, start, s, v).Fin? && Dp(d, start, s, v).c <= PathCost(d, p)
    decreases |p|
  {
    var n := |d|;
    assert Has(s, v) && Has(s, start) by {
      assert v == p[|p| - 1] && start == p[0];
    }
    HasBound(s, v);
    var prev := s - Pow2(v);
    if |p| == 1 {
      if prev != 0 {
        var w := LowBit(prev);
        HasRemove(s, v, w);
        HasBelow(s, n, w);
        assert false;
      }
      assert Dp(d, start, s, v) == Fin(0);
    } else {
      var q := p[..|p| - 1];
      var u := q[|q| - 1];
      assert p == q + [v];
      DropLastOver(p, s, start, v, n);
      assert Has(prev, u);
      HasZero(u);
      assert Toggle(s, v) == prev;
      DpOptimal(d, start, prev, u, q);
      ScanMin(d, start, s, v, n, u);
      PathCostConcat(d, q, [v]);
    }
  }

  /** Adding v to a path over s with bit v cleared gives a path over s. */
  lemma AppendOver(q: seq<nat>, s: nat, start: nat, u: nat, v: nat, n: nat)
    requires Has(s, v) && v < n
    requires s >= Pow2(v) && PathOver(q, s - Pow2(v), start, u, n)
    ensures PathOver(q + [v], s, start, v, n)
  {
    var p := q + [v];
    forall x | 0 <= x < n
      ensures x in p <==> Has(s, x)
    {
      HasRemove(s, v, x);
    }
    HasRemove(s, v, v);
    assert v !in q;
    assert Distinct(p) by {
      forall a, b | 0 <= a < b < |p|
        ensures p[a] != p[b]
      {
        if b == |q| {
          assert p[a] == q[a];
        }
      }
    }
  }

  /** Dropping the last node v of a path over s gives a path over s with
      bit v cleared. */
  lemma DropLastOver(p: seq<nat>, s: nat, start: nat, v: nat, n: nat)
    requires PathOver(p, s, start, v, n) && |p| >= 2 && Has(s, v)
    ensures s >= Pow2(v) && PathOver(p[..|p| - 1], s - Pow2(v), start, p[|p| - 2], n)
  {
    HasBound(s, v);
    var q := p[..|p| - 1];
    var prev := s - Pow2(v);
    assert p == q + [v];
    assert v !in q by {
      forall k | 0 <= k < |q|
        ensures q[k] != v
      {
        assert q[k] == p[k];
      }
    }
    forall x | 0 <= x < n
      ensures x in q <==> Has(prev, x)
    {
      HasRemove(s, v, x);
      assert x in p <==> x in q || x == v;
    }
    assert q[0] == p[0];
  }

  /** The route `[start, 0, 1, ..., n-1]` without the second `start`: some
      path through every node exists. */
  lemma SomeFullPath(n: nat, start: nat) returns (p: seq<nat>)
    requires start < n
    ensures |p| == n && PathOver(p, Pow2(n) - 1, start, p[|p| - 1], n)
  {
    p := seq(n, k => if k == 0 then start else if k <= start then k - 1 else k);
    forall x | 0 <= x < n
      ensures x in p <==> Has(Pow2(n) - 1, x)
    {
      HasFull(n, x);
      if x == start {
        assert p[0] == x;
      } else if x < start {
        assert p[x + 1] == x;
      } else {
        assert p[x] == x;
      }
    }
  }

  /** The result of `calc_dp`: an error when the start node is not a city,
      otherwise the route and its length. */
  datatype DpResult = OutOfBounds | Route(path: seq<nat>, cost: int)

  /** The `for u` loop of one table cell: reads the finished rows below s. */
  method Relax(d: Matrix, start: nat, dp: array2<Cost>, s: nat, v: nat) returns (minVal: Cost, bestU: int)
    requires IsSquare(d) && v < |d| && Has(s, v)
    requires dp.Length0 == Pow2(|d|) && dp.Length1 == |d| && s < dp.Length0
    requires forall t, w :: 0 <= t < s && 0 <= w < |d| ==> dp[t, w] == Dp(d, start, t, w)
    ensures (minVal, bestU) == Scan(d, start, s, v, |d|)
  {
    var prevS := Toggle(s, v);
    HasBound(s, v);
    minVal, bestU := Inf, -1;
    for u := 0 to |d|
      invariant (minVal, bestU) == Scan(d, start, s, v, u)
    {
      if Has(prevS, u) {
        if dp[prevS, u] != Inf {
          var val := dp[prevS, u].c + d[u][v];
          if CostLess(Fin(val), minVal) {
            minVal := Fin(val);
            bestU := u;
          }
        }
      }
    }
  }

  /** The loop body for one cell `(s, v)`: after it, the cell holds its final
      entry and no other cell changed. */
  method FillCell(d: Matrix, start: nat, dp: array2<Cost>, parent: array2<int>, s: nat, v: nat)
    requires IsSquare(d) && v < |d| && Has(s, start)
    requires dp.Length0 == parent.Length0 == Pow2(|d|) && dp.Length1 == parent.Length1 == |d| && s < dp.Length0
    requires forall t, w :: 0 <= t < s && 0 <= w < |d| ==> dp[t, w] == Dp(d, start, t, w)
    requires dp[s, v] == Init(start, s, v) && parent[s, v] == -1
    modifies dp, parent
    ensures dp[s, v] == Dp(d, start, s, v) && parent[s, v] == Parent(d, start, s, v)
    ensures forall t, w :: 0 <= t < dp.Length0 && 0 <= w < dp.Length1 && (t != s || w != v) ==>
              dp[t, w] == old(dp[t, w]) && parent[t, w] == old(parent[t, w])
  {
    if !Has(s, v) {
      return;
    }
    var prevS := Toggle(s, v);
    if prevS == 0 {
      return;
    }
    var minVal, bestU := Relax(d, start, dp, s, v);
    if bestU != -1 {
      dp[s, v] := minVal;
      parent[s, v] := bestU;
    }
  }

  /** The two nested `for s` / `for v` loops: every cell of both tables ends
      with its final entry. */
  method FillTables(d: Matrix, start: nat) returns (dp: array2<Cost>, parent: array2<int>)
    requires IsSquare(d) && start < |d|
    ensures fresh(dp) && fresh(parent)
    ensures dp.Length0 == parent.Length0 == Pow2(|d|) && dp.Length1 == parent.Length1 == |d|
    ensures forall s, v :: 0 <= s < Pow2(|d|) && 0 <= v < |d| ==> dp[s, v] == Dp(d, start, s, v)
    ensures forall s, v :: 0 <= s < Pow2(|d|) && 0 <= v < |d| ==> parent[s, v] == Parent(d, start, s, v)
  {
    var n := |d|;
    var size := Pow2(n);
    dp := new Cost[size, n]((_, _) => Inf);
    parent := new int[size, n]((_, _) => -1);
    Pow2Mono(start + 1, n);
    dp[Pow2(start), start] := Fin(0);
    HasZero(start);
    var s := 1;
    while s < size
      invariant 1 <= s <= size
      invariant forall t, w :: 0 <= t < s && 0 <= w < n ==> dp[t, w] == Dp(d, start, t, w)
      invariant forall t, w :: 0 <= t < s && 0 <= w < n ==> parent[t, w] == Parent(d, start, t, w)
      invariant forall t, w :: s <= t < size && 0 <= w < n ==> dp[t, w] == Init(start, t, w) && parent[t, w] == -1
    {
      if Has(s, start) {
        FillRow(d, start, dp, parent, s);
      }
      s := s + 1;
    }
  }

  /** The `for v` loop for one mask s holding the start node: row s gets
      its final entries, the other rows keep theirs. */
  method FillRow(d: Matrix, start: nat, dp: array2<Cost>, parent: array2<int>, s: nat)
    requires IsSquare(d) && Has(s, start)
    requires dp.Length0 == parent.Length0 == Pow2(|d|) && dp.Length1 == parent.Length1 == |d| && s < dp.Length0
    requires forall t, w :: 0 <= t < s && 0 <= w < |d| ==> dp[t, w] == Dp(d, start, t, w)
    requires forall w :: 0 <= w < |d| ==> dp[s, w] == Init(start, s, w) && parent[s, w] == -1
    modifies dp, parent
    ensures forall w :: 0 <= w < |d| ==> dp[s, w] == Dp(d, start, s, w) && parent[s, w] == Parent(d, start, s, w)
    ensures forall t, w :: 0 <= t < dp.Length0 && 0 <= w < dp.Length1 && t != s ==>
              dp[t, w] == old(dp[t, w]) && parent[t, w] == old(parent[t, w])
  {
    for v := 0 to |d|
      invariant forall t, w :: 0 <= t < dp.Length0 && 0 <= w < dp.Length1 && t != s ==>
                  dp[t, w] == old(dp[t, w]) && parent[t, w] == old(parent[t, w])
      invariant forall w :: 0 <= w < v ==> dp[s, w] == Dp(d, start, s, w) && parent[s, w] == Parent(d, start, s, w)
      invariant forall w :: v <= w < |d| ==> dp[s, w] == Init(start, s, w) && parent[s, w] == -1
    {
      FillCell(d, start, dp, parent, s, v);
    }
  }

  /** `calc_dp(start_node)`: `OutOfBounds` when the start is not a city;
      otherwise a route through every city from the start whose length is
      the reported distance and is the smallest of all such routes. */
  method CalcDp(d: Matrix, start: nat) returns (r: DpResult)
    requires IsSquare(d)
    ensures start >= |d| ==> r == OutOfBounds
    ensures start < |d| ==>
              r.Route? && IsPermutation(r.path, |d|) && InRange(r.path, |d|) && |r.path| > 0 &&
              r.path[0] == start && r.cost == PathCost(d, r.path)
    ensures start < |d| && r.Route? ==>
              forall q :: IsPermutation(q, |d|) && |q| > 0 && q[0] == start ==> r.cost <= PathCost(d, q)
  {
    var n := |d|;
    if start >= n {
      return OutOfBounds;
    }
    var dp, parent := FillTables(d, start);
    var finalMask := Pow2(n) - 1;
    var minTourDist, lastNode := SelectLast(d, start, dp, finalMask);
    var path: seq<nat> := [];
    if lastNode != -1 {
      path := WalkBack(d, start, parent, lastNode);
    }
    if |path| == 0 {
      path := [start];
    }
    DpSound(d, start, finalMask, lastNode);
    FullPathIsPermutation(path, start, lastNode, n);
    r := Route(path, minTourDist.c);
    RouteOptimal(d, start, finalMask, r.cost);
  }

  /** A bound on every finite full-mask entry bounds every route from the start. */
  lemma RouteOptimal(d: Matrix, start: nat, finalMask: nat, m: int)
    requires IsSquare(d) && start < |d| && finalMask == Pow2(|d|) - 1
    requires forall w :: 0 <= w < |d| && Dp(d, start, finalMask, w).Fin? ==> m <= Dp(d, start, finalMask, w).c
    ensures forall q :: IsPermutation(q, |d|) && |q| > 0 && q[0] == start ==> m <= PathCost(d, q)
  {
    forall q | IsPermutation(q, |d|) && |q| > 0 && q[0] == start
      ensures m <= PathCost(d, q)
    {
      PermutationPathOver(q, start, |d|);
      DpOptimal(d, start, finalMask, q[|q| - 1], q);
    }
  }

  /** The choice of the last node: the start itself for a single city,
      otherwise the first node whose full-mask entry is strictly smallest.
      Some entry is finite, so a node is always found. */
  method SelectLast(d: Matrix, start: nat, dp: array2<Cost>, finalMask: nat) returns (minTourDist: Cost, lastNode: int)
    requires IsSquare(d) && start < |d| && dp.Length0 == Pow2(|d|) && dp.Length1 == |d| && finalMask == Pow2(|d|) - 1
    requires forall v :: 0 <= v < |d| ==> dp[finalMask, v] == Dp(d, start, finalMask, v)
    ensures 0 <= lastNode < |d| && minTourDist.Fin? && minTourDist == Dp(d, start, finalMask, lastNode)
    ensures forall w :: 0 <= w < |d| && Dp(d, start, finalMask, w).Fin? ==>
              minTourDist.c <= Dp(d, start, finalMask, w).c
  {
    var n := |d|;
    minTourDist, lastNode := Inf, -1;
    if n == 1 {
      minTourDist, lastNode := Fin(0), start;
      SingleCity(d, start);
    } else {
      ghost var some := SomeFullPath(n, start);
      DpOptimal(d, start, finalMask, some[n - 1], some);
      for v := 0 to n
        invariant -1 <= lastNode < n
        invariant lastNode == -1 <==> forall w :: 0 <= w < v ==> dp[finalMask, w] == Inf
        invariant lastNode == -1 ==> minTourDist == Inf
        invariant lastNode >= 0 ==> minTourDist == dp[finalMask, lastNode] && minTourDist.Fin?
        invariant forall w :: 0 <= w < v && dp[finalMask, w].Fin? ==>
                    minTourDist.Fin? && minTourDist.c <= dp[finalMask, w].c
      {
        if CostLess(dp[finalMask, v], minTourDist) {
          minTourDist := dp[finalMask, v];
          lastNode := v;
        }
      }
      assert dp[finalMask, some[n - 1]] != Inf;
    }
  }

  /** With one city the full mask is the start alone, whose entry is 0. */
  lemma SingleCity(d: Matrix, start: nat)
    requires IsSquare(d) && |d| == 1 && start < 1
    ensures Dp(d, start, Pow2(1) - 1, start) == Fin(0)
  {
    assert Pow2(1) - 1 == Pow2(start) == 1;
    assert Has(1, 0) && Toggle(1, 0) == 0;
  }

  /** The `while curr_node != -1` walk along the `parent` links, then
      `path.reverse()`: the route `BestPath` names. */
  method WalkBack(d: Matrix, start: nat, parent: array2<int>, lastNode: nat) returns (path: seq<nat>)
    requires IsSquare(d) && lastNode < |d| && parent.Length0 == Pow2(|d|) && parent.Length1 == |d|
    requires forall s, v :: 0 <= s < Pow2(|d|) && 0 <= v < |d| ==> parent[s, v] == Parent(d, start, s, v)
    requires Dp(d, start, Pow2(|d|) - 1, lastNode).Fin?
    ensures path == BestPath(d, start, Pow2(|d|) - 1, lastNode)
  {
    var n := |d|;
    ghost var best := BestPath(d, start, Pow2(n) - 1, lastNode);
    path := [];
    var currMask: nat := Pow2(n) - 1;
    var currNode: int := lastNode;
    while currNode != -1
      invariant -1 <= currNode < n && currMask < Pow2(n)
      invariant currNode >= 0 ==>
                  Dp(d, start, currMask, currNode).Fin? && best == BestPath(d, start, currMask, currNode) + Rev(path)
      invariant currNode == -1 ==> best == Rev(path)
      decreases currMask
    {
      var prevNode := parent[currMask, currNode];
      DpFiniteHas(d, start, currMask, currNode);
      ScanWitness(d, start, currMask, currNode, n);
      ghost var rest := Rev(path);
      ghost var oldMask := currMask;
      RevSnoc(path, currNode);
      path := path + [currNode];
      currMask := Toggle(currMask, currNode);
      assert currMask == oldMask - Pow2(currNode);
      if prevNode != -1 {
        assert BestPath(d, start, oldMask, currNode) == BestPath(d, start, currMask, prevNode) + [currNode];
      }
      currNode := prevNode;
    }
    path := Rev(path);
    RevRev(path);
  }

  /** The finite entries are those of masks holding their end node. */
  lemma DpFiniteHas(d: Matrix, start: nat, s: nat, v: nat)
    requires IsSquare(d) && v < |d| && Dp(d, start, s, v).Fin?
    ensures Has(s, v)
  {
    if Skipped(start, s, v) {
      HasPow2(start, v);
    }
  }

  lemma RevRev(s: seq<nat>)
    ensures Rev(Rev(s)) == s
  {
    assert forall k :: 0 <= k < |s| ==> Rev(Rev(s))[k] == s[k];
  }

  lemma RevSnoc(s: seq<nat>, x: nat)
    ensures Rev(s + [x]) == [x] + Rev(s)
  {
    var a, b := Rev(s + [x]), [x] + Rev(s);
    forall k | 0 <= k < |a|
      ensures a[k] == b[k]
    {
      if k > 0 {
        assert a[k] == s[|s| - k] == Rev(s)[k - 1];
      }
    }
  }

  /** A path through every node of the full mask is a permutation of the nodes. */
  lemma FullPathIsPermutation(p: seq<nat>, start: nat, v: nat, n: nat)
    requires PathOver(p, Pow2(n) - 1, start, v, n)
    ensures IsPermutation(p, n)
  {
    forall x | 0 <= x < n
      ensures x in p
    {
      HasFull(n, x);
    }
    CoveringDistinctIsPermutation(p, n);
  }

  /** A permutation of the nodes that begins at the start runs through the full mask. */
  lemma PermutationPathOver(q: seq<nat>, start: nat, n: nat)
    requires IsPermutation(q, n) && |q| > 0 && q[0] == start
    ensures PathOver(q, Pow2(n) - 1, start, q[|q| - 1], n)
  {
    PermutationCounts(q, n);
    PermutationDistinct(q, n);
    forall x | 0 <= x < n
      ensures x in q <==> Has(Pow2(n) - 1, x)
    {
      HasFull(n, x);
      assert multiset(q)[x] == 1;
    }
  }
}
