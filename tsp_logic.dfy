/** The Python route experiment (TSP/logic.py): the greedy tour `calc_fool` and
    the 2-opt improvement `calc_opt`. The distance matrix is given (the CSV
    coordinates and their square-root distances are not part of the model),
    and the routes are lists of node indices. The exact search `calc_dp` is in
    `HeldKarp`. */
module TspLogic {
  import opened JsValues
  import opened Tour

  /** `val=1e10`: the scan's starting bound. */
  const Sentinel: int := 10_000_000_000

  /** Every entry is below the starting bound, so the scan always finds the
      next node while one is left. */
  predicate BelowSentinel(d: Matrix)
    requires IsSquare(d)
  {
    forall i, j :: 0 <= i < |d| && 0 <= j < |d| ==> d[i][j] < Sentinel
  }

  /** `calc_fool(now)`: `None` when `now` is not a node (the script stops);
      otherwise the greedy route from `now`, which walks each time to the
      lowest-index nearest node not yet visited, and `dist_sum`, its cost. */
  method CalcFool(d: Matrix, now: nat) returns (r: Option<(seq<nat>, int)>)
    requires IsSquare(d) && BelowSentinel(d)
    ensures now >= |d| ==> r.None?
    ensures now < |d| ==> r.Some? && IsNearestNeighbourTour(d, r.value.0, now) && r.value.1 == PathCost(d, r.value.0)
  {
    var n := |d|;
    if now >= n {
      return None;
    }
    var distSum := 0;
    var ans: seq<nat> := [now];
    var go := new bool[n](_ => false);
    go[now] := true;
    var cur: nat := now;
    for i := 0 to n - 1
      invariant |ans| == i + 1 && ans[0] == now && InRange(ans, n) && Distinct(ans)
      invariant cur == ans[|ans| - 1]
      invariant forall z :: 0 <= z < n ==> (go[z] <==> z in ans)
      invariant forall k :: 0 <= k < |ans| - 1 ==> GreedyStep(d, ans, k)
      invariant distSum == PathCost(d, ans)
    {
      var val, idx := NearestUnvisited(d, go, cur);
      if idx == -1 {
        assert forall x :: 0 <= x < n ==> go[x] && x in ans;
        CoveringDistinctIsPermutation(ans, n);
        PermutationCounts(ans, n);
        assert false;
      }
      var next: nat := idx;
      PathCostConcat(d, ans, [next]);
      GreedyExtend(d, ans, next);
      distSum := distSum + val;
      cur := next;
      ans := ans + [cur];
      go[cur] := true;
    }
    forall x | 0 <= x < n
      ensures x in ans
    {
      DistinctFullCovers(ans, n, x);
    }
    CoveringDistinctIsPermutation(ans, n);
    return Some((ans, distSum));
  }

  /** Appending the node the scan picks keeps the route a greedy prefix. */
  lemma GreedyExtend(d: Matrix, before: seq<nat>, next: nat)
    requires IsSquare(d) && InRange(before, |d|) && Distinct(before) && |before| > 0
    requires next < |d| && next !in before
    requires forall k :: 0 <= k < |before| - 1 ==> GreedyStep(d, before, k)
    requires var c := before[|before| - 1];
      forall z :: 0 <= z < |d| && z !in before ==> d[c][next] <= d[c][z] && (z < next ==> d[c][next] < d[c][z])
    ensures InRange(before + [next], |d|) && Distinct(before + [next])
    ensures forall k :: 0 <= k < |before| ==> GreedyStep(d, before + [next], k)
  {
    var ans := before + [next];
    forall k | 0 <= k < |before|
      ensures GreedyStep(d, ans, k)
    {
      if k < |before| - 1 {
        assert GreedyStep(d, before, k);
        assert ans[..k + 1] == before[..k + 1] && ans[k] == before[k] && ans[k + 1] == before[k + 1];
      } else {
        assert ans[..k + 1] == before;
      }
    }
    assert Distinct(ans) by {
      forall a, b | 0 <= a < b < |ans|
        ensures ans[a] != ans[b]
      {
        if b == |before| {
          assert ans[a] == before[a];
        }
      }
    }
  }

  /** The inner `for j` scan of `calc_fool`: among the nodes `go` does not
      mark, the first one at the strictly smallest distance from `now`, with
      that distance; -1 and the bound when every node is marked. */
  method NearestUnvisited(d: Matrix, go: array<bool>, now: nat) returns (val: int, idx: int)
    requires IsSquare(d) && BelowSentinel(d) && go.Length == |d| && now < |d|
    ensures -1 <= idx < |d|
    ensures idx == -1 <==> forall z :: 0 <= z < |d| ==> go[z]
    ensures idx >= 0 ==>
              !go[idx] && val == d[now][idx] &&
              forall z :: 0 <= z < |d| && !go[z] ==> d[now][idx] <= d[now][z] && (z < idx ==> d[now][idx] < d[now][z])
  {
    val, idx := Sentinel, -1;
    for j := 0 to |d|
      invariant -1 <= idx < j
      invariant idx == -1 ==> val == Sentinel
      invariant idx == -1 <==> forall z :: 0 <= z < j ==> go[z]
      invariant idx >= 0 ==>
                  !go[idx] && val == d[now][idx] &&
                  forall z :: 0 <= z < j && !go[z] ==> d[now][idx] <= d[now][z] && (z < idx ==> d[now][idx] < d[now][z])
    {
      if !go[j] {
        if val > d[now][j] {
          val := d[now][j];
          idx := j;
        }
      }
    }
  }

  /** `path[i+1:j+1] = path[i+1:j+1][::-1]`: the slice lo..hi is replaced by
      its reversed copy. */
  method ReverseSlice(path: array<nat>, lo: nat, hi: nat)
    requires lo <= hi < path.Length
    modifies path
    ensures path[..] == ReverseSegment(old(path[..]), lo, hi)
  {
    ghost var before := path[..];
    var piece := path[lo..hi + 1];
    forall k | lo <= k <= hi {
      path[k] := piece[hi - k];
    }
    forall k | 0 <= k < path.Length
      ensures path[k] == ReverseSegment(before, lo, hi)[k]
    {
      ReverseSegmentAt(before, lo, hi, k);
    }
  }

  /** `(lo, hi)` is the first pair, in the order `calc_opt` tries them (lo
      ascending, then hi ascending), whose reversal of p[lo..hi] strictly
      lowers the cost of p. */
  ghost predicate FirstImprovement(d: Matrix, p: seq<nat>, lo: nat, hi: nat)
  {
    1 <= lo < hi < |p| - 1 && NewEdges(d, p, lo, hi) < OldEdges(d, p, lo, hi) &&
    (forall lo', hi' :: 1 <= lo' < lo && lo' < hi' < |p| - 1 ==> NewEdges(d, p, lo', hi') >= OldEdges(d, p, lo', hi')) &&
    (forall hi' :: lo < hi' < hi ==> NewEdges(d, p, lo, hi') >= OldEdges(d, p, lo, hi'))
  }

  /** One pass of the `while improved` body of `calc_opt`: the pairs
      0 <= i, i+2 <= j <= n-2 are tried in order, and the first whose reversal
      of path[i+1..j] is strictly cheaper is applied, the pass then stopping
      (the search restarts). `pathLength` follows the change. */
  method ImproveOnce(d: Matrix, path: array<nat>, pathLength: int) returns (improved: bool, newLength: int)
    requires IsCostMatrix(d) && path.Length == |d| && InRange(path[..], |d|) && pathLength == PathCost(d, path[..])
    modifies path
    ensures SameEnds(old(path[..]), path[..])
    ensures InRange(path[..], |d|)
    ensures newLength == PathCost(d, path[..])
    ensures improved ==> 0 <= newLength < pathLength
    ensures improved ==> exists lo, hi :: FirstImprovement(d, old(path[..]), lo, hi) && path[..] == ReverseSegment(old(path[..]), lo, hi)
    ensures !improved ==> path[..] == old(path[..]) && newLength == pathLength && TwoOptLocalOptimum(d, path[..])
  {
    improved, newLength := false, pathLength;
    ghost var p := path[..];
    var n := |d|;
    var i := 0;
    while i < n - 2
      invariant 0 <= i && (n >= 2 ==> i <= n - 2)
      invariant path[..] == p && !improved && newLength == pathLength
      invariant forall lo, hi :: 1 <= lo <= i && lo < hi < n - 1 ==> NewEdges(d, p, lo, hi) >= OldEdges(d, p, lo, hi)
    {
      var j := i + 2;
      var lo := i + 1;
      while j < n - 1
        invariant i + 2 <= j <= n - 1
        invariant path[..] == p && !improved && newLength == pathLength
        invariant forall hi :: lo < hi < j ==> NewEdges(d, p, lo, hi) >= OldEdges(d, p, lo, hi)
      {
        var pI, pI1 := path[i], path[i + 1];
        var pJ, pJ1 := path[j], path[j + 1];
        var currentEdgeDist := d[pI][pI1] + d[pJ][pJ1];
        var newEdgeDist := d[pI][pJ] + d[pI1][pJ1];
        assert currentEdgeDist == OldEdges(d, p, lo, j) && newEdgeDist == NewEdges(d, p, lo, j);
        if newEdgeDist < currentEdgeDist {
          assert FirstImprovement(d, p, lo, j);
          ReversalStep(d, p, lo, j);
          TwoOptDelta(d, p, lo, j);
          ReverseSlice(path, lo, j);
          newLength := pathLength + newEdgeDist - currentEdgeDist;
          improved := true;
          break;
        }
        j := j + 1;
      }
      if improved {
        break;
      }
      i := i + 1;
    }
  }

  /** `calc_opt`: 2-opt on the greedy route until no pair improves it. The
      route keeps its nodes and both ends, `path_length` is its cost and never
      grows, and the result is a 2-opt local optimum. */
  method CalcOpt(d: Matrix, path: array<nat>) returns (pathLength: int)
    requires IsCostMatrix(d) && path.Length == |d| && InRange(path[..], |d|)
    modifies path
    ensures SameEnds(old(path[..]), path[..]) && InRange(path[..], |d|)
    ensures pathLength == PathCost(d, path[..]) <= PathCost(d, old(path[..]))
    ensures TwoOptLocalOptimum(d, path[..])
  {
    pathLength := PathCost(d, path[..]);
    PathCostNonNegative(d, path[..]);
    var improved := true;
    while improved
      invariant SameEnds(old(path[..]), path[..]) && InRange(path[..], |d|)
      invariant 0 <= pathLength == PathCost(d, path[..]) <= PathCost(d, old(path[..]))
      invariant !improved ==> TwoOptLocalOptimum(d, path[..])
      decreases pathLength + (if improved then 1 else 0)
    {
      improved, pathLength := ImproveOnce(d, path, pathLength);
    }
  }
}
