/** webapp/tsp.js `solveTsp`: the single-route variant. The matrix is built over
    all nodes (the seat strings converted with `parseFloat(num) || 0` before
    `calc_dist` converts them again), the nearest-neighbour walk starts at the
    first node marked `isStart` (the first node when none is), and the whole
    route, start included, is returned. */
module TspJs {
  import opened JsValues
  import opened SpaceCode
  import opened Utils
  import opened Booths
  import opened Tour
  import opened JsRoute
  import StateTsp

  /** The matrix entry as tsp.js computes it: the seats are numbers already when
      they reach `calc_dist`, written here as their decimal digits. */
  function ConvertedPairCost(table: ZoneTable, a: string, b: string): Eval<Num>
  {
    var s1, s2 := DistinctSpace(table, a), DistinctSpace(table, b);
    CalcDist(Index0(Str(s1.hall)).value, s1.slot, Digits(SeatOf(table, a)),
             Index0(Str(s2.hall)).value, s2.slot, Digits(SeatOf(table, b)))
  }

  /** Converting the seats first changes no entry: `parseFloat` of a whole number
      gives it back. So tsp.js fills the same matrix as state.js over the same codes. */
  lemma ConvertedPairCostSame(table: ZoneTable, a: string, b: string)
    ensures ConvertedPairCost(table, a, b) == PairCost(table, a, b)
  {
    var s1, s2 := DistinctSpace(table, a), DistinctSpace(table, b);
    DigitsRoundTrip(SeatOf(table, a));
    DigitsRoundTrip(SeatOf(table, b));
    CalcDistByValue(Index0(Str(s1.hall)).value, s1.slot, Digits(SeatOf(table, a)), s1.number,
                    Index0(Str(s2.hall)).value, s2.slot, Digits(SeatOf(table, b)), s2.number);
  }

  /** `find(n => n.isStart)` as an index: the first node marked as the start, -1
      when there is none. */
  function FirstStart(nodes: seq<Booth>): (k: int)
    ensures -1 <= k < |nodes|
    ensures k == -1 <==> forall j :: 0 <= j < |nodes| ==> !nodes[j].isStart
    ensures k >= 0 ==> nodes[k].isStart && forall j :: 0 <= j < k ==> !nodes[j].isStart
  {
    if nodes == [] then -1
    else if nodes[0].isStart then 0
    else
      var k := FirstStart(nodes[1..]);
      if k < 0 then -1 else k + 1
  }

  /** `find(...) || shift()`: the first start node, otherwise the first node. */
  function StartIndex(nodes: seq<Booth>): (k: nat)
    ensures nodes != [] ==> k < |nodes|
  {
    var k := FirstStart(nodes);
    if k < 0 then 0 else k
  }

  /** What the route computes: the matrix over all codes, the nearest-neighbour
      tour from the start index, its 2-opt improvement (same ends, no dearer,
      locally optimal), and the nodes in that order. */
  ghost predicate IsSolved(table: ZoneTable, nodes: seq<Booth>, result: seq<Booth>, d: Matrix, nn: seq<nat>, route: seq<nat>)
  {
    var spaces := StateTsp.Spaces(nodes);
    |d| == |nodes| && IsCostMatrix(d) &&
    (forall i, j :: 0 <= i < |d| && 0 <= j < |d| && i != j ==> Entry(table, spaces[i], spaces[j]) == Value(d[i][j])) &&
    IsNearestNeighbourTour(d, nn, StartIndex(nodes)) && SameEnds(nn, route) && InRange(route, |d|) &&
    PathCost(d, route) <= PathCost(d, nn) && TwoOptLocalOptimum(d, route) &&
    result == Apply(route, nodes)
  }

  method SolveTsp(table: ZoneTable, nodes: seq<Booth>) returns (r: Eval<seq<Booth>>)
    ensures |nodes| < 2 ==> r == Value(nodes)
    ensures r.TypeError? <==> |nodes| >= 2 && !StateTsp.AllFound(table, nodes)
    ensures r.Value? ==> |r.value| == |nodes| && multiset(r.value) == multiset(nodes)
    ensures r.Value? && |nodes| >= 2 ==>
      r.value[0] == nodes[StartIndex(nodes)] && exists d, nn, route :: IsSolved(table, nodes, r.value, d, nn, route)
  {
    if |nodes| < 2 {
      return Value(nodes);
    }
    var spaces := StateTsp.Spaces(nodes);
    var m := BuildMatrix(table, spaces);
    if m.TypeError? {
      var k :| 0 <= k < |nodes| && HallOf(table, spaces[k]) == "";
      assert nodes[k] in nodes;
      return TypeError;
    }
    assert StateTsp.AllFound(table, nodes) by {
      forall b | b in nodes ensures HallOf(table, b.space) != "" {
        var k :| 0 <= k < |nodes| && nodes[k] == b;
        assert spaces[k] == b.space;
      }
    }
    var dist := m.value;
    var start := StartIndex(nodes);
    var tour := NearestNeighbour(dist, start);
    var path := TwoOpt(dist, tour);
    SolvedParts(table, nodes, dist, tour, path);
    r := Value(Apply(path, nodes));
    assert IsSolved(table, nodes, r.value, dist, tour, path);
  }

  lemma SolvedParts(table: ZoneTable, nodes: seq<Booth>, d: Matrix, nn: seq<nat>, route: seq<nat>)
    requires |nodes| >= 2 && |d| == |nodes| && IsCostMatrix(d)
    requires IsNearestNeighbourTour(d, nn, StartIndex(nodes))
    requires SameEnds(nn, route) && InRange(route, |d|)
    ensures |Apply(route, nodes)| == |nodes| && multiset(Apply(route, nodes)) == multiset(nodes)
    ensures Apply(route, nodes)[0] == nodes[StartIndex(nodes)]
  {
    PermutationCounts(nn, |d|);
    assert IsPermutation(route, |nodes|);
    ApplyPermutation(route, nodes);
    ApplyAt(route, nodes, 0);
  }
}
