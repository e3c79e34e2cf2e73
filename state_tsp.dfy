/** The priority-aware route of webapp/state.js (and of its copy inside
    webapp/app.js): the node marked `isStart` first, then a route through the
    high-priority targets, then one through the others starting where the first
    ended. Each route is `runTspAlgorithm`: the matrix, nearest-neighbour and 2-opt
    of JsRoute over [start] + targets, with the start dropped from the result. */
module StateTsp {
  import opened JsValues
  import opened SpaceCode
  import opened Booths
  import opened Ledger
  import opened Tour
  import opened JsRoute

  /** `{...undefined}`: the copy of a start node that `find` did not find has no
      code, which `distinct_space` reads like the empty code. */
  const NoNode: Booth := Booth("", NoPriority, false, "")

  function StartOf(start: Option<Booth>): Booth
  {
    if start.Some? then start.value else NoNode
  }

  /** `[startNode, ...nodes]`, the nodes of one route; the start has index 0. */
  function Working(start: Option<Booth>, nodes: seq<Booth>): seq<Booth>
  {
    [StartOf(start)] + nodes
  }

  function Spaces(nodes: seq<Booth>): (r: seq<string>)
    ensures |r| == |nodes| && forall k :: 0 <= k < |nodes| ==> r[k] == nodes[k].space
  {
    seq(|nodes|, k requires 0 <= k < |nodes| => nodes[k].space)
  }

  /** Every node's code has a hall group (no matrix entry throws). */
  predicate AllFound(table: ZoneTable, nodes: seq<Booth>)
  {
    forall b :: b in nodes ==> HallOf(table, b.space) != ""
  }

  lemma AllFoundConcat(table: ZoneTable, a: seq<Booth>, b: seq<Booth>)
    ensures AllFound(table, a + b) <==> AllFound(table, a) && AllFound(table, b)
  {
    assert forall x :: x in a + b <==> x in a || x in b;
  }

  /** What one route run computes over the working nodes w = [start] + nodes: `d`
      is their distance matrix, `nn` the nearest-neighbour tour from index 0,
      `route` the 2-opt result (same ends, no dearer, locally optimal), and the
      result lists the nodes in route order without the start. */
  ghost predicate IsRoute(table: ZoneTable, start: Option<Booth>, nodes: seq<Booth>, result: seq<Booth>,
                          d: Matrix, nn: seq<nat>, route: seq<nat>)
  {
    var w := Working(start, nodes);
    |d| == |w| && IsCostMatrix(d) &&
    (forall i, j :: 0 <= i < |d| && 0 <= j < |d| && i != j ==> Entry(table, Spaces(w)[i], Spaces(w)[j]) == Value(d[i][j])) &&
    IsNearestNeighbourTour(d, nn, 0) && SameEnds(nn, route) && InRange(route, |d|) &&
    PathCost(d, route) <= PathCost(d, nn) && TwoOptLocalOptimum(d, route) &&
    |route| > 0 && result == Apply(route[1..], w)
  }

  /** `result` is what `runTspAlgorithm(nodes, start)` returns: nothing for no
      nodes, otherwise the nodes in the order of some run that IsRoute describes. */
  ghost predicate IsRun(table: ZoneTable, start: Option<Booth>, nodes: seq<Booth>, result: seq<Booth>)
  {
    if nodes == [] then result == []
    else exists d, nn, route :: IsRoute(table, start, nodes, result, d, nn, route)
  }

  /** `runTspAlgorithm(nodes, startNode)`: the nodes in the order of a 2-opt
      improved nearest-neighbour route from the start, without the start. */
  method RunTspAlgorithm(table: ZoneTable, nodes: seq<Booth>, start: Option<Booth>) returns (r: Eval<seq<Booth>>)
    ensures nodes == [] ==> r == Value([])
    ensures r.TypeError? <==> nodes != [] && !AllFound(table, Working(start, nodes))
    ensures r.Value? ==> |r.value| == |nodes| && multiset(r.value) == multiset(nodes)
    ensures r.Value? ==> IsRun(table, start, nodes, r.value)
  {
    if nodes == [] {
      return Value([]);
    }
    var w := Working(start, nodes);
    var m := BuildMatrix(table, Spaces(w));
    if m.TypeError? {
      var k :| 0 <= k < |w| && HallOf(table, Spaces(w)[k]) == "";
      assert w[k] in w;
      return TypeError;
    }
    assert AllFound(table, w) by {
      forall b | b in w ensures HallOf(table, b.space) != "" {
        var k :| 0 <= k < |w| && w[k] == b;
        assert Spaces(w)[k] == b.space;
      }
    }
    var dist := m.value;
    var tour := NearestNeighbour(dist, 0);
    var path := TwoOpt(dist, tour);
    RouteParts(table, start, nodes, dist, tour, path);
    r := Value(Apply(path[1..], w));
    assert IsRoute(table, start, nodes, r.value, dist, tour, path);
  }

  /** The three stages of one run put together. */
  lemma RouteParts(table: ZoneTable, start: Option<Booth>, nodes: seq<Booth>, d: Matrix, nn: seq<nat>, route: seq<nat>)
    requires nodes != []
    requires |d| == |Working(start, nodes)| && IsCostMatrix(d)
    requires forall i, j :: 0 <= i < |d| && 0 <= j < |d| && i != j ==>
      Entry(table, Spaces(Working(start, nodes))[i], Spaces(Working(start, nodes))[j]) == Value(d[i][j])
    requires IsNearestNeighbourTour(d, nn, 0)
    requires SameEnds(nn, route) && InRange(route, |d|) && PathCost(d, route) <= PathCost(d, nn) && TwoOptLocalOptimum(d, route)
    ensures InRange(route[1..], |Working(start, nodes)|)
    ensures |Apply(route[1..], Working(start, nodes))| == |nodes|
    ensures multiset(Apply(route[1..], Working(start, nodes))) == multiset(nodes)
    ensures IsRoute(table, start, nodes, Apply(route[1..], Working(start, nodes)), d, nn, route)
  {
    var w := Working(start, nodes);
    assert IsPermutation(route, |w|);
    ApplyDropFirst(route, w);
    assert w[1..] == nodes;
  }

  /** `nodes.find(n => n.isStart)`. */
  function FindStart(nodes: seq<Booth>): (r: Option<Booth>)
    ensures r.None? <==> forall k :: 0 <= k < |nodes| ==> !nodes[k].isStart
    ensures r.Some? ==> exists k :: 0 <= k < |nodes| && nodes[k] == r.value && nodes[k].isStart &&
                                    forall j :: 0 <= j < k ==> !nodes[j].isStart
  {
    if nodes == [] then None
    else if nodes[0].isStart then Some(nodes[0])
    else
      var r := FindStart(nodes[1..]);
      if r.Some? then
        var k :| 0 <= k < |nodes| - 1 && nodes[1..][k] == r.value && nodes[1..][k].isStart &&
                 forall j :: 0 <= j < k ==> !nodes[1..][j].isStart;
        assert nodes[k + 1] == r.value && forall j :: 0 <= j < k + 1 ==> !nodes[j].isStart;
        r
      else r
  }

  predicate IsTarget(b: Booth)
  {
    !b.isStart
  }

  predicate IsHighBooth(b: Booth)
  {
    IsHighPriority(b.priority)
  }

  predicate IsNormalBooth(b: Booth)
  {
    !IsHighPriority(b.priority)
  }

  function Targets(nodes: seq<Booth>): seq<Booth>
  {
    Filter(nodes, IsTarget)
  }

  function HighGroup(nodes: seq<Booth>): seq<Booth>
  {
    Filter(Targets(nodes), IsHighBooth)
  }

  function NormalGroup(nodes: seq<Booth>): seq<Booth>
  {
    Filter(Targets(nodes), IsNormalBooth)
  }

  /** The groups split the targets: together they hold every target once. */
  lemma GroupsPartition(nodes: seq<Booth>)
    ensures multiset(HighGroup(nodes)) + multiset(NormalGroup(nodes)) == multiset(Targets(nodes))
    ensures forall b :: b in HighGroup(nodes) ==> IsHighBooth(b)
    ensures forall b :: b in NormalGroup(nodes) ==> !IsHighBooth(b)
  {
    var t := Targets(nodes);
    forall b ensures (multiset(HighGroup(nodes)) + multiset(NormalGroup(nodes)))[b] == multiset(t)[b] {
      FilterCount(t, IsHighBooth, b);
      FilterCount(t, IsNormalBooth, b);
    }
  }

  /** The call throws exactly when there are at least two nodes, at least one
      target, and the start or some target has a code whose hall group is not found. */
  predicate SolveThrows(table: ZoneTable, nodes: seq<Booth>)
  {
    |nodes| >= 2 && Targets(nodes) != [] && !AllFound(table, [StartOf(FindStart(nodes))] + Targets(nodes))
  }

  /** Without a node marked as the start, every call on two or more nodes throws. */
  lemma NoStartThrows(table: ZoneTable, nodes: seq<Booth>)
    requires |nodes| >= 2 && FindStart(nodes).None?
    ensures SolveThrows(table, nodes)
  {
    FilterAll(nodes, IsTarget);
    assert HallOf(table, NoNode.space) == "";
    assert NoNode in [StartOf(FindStart(nodes))] + Targets(nodes);
  }

  /** A route whose positions 1..h pass `isHigh` and the rest do not. */
  predicate HighFirst(route: seq<Booth>, h: nat, isHigh: Booth -> bool)
  {
    forall k :: 1 <= k < |route| ==> (isHigh(route[k]) <==> k <= h)
  }

  lemma AllHighOrNormal(s: Booth, rest: seq<Booth>, h: nat, isHigh: Booth -> bool)
    requires h == |rest| ==> forall b :: b in rest ==> isHigh(b)
    requires h == 0 ==> forall b :: b in rest ==> !isHigh(b)
    requires h == 0 || h == |rest|
    ensures HighFirst([s] + rest, h, isHigh)
  {
    var r := [s] + rest;
    forall k | 1 <= k < |r| ensures isHigh(r[k]) <==> k <= h {
      assert r[k] == rest[k - 1] && rest[k - 1] in rest;
    }
  }

  lemma SplitHighFirst(s: Booth, hp: seq<Booth>, np: seq<Booth>, isHigh: Booth -> bool)
    requires forall b :: b in hp ==> isHigh(b)
    requires forall b :: b in np ==> !isHigh(b)
    ensures HighFirst([s] + hp + np, |hp|, isHigh)
  {
    var r := [s] + hp + np;
    forall k | 1 <= k < |r| ensures isHigh(r[k]) <==> k <= |hp| {
      if k <= |hp| {
        assert r[k] == hp[k - 1] && hp[k - 1] in hp;
      } else {
        assert r[k] == np[k - 1 - |hp|] && np[k - 1 - |hp|] in np;
      }
    }
  }

  lemma SameElements(a: seq<Booth>, b: seq<Booth>)
    requires multiset(a) == multiset(b)
    ensures forall x :: x in a <==> x in b
  {
    assert forall x :: x in a <==> x in multiset(a);
    assert forall x :: x in b <==> x in multiset(b);
  }

  /** The routes `solveTsp` joins: with one group empty, one run over all targets
      from the start; otherwise a run over the high group from the start and a run
      over the normal group from the last high-priority node, p[|high|]. */
  ghost predicate IsPriorityRoute(table: ZoneTable, nodes: seq<Booth>, p: seq<Booth>)
  {
    var start, high, normal := FindStart(nodes), HighGroup(nodes), NormalGroup(nodes);
    |high| < |p| &&
    if high == [] || normal == [] then IsRun(table, start, Targets(nodes), p[1..])
    else IsRun(table, start, high, p[1..1 + |high|]) && IsRun(table, Some(p[|high|]), normal, p[1 + |high|..])
  }

  /** What `solveTsp(nodes)` returns on two or more nodes when nothing throws:
      the start, then every target once, the high-priority ones first, in the
      order of the runs IsPriorityRoute names. */
  ghost predicate IsSolved(table: ZoneTable, nodes: seq<Booth>, p: seq<Booth>)
  {
    |p| == 1 + |Targets(nodes)| && p[0] == StartOf(FindStart(nodes)) &&
    multiset(p[1..]) == multiset(Targets(nodes)) &&
    HighFirst(p, |HighGroup(nodes)|, IsHighBooth) && IsPriorityRoute(table, nodes, p)
  }

  /** `solveTsp(nodes)`: fewer than two nodes come back unchanged; otherwise a
      throw exactly as SolveThrows says, else the route IsSolved describes. */
  method SolveTsp(table: ZoneTable, nodes: seq<Booth>) returns (r: Eval<seq<Booth>>)
    ensures |nodes| < 2 ==> r == Value(nodes)
    ensures |nodes| >= 2 ==> (r.TypeError? <==> SolveThrows(table, nodes))
    ensures r.Value? && |nodes| >= 2 ==> IsSolved(table, nodes, r.value)
  {
    if |nodes| < 2 {
      return Value(nodes);
    }
    var start := FindStart(nodes);
    var targets := Targets(nodes);
    var high, normal := HighGroup(nodes), NormalGroup(nodes);
    GroupsPartition(nodes);
    if high == [] || normal == [] {
      if high == [] {
        assert multiset(targets) == multiset(normal);
        SameElements(targets, normal);
        r := OneGroup(table, start, targets, 0, IsHighBooth);
      } else {
        assert multiset(targets) == multiset(high);
        SameElements(targets, high);
        r := OneGroup(table, start, targets, |high|, IsHighBooth);
      }
    } else {
      SplitThrows(table, StartOf(start), high, normal, targets);
      r := TwoGroups(table, start, high, normal, IsHighBooth);
      assert multiset(targets) == multiset(high) + multiset(normal);
      assert |targets| == |multiset(targets)|;
    }
  }

  /** `[startNode, ...runTspAlgorithm(targetNodes, startNode)]`, when all targets
      fall in one priority group (h is 0 for the normal group, |targets| for the high). */
  method OneGroup(table: ZoneTable, start: Option<Booth>, targets: seq<Booth>, h: nat, isHigh: Booth -> bool)
    returns (r: Eval<seq<Booth>>)
    requires (h == 0 && forall b :: b in targets ==> !isHigh(b)) ||
             (h == |targets| && forall b :: b in targets ==> isHigh(b))
    ensures r.TypeError? <==> targets != [] && !AllFound(table, [StartOf(start)] + targets)
    ensures r.Value? ==> (|r.value| == 1 + |targets| && r.value[0] == StartOf(start) &&
                          multiset(r.value[1..]) == multiset(targets) && HighFirst(r.value, h, isHigh))
    ensures r.Value? ==> IsRun(table, start, targets, r.value[1..])
  {
    var path := RunTspAlgorithm(table, targets, start);
    if path.TypeError? {
      return TypeError;
    }
    r := Value([StartOf(start)] + path.value);
    assert r.value[1..] == path.value;
    SameElements(path.value, targets);
    AllHighOrNormal(StartOf(start), path.value, h, isHigh);
  }

  /** The split case: the high group from the start, then the normal group from
      the last high-priority node (`highPath[highPath.length - 1]`, never empty). */
  method TwoGroups(table: ZoneTable, start: Option<Booth>, high: seq<Booth>, normal: seq<Booth>, isHigh: Booth -> bool)
    returns (r: Eval<seq<Booth>>)
    requires high != [] && normal != []
    requires forall b :: b in high ==> isHigh(b)
    requires forall b :: b in normal ==> !isHigh(b)
    ensures r.TypeError? <==> !AllFound(table, Working(start, high)) || !AllFound(table, normal)
    ensures r.Value? ==> IsSplit(table, start, high, normal, r.value, isHigh)
  {
    var hp := RunTspAlgorithm(table, high, start);
    if hp.TypeError? {
      return TypeError;
    }
    RunFound(table, start, high, hp.value, isHigh);
    r := ThenNormal(table, StartOf(start), hp.value, normal, isHigh);
    if r.Value? {
      SplitJoined(table, start, high, normal, hp.value, r.value, isHigh);
    }
  }

  /** A run holds the nodes it was given: they were all found when its
      working nodes were, and they keep their priority. */
  lemma RunFound(table: ZoneTable, start: Option<Booth>, nodes: seq<Booth>, run: seq<Booth>, isHigh: Booth -> bool)
    requires AllFound(table, Working(start, nodes)) && multiset(run) == multiset(nodes)
    requires forall b :: b in nodes ==> isHigh(b)
    ensures AllFound(table, run) && forall b :: b in run ==> isHigh(b)
  {
    SameElements(run, nodes);
    AllFoundConcat(table, [StartOf(start)], nodes);
  }

  /** The split case's result: the start, every target once with the high
      group first, the high group in the order of a run from the start and the
      normal group in the order of a run from the last high node. */
  ghost predicate IsSplit(table: ZoneTable, start: Option<Booth>, high: seq<Booth>, normal: seq<Booth>, rv: seq<Booth>,
                          isHigh: Booth -> bool)
  {
    |rv| == 1 + |high| + |normal| && rv[0] == StartOf(start) &&
    multiset(rv[1..]) == multiset(high) + multiset(normal) && HighFirst(rv, |high|, isHigh) &&
    IsRun(table, start, high, rv[1..1 + |high|]) && IsRun(table, Some(rv[|high|]), normal, rv[1 + |high|..])
  }

  /** The joined route of the split case meets IsSplit. */
  lemma SplitJoined(table: ZoneTable, start: Option<Booth>, high: seq<Booth>, normal: seq<Booth>, hp: seq<Booth>,
                    rv: seq<Booth>, isHigh: Booth -> bool)
    requires |hp| == |high| && multiset(hp) == multiset(high) && IsRun(table, start, high, hp)
    requires |rv| == 1 + |hp| + |normal| && rv[..1 + |hp|] == [StartOf(start)] + hp
    requires multiset(rv[1 + |hp|..]) == multiset(normal) && HighFirst(rv, |hp|, isHigh)
    requires IsRun(table, Some(rv[|hp|]), normal, rv[1 + |hp|..])
    ensures IsSplit(table, start, high, normal, rv, isHigh)
  {
    JoinedShape(StartOf(start), hp, high, normal, rv, isHigh);
    JoinedRuns(table, start, high, hp, rv);
  }

  /** The high run of the split case, read off the joined route. */
  lemma JoinedRuns(table: ZoneTable, start: Option<Booth>, high: seq<Booth>, hp: seq<Booth>, rv: seq<Booth>)
    requires |hp| == |high| && IsRun(table, start, high, hp)
    requires |rv| >= 1 + |hp| && rv[..1 + |hp|] == [StartOf(start)] + hp
    ensures IsRun(table, start, high, rv[1..1 + |high|])
  {
    assert rv[1..1 + |high|] == hp by {
      assert rv[1..1 + |high|] == rv[..1 + |hp|][1..];
    }
  }

  /** The joined route of the split case: the start, the high path, the normal path. */
  lemma JoinedShape(s: Booth, hp: seq<Booth>, high: seq<Booth>, normal: seq<Booth>, rv: seq<Booth>, isHigh: Booth -> bool)
    requires |hp| == |high| && multiset(hp) == multiset(high)
    requires |rv| == 1 + |hp| + |normal| && rv[..1 + |hp|] == [s] + hp
    requires multiset(rv[1 + |hp|..]) == multiset(normal) && HighFirst(rv, |hp|, isHigh)
    ensures |rv| == 1 + |high| + |normal| && rv[0] == s
    ensures multiset(rv[1..]) == multiset(high) + multiset(normal) && HighFirst(rv, |high|, isHigh)
  {
    var h := |hp|;
    assert rv[0] == ([s] + hp)[0];
    assert rv[1..] == rv[1..1 + h] + rv[1 + h..];
    assert rv[1..1 + h] == (rv[..1 + h])[1..] == hp;
  }

  /** The second run of the split case, from the last node of the high path. */
  method ThenNormal(table: ZoneTable, s: Booth, hp: seq<Booth>, normal: seq<Booth>, isHigh: Booth -> bool)
    returns (r: Eval<seq<Booth>>)
    requires hp != [] && AllFound(table, hp)
    requires forall b :: b in hp ==> isHigh(b)
    requires forall b :: b in normal ==> !isHigh(b)
    ensures r.TypeError? <==> normal != [] && !AllFound(table, normal)
    ensures r.Value? ==> (|r.value| == 1 + |hp| + |normal| && r.value[..1 + |hp|] == [s] + hp &&
                          multiset(r.value[1 + |hp|..]) == multiset(normal) && HighFirst(r.value, |hp|, isHigh))
    ensures r.Value? ==> IsRun(table, Some(r.value[|hp|]), normal, r.value[1 + |hp|..])
  {
    var last := hp[|hp| - 1];
    NextStartFound(table, hp, last, normal);
    var np := RunTspAlgorithm(table, normal, Some(last));
    if np.TypeError? {
      return TypeError;
    }
    r := Value([s] + hp + np.value);
    NormalJoined(table, s, hp, normal, np.value, isHigh);
  }

  /** The route of ThenNormal: the start, the high path, then the normal run
      from the last node of the high path. */
  lemma NormalJoined(table: ZoneTable, s: Booth, hp: seq<Booth>, normal: seq<Booth>, np: seq<Booth>, isHigh: Booth -> bool)
    requires hp != []
    requires forall b :: b in hp ==> isHigh(b)
    requires forall b :: b in normal ==> !isHigh(b)
    requires |np| == |normal| && multiset(np) == multiset(normal)
    requires IsRun(table, Some(hp[|hp| - 1]), normal, np)
    ensures var rv := [s] + hp + np;
      |rv| == 1 + |hp| + |normal| && rv[..1 + |hp|] == [s] + hp &&
      multiset(rv[1 + |hp|..]) == multiset(normal) && HighFirst(rv, |hp|, isHigh)
    ensures var rv := [s] + hp + np; IsRun(table, Some(rv[|hp|]), normal, rv[1 + |hp|..])
  {
    SameElements(np, normal);
    var rv := [s] + hp + np;
    assert rv[..1 + |hp|] == [s] + hp && rv[1 + |hp|..] == np;
    assert rv[|hp|] == hp[|hp| - 1];
    SplitHighFirst(s, hp, np, isHigh);
  }

  /** The second run starts from a node of the first, whose code was found. */
  lemma NextStartFound(table: ZoneTable, hp: seq<Booth>, last: Booth, normal: seq<Booth>)
    requires AllFound(table, hp) && last in hp
    ensures AllFound(table, Working(Some(last), normal)) <==> AllFound(table, normal)
  {
    AllFoundConcat(table, [last], normal);
  }

  /** In the split case the start and the targets are checked group by group. */
  lemma SplitThrows(table: ZoneTable, s: Booth, high: seq<Booth>, normal: seq<Booth>, targets: seq<Booth>)
    requires multiset(high) + multiset(normal) == multiset(targets)
    ensures AllFound(table, [s] + targets) <==> AllFound(table, [s] + high) && AllFound(table, normal)
  {
    assert forall x :: x in targets <==> x in high || x in normal by {
      assert forall x :: x in targets <==> x in multiset(targets);
    }
  }
}
