/** The route builder the three webapp copies share (webapp/state.js
    `runTspAlgorithm`, webapp/tsp.js `solveTsp`, webapp/app.js `runTsp`): a
    distance matrix over the nodes' booth codes, a nearest-neighbour tour from a
    start node, and repeated 2-opt passes that keep the first and the last node
    in place. Nodes are matrix indices. */
module JsRoute {
  import opened JsValues
  import opened SpaceCode
  import opened Utils
  import opened Tour

  /** The hall group `distinct_space` gives a code. */
  function HallOf(table: ZoneTable, space: string): string
  {
    DistinctSpace(table, space).hall
  }

  /** The seat number `parseFloat(num) || 0` reads from a code. */
  function SeatOf(table: ZoneTable, space: string): nat
  {
    NumberValue(DistinctSpace(table, space).number)
  }

  /** The entry the matrix loops compute for two distinct nodes:
      `calc_dist(ewsn1[0], label1, num1, ewsn2[0], label2, num2)` over the two
      codes' `distinct_space` parts. */
  function PairCost(table: ZoneTable, a: string, b: string): Eval<Num>
  {
    var s1, s2 := DistinctSpace(table, a), DistinctSpace(table, b);
    CalcDist(Index0(Str(s1.hall)).value, s1.slot, s1.number, Index0(Str(s2.hall)).value, s2.slot, s2.number)
  }

  /** A code whose hall group is found has a label character at position 1. */
  lemma HallNeedsLabel(table: ZoneTable, space: string)
    requires HallOf(table, space) != ""
    ensures |space| >= 2 && DistinctSpace(table, space).slot == Ch(space[1])
  {
    var k := FirstMatch(table, space[0], LabelAt(space));
    assert k >= 0;
    assert ZoneMatches(table[k], space[0], LabelAt(space));
  }

  /** The same entry in closed form: a TypeError as soon as one code's hall group
      is not found (`""[0]` is undefined and `undefined[0]` throws), 10000 between
      buildings, and otherwise 20 per label step plus the folded seat distance. */
  function Entry(table: ZoneTable, a: string, b: string): (r: Eval<int>)
    ensures r.Value? ==> r.value >= 0
  {
    var h1, h2 := HallOf(table, a), HallOf(table, b);
    if h1 == "" || h2 == "" then TypeError
    else
      HallNeedsLabel(table, a);
      HallNeedsLabel(table, b);
      if h1[0] != h2[0] then Value(10000)
      else Value(20 * Abs(a[1] as int - b[1] as int) + Abs(FoldSeat(SeatOf(table, a)) - FoldSeat(SeatOf(table, b))))
  }

  /** The closed form is what `calc_dist` computes; in particular no entry is NaN
      and the 1000 hall penalty never applies. */
  lemma EntryIsPairCost(table: ZoneTable, a: string, b: string)
    ensures Entry(table, a, b).TypeError? ==> PairCost(table, a, b) == TypeError
    ensures Entry(table, a, b).Value? ==> PairCost(table, a, b) == Value(Num(Entry(table, a, b).value))
  {
    var h1, h2 := HallOf(table, a), HallOf(table, b);
    if h1 != "" && h2 != "" {
      HallNeedsLabel(table, a);
      HallNeedsLabel(table, b);
      assert Index0(Str(h1)) == Value(Str([h1[0]]));
      assert Index0(Str(h2)) == Value(Str([h2[0]]));
      assert Index0(Str([h1[0]])) == Value(Str([h1[0]]));
      assert Index0(Str([h2[0]])) == Value(Str([h2[0]]));
      if h1[0] == h2[0] {
        assert Str([h1[0]]) == Str([h2[0]]);
      } else {
        assert [h1[0]] != [h2[0]] by {
          assert [h1[0]][0] != [h2[0]][0];
        }
      }
    }
  }

  lemma EntrySymmetric(table: ZoneTable, a: string, b: string)
    ensures Entry(table, a, b) == Entry(table, b, a)
  {
    var h1, h2 := HallOf(table, a), HallOf(table, b);
    if h1 != "" && h2 != "" {
      HallNeedsLabel(table, a);
      HallNeedsLabel(table, b);
      var f1, f2 := FoldSeat(SeatOf(table, a)), FoldSeat(SeatOf(table, b));
      assert Abs(f1 - f2) == Abs(f2 - f1);
      assert Abs(a[1] as int - b[1] as int) == Abs(b[1] as int - a[1] as int);
    }
  }

  /** The nested loops that fill an n-by-n matrix: 0 on the diagonal, `cost(i, j)`
      elsewhere, abandoned at the first entry that throws. */
  method Tabulate(n: nat, cost: (nat, nat) -> Eval<int>) returns (r: Eval<Matrix>)
    ensures r.TypeError? <==> exists i, j :: 0 <= i < n && 0 <= j < n && i != j && cost(i, j).TypeError?
    ensures r.Value? ==> |r.value| == n && IsSquare(r.value)
    ensures r.Value? ==> forall i, j :: 0 <= i < n && 0 <= j < n ==>
      r.value[i][j] == if i == j then 0 else cost(i, j).value
  {
    var rows: Matrix := [];
    var i := 0;
    while i < n
      invariant 0 <= i <= n && |rows| == i
      invariant forall a :: 0 <= a < i ==> |rows[a]| == n
      invariant forall a, b :: 0 <= a < i && 0 <= b < n ==> a != b ==> !cost(a, b).TypeError?
      invariant forall a, b :: 0 <= a < i && 0 <= b < n ==> rows[a][b] == if a == b then 0 else cost(a, b).value
    {
      var row: seq<int> := [];
      var j := 0;
      while j < n
        invariant 0 <= j <= n && |row| == j
        invariant forall b :: 0 <= b < j ==> i != b ==> !cost(i, b).TypeError?
        invariant forall b :: 0 <= b < j ==> row[b] == if i == b then 0 else cost(i, b).value
      {
        if i == j {
          row := row + [0];
        } else {
          var e := cost(i, j);
          if e.TypeError? {
            return TypeError;
          }
          row := row + [e.value];
        }
        j := j + 1;
      }
      rows := rows + [row];
      i := i + 1;
    }
    r := Value(rows);
  }

  /** The matrix entry between nodes i and j (0 off the node list). */
  function EntryAt(table: ZoneTable, spaces: seq<string>, i: nat, j: nat): Eval<int>
  {
    if i < |spaces| && j < |spaces| then Entry(table, spaces[i], spaces[j]) else Value(0)
  }

  /** A filled matrix of entries is a cost matrix, and every code has a hall group. */
  lemma MatrixOfEntries(table: ZoneTable, spaces: seq<string>, d: Matrix)
    requires |d| == |spaces| && IsSquare(d)
    requires forall i, j :: 0 <= i < |d| && 0 <= j < |d| && i != j ==> !EntryAt(table, spaces, i, j).TypeError?
    requires forall i, j :: 0 <= i < |d| && 0 <= j < |d| ==>
      d[i][j] == if i == j then 0 else EntryAt(table, spaces, i, j).value
    ensures IsCostMatrix(d)
    ensures forall i, j :: 0 <= i < |d| && 0 <= j < |d| && i != j ==> Entry(table, spaces[i], spaces[j]) == Value(d[i][j])
    ensures |spaces| >= 2 ==> forall k :: 0 <= k < |spaces| ==> HallOf(table, spaces[k]) != ""
  {
    var n := |spaces|;
    forall k | 0 <= k < n && n >= 2 ensures HallOf(table, spaces[k]) != "" {
      var j := if k == 0 then 1 else 0;
      assert !EntryAt(table, spaces, k, j).TypeError?;
    }
    forall i, j | 0 <= i < n && 0 <= j < n ensures d[i][j] == d[j][i] && d[i][j] >= 0 {
      EntrySymmetric(table, spaces[i], spaces[j]);
    }
  }

  /** The distance matrix over the nodes' codes. It throws exactly when there are
      at least two nodes and one of them has a code whose hall group is not found;
      otherwise it is a cost matrix holding the `Entry` values. */
  method BuildMatrix(table: ZoneTable, spaces: seq<string>) returns (r: Eval<Matrix>)
    ensures r.TypeError? <==> |spaces| >= 2 && exists k :: 0 <= k < |spaces| && HallOf(table, spaces[k]) == ""
    ensures r.Value? ==> |r.value| == |spaces| && IsCostMatrix(r.value)
    ensures r.Value? ==> forall i, j :: 0 <= i < |spaces| && 0 <= j < |spaces| && i != j ==>
      Entry(table, spaces[i], spaces[j]) == Value(r.value[i][j])
  {
    var cost := (i: nat, j: nat) => EntryAt(table, spaces, i, j);
    r := Tabulate(|spaces|, cost);
    if r.TypeError? {
      var i, j :| 0 <= i < |spaces| && 0 <= j < |spaces| && i != j && cost(i, j).TypeError?;
      assert HallOf(table, spaces[i]) == "" || HallOf(table, spaces[j]) == "";
    } else {
      var d := r.value;
      forall i, j | 0 <= i < |spaces| && 0 <= j < |spaces|
        ensures (i != j ==> !EntryAt(table, spaces, i, j).TypeError?)
        ensures d[i][j] == if i == j then 0 else EntryAt(table, spaces, i, j).value
      {
        assert cost(i, j) == EntryAt(table, spaces, i, j);
      }
      MatrixOfEntries(table, spaces, r.value);
    }
  }

  /** The scan of the remaining nodes from `c`: the earliest index (in node order)
      among the nodes not on `p` at the strictly smallest distance. */
  method NearestRemaining(d: Matrix, p: seq<nat>, c: nat) returns (next: int)
    requires IsSquare(d) && c < |d|
    ensures -1 <= next < |d|
    ensures next == -1 <==> forall z :: 0 <= z < |d| ==> z in p
    ensures next >= 0 ==> next !in p && forall z :: 0 <= z < |d| && z !in p ==>
      d[c][next] <= d[c][z] && (z < next ==> d[c][next] < d[c][z])
  {
    next := -1;
    var y := 0;
    while y < |d|
      invariant 0 <= y <= |d| && -1 <= next < y
      invariant next == -1 <==> forall z :: 0 <= z < y ==> z in p
      invariant next >= 0 ==> next !in p && forall z :: 0 <= z < y && z !in p ==>
        d[c][next] <= d[c][z] && (z < next ==> d[c][next] < d[c][z])
    {
      if y !in p && (next == -1 || d[c][y] < d[c][next]) {
        next := y;
      }
      y := y + 1;
    }
  }

  /** Appending a node leaves the earlier greedy steps as they were. */
  lemma GreedyStepExtend(d: Matrix, p: seq<nat>, x: nat, k: nat)
    requires IsSquare(d) && InRange(p, |d|) && x < |d| && k + 1 < |p|
    requires GreedyStep(d, p, k)
    ensures InRange(p + [x], |d|) && GreedyStep(d, p + [x], k)
  {
    var q := p + [x];
    assert q[..k + 1] == p[..k + 1];
    assert q[k] == p[k] && q[k + 1] == p[k + 1];
  }

  /** The nearest-neighbour loop: from `start`, repeatedly walk to the closest
      remaining node (the first one in node order on a tie) until none remains. */
  method NearestNeighbour(d: Matrix, start: nat) returns (p: seq<nat>)
    requires IsSquare(d) && start < |d|
    ensures IsNearestNeighbourTour(d, p, start)
  {
    p := [start];
    while |p| < |d|
      invariant 1 <= |p| <= |d| && p[0] == start && InRange(p, |d|) && Distinct(p)
      invariant forall k :: 0 <= k < |p| - 1 ==> GreedyStep(d, p, k)
      decreases |d| - |p|
    {
      var c := p[|p| - 1];
      var next := NearestRemaining(d, p, c);
      if next == -1 {
        CoveringDistinctIsPermutation(p, |d|);
        PermutationCounts(p, |d|);
        assert false;
      }
      var q := p + [next];
      forall k | 0 <= k < |q| - 1 ensures GreedyStep(d, q, k) {
        if k < |p| - 1 {
          GreedyStepExtend(d, p, next, k);
        } else {
          assert q[..k + 1] == p;
        }
      }
      assert Distinct(q) by {
        forall a, b | 0 <= a < b < |q| ensures q[a] != q[b] {
          if b == |p| {
            assert q[a] == p[a];
          }
        }
      }
      p := q;
    }
    forall x | 0 <= x < |d| ensures x in p {
      DistinctFullCovers(p, |d|, x);
    }
    CoveringDistinctIsPermutation(p, |d|);
  }

  /** The inner loop of one 2-opt pass for a fixed i: j runs over i+1..|p|-2 on
      the route as it is after the reversals made so far. */
  method ScanSegmentEnds(d: Matrix, p: seq<nat>, i: nat) returns (q: seq<nat>, changed: bool)
    requires IsCostMatrix(d) && InRange(p, |d|) && 1 <= i < |p| - 2
    ensures SameEnds(p, q) && InRange(q, |d|)
    ensures changed ==> 0 <= PathCost(d, q) < PathCost(d, p)
    ensures !changed ==> q == p && forall hi :: i < hi < |p| - 1 ==> NewEdges(d, p, i, hi) >= OldEdges(d, p, i, hi)
  {
    q, changed := p, false;
    var j := i + 1;
    while j < |p| - 1
      invariant i + 1 <= j <= |p| - 1
      invariant SameEnds(p, q) && InRange(q, |d|)
      invariant changed ==> 0 <= PathCost(d, q) < PathCost(d, p)
      invariant !changed ==> q == p && forall hi :: i < hi < j ==> NewEdges(d, p, i, hi) >= OldEdges(d, p, i, hi)
    {
      var d1 := d[q[i - 1]][q[i]] + d[q[j]][q[j + 1]];
      var d2 := d[q[i - 1]][q[j]] + d[q[i]][q[j + 1]];
      assert d1 == OldEdges(d, q, i, j) && d2 == NewEdges(d, q, i, j);
      if d2 < d1 {
        ReversalStep(d, q, i, j);
        q := ReverseSegment(q, i, j);
        changed := true;
      }
      j := j + 1;
    }
  }

  /** One pass of the 2-opt loop over every i in 1..|p|-3. A pass that reverses
      nothing has found a local optimum. */
  method TwoOptPass(d: Matrix, p: seq<nat>) returns (q: seq<nat>, changed: bool)
    requires IsCostMatrix(d) && InRange(p, |d|)
    ensures SameEnds(p, q) && InRange(q, |d|)
    ensures changed ==> 0 <= PathCost(d, q) < PathCost(d, p)
    ensures !changed ==> q == p && TwoOptLocalOptimum(d, p)
  {
    q, changed := p, false;
    var i := 1;
    while i < |p| - 2
      invariant 1 <= i && (|p| >= 3 ==> i <= |p| - 2)
      invariant SameEnds(p, q) && InRange(q, |d|)
      invariant changed ==> 0 <= PathCost(d, q) < PathCost(d, p)
      invariant !changed ==> q == p && forall lo, hi :: 1 <= lo < i && lo < hi < |p| - 1 ==>
        NewEdges(d, p, lo, hi) >= OldEdges(d, p, lo, hi)
    {
      var q', c := ScanSegmentEnds(d, q, i);
      if c {
        PathCostNonNegative(d, q);
      }
      q, changed := q', changed || c;
      i := i + 1;
    }
  }

  /** The 2-opt loop: passes over every pair 1 <= i < j <= |p|-2, reversing
      positions i..j whenever that is strictly cheaper and carrying on with the
      reversed route, until a whole pass reverses nothing. */
  method TwoOpt(d: Matrix, p0: seq<nat>) returns (p: seq<nat>)
    requires IsCostMatrix(d) && InRange(p0, |d|)
    ensures SameEnds(p0, p) && InRange(p, |d|)
    ensures PathCost(d, p) <= PathCost(d, p0)
    ensures TwoOptLocalOptimum(d, p)
  {
    p := p0;
    PathCostNonNegative(d, p);
    var improved := true;
    while improved
      invariant SameEnds(p0, p) && InRange(p, |d|)
      invariant 0 <= PathCost(d, p) <= PathCost(d, p0)
      invariant !improved ==> TwoOptLocalOptimum(d, p)
      decreases PathCost(d, p) + (if improved then 1 else 0)
    {
      var q, c := TwoOptPass(d, p);
      p, improved := q, c;
    }
  }
}
