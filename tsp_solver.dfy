/** The route solver of the modular web app (webapp/js/tsp-solver.js): a booth-code
    parser over a zone table, a pairwise walking cost, and a nearest-neighbour route
    from the current location through every candidate booth.

    As written, the parser reads its zone table from `Config.LABEL_OPTIONS`, which
    the configuration module does not define; `ParseSpaceAsWritten` models that, and
    the rest of this module takes the table as a parameter (the area list of the
    configuration, `Zones.AreasTable`, is the evident intent). */
module TspSolver {
  import opened JsValues
  import opened SpaceCode
  import opened Tour

  /** A parsed code: hall group ("" when no zone matches), label slot, seat number. */
  datatype Parsed = Parsed(hall: string, slot: Label, seat: nat)

  /** `Config.LABEL_OPTIONS` as the configuration module defines it: absent. */
  const ConfigLabelOptions: Option<ZoneTable> := None

  /** `parseSpace` over a zone table. */
  function ParseSpace(table: ZoneTable, space: string): (r: Parsed)
    ensures space == "" ==> r == Parsed("", EmptyLabel, 0)
    ensures space != "" ==> r.slot == LabelAt(space)
  {
    if space == "" then Parsed("", EmptyLabel, 0)
    else
      var slot := LabelAt(space);
      var digits := LeadingDigits(ToHalfWidth(Remainder(space)));
      Parsed(HallGroup(table, space[0], slot), slot, DigitsValue(digits))
  }

  /** What `parseSpace` extracts from a non-empty code: the hall group is the name of
      the first zone that matches the hall and label characters ("" when none does),
      and the seat is the value of the longest digit run after the label, read
      after the half-width shift. */
  lemma ParseSpaceMeaning(table: ZoneTable, space: string)
    requires space != ""
    ensures var r := ParseSpace(table, space);
      (r.hall == "" <==> forall k :: 0 <= k < |table| ==> !ZoneMatches(table[k], space[0], r.slot)) &&
      (r.hall != "" ==>
        exists k :: 0 <= k < |table| && r.hall == table[k].0 && ZoneMatches(table[k], space[0], r.slot) &&
          forall j :: 0 <= j < k ==> !ZoneMatches(table[j], space[0], r.slot)) &&
      exists ds :: MaximalDigitPrefix(ToHalfWidth(Remainder(space)), ds) && r.seat == DigitsValue(ds)
  {
    var r := ParseSpace(table, space);
    var k := FirstMatch(table, space[0], r.slot);
    if k >= 0 {
      assert table[k].0 != "" by {
        assert ZoneMatches(table[k], space[0], r.slot);
      }
    }
    var ds := LeadingDigits(ToHalfWidth(Remainder(space)));
    assert MaximalDigitPrefix(ToHalfWidth(Remainder(space)), ds);
  }

  /** `parseSpace` as written: every non-empty code reaches `Object.entries` of the
      table, which throws a TypeError when the table is absent. */
  function ParseSpaceAsWritten(options: Option<ZoneTable>, space: string): (r: Eval<Parsed>)
    ensures space == "" ==> r == Value(Parsed("", EmptyLabel, 0))
    ensures space != "" && options.None? ==> r == TypeError
    ensures options.Some? ==> r == Value(ParseSpace(options.value, space))
  {
    if space == "" then Value(Parsed("", EmptyLabel, 0))
    else if options.None? then TypeError
    else Value(ParseSpace(options.value, space))
  }

  /** With the configuration as shipped, parsing any real booth code throws. */
  lemma LabelOptionsMissing(space: string)
    requires space != ""
    ensures ParseSpaceAsWritten(ConfigLabelOptions, space) == TypeError
    ensures ParseSpaceAsWritten(ConfigLabelOptions, "東ア01") == TypeError
  {
  }

  /** The parser reads back a well-formed code: hall character, label, a seat written
      with optional leading zeros, then a non-digit ASCII suffix such as "a". */
  lemma {:induction false} ParseSpaceRoundTrip(table: ZoneTable, k: nat, h: char, c: char, z: nat, n: nat, suffix: string)
    requires k < |table| && ZoneMatches(table[k], h, Ch(c))
    requires forall j :: 0 <= j < k ==> !ZoneMatches(table[j], h, Ch(c))
    requires forall i :: 0 <= i < |suffix| ==> suffix[i] < FullWidthFirst
    requires suffix == [] || !IsAsciiDigit(suffix[0])
    ensures ParseSpace(table, [h, c] + Zeros(z) + Digits(n) + suffix) == Parsed(table[k].0, Ch(c), n)
  {
    var ds := Zeros(z) + Digits(n);
    var code := [h, c] + ds + suffix;
    assert code == [h, c] + Zeros(z) + Digits(n) + suffix;
    assert code[0] == h && code[1] == c;
    assert Remainder(code) == ds + suffix by {
      assert code[2..] == ds + suffix;
    }
    assert ToHalfWidth(ds + suffix) == ds + suffix by {
      AllAsciiBelowFullWidth(ds, suffix);
      ToHalfWidthKeepsAscii(ds + suffix);
    }
    assert DigitsValue(LeadingDigits(ds + suffix)) == n by {
      LeadingZeroValue(z, Digits(n));
      LeadingDigitsOfRun(ds, suffix);
      DigitsRoundTrip(n);
    }
    assert HallGroup(table, h, Ch(c)) == table[k].0 by {
      FirstMatchIs(table, k, h, Ch(c));
    }
    assert LabelAt(code) == Ch(c);
    assert ParseSpace(table, code) ==
      Parsed(HallGroup(table, h, Ch(c)), Ch(c), DigitsValue(LeadingDigits(ToHalfWidth(Remainder(code)))));
  }

  lemma AllAsciiBelowFullWidth(ds: string, suffix: string)
    requires AllDigits(ds)
    requires forall i :: 0 <= i < |suffix| ==> suffix[i] < FullWidthFirst
    ensures forall i :: 0 <= i < |ds + suffix| ==> (ds + suffix)[i] < FullWidthFirst
  {
  }

  lemma {:induction false} FirstMatchIs(table: ZoneTable, k: nat, h: char, l: Label)
    requires k < |table| && ZoneMatches(table[k], h, l)
    requires forall j :: 0 <= j < k ==> !ZoneMatches(table[j], h, l)
    ensures FirstMatch(table, h, l) == k
  {
    if k > 0 {
      FirstMatchIs(table[1..], k - 1, h, l);
    }
  }

  /** `calcDist` on parsed codes: the cross-hall sentinel 10000, otherwise ten times
      the label-code distance plus the distance of the folded seats. */
  function CostOf(a: Parsed, b: Parsed): (r: Eval<Num>)
    ensures a.hall != b.hall ==> r == Value(Num(10000))
    ensures a.hall == b.hall ==> (r.TypeError? <==> a.slot.Undefined? || b.slot.Undefined?)
    ensures a.hall == b.hall && a.slot.Ch? && b.slot.Ch? ==>
      r == Value(Num(10 * Abs(a.slot.c as int - b.slot.c as int) + Abs(FoldSeat(a.seat) - FoldSeat(b.seat))))
    ensures (a.hall == b.hall && !a.slot.Undefined? && !b.slot.Undefined? &&
             (a.slot.EmptyLabel? || b.slot.EmptyLabel?)) ==> r == Value(NaN)
  {
    if a.hall != b.hall then Value(Num(10000))
    else
      var n1, n2 := FoldSeat(a.seat), FoldSeat(b.seat);
      var c1, c2 := CharCode(a.slot), CharCode(b.slot);
      if c1.TypeError? || c2.TypeError? then TypeError
      else Value(Weighted(AbsDiff(c1.value, c2.value), 10, Num(Abs(n1 - n2)), 0))
  }

  /** `calcDist(spaceA, spaceB)`. */
  function CalcDist(table: ZoneTable, a: string, b: string): (r: Eval<Num>)
    ensures ParseSpace(table, a).hall != ParseSpace(table, b).hall ==> r == Value(Num(10000))
    ensures |a| >= 2 && |b| >= 2 && ParseSpace(table, a).hall == ParseSpace(table, b).hall ==>
      r == Value(Num(10 * Abs(a[1] as int - b[1] as int)
                     + Abs(FoldSeat(ParseSpace(table, a).seat) - FoldSeat(ParseSpace(table, b).seat))))
  {
    CostOf(ParseSpace(table, a), ParseSpace(table, b))
  }

  /** The cost does not depend on the direction of travel. */
  lemma CalcDistSymmetric(table: ZoneTable, a: string, b: string)
    ensures CalcDist(table, a, b) == CalcDist(table, b, a)
  {
    var pa, pb := ParseSpace(table, a), ParseSpace(table, b);
    if pa.hall == pb.hall && pa.slot.Ch? && pb.slot.Ch? {
      assert Abs(pa.slot.c as int - pb.slot.c as int) == Abs(pb.slot.c as int - pa.slot.c as int);
      assert Abs(FoldSeat(pa.seat) - FoldSeat(pb.seat)) == Abs(FoldSeat(pb.seat) - FoldSeat(pa.seat));
    }
  }

  /** Staying put costs 0 exactly for codes with a label slot; a one-character code
      throws, and the empty code gives NaN. */
  lemma CalcDistSelf(table: ZoneTable, a: string)
    ensures CalcDist(table, a, a) == Value(Num(0)) <==> |a| >= 2
    ensures |a| == 1 ==> CalcDist(table, a, a) == TypeError
    ensures a == "" ==> CalcDist(table, a, a) == Value(NaN)
  {
  }

  /** Seats s and 64 - s sit opposite each other on a folded island row and cost the
      same from anywhere. */
  lemma CostFoldMirror(a: Parsed, b: Parsed)
    requires a.seat <= 64
    ensures CostOf(a.(seat := 64 - a.seat), b) == CostOf(a, b)
  {
    assert FoldSeat(64 - a.seat) == FoldSeat(a.seat);
  }

  /** Between two codes that both have a label slot, the cost is a number, never
      NaN, never negative. */
  lemma CalcDistNumeric(table: ZoneTable, a: string, b: string)
    requires |a| >= 2 && |b| >= 2
    ensures CalcDist(table, a, b).Value? && CalcDist(table, a, b).value.Num?
    ensures CalcDist(table, a, b).value.v >= 0
  {
  }

  /** The nodes of a route: the current location, then the candidates. */
  function Nodes(start: string, candidates: seq<string>): (ns: seq<string>)
    ensures |ns| == |candidates| + 1 && ns[0] == start && ns[1..] == candidates
  {
    [start] + candidates
  }

  function Cost(table: ZoneTable, nodes: seq<string>, i: nat, j: nat): Eval<Num>
    requires i < |nodes| && j < |nodes|
  {
    CostOf(ParseSpace(table, nodes[i]), ParseSpace(table, nodes[j]))
  }

  /** Step k of the scan: from p[k] it picked candidate p[k+1], whose cost is a
      number; every other unvisited candidate costs NaN or at least as much, and
      strictly more when it comes earlier (the scan's strict `<`). */
  predicate ScanPick(table: ZoneTable, nodes: seq<string>, p: seq<nat>, k: nat)
    requires InRange(p, |nodes|) && k + 1 < |p|
  {
    var c, x := p[k], p[k + 1];
    1 <= x && Cost(table, nodes, c, x).Value? && Cost(table, nodes, c, x).value.Num? &&
    forall y :: 1 <= y < |nodes| && y !in p[..k + 1] ==>
      Cost(table, nodes, c, y).Value? &&
      (Cost(table, nodes, c, y).value.NaN? ||
        (Cost(table, nodes, c, x).value.v <= Cost(table, nodes, c, y).value.v &&
         (y < x ==> Cost(table, nodes, c, x).value.v < Cost(table, nodes, c, y).value.v)))
  }

  /** Appending to a route keeps the earlier steps' picks. */
  lemma ScanPickExtend(table: ZoneTable, nodes: seq<string>, p: seq<nat>, x: nat, k: nat)
    requires InRange(p, |nodes|) && x < |nodes| && k + 1 < |p|
    requires ScanPick(table, nodes, p, k)
    ensures InRange(p + [x], |nodes|) && ScanPick(table, nodes, p + [x], k)
  {
    var q := p + [x];
    assert q[k] == p[k] && q[k + 1] == p[k + 1];
    assert q[..k + 1] == p[..k + 1];
  }

  /** The scan from the last node found nothing: every unvisited candidate costs NaN. */
  predicate ScanFindsNothing(table: ZoneTable, nodes: seq<string>, p: seq<nat>)
    requires InRange(p, |nodes|) && |p| > 0
  {
    forall y :: 1 <= y < |nodes| && y !in p ==> Cost(table, nodes, p[|p| - 1], y) == Value(NaN)
  }

  /** What `solve` returns as node indices (0 is the current location, i >= 1 is
      candidate i-1): a duplicate-free route from the location that takes the scan's
      pick at every step and stops when every node is placed or the scan finds nothing. */
  predicate IsSolveRoute(table: ZoneTable, nodes: seq<string>, p: seq<nat>)
  {
    |p| >= 1 && p[0] == 0 && InRange(p, |nodes|) && Distinct(p) &&
    (forall k :: 0 <= k < |p| - 1 ==> ScanPick(table, nodes, p, k)) &&
    (|p| == |nodes| || ScanFindsNothing(table, nodes, p))
  }

  /** A walk of `solve` so far: from the location, duplicate-free, taking the
      scan's pick at every step. */
  predicate IsWalk(table: ZoneTable, nodes: seq<string>, p: seq<nat>)
  {
    |p| >= 1 && p[0] == 0 && InRange(p, |nodes|) && Distinct(p) &&
    forall k :: 0 <= k < |p| - 1 ==> ScanPick(table, nodes, p, k)
  }

  /** The next scan of walk p throws: some unvisited candidate's cost from the
      walk's last node is a TypeError. */
  predicate ThrowsAfter(table: ZoneTable, nodes: seq<string>, p: seq<nat>)
    requires InRange(p, |nodes|) && |p| > 0
  {
    |p| < |nodes| &&
    exists y :: 1 <= y < |nodes| && y !in p && Cost(table, nodes, p[|p| - 1], y).TypeError?
  }

  /** The walk reaches a scan that throws. */
  ghost predicate WalkThrows(table: ZoneTable, nodes: seq<string>)
  {
    exists p :: IsWalk(table, nodes, p) && ThrowsAfter(table, nodes, p)
  }

  /** The scan's pick is unique: after the same visited prefix, two picks agree. */
  lemma PickUnique(table: ZoneTable, nodes: seq<string>, p: seq<nat>, q: seq<nat>, k: nat)
    requires InRange(p, |nodes|) && InRange(q, |nodes|) && k + 1 < |p| && k + 1 < |q|
    requires p[..k + 1] == q[..k + 1]
    requires p[k + 1] !in p[..k + 1] && q[k + 1] !in q[..k + 1]
    requires ScanPick(table, nodes, p, k) && ScanPick(table, nodes, q, k)
    ensures p[k + 1] == q[k + 1]
  {
    var c, x, x' := p[k], p[k + 1], q[k + 1];
    assert q[k] == q[..k + 1][k] == c;
    var a, b := Cost(table, nodes, c, x), Cost(table, nodes, c, x');
    assert a.Value? && a.value.Num? && b.Value? && b.value.Num?;
    assert a.value.v <= b.value.v;
    assert b.value.v <= a.value.v;
  }

  /** Two walks agree wherever both are defined. */
  lemma {:induction false} WalkPrefix(table: ZoneTable, nodes: seq<string>, p: seq<nat>, q: seq<nat>, k: nat)
    requires IsWalk(table, nodes, p) && IsWalk(table, nodes, q)
    requires k < |p| && k < |q|
    ensures p[..k + 1] == q[..k + 1]
  {
    if k > 0 {
      WalkPrefix(table, nodes, p, q, k - 1);
      PrefixStep(table, nodes, p, q, k);
    }
  }

  /** Walks that agree up to step k-1 agree at step k too. */
  lemma PrefixStep(table: ZoneTable, nodes: seq<string>, p: seq<nat>, q: seq<nat>, k: nat)
    requires IsWalk(table, nodes, p) && IsWalk(table, nodes, q)
    requires 0 < k < |p| && k < |q| && p[..k] == q[..k]
    ensures p[..k + 1] == q[..k + 1]
  {
    WalkStep(table, nodes, p, k);
    WalkStep(table, nodes, q, k);
    PickUnique(table, nodes, p, q, k - 1);
    assert p[..k + 1] == p[..k] + [p[k]] && q[..k + 1] == q[..k] + [q[k]];
  }

  /** Step k of a walk: the scan from p[k-1] picked p[k], a node not placed before. */
  lemma WalkStep(table: ZoneTable, nodes: seq<string>, p: seq<nat>, k: nat)
    requires IsWalk(table, nodes, p) && 0 < k < |p|
    ensures InRange(p, |nodes|) && p[k] !in p[..k] && ScanPick(table, nodes, p, k - 1)
  {
    forall i | 0 <= i < k ensures p[..k][i] != p[k] {
      assert p[..k][i] == p[i];
    }
  }

  /** A walk that extends q took one more pick after q's last node: a
      candidate outside q at a numeric cost, so q had not placed every node. */
  lemma WalkOutgrows(table: ZoneTable, nodes: seq<string>, p: seq<nat>, q: seq<nat>)
    requires IsWalk(table, nodes, p) && 1 <= |q| < |p| && p[..|q|] == q[..|q|]
    ensures |q| < |nodes| && 1 <= p[|q|] < |nodes| && p[|q|] !in q
    ensures Cost(table, nodes, q[|q| - 1], p[|q|]).Value? && Cost(table, nodes, q[|q| - 1], p[|q|]).value.Num?
  {
    var x := p[|q|];
    assert forall i :: 0 <= i < |q| ==> q[i] == p[i] by {
      forall i | 0 <= i < |q| ensures q[i] == p[i] {
        assert q[i] == q[..|q|][i];
      }
    }
    assert x !in q;
    assert Distinct(q) && InRange(q, |nodes|);
    DistinctMissingBound(q, |nodes|, x);
    assert ScanPick(table, nodes, p, |q| - 1);
  }

  /** Every scan along a walk, while nodes remain, sees no throw once `solve`
      has returned route q. */
  lemma WalkScansValue(table: ZoneTable, nodes: seq<string>, q: seq<nat>, p: seq<nat>, y: nat)
    requires IsSolveRoute(table, nodes, q) && IsWalk(table, nodes, p)
    requires |p| < |nodes| && 1 <= y < |nodes| && y !in p
    ensures Cost(table, nodes, p[|p| - 1], y).Value?
  {
    if |p| < |q| {
      WalkPrefix(table, nodes, p, q, |p| - 1);
      assert q[..|p| - 1 + 1] == p;
      assert ScanPick(table, nodes, q, |p| - 1);
    } else if |p| == |q| {
      WalkPrefix(table, nodes, p, q, |p| - 1);
      assert q == q[..|q|] == p;
    } else {
      WalkPrefix(table, nodes, p, q, |q| - 1);
      WalkOutgrows(table, nodes, p, q);
      assert false;
    }
  }

  /** Once `solve` has returned route q, no walk reaches a scan that throws. */
  lemma RouteExcludesThrow(table: ZoneTable, nodes: seq<string>, q: seq<nat>)
    requires IsSolveRoute(table, nodes, q)
    ensures !WalkThrows(table, nodes)
  {
    forall p | IsWalk(table, nodes, p) ensures !ThrowsAfter(table, nodes, p) {
      if |p| < |nodes| {
        forall y | 1 <= y < |nodes| && y !in p ensures !Cost(table, nodes, p[|p| - 1], y).TypeError? {
          WalkScansValue(table, nodes, q, p, y);
        }
      }
    }
  }

  /** When every code has a label slot no cost throws, so no walk throws. */
  lemma WellFormedNeverThrows(table: ZoneTable, nodes: seq<string>)
    requires forall k :: 0 <= k < |nodes| ==> |nodes[k]| >= 2
    ensures !WalkThrows(table, nodes)
  {
    forall p | IsWalk(table, nodes, p) ensures !ThrowsAfter(table, nodes, p) {
      forall y | 1 <= y < |nodes| && y !in p ensures !Cost(table, nodes, p[|p| - 1], y).TypeError? {
        CalcDistNumeric(table, nodes[p[|p| - 1]], nodes[y]);
      }
    }
  }

  /** Candidate x is the scan's pick among the unvisited candidates 1..n-1: its cost
      is a number, and every other unvisited cost is NaN or at least as large, and
      strictly larger when the candidate comes earlier. */
  predicate IsScanMin(cost: nat -> Eval<Num>, n: nat, visited: set<nat>, x: nat)
  {
    cost(x).Value? && cost(x).value.Num? &&
    forall y :: 1 <= y < n && y !in visited ==>
      cost(y).Value? &&
      (cost(y).value.NaN? ||
        (cost(x).value.v <= cost(y).value.v && (y < x ==> cost(x).value.v < cost(y).value.v)))
  }

  /** The inner `for` loop of `solve`: scan candidates 1..n-1 that are not visited,
      evaluate `cost(i)` (the `calcDist` from the current node), and keep the first
      strictly smaller number, starting from Infinity (here `None`). -1 when every
      cost is NaN; a TypeError as soon as a cost throws. */
  method NearestUnvisited(cost: nat -> Eval<Num>, n: nat, visited: set<nat>) returns (r: Eval<int>)
    ensures r.TypeError? ==> exists y :: 1 <= y < n && y !in visited && cost(y).TypeError?
    ensures r == Value(-1) ==> forall y :: 1 <= y < n && y !in visited ==> cost(y) == Value(NaN)
    ensures r.Value? && r.value != -1 ==> 1 <= r.value < n && r.value !in visited && IsScanMin(cost, n, visited, r.value)
  {
    var minDist: Option<int> := None;
    var next := -1;
    var i := 1;
    while i < n
      invariant 1 <= i <= n || (n == 0 && i == 1)
      invariant next == -1 <==> minDist.None?
      invariant next != -1 ==> 1 <= next < i && next !in visited && cost(next) == Value(Num(minDist.value))
      invariant forall y :: 1 <= y < i && y < n && y !in visited ==>
        cost(y).Value? &&
        (cost(y).value.NaN? ||
          (next != -1 && minDist.value <= cost(y).value.v && (y < next ==> minDist.value < cost(y).value.v)))
    {
      if i !in visited {
        var d := cost(i);
        if d.TypeError? {
          return TypeError;
        }
        if d.value.Num? && (minDist.None? || d.value.v < minDist.value) {
          minDist := Some(d.value.v);
          next := i;
        }
      }
      i := i + 1;
    }
    return Value(next);
  }

  /** The costs from node c, as the scan evaluates them. */
  function CostsFrom(table: ZoneTable, nodes: seq<string>, c: nat): nat -> Eval<Num>
  {
    (y: nat) => if c < |nodes| && y < |nodes| then Cost(table, nodes, c, y) else TypeError
  }

  lemma ScanMinIsScanPick(table: ZoneTable, nodes: seq<string>, path: seq<nat>, visited: set<nat>, next: nat)
    requires InRange(path, |nodes|) && |path| >= 1
    requires forall y :: y in visited <==> y in path
    requires 1 <= next < |nodes| && next !in visited
    requires IsScanMin(CostsFrom(table, nodes, path[|path| - 1]), |nodes|, visited, next)
    ensures InRange(path + [next], |nodes|) && ScanPick(table, nodes, path + [next], |path| - 1)
  {
    var q := path + [next];
    assert q[..|path|] == path && q[|path| - 1] == path[|path| - 1] && q[|path|] == next;
  }

  lemma ScanNothingIsScanFindsNothing(table: ZoneTable, nodes: seq<string>, path: seq<nat>, visited: set<nat>)
    requires InRange(path, |nodes|) && |path| >= 1
    requires forall y :: y in visited <==> y in path
    requires forall y :: 1 <= y < |nodes| && y !in visited ==>
      CostsFrom(table, nodes, path[|path| - 1])(y) == Value(NaN)
    ensures ScanFindsNothing(table, nodes, path)
  {
    forall y | 1 <= y < |nodes| && y !in path
      ensures Cost(table, nodes, path[|path| - 1], y) == Value(NaN)
    {
      assert CostsFrom(table, nodes, path[|path| - 1])(y) == Value(NaN);
    }
  }

  /** `TspSolver.solve(startSpace, candidates)`, returning node indices. */
  method Solve(table: ZoneTable, start: string, candidates: seq<string>) returns (r: Eval<seq<nat>>)
    ensures candidates == [] ==> r == Value([])
    ensures candidates != [] && r.Value? ==> IsSolveRoute(table, Nodes(start, candidates), r.value)
    ensures candidates != [] ==> (r.TypeError? <==> WalkThrows(table, Nodes(start, candidates)))
    ensures r.TypeError? ==>
      exists i, j :: 0 <= i <= |candidates| && 0 <= j <= |candidates| &&
        Cost(table, Nodes(start, candidates), i, j).TypeError?
  {
    if candidates == [] {
      return Value([]);
    }
    var nodes := Nodes(start, candidates);
    var n := |nodes|;
    var path: seq<nat> := [0];
    var visited: set<nat> := {0};
    var current: nat := 0;
    while |path| < n
      invariant 1 <= |path| <= n && path[0] == 0 && current == path[|path| - 1]
      invariant InRange(path, n) && Distinct(path)
      invariant forall y :: y in visited <==> y in path
      invariant forall k :: 0 <= k < |path| - 1 ==> ScanPick(table, nodes, path, k)
      decreases n - |path|
    {
      var next := NearestUnvisited(CostsFrom(table, nodes, current), n, visited);
      if next.TypeError? {
        ghost var y :| 1 <= y < n && y !in visited && CostsFrom(table, nodes, current)(y).TypeError?;
        assert Cost(table, nodes, current, y).TypeError?;
        assert IsWalk(table, nodes, path) && ThrowsAfter(table, nodes, path);
        return TypeError;
      }
      if next.value == -1 {
        ScanNothingIsScanFindsNothing(table, nodes, path, visited);
        break;
      }
      ghost var old_path := path;
      ScanMinIsScanPick(table, nodes, path, visited, next.value as nat);
      path := path + [next.value as nat];
      visited := visited + {next.value as nat};
      forall k | 0 <= k < |path| - 1 ensures ScanPick(table, nodes, path, k) {
        if k < |old_path| - 1 {
          ScanPickExtend(table, nodes, old_path, next.value as nat, k);
        }
      }
      current := next.value as nat;
    }
    RouteExcludesThrow(table, nodes, path);
    return Value(path);
  }

  /** When every code has a label slot no cost is NaN and none throws, so the route
      visits every candidate exactly once after the location. */
  lemma WellFormedRouteIsComplete(table: ZoneTable, nodes: seq<string>, p: seq<nat>)
    requires forall k :: 0 <= k < |nodes| ==> |nodes[k]| >= 2
    requires IsSolveRoute(table, nodes, p)
    ensures IsPermutation(p, |nodes|)
  {
    forall x | 0 <= x < |nodes| ensures x in p {
      if |p| == |nodes| {
        DistinctFullCovers(p, |nodes|, x);
      } else if x != 0 {
        CalcDistNumeric(table, nodes[p[|p| - 1]], nodes[x]);
      } else {
        assert p[0] == x;
      }
    }
    CoveringDistinctIsPermutation(p, |nodes|);
  }

}
