/** The offline single-page variant (offline/app.js): a booth-code parser over
    its own zone table, a cost with label weight 4 and a 1e9 cross-building
    sentinel, a one-step search for the nearest unbought booth, and the
    purchased list with undo and reset. Numbers here are JavaScript numbers
    straight from `parseFloat`, so a missing seat number is NaN and such a booth
    is never the nearest one in its building. */
module Offline {
  import opened JsValues
  import opened SpaceCode
  import opened Zones
  import opened Booths
  import opened Ledger
  import Utils

  /** `distinct_space(space)` over offline/app.js's table. There is no early
      return for "": its first and second characters are `undefined`, which
      match no zone. */
  function DistinctSpace(space: string): (r: Utils.Split)
    ensures space == "" ==> r == Utils.Split("", Undefined, "")
    ensures space != "" ==> r.slot == LabelAt(space) && r.hall == HallGroup(OfflineTable, space[0], r.slot)
    ensures space != "" ==> MaximalDigitPrefix(ToHalfWidth(Remainder(space)), r.number)
  {
    if space == "" then Utils.Split("", Undefined, "")
    else
      var slot := LabelAt(space);
      Utils.Split(HallGroup(OfflineTable, space[0], slot), slot, LeadingDigits(ToHalfWidth(Remainder(space))))
  }

  /** `parseFloat` of a string, for the strings read here: the value of its
      leading ASCII digits, NaN when there are none. */
  function ParseNumber(s: string): (n: Num)
    ensures LeadingDigits(s) == "" <==> n.NaN?
    ensures n.Num? ==> n.v == DigitsValue(LeadingDigits(s))
  {
    var ds := LeadingDigits(s);
    if ds == "" then NaN else Num(DigitsValue(ds))
  }

  /** `s.charAt(0)`: the first character, "" for "". */
  function CharAt0(s: string): (r: string)
    ensures s != "" ==> r == [s[0]]
    ensures s == "" ==> r == ""
  {
    if s == "" then "" else [s[0]]
  }

  /** `if (n > 32) n = 64 - n`, on a number that may be NaN. */
  function FoldNum(n: Num): (r: Num)
    ensures n.NaN? ==> r.NaN?
    ensures n.Num? ==> r == Num(FoldSeat(n.v))
  {
    if n.Num? && n.v > 32 then Num(64 - n.v) else n
  }

  /** 1e9, the cost between two buildings. */
  const CrossHall := 1_000_000_000

  /** `calc_dist(ewsn1, label1, number1, ewsn2, label2, number2)`: 1e9 when the
      halls' first characters differ, otherwise 4 times the label distance plus
      the folded seat distance. Only the second label can be `undefined`, and
      reading its code then throws. */
  function CalcDist(ewsn1: string, label1: Label, number1: Num, ewsn2: string, label2: Label, number2: Num): (r: Eval<Num>)
    requires !label1.Undefined?
    ensures r.TypeError? <==> CharAt0(ewsn1) == CharAt0(ewsn2) && label2.Undefined?
    ensures CharAt0(ewsn1) != CharAt0(ewsn2) ==> r == Value(Num(CrossHall))
    ensures CharAt0(ewsn1) == CharAt0(ewsn2) && label1.Ch? && label2.Ch? && number1.Num? && number2.Num? ==>
      r == Value(Num(4 * Abs(label1.c as int - label2.c as int) + Abs(FoldSeat(number1.v) - FoldSeat(number2.v))))
    ensures CharAt0(ewsn1) == CharAt0(ewsn2) && !label2.Undefined? && (number1.NaN? || number2.NaN? || label1.EmptyLabel? || label2.EmptyLabel?) ==>
      r == Value(NaN)
  {
    var n1, n2 := FoldNum(number1), FoldNum(number2);
    if CharAt0(ewsn1) != CharAt0(ewsn2) then Value(Num(CrossHall))
    else
      var c2 := CharCode(label2);
      if c2.TypeError? then TypeError
      else Value(Weighted(AbsDiff(CharCode(label1).value, c2.value), 4, AbsDiff(n1, n2), 0))
  }

  /** A cost between two numeric points of one building is symmetric. */
  lemma CalcDistSymmetric(e1: string, l1: Label, n1: Num, e2: string, l2: Label, n2: Num)
    requires !l1.Undefined? && !l2.Undefined?
    ensures CalcDist(e1, l1, n1, e2, l2, n2) == CalcDist(e2, l2, n2, e1, l1, n1)
  {
    if n1.Num? && n2.Num? {
      assert Abs(FoldSeat(n1.v) - FoldSeat(n2.v)) == Abs(FoldSeat(n2.v) - FoldSeat(n1.v));
    }
    if l1.Ch? && l2.Ch? {
      assert Abs(l1.c as int - l2.c as int) == Abs(l2.c as int - l1.c as int);
    }
  }

  /** The location label as `currentlabel.charCodeAt(0)` reads it. */
  function SelectLabel(s: string): (l: Label)
    ensures s == "" <==> l.EmptyLabel?
    ensures s != "" ==> l == Ch(s[0])
  {
    if s == "" then EmptyLabel else Ch(s[0])
  }

  /** The cost `calculateNextCircle` computes for one candidate from the
      location selectors: hall value, label value, and the number already read
      with `parseFloat`. */
  function CircleCost(ewsn: string, slot: string, number: Num, circle: Booth): Eval<Num>
  {
    var s := DistinctSpace(circle.space);
    CalcDist(CharAt0(ewsn), SelectLabel(slot), number, s.hall, s.slot, ParseNumber(s.number))
  }

  /** The distances of the targets, in order. */
  function Costs(ewsn: string, slot: string, number: Num, targets: seq<Booth>): (cs: seq<Eval<Num>>)
    ensures |cs| == |targets|
  {
    if targets == [] then [] else [CircleCost(ewsn, slot, number, targets[0])] + Costs(ewsn, slot, number, targets[1..])
  }

  /** 5e9, the starting minimum of the search. */
  const StartMin := 5_000_000_000

  /** The outcome of `calculateNextCircle`: `{message: "完了"}` for no targets,
      the nearest target with its distance, or `undefined` when no distance
      beats the starting minimum. */
  datatype NextCircle = Done | Nearest(circle: Booth, distance: int) | NoneFound

  /** Cost `c` is a number below `m` (NaN is below nothing). */
  predicate Below(c: Eval<Num>, m: int)
  {
    c.Value? && c.value.Num? && c.value.v < m
  }

  /** Index k holds the first least cost, and that cost is below the start. */
  predicate IsFirstMinimum(costs: seq<Eval<Num>>, k: nat, d: int)
  {
    k < |costs| && costs[k] == Value(Num(d)) && d < StartMin &&
    forall j :: 0 <= j < |costs| ==>
      costs[j].Value? && (j < k ==> !Below(costs[j], d + 1)) && (k < j ==> !Below(costs[j], d))
  }

  /** The `forEach` of `calculateNextCircle` over the targets' distances in
      order: a distance replaces the best so far only when it is strictly
      less, starting from 5e9, and a distance that throws aborts the scan.
      The index of the pick, -1 when nothing beat the start. */
  method ScanDistances(costs: seq<Eval<Num>>) returns (r: Eval<int>, minDistance: int)
    ensures r.TypeError? <==> exists k :: 0 <= k < |costs| && costs[k].TypeError?
    ensures r == Value(-1) <==> forall k :: 0 <= k < |costs| ==> costs[k].Value? && !Below(costs[k], StartMin)
    ensures r.Value? && r.value != -1 ==> 0 <= r.value && IsFirstMinimum(costs, r.value, minDistance)
  {
    minDistance := StartMin;
    var nearest: int := -1;
    var i := 0;
    while i < |costs|
      invariant 0 <= i <= |costs| && -1 <= nearest < i
      invariant forall j :: 0 <= j < i ==> costs[j].Value?
      invariant nearest == -1 ==> minDistance == StartMin && forall j :: 0 <= j < i ==> !Below(costs[j], StartMin)
      invariant nearest >= 0 ==>
        costs[nearest] == Value(Num(minDistance)) && minDistance < StartMin &&
        forall j :: 0 <= j < i ==> (j < nearest ==> !Below(costs[j], minDistance + 1)) && (nearest < j ==> !Below(costs[j], minDistance))
    {
      var distance := costs[i];
      if distance.TypeError? {
        return TypeError, minDistance;
      }
      if distance.value.Num? && distance.value.v < minDistance {
        minDistance := distance.value.v;
        nearest := i;
      }
      i := i + 1;
    }
    r := Value(nearest);
  }

  /** What `calculateNextCircle` answers for targets whose distances, in
      order, are `costs`: "完了" exactly for no targets, a TypeError exactly
      when some distance throws, `undefined` exactly when no distance is a
      number below 5e9, and otherwise the first target of least distance
      with that distance. */
  ghost predicate IsNextCircle(costs: seq<Eval<Num>>, targets: seq<Booth>, r: Eval<NextCircle>)
    requires |costs| == |targets|
  {
    (r == Value(Done) <==> targets == []) &&
    (r.TypeError? <==> exists k :: 0 <= k < |targets| && costs[k].TypeError?) &&
    (r == Value(NoneFound) <==>
      targets != [] && forall k :: 0 <= k < |targets| ==> costs[k].Value? && !Below(costs[k], StartMin)) &&
    (r.Value? && r.value.Nearest? ==>
      exists k: nat :: IsFirstMinimum(costs, k, r.value.distance) && targets[k] == r.value.circle)
  }

  /** The choice `calculateNextCircle` makes from the targets' distances. */
  method Choose(costs: seq<Eval<Num>>, targets: seq<Booth>) returns (r: Eval<NextCircle>)
    requires |costs| == |targets|
    ensures IsNextCircle(costs, targets, r)
  {
    if targets == [] {
      return Value(Done);
    }
    var nearest, minDistance := ScanDistances(costs);
    if nearest.TypeError? {
      return TypeError;
    }
    if nearest.value == -1 {
      return Value(NoneFound);
    }
    r := Value(Nearest(targets[nearest.value], minDistance));
    assert IsFirstMinimum(costs, nearest.value, minDistance) && targets[nearest.value] == r.value.circle;
    assert Below(costs[nearest.value], StartMin);
  }

  /** `calculateNextCircle(currentewsn, currentlabel, currentnumber, targets)`:
      "完了" for no targets, otherwise the first target at the least distance
      below 5e9 with that distance, `undefined` when no distance is below 5e9,
      and a TypeError when some distance throws. */
  method CalculateNextCircle(ewsn: string, slot: string, number: Num, targets: seq<Booth>) returns (r: Eval<NextCircle>)
    ensures IsNextCircle(Costs(ewsn, slot, number, targets), targets, r)
  {
    r := Choose(Costs(ewsn, slot, number, targets), targets);
  }

  /** A candidate in another building always costs 1e9, below the starting
      minimum: the search then finds a target (unless some cost throws). */
  lemma OtherBuildingIsFound(ewsn: string, slot: string, number: Num, targets: seq<Booth>, k: nat)
    requires k < |targets| && CharAt0(ewsn) != CharAt0(DistinctSpace(targets[k].space).hall)
    ensures Below(Costs(ewsn, slot, number, targets)[k], StartMin)
  {
    CostsAt(ewsn, slot, number, targets, k);
    assert CharAt0(CharAt0(ewsn)) == CharAt0(ewsn);
    var s := DistinctSpace(targets[k].space);
    assert CalcDist(CharAt0(ewsn), SelectLabel(slot), number, s.hall, s.slot, ParseNumber(s.number)) == Value(Num(CrossHall));
  }

  lemma {:induction false} CostsAt(ewsn: string, slot: string, number: Num, targets: seq<Booth>, k: nat)
    requires k < |targets|
    ensures Costs(ewsn, slot, number, targets)[k] == CircleCost(ewsn, slot, number, targets[k])
  {
    if k > 0 {
      CostsAt(ewsn, slot, number, targets[1..], k - 1);
    }
  }

  /** A booth without a seat number costs NaN inside its building, so it is
      never chosen from there: "東ア" as seen from 東 hall, label ア, seat 1. */
  lemma MissingNumberNeverNearest()
    ensures CircleCost("東456", "ア", Num(1), Booth("東ア", NoPriority, false, "")) == Value(NaN)
  {
    assert HallGroup(OfflineTable, '東', Ch('ア')) == "東456" by {
      assert ZoneMatches(OfflineTable[0], '東', Ch('ア'));
    }
  }

  /** The copy `{space, user, tweet}` the search works on: the code and the
      account and tweet links (`info`) only. */
  function Copy(b: Booth): Booth
  {
    Booth(b.space, NoPriority, false, b.info)
  }

  /** `wantToBuy.map(circle => ({space, user, tweet}))`. */
  function Copies(rows: seq<Booth>): (r: seq<Booth>)
    ensures |r| == |rows| && forall k :: 0 <= k < |rows| ==> r[k] == Copy(rows[k])
  {
    seq(|rows|, k requires 0 <= k < |rows| => Copy(rows[k]))
  }

  /** The candidates of `updateNextTarget`: the copies of the rows whose code is
      not in the purchased list, in their order; holds do not exist in this
      variant. CandidatesExact says which copies and how often. */
  function Candidates(wantToBuy: seq<Booth>, purchased: seq<string>): (r: seq<Booth>)
    ensures |r| <= |wantToBuy|
    ensures forall k :: 0 <= k < |r| ==> r[k].space !in purchased
  {
    var kept := Filter(Copies(wantToBuy), Unbought(purchased));
    assert forall k :: 0 <= k < |kept| ==> kept[k] in kept;
    kept
  }

  /** The test the candidates pass: a code not in the purchased list. */
  function Unbought(purchased: seq<string>): Booth -> bool
  {
    (c: Booth) => c.space !in purchased
  }

  /** The candidates are exactly the unbought copies, each as often as among
      the copies and in their order. */
  lemma CandidatesExact(wantToBuy: seq<Booth>, purchased: seq<string>)
    ensures forall c :: c in Candidates(wantToBuy, purchased) <==> c in Copies(wantToBuy) && c.space !in purchased
    ensures forall c :: multiset(Candidates(wantToBuy, purchased))[c] == if c.space in purchased then 0 else multiset(Copies(wantToBuy))[c]
    ensures IsSubsequence(Candidates(wantToBuy, purchased), Copies(wantToBuy))
  {
    var copies := Copies(wantToBuy);
    var kept := Candidates(wantToBuy, purchased);
    assert kept == Filter(copies, Unbought(purchased));
    forall c: Booth ensures multiset(kept)[c] == if c.space in purchased then 0 else multiset(copies)[c] {
      FilterCount(copies, Unbought(purchased), c);
    }
    forall c | c in copies && c.space !in purchased ensures c in kept {
      assert multiset(kept)[c] == multiset(copies)[c];
    }
    FilterSubsequence(copies, Unbought(purchased));
  }

  /** Every unbought row reaches the search, as its copy. */
  lemma UnboughtIsCandidate(wantToBuy: seq<Booth>, purchased: seq<string>, k: nat)
    requires k < |wantToBuy| && wantToBuy[k].space !in purchased
    ensures Copy(wantToBuy[k]) in Candidates(wantToBuy, purchased)
  {
    CandidatesExact(wantToBuy, purchased);
    assert Copies(wantToBuy)[k] == Copy(wantToBuy[k]);
  }

  /** The target `updateNextTarget()` leaves, from the target `before`, the
      selectors and the lists: the target of the answer that IsNextCircle
      describes over the candidates; unchanged when that answer is a throw, the
      chosen copy when a row is found, and none on a message. */
  ghost predicate IsNextTarget(ewsn: string, slot: string, number: string, rows: seq<Booth>, purchased: seq<string>,
                               before: Option<Booth>, after: Option<Booth>)
  {
    var targets := Candidates(rows, purchased);
    exists r :: IsNextCircle(Costs(ewsn, slot, ParseNumber(ToHalfWidth(number)), targets), targets, r) &&
      after == TargetOf(r, before)
  }

  function TargetOf(r: Eval<NextCircle>, before: Option<Booth>): Option<Booth>
  {
    if r.TypeError? then before else if r.value.Nearest? then Some(r.value.circle) else None
  }

  /** An answer of `calculateNextCircle` over the candidates: a found target
      is a candidate not yet bought, and the target it leaves is the one
      IsNextTarget describes. */
  lemma NextTargetOf(ewsn: string, slot: string, number: string, rows: seq<Booth>, purchased: seq<string>,
                     r: Eval<NextCircle>, before: Option<Booth>)
    requires IsNextCircle(Costs(ewsn, slot, ParseNumber(ToHalfWidth(number)), Candidates(rows, purchased)), Candidates(rows, purchased), r)
    ensures r.Value? && r.value.Nearest? ==> r.value.circle.space !in purchased
    ensures IsNextTarget(ewsn, slot, number, rows, purchased, before, TargetOf(r, before))
  {
    var targets := Candidates(rows, purchased);
    if r.Value? && r.value.Nearest? {
      var k: nat :| IsFirstMinimum(Costs(ewsn, slot, ParseNumber(ToHalfWidth(number)), targets), k, r.value.distance) &&
        targets[k] == r.value.circle;
      assert targets[k].space !in purchased;
    }
  }

  /** The page's state: the purchased list, the current target and the three
      location selectors (hall group, label, number text); the wanted rows are
      fixed when the page is built. */
  class Page {
    var purchasedList: seq<string>
    var currentTarget: Option<Booth>
    const wantToBuy: seq<Booth>
    var locEwsn: string
    var locLabel: string
    var locNumber: string

    constructor(purchased: seq<string>, rows: seq<Booth>)
      ensures purchasedList == purchased && currentTarget == None && wantToBuy == rows
      ensures locEwsn == "" && locLabel == "" && locNumber == ""
    {
      purchasedList := purchased;
      currentTarget := None;
      wantToBuy := rows;
      locEwsn, locLabel, locNumber := "", "", "";
    }

    /** `updateNextTarget()`: the search from the selectors (the number text
        converted to half width and read with `parseFloat`) over the unbought
        rows. The target becomes the nearest row, or no target when the search
        reports completion or finds nothing; when the search throws the target
        stays. */
    method UpdateNextTarget() returns (r: Eval<NextCircle>)
      modifies this`currentTarget
      ensures r.TypeError? ==> currentTarget == old(currentTarget)
      ensures r.Value? && r.value.Nearest? ==> currentTarget == Some(r.value.circle)
      ensures r.Value? && !r.value.Nearest? ==> currentTarget == None
      ensures r.Value? && r.value.Nearest? ==>
        r.value.circle.space !in purchasedList &&
        exists k: nat :: IsFirstMinimum(Costs(locEwsn, locLabel, ParseNumber(ToHalfWidth(locNumber)), Candidates(wantToBuy, purchasedList)), k, r.value.distance) &&
          Candidates(wantToBuy, purchasedList)[k] == r.value.circle
      ensures r == Value(Done) <==> Candidates(wantToBuy, purchasedList) == []
      ensures IsNextTarget(locEwsn, locLabel, locNumber, wantToBuy, purchasedList, old(currentTarget), currentTarget)
    {
      var targets := Candidates(wantToBuy, purchasedList);
      r := CalculateNextCircle(locEwsn, locLabel, ParseNumber(ToHalfWidth(locNumber)), targets);
      NextTargetOf(locEwsn, locLabel, locNumber, wantToBuy, purchasedList, r, currentTarget);
      currentTarget := TargetOf(r, currentTarget);
    }

    /** The purchase button: with a target that has a code, the code is pushed
        onto the list, the location selectors move to that booth (its hall
        group, label and number digits), and the next target is searched for
        from there. The label select is refilled for the hall group first, so
        with no hall group it has no options and reads "". */
    method Purchase()
      modifies this
      ensures old(currentTarget).None? || old(currentTarget).value.space == "" ==>
        purchasedList == old(purchasedList) && locEwsn == old(locEwsn) && locLabel == old(locLabel) &&
        locNumber == old(locNumber) && currentTarget == old(currentTarget)
      ensures old(currentTarget).Some? && old(currentTarget).value.space != "" ==>
        var s := old(currentTarget).value.space;
        var parts := DistinctSpace(s);
        purchasedList == old(purchasedList) + [s] && locEwsn == parts.hall &&
        locLabel == (if parts.hall != "" && parts.slot.Ch? then [parts.slot.c] else "") && locNumber == parts.number &&
        IsNextTarget(locEwsn, locLabel, locNumber, wantToBuy, purchasedList, old(currentTarget), currentTarget)
    {
      if currentTarget.None? || currentTarget.value.space == "" {
        return;
      }
      var space := currentTarget.value.space;
      var parts := DistinctSpace(space);
      purchasedList, locEwsn := purchasedList + [space], parts.hall;
      locLabel, locNumber := if parts.hall != "" && parts.slot.Ch? then [parts.slot.c] else "", parts.number;
      var _ := UpdateNextTarget();
    }

    /** `undoLastPurchase()`: the last code leaves the list, if there is one,
        and then the next target is searched for. */
    method UndoLastPurchase()
      modifies this
      ensures old(purchasedList) == [] ==> purchasedList == [] && currentTarget == old(currentTarget)
      ensures old(purchasedList) != [] ==>
        purchasedList == old(purchasedList)[..|old(purchasedList)| - 1] &&
        IsNextTarget(locEwsn, locLabel, locNumber, wantToBuy, purchasedList, old(currentTarget), currentTarget)
      ensures locEwsn == old(locEwsn) && locLabel == old(locLabel) && locNumber == old(locNumber)
    {
      if |purchasedList| > 0 {
        purchasedList := purchasedList[..|purchasedList| - 1];
        var _ := UpdateNextTarget();
      }
    }

    /** `resetPurchasedList()`: when confirmed, the list is emptied and the next
        target searched for. */
    method ResetPurchasedList(confirmed: bool)
      modifies this
      ensures purchasedList == if confirmed then [] else old(purchasedList)
      ensures !confirmed ==> currentTarget == old(currentTarget)
      ensures confirmed ==> IsNextTarget(locEwsn, locLabel, locNumber, wantToBuy, [], old(currentTarget), currentTarget)
      ensures locEwsn == old(locEwsn) && locLabel == old(locLabel) && locNumber == old(locNumber)
    {
      if confirmed {
        purchasedList := [];
        var _ := UpdateNextTarget();
      }
    }
  }
}
