/** The parser and cost function of webapp/utils.js, which webapp/app.js repeats
    verbatim over its own zone table: `distinct_space` returns the hall group,
    the label and the digit string (not converted), and `calc_dist` weighs the
    label distance by 20 and adds 1000 when two halls of one building differ. */
module Utils {
  import opened JsValues
  import opened SpaceCode

  /** `distinct_space(space)`: [hall group, label, number digits]. */
  datatype Split = Split(hall: string, slot: Label, number: string)

  function DistinctSpace(table: ZoneTable, space: string): (r: Split)
    ensures space == "" ==> r == Split("", EmptyLabel, "")
    ensures space != "" ==> r.slot == LabelAt(space) && r.hall == HallGroup(table, space[0], r.slot)
    ensures space != "" ==> MaximalDigitPrefix(ToHalfWidth(Remainder(space)), r.number)
  {
    if space == "" then Split("", EmptyLabel, "")
    else
      var slot := LabelAt(space);
      Split(HallGroup(table, space[0], slot), slot, LeadingDigits(ToHalfWidth(Remainder(space))))
  }

  /** The hall group is the first matching zone, "" when none matches. */
  lemma DistinctSpaceHall(table: ZoneTable, space: string)
    requires space != ""
    ensures var r := DistinctSpace(table, space);
      (r.hall == "" <==> forall k :: 0 <= k < |table| ==> !ZoneMatches(table[k], space[0], r.slot)) &&
      (r.hall != "" ==>
         exists k :: 0 <= k < |table| && table[k].0 == r.hall && ZoneMatches(table[k], space[0], r.slot) &&
                     forall j :: 0 <= j < k ==> !ZoneMatches(table[j], space[0], r.slot))
  {
    var k := FirstMatch(table, space[0], LabelAt(space));
    if k >= 0 {
      assert ZoneMatches(table[k], space[0], LabelAt(space));
    }
  }

  /** `parseFloat(number) || 0` on a digit string: its value, 0 for "". */
  function NumberValue(number: string): (n: nat)
    requires AllDigits(number)
    ensures number == "" ==> n == 0
  {
    DigitsValue(number)
  }

  /** `calc_dist(ewsn1, label1, number1, ewsn2, label2, number2)`. The hall
      arguments may be `undefined`, as when a caller passes `""[0]`; the numbers
      are digit strings as `distinct_space` returns them. */
  function CalcDist(ewsn1: Str, label1: Label, number1: string, ewsn2: Str, label2: Label, number2: string): (r: Eval<Num>)
    requires AllDigits(number1) && AllDigits(number2)
    ensures r.TypeError? <==>
      ewsn1.UndefinedStr? || ewsn2.UndefinedStr? ||
      (Index0(ewsn1) == Index0(ewsn2) && (label1.Undefined? || label2.Undefined?))
    ensures !r.TypeError? && Index0(ewsn1) != Index0(ewsn2) ==> r == Value(Num(10000))
    ensures Index0(ewsn1).Value? && Index0(ewsn1) == Index0(ewsn2) && label1.Ch? && label2.Ch? ==>
      r == Value(Num(20 * Abs(label1.c as int - label2.c as int)
                     + Abs(FoldSeat(NumberValue(number1)) - FoldSeat(NumberValue(number2)))
                     + (if ewsn1 != ewsn2 then 1000 else 0)))
    ensures (Index0(ewsn1).Value? && Index0(ewsn1) == Index0(ewsn2) && !label1.Undefined? && !label2.Undefined? &&
             (label1.EmptyLabel? || label2.EmptyLabel?)) ==> r == Value(NaN)
  {
    var n1, n2 := FoldSeat(NumberValue(number1)), FoldSeat(NumberValue(number2));
    var h1 := Index0(ewsn1);
    if h1.TypeError? then TypeError
    else
      var h2 := Index0(ewsn2);
      if h2.TypeError? then TypeError
      else if h1.value != h2.value then Value(Num(10000))
      else
        var penalty := if ewsn1 != ewsn2 then 1000 else 0;
        var c1 := CharCode(label1);
        if c1.TypeError? then TypeError
        else
          var c2 := CharCode(label2);
          if c2.TypeError? then TypeError
          else Value(Weighted(AbsDiff(c1.value, c2.value), 20, Num(Abs(n1 - n2)), penalty))
  }

  /** The cost does not depend on the direction of travel. */
  lemma CalcDistSymmetric(e1: Str, l1: Label, n1: string, e2: Str, l2: Label, n2: string)
    requires AllDigits(n1) && AllDigits(n2)
    ensures CalcDist(e1, l1, n1, e2, l2, n2) == CalcDist(e2, l2, n2, e1, l1, n1)
  {
    var f1, f2 := FoldSeat(NumberValue(n1)), FoldSeat(NumberValue(n2));
    assert Abs(f1 - f2) == Abs(f2 - f1);
    if l1.Ch? && l2.Ch? {
      assert Abs(l1.c as int - l2.c as int) == Abs(l2.c as int - l1.c as int);
    }
  }

  /** The numbers count only through their values: "01" and "1" cost the same. */
  lemma CalcDistByValue(e1: Str, l1: Label, n1: string, m1: string, e2: Str, l2: Label, n2: string, m2: string)
    requires AllDigits(n1) && AllDigits(n2) && AllDigits(m1) && AllDigits(m2)
    requires NumberValue(n1) == NumberValue(m1) && NumberValue(n2) == NumberValue(m2)
    ensures CalcDist(e1, l1, n1, e2, l2, n2) == CalcDist(e1, l1, m1, e2, l2, m2)
  {
  }

  /** Staying at a booth with a label costs 0. */
  lemma CalcDistSelf(e: Str, l: Label, n: string)
    requires AllDigits(n) && e.Str? && l.Ch?
    ensures CalcDist(e, l, n, e, l, n) == Value(Num(0))
  {
  }

  /** The route builders pass only the first character of each hall group, and
      two such characters that are equal are the same string: on those calls the
      1000 hall penalty never applies. */
  lemma PenaltyUnusedOnInitials(h1: string, l1: Label, n1: string, h2: string, l2: Label, n2: string)
    requires AllDigits(n1) && AllDigits(n2) && h1 != "" && h2 != "" && h1[0] == h2[0] && l1.Ch? && l2.Ch?
    ensures CalcDist(Str([h1[0]]), l1, n1, Str([h2[0]]), l2, n2)
         == Value(Num(20 * Abs(l1.c as int - l2.c as int) + Abs(FoldSeat(NumberValue(n1)) - FoldSeat(NumberValue(n2)))))
  {
  }

  /** Called on the full hall groups instead, two groups of one building (東456
      and 東7) are 1000 apart on top of the walking cost. */
  lemma PenaltyOnFullHalls()
    ensures CalcDist(Str("東456"), Ch('ア'), "1", Str("東7"), Ch('ア'), "1") == Value(Num(1000))
  {
  }

  /** Codes without a number stand at seat 0, and a seat past 32 folds back. */
  lemma CalcDistSeatRules(e: Str, l: Label)
    requires e.Str? && e.s != "" && l.Ch?
    ensures CalcDist(e, l, "", e, l, "5") == Value(Num(5))
    ensures CalcDist(e, l, "60", e, l, "4") == Value(Num(0))
  {
    assert DigitsValue("5") == 5;
    assert DigitsValue("60") == 60 by {
      assert "60"[..1] == "6";
    }
    assert DigitsValue("4") == 4;
  }
}
