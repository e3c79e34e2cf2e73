/** The phone-side script of the Pebble watch app (pebble/src/pkjs/index.js). It
    keeps the last fetched want-to-buy list, the codes bought on the watch whose
    spreadsheet update has not yet come back in a fetch (the pending list), and
    the current location. The watch asks for the nearest unvisited booth;
    "bought" marks it pending and moves the location there; "set_loc" moves the
    location by hand.

    The parser is the integer-seat parser over the script's own zone table, and
    the cost weighs the label distance by 7. */
module Pebble {
  import opened JsValues
  import opened SpaceCode
  import opened Zones
  import Ledger
  import TspSolver

  /** A row of the fetched list: its code, and the account and circle names the
      watch displays. */
  datatype Circle = Circle(space: string, account: string, name: string)

  /** The parsed response; `wantToBuy` is absent when the response lacks it. */
  datatype Data = Data(wantToBuy: Option<seq<Circle>>)

  /** What `updatePebble` sends to the watch: the end message, or the next booth
      with its display name and the number of unvisited rows ("Rem: n"). */
  datatype Screen = Finished | Target(location: string, name: string, remaining: nat)

  /** `lastSpace` before any purchase or manual setting. */
  const InitialLastSpace: string := "東1ア01a"

  /** `parseSpace(space)`: hall group, label slot and integer seat over the
      script's `LABEL_OPTIONS`. */
  function ParseSpace(space: string): (r: TspSolver.Parsed)
    ensures space == "" ==> r == TspSolver.Parsed("", EmptyLabel, 0)
    ensures space != "" ==> r.slot == LabelAt(space)
  {
    TspSolver.ParseSpace(PebbleTable, space)
  }

  /** The hall group is the first zone of the table whose name starts with the
      hall character and whose labels contain the label character, "" when there
      is none; the seat is the value of the leading digit run (0 without one). */
  lemma ParseSpaceMeaning(space: string)
    requires space != ""
    ensures var r := ParseSpace(space);
      (r.hall == "" <==> forall k :: 0 <= k < |PebbleTable| ==> !ZoneMatches(PebbleTable[k], space[0], r.slot)) &&
      (r.hall != "" ==>
        exists k :: 0 <= k < |PebbleTable| && r.hall == PebbleTable[k].0 && ZoneMatches(PebbleTable[k], space[0], r.slot) &&
          forall j :: 0 <= j < k ==> !ZoneMatches(PebbleTable[j], space[0], r.slot)) &&
      exists ds :: MaximalDigitPrefix(ToHalfWidth(Remainder(space)), ds) && r.seat == DigitsValue(ds)
  {
    TspSolver.ParseSpaceMeaning(PebbleTable, space);
  }

  /** A code of the first zone parses to its zone, label and seat. */
  lemma ParseSpaceExample()
    ensures ParseSpace("東ア01a") == TspSolver.Parsed("東456", Ch('ア'), 1)
  {
    KanaZoneHasA();
    ExampleCode();
    TspSolver.ParseSpaceRoundTrip(PebbleTable, 0, '東', 'ア', 1, 1, "a");
  }

  lemma KanaZoneHasA()
    ensures ZoneMatches(PebbleTable[0], '東', Ch('ア'))
  {
    assert PebbleTable[0].1[0] == 'ア';
  }

  lemma ExampleCode()
    ensures ['東', 'ア'] + Zeros(1) + Digits(1) + "a" == "東ア01a"
  {
    assert Zeros(1) == "0" && Digits(1) == "1";
  }

  /** The initial location has the label "1", which belongs to no zone, and no
      seat digits right after it: its hall group is "" and its seat 0. */
  lemma InitialLocationParse()
    ensures ParseSpace(InitialLastSpace) == TspSolver.Parsed("", Ch('1'), 0)
  {
    LabelOneInNoZone();
    assert Remainder(InitialLastSpace) == "ア01a";
    assert ToHalfWidth("ア01a")[0] == 'ア';
    assert LeadingDigits(ToHalfWidth("ア01a")) == "";
  }

  lemma LabelOneInNoZone()
    ensures FirstMatch(PebbleTable, '東', Ch('1')) == -1
  {
    KanaZoneLacksOne();
    LatinZoneLacksOne();
    assert !ZoneMatches(PebbleTable[2], '東', Ch('1')) && !ZoneMatches(PebbleTable[3], '東', Ch('1'));
  }

  lemma KanaZoneLacksOne()
    ensures !ZoneMatches(PebbleTable[0], '東', Ch('1'))
  {
    assert '1' !in PebbleTable[0].1;
  }

  lemma LatinZoneLacksOne()
    ensures !ZoneMatches(PebbleTable[1], '東', Ch('1'))
  {
    assert '1' !in PebbleTable[1].1;
  }

  /** `calcDist` on parsed codes: 10000 across hall groups; within one, seven
      times the label-code distance plus the distance of the folded seats. An
      `undefined` label throws and the empty label gives NaN. */
  function CostOf(a: TspSolver.Parsed, b: TspSolver.Parsed): (r: Eval<Num>)
    ensures a.hall != b.hall ==> r == Value(Num(10000))
    ensures a.hall == b.hall ==> (r.TypeError? <==> a.slot.Undefined? || b.slot.Undefined?)
    ensures a.hall == b.hall && a.slot.Ch? && b.slot.Ch? ==>
      r == Value(Num(7 * Abs(a.slot.c as int - b.slot.c as int) + Abs(FoldSeat(a.seat) - FoldSeat(b.seat))))
    ensures (a.hall == b.hall && !a.slot.Undefined? && !b.slot.Undefined? &&
             (a.slot.EmptyLabel? || b.slot.EmptyLabel?)) ==> r == Value(NaN)
  {
    if a.hall != b.hall then Value(Num(10000))
    else
      var c1, c2 := CharCode(a.slot), CharCode(b.slot);
      if c1.TypeError? || c2.TypeError? then TypeError
      else Value(Weighted(AbsDiff(c1.value, c2.value), 7, Num(Abs(FoldSeat(a.seat) - FoldSeat(b.seat))), 0))
  }

  /** `calcDist(spaceA, spaceB)`. */
  function CalcDist(a: string, b: string): Eval<Num>
  {
    CostOf(ParseSpace(a), ParseSpace(b))
  }

  /** 10000 across hall groups. Within one, a one-character code has an
      `undefined` label and throws; codes of two or more characters cost seven
      times the distance of their second characters plus the distance of the
      folded seats. */
  lemma CalcDistMeaning(a: string, b: string)
    ensures ParseSpace(a).hall != ParseSpace(b).hall ==> CalcDist(a, b) == Value(Num(10000))
    ensures ParseSpace(a).hall == ParseSpace(b).hall ==> (CalcDist(a, b).TypeError? <==> |a| == 1 || |b| == 1)
    ensures ParseSpace(a).hall == ParseSpace(b).hall && |a| >= 2 && |b| >= 2 ==>
      CalcDist(a, b) == Value(Num(7 * Abs(a[1] as int - b[1] as int) + Abs(FoldSeat(ParseSpace(a).seat) - FoldSeat(ParseSpace(b).seat))))
  {
    var pa, pb := ParseSpace(a), ParseSpace(b);
    assert CalcDist(a, b) == CostOf(pa, pb);
  }

  lemma CalcDistSymmetric(a: string, b: string)
    ensures CalcDist(a, b) == CalcDist(b, a)
  {
    CostOfSymmetric(ParseSpace(a), ParseSpace(b));
  }

  lemma CostOfSymmetric(a: TspSolver.Parsed, b: TspSolver.Parsed)
    ensures CostOf(a, b) == CostOf(b, a)
  {
    if a.hall == b.hall && a.slot.Ch? && b.slot.Ch? {
      assert Abs(a.slot.c as int - b.slot.c as int) == Abs(b.slot.c as int - a.slot.c as int);
      assert Abs(FoldSeat(a.seat) - FoldSeat(b.seat)) == Abs(FoldSeat(b.seat) - FoldSeat(a.seat));
    }
  }

  /** Staying put costs 0 from any code with a label slot. */
  lemma CalcDistSelf(a: string)
    requires |a| >= 2
    ensures CalcDist(a, a) == Value(Num(0))
  {
    CalcDistMeaning(a, a);
  }

  /** Seats s and 64 - s sit opposite each other on a folded island row and cost
      the same from anywhere. */
  lemma CostFoldMirror(a: TspSolver.Parsed, b: TspSolver.Parsed)
    requires a.seat <= 64
    ensures CostOf(a.(seat := 64 - a.seat), b) == CostOf(a, b)
  {
    assert FoldSeat(64 - a.seat) == FoldSeat(a.seat);
  }

  /** From the initial location every booth of a known hall costs the
      cross-hall 10000. */
  lemma InitialLocationIsNowhere(b: string)
    requires ParseSpace(b).hall != ""
    ensures CalcDist(InitialLastSpace, b) == Value(Num(10000))
  {
    InitialLocationParse();
    CalcDistMeaning(InitialLastSpace, b);
  }

  /** `calcDist(lastSpace, c.space)` as a number, NaN when it throws. */
  function Distance(from: string, c: Circle): Num
  {
    var d := CalcDist(from, c.space);
    if d.Value? then d.value else NaN
  }

  /** The comparator's keys: the distance of every row from `from`. */
  function Keys(from: string, u: seq<Circle>): (ks: seq<Num>)
    ensures |ks| == |u| && forall k :: 0 <= k < |u| ==> ks[k] == Distance(from, u[k])
  {
    seq(|u|, k requires 0 <= k < |u| => Distance(from, u[k]))
  }

  /** Every key is a number. */
  predicate AllNum(ks: seq<Num>)
  {
    forall j :: 0 <= j < |ks| ==> ks[j].Num?
  }

  /** Key k is the first of the least keys. */
  predicate IsFirstLeast(ks: seq<Num>, k: nat)
  {
    k < |ks| && AllNum(ks) &&
    forall j :: 0 <= j < |ks| ==> (j < k ==> ks[j].v > ks[k].v) && (k < j ==> ks[j].v >= ks[k].v)
  }

  /** The index of the first least key; a NaN key never wins. */
  function FirstLeast(ks: seq<Num>): (k: nat)
    requires ks != []
    ensures k < |ks|
    ensures AllNum(ks) ==> IsFirstLeast(ks, k)
  {
    if |ks| == 1 then 0
    else
      var init := ks[..|ks| - 1];
      var k := FirstLeast(init);
      assert AllNum(ks) ==> AllNum(init) by {
        forall j | 0 <= j < |init| ensures init[j] == ks[j] { }
      }
      if Less(ks[|ks| - 1], ks[k]) then |ks| - 1 else k
  }

  /** Every distance from `from` to a row is a number: no throw, no NaN. */
  predicate Numeric(from: string, u: seq<Circle>)
  {
    AllNum(Keys(from, u))
  }

  /** Some row's distance throws. */
  predicate Throws(from: string, u: seq<Circle>)
  {
    exists k :: 0 <= k < |u| && CalcDist(from, u[k].space).TypeError?
  }

  /** `unvisited.sort((a, b) => calcDist(lastSpace, a.space) - calcDist(lastSpace,
      b.space))[0]`. A single row is never compared, so it is picked even when
      its distance would throw; two or more rows throw exactly when some
      distance throws. With numeric distances the stable sort puts first the
      earliest row at the least distance. */
  function Next(from: string, u: seq<Circle>): (r: Eval<Circle>)
    requires u != []
    ensures r.Value? ==> r.value in u
    ensures |u| == 1 ==> r == Value(u[0])
    ensures |u| >= 2 ==> (r.TypeError? <==> exists k :: 0 <= k < |u| && CalcDist(from, u[k].space).TypeError?)
    ensures Numeric(from, u) ==> r.Value? && exists k: nat :: IsFirstLeast(Keys(from, u), k) && r.value == u[k]
  {
    NumericNeverThrows(from, u);
    if |u| >= 2 && Throws(from, u) then TypeError
    else Value(u[FirstLeast(Keys(from, u))])
  }

  lemma NumericNeverThrows(from: string, u: seq<Circle>)
    ensures Numeric(from, u) ==> !Throws(from, u)
  {
    if Numeric(from, u) {
      forall j | 0 <= j < |u| ensures !CalcDist(from, u[j].space).TypeError? {
        assert Keys(from, u)[j] == Distance(from, u[j]);
      }
    }
  }

  /** Between codes that all have a label slot the distances are numbers, so the
      pick is the nearest row. */
  lemma WellFormedCodesAreNumeric(from: string, u: seq<Circle>)
    requires |from| >= 2 && forall j :: 0 <= j < |u| ==> |u[j].space| >= 2
    ensures Numeric(from, u)
  {
    forall j | 0 <= j < |u| ensures Keys(from, u)[j].Num? {
      CalcDistMeaning(from, u[j].space);
    }
  }

  /** From the initial location, when every row belongs to a known hall, all rows
      tie at 10000 and the first bought booth is the first row of the list. */
  lemma FirstPickFromInitialLocation(u: seq<Circle>)
    requires u != [] && forall j :: 0 <= j < |u| ==> ParseSpace(u[j].space).hall != ""
    ensures Next(InitialLastSpace, u) == Value(u[0])
  {
    var ks := Keys(InitialLastSpace, u);
    forall j | 0 <= j < |u| ensures ks[j] == Num(10000) {
      DistanceFromInitial(u[j]);
    }
    assert Numeric(InitialLastSpace, u);
    NumericNeverThrows(InitialLastSpace, u);
    FirstOfTies(ks);
    assert Next(InitialLastSpace, u) == Value(u[FirstLeast(ks)]);
  }

  lemma DistanceFromInitial(c: Circle)
    requires ParseSpace(c.space).hall != ""
    ensures Distance(InitialLastSpace, c) == Num(10000)
  {
    InitialLocationIsNowhere(c.space);
  }

  /** When all keys tie, the first one is the first least. */
  lemma FirstOfTies(ks: seq<Num>)
    requires ks != [] && forall j :: 0 <= j < |ks| ==> ks[j] == Num(10000)
    ensures FirstLeast(ks) == 0
  {
    assert AllNum(ks);
  }

  /** The codes of the rows, in order. */
  function Spaces(rows: seq<Circle>): (r: seq<string>)
    ensures |r| == |rows| && forall k :: 0 <= k < |rows| ==> r[k] == rows[k].space
  {
    seq(|rows|, k requires 0 <= k < |rows| => rows[k].space)
  }

  /** The pending codes the server list still holds, in their pending order. */
  function StillPending(pending: seq<string>, server: seq<Circle>): (r: seq<string>)
    ensures forall x :: x in r <==> x in pending && x in Spaces(server)
  {
    var keep := (x: string) => x in Spaces(server);
    var r := Ledger.Filter(pending, keep);
    forall x | x in pending && keep(x) ensures x in r {
      Ledger.FilterCount(pending, keep, x);
    }
    r
  }

  /** The cleanup adds nothing: it keeps pending codes, each as often as
      before, in their order, and doing it again changes nothing. */
  lemma StillPendingIsCleanup(pending: seq<string>, server: seq<Circle>)
    ensures Ledger.IsSubsequence(StillPending(pending, server), pending)
    ensures forall x :: multiset(StillPending(pending, server))[x] == if x in Spaces(server) then multiset(pending)[x] else 0
    ensures StillPending(StillPending(pending, server), server) == StillPending(pending, server)
  {
    var keep := (x: string) => x in Spaces(server);
    Ledger.FilterSubsequence(pending, keep);
    forall x ensures multiset(StillPending(pending, server))[x] == if x in Spaces(server) then multiset(pending)[x] else 0 {
      Ledger.FilterCount(pending, keep, x);
    }
    var r := StillPending(pending, server);
    assert forall k :: 0 <= k < |r| ==> r[k] in r;
    Ledger.FilterAll(r, keep);
  }

  /** The rows whose code is not pending, in order. */
  function Unvisited(server: seq<Circle>, pending: seq<string>): (r: seq<Circle>)
    ensures forall c :: c in r <==> c in server && c.space !in pending
  {
    var keep := (c: Circle) => c.space !in pending;
    var r := Ledger.Filter(server, keep);
    forall c | c in server && keep(c) ensures c in r {
      Ledger.FilterCount(server, keep, c);
    }
    r
  }

  /** Marking an unvisited code pending removes at least that row: the list of
      unvisited rows gets strictly shorter, so the watch never loops. */
  lemma {:induction false} PendingShrinksUnvisited(server: seq<Circle>, pending: seq<string>, c: Circle)
    requires c in Unvisited(server, pending)
    ensures |Unvisited(server, pending + [c.space])| < |Unvisited(server, pending)|
  {
    MarkPendingNoLonger(server, pending, c.space);
    var k :| 0 <= k < |server| && server[k] == c;
    ShorterWhenDropped(server, pending, c.space, k);
  }

  lemma {:induction false} MarkPendingNoLonger(server: seq<Circle>, pending: seq<string>, x: string)
    ensures |Unvisited(server, pending + [x])| <= |Unvisited(server, pending)|
  {
    if server != [] {
      MarkPendingNoLonger(server[1..], pending, x);
    }
  }

  lemma {:induction false} ShorterWhenDropped(server: seq<Circle>, pending: seq<string>, x: string, k: nat)
    requires k < |server| && server[k].space == x && x !in pending
    ensures |Unvisited(server, pending + [x])| < |Unvisited(server, pending)|
  {
    if k == 0 {
      MarkPendingNoLonger(server[1..], pending, x);
    } else {
      ShorterWhenDropped(server[1..], pending, x, k - 1);
    }
  }

  /** `next.account || next.name || next.space || "No Name"`. */
  function DisplayName(c: Circle): string
  {
    if c.account != "" then c.account
    else if c.name != "" then c.name
    else if c.space != "" then c.space
    else "No Name"
  }

  /** The inner `for` of the cleanup: whether some row of the list has the code. */
  method Listed(serverList: seq<Circle>, pendingSpace: string) returns (stillInServer: bool)
    ensures stillInServer <==> pendingSpace in Spaces(serverList)
  {
    stillInServer := false;
    var j := 0;
    while j < |serverList|
      invariant 0 <= j <= |serverList|
      invariant stillInServer ==> pendingSpace in Spaces(serverList)
      invariant !stillInServer ==> forall m :: 0 <= m < j ==> serverList[m].space != pendingSpace
    {
      if serverList[j].space == pendingSpace {
        stillInServer := true;
        break;
      }
      j := j + 1;
    }
  }

  /** The script's module state. */
  class Companion {
    var cachedData: Option<Data>
    var pendingPurchases: seq<string>
    var lastSpace: string

    constructor()
      ensures cachedData == None && pendingPurchases == [] && lastSpace == InitialLastSpace
    {
      cachedData := None;
      pendingPurchases := [];
      lastSpace := InitialLastSpace;
    }

    /** The rows of the cached response, when there are any to show. */
    function ServerList(): (r: Option<seq<Circle>>)
      reads this
      ensures r.Some? <==> cachedData.Some? && cachedData.value.wantToBuy.Some?
      ensures r.Some? ==> r.value == cachedData.value.wantToBuy.value
    {
      if cachedData.Some? then cachedData.value.wantToBuy else None
    }

    /** What a successful fetch does with the parsed response: it caches it and
        keeps of the pending codes those the response still lists (an absent
        list counts as empty), in their order, with the nested search of the
        original. */
    method Loaded(data: Data)
      modifies this
      ensures cachedData == Some(data) && lastSpace == old(lastSpace)
      ensures pendingPurchases == StillPending(old(pendingPurchases), if data.wantToBuy.Some? then data.wantToBuy.value else [])
    {
      cachedData := Some(data);
      var serverList := if data.wantToBuy.Some? then data.wantToBuy.value else [];
      ghost var keep := (x: string) => x in Spaces(serverList);
      var newPending: seq<string> := [];
      var i := 0;
      while i < |pendingPurchases|
        invariant 0 <= i <= |pendingPurchases|
        invariant newPending == Ledger.Filter(pendingPurchases[..i], keep)
        invariant cachedData == Some(data) && lastSpace == old(lastSpace) && pendingPurchases == old(pendingPurchases)
      {
        var pendingSpace := pendingPurchases[i];
        var stillInServer := Listed(serverList, pendingSpace);
        assert stillInServer <==> keep(pendingSpace);
        Ledger.FilterAppend(pendingPurchases[..i], pendingSpace, keep);
        assert pendingPurchases[..i + 1] == pendingPurchases[..i] + [pendingSpace];
        if stillInServer {
          newPending := newPending + [pendingSpace];
        }
        i := i + 1;
      }
      assert pendingPurchases[..i] == pendingPurchases;
      pendingPurchases := newPending;
    }

    /** `updatePebble()`: nothing without a cached list; the end message when
        every row is pending; otherwise the nearest unvisited row from the
        current location, sent with its display name and the count of unvisited
        rows (unless the sort throws). */
    function UpdatePebble(): (r: Eval<Option<Screen>>)
      reads this
      ensures ServerList().None? ==> r == Value(None)
      ensures ServerList().Some? && Unvisited(ServerList().value, pendingPurchases) == [] ==> r == Value(Some(Finished))
      ensures ServerList().Some? && Unvisited(ServerList().value, pendingPurchases) != [] ==>
        var u := Unvisited(ServerList().value, pendingPurchases);
        (r.TypeError? <==> Next(lastSpace, u).TypeError?) &&
        (r.Value? ==>
           r.value.Some? && r.value.value.Target? && r.value.value.remaining == |u| &&
           exists c :: c in u && c.space !in pendingPurchases && Next(lastSpace, u) == Value(c) &&
             r.value.value.location == (if c.space != "" then c.space else "No Space") &&
             r.value.value.name == DisplayName(c))
    {
      var list := ServerList();
      if list.None? then Value(None)
      else
        var u := Unvisited(list.value, pendingPurchases);
        if u == [] then Value(Some(Finished))
        else
          var next := Next(lastSpace, u);
          if next.TypeError? then TypeError
          else
            var c := next.value;
            assert c in u;
            Value(Some(Target(if c.space != "" then c.space else "No Space", DisplayName(c), |u|)))
    }

    /** The "bought" message: without a cached list, or with every row pending,
        nothing happens; otherwise the nearest unvisited row is marked pending
        and becomes the current location, the screen is refreshed with
        `updatePebble()` (`shown`), and the row's code is posted to the
        spreadsheet as purchased. A throwing sort before the marking changes
        nothing; a throwing refresh keeps the marking but posts nothing. */
    method Bought() returns (shown: Eval<Option<Screen>>, posted: Eval<Option<string>>)
      modifies this
      ensures cachedData == old(cachedData)
      ensures ServerList().None? || Unvisited(ServerList().value, old(pendingPurchases)) == [] ==>
        shown == Value(None) && posted == Value(None) &&
        pendingPurchases == old(pendingPurchases) && lastSpace == old(lastSpace)
      ensures ServerList().Some? && Unvisited(ServerList().value, old(pendingPurchases)) != [] ==>
        var next := Next(old(lastSpace), Unvisited(ServerList().value, old(pendingPurchases)));
        (next.TypeError? ==>
           shown == Value(None) && posted == TypeError &&
           pendingPurchases == old(pendingPurchases) && lastSpace == old(lastSpace)) &&
        (next.Value? ==>
           pendingPurchases == old(pendingPurchases) + [next.value.space] && lastSpace == next.value.space &&
           |Unvisited(ServerList().value, pendingPurchases)| < |Unvisited(ServerList().value, old(pendingPurchases))| &&
           shown == UpdatePebble() &&
           posted == (if shown.TypeError? then TypeError else Value(Some(next.value.space))))
    {
      shown, posted := Value(None), Value(None);
      var list := ServerList();
      if list.None? {
        return;
      }
      var unvisited := Unvisited(list.value, pendingPurchases);
      if |unvisited| > 0 {
        var next := Next(lastSpace, unvisited);
        if next.TypeError? {
          return Value(None), TypeError;
        }
        var target := next.value;
        PendingShrinksUnvisited(list.value, pendingPurchases, target);
        pendingPurchases := pendingPurchases + [target.space];
        lastSpace := target.space;
        shown := UpdatePebble();
        if shown.TypeError? {
          return shown, TypeError;
        }
        posted := Value(Some(target.space));
      }
    }

    /** The "set_loc" message: a supplied (non-empty) location replaces the
        current one and the screen is refreshed from it (`shown`). */
    method SetLoc(location: string) returns (shown: Eval<Option<Screen>>)
      modifies this
      ensures lastSpace == if location != "" then location else old(lastSpace)
      ensures cachedData == old(cachedData) && pendingPurchases == old(pendingPurchases)
      ensures shown == if location != "" then UpdatePebble() else Value(None)
    {
      shown := Value(None);
      if location != "" {
        lastSpace := location;
        shown := UpdatePebble();
      }
    }
  }
}
