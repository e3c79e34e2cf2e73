/** The ledger handlers and the next-target search of the module web app
    (webapp/main.js), over the shared `state` record. Unlike the single-file
    app it ignores a target with an empty code, posts an undo only when the
    code was still in the list, refuses to reset an empty purchased list, and
    routes with the single-route solver of webapp/tsp.js. The zone table that
    solver parses with is a parameter: the configuration module it comes from
    is not part of this model. */
module MainJs {
  import opened JsValues
  import opened SpaceCode
  import opened Booths
  import opened Ledger
  import opened WebState
  import StateTsp
  import TspJs

  /** `handlePurchase()`: nothing without a target that has a code; otherwise
      `{space}` is posted, the code pushed onto the purchased list and the
      purchase recorded. */
  method HandlePurchase(st: State, table: ZoneTable, ui: Inputs) returns (posted: seq<Payload>)
    modifies st
    ensures old(st.currentTarget).None? || old(st.currentTarget).value.space == "" ==>
      posted == [] && st.purchasedList == old(st.purchasedList) && st.actionHistory == old(st.actionHistory) &&
      st.currentTarget == old(st.currentTarget)
    ensures old(st.currentTarget).Some? && old(st.currentTarget).value.space != "" ==>
      var s := old(st.currentTarget).value.space;
      posted == PostUpdate(ui.url, Single(s, false)) && st.purchasedList == old(st.purchasedList) + [s] &&
      st.actionHistory == old(st.actionHistory) + [Action(Purchase, s)] &&
      IsNextTarget(table, old(st.currentTarget), st.wantToBuy, st.purchasedList, st.holdList, ui, st.currentTarget)
    ensures st.holdList == old(st.holdList) && st.wantToBuy == old(st.wantToBuy)
  {
    posted := [];
    if st.currentTarget.None? || st.currentTarget.value.space == "" {
      return;
    }
    var space := st.currentTarget.value.space;
    posted := PostUpdate(ui.url, Single(space, false));
    st.purchasedList := st.purchasedList + [space];
    st.actionHistory := st.actionHistory + [Action(Purchase, space)];
    UpdateNextTarget(st, table, ui);
  }

  /** `handleHold()`: the same for the hold list, with nothing posted. */
  method HandleHold(st: State, table: ZoneTable, ui: Inputs)
    modifies st
    ensures old(st.currentTarget).None? || old(st.currentTarget).value.space == "" ==>
      st.holdList == old(st.holdList) && st.actionHistory == old(st.actionHistory) &&
      st.currentTarget == old(st.currentTarget)
    ensures old(st.currentTarget).Some? && old(st.currentTarget).value.space != "" ==>
      var s := old(st.currentTarget).value.space;
      st.holdList == old(st.holdList) + [s] && st.actionHistory == old(st.actionHistory) + [Action(Hold, s)] &&
      IsNextTarget(table, old(st.currentTarget), st.wantToBuy, st.purchasedList, st.holdList, ui, st.currentTarget)
    ensures st.purchasedList == old(st.purchasedList) && st.wantToBuy == old(st.wantToBuy)
  {
    if st.currentTarget.None? || st.currentTarget.value.space == "" {
      return;
    }
    var space := st.currentTarget.value.space;
    st.holdList := st.holdList + [space];
    st.actionHistory := st.actionHistory + [Action(Hold, space)];
    UpdateNextTarget(st, table, ui);
  }

  /** `handleUndo()`: nothing on an empty history; otherwise the last action is
      popped and the last occurrence of its code leaves the list of its kind.
      The undo is posted only when a purchased code was actually removed. */
  method HandleUndo(st: State, table: ZoneTable, ui: Inputs) returns (posted: seq<Payload>)
    modifies st
    ensures old(st.actionHistory) == [] ==>
      posted == [] && st.purchasedList == old(st.purchasedList) && st.holdList == old(st.holdList) &&
      st.actionHistory == [] && st.currentTarget == old(st.currentTarget)
    ensures old(st.actionHistory) != [] ==>
      var a := old(st.actionHistory)[|old(st.actionHistory)| - 1];
      st.actionHistory == old(st.actionHistory)[..|old(st.actionHistory)| - 1] &&
      (a.kind == Purchase ==>
         st.purchasedList == RemoveLast(old(st.purchasedList), a.space) && st.holdList == old(st.holdList) &&
         posted == (if a.space in old(st.purchasedList) then PostUpdate(ui.url, Single(a.space, true)) else [])) &&
      (a.kind == Hold ==>
         posted == [] && st.holdList == RemoveLast(old(st.holdList), a.space) &&
         st.purchasedList == old(st.purchasedList)) &&
      IsNextTarget(table, old(st.currentTarget), st.wantToBuy, st.purchasedList, st.holdList, ui, st.currentTarget)
    ensures st.wantToBuy == old(st.wantToBuy)
  {
    posted := [];
    if |st.actionHistory| == 0 {
      return;
    }
    var last := st.actionHistory[|st.actionHistory| - 1];
    st.actionHistory := st.actionHistory[..|st.actionHistory| - 1];
    if last.kind == Purchase {
      var idx := LastIndexOf(st.purchasedList, last.space);
      if idx > -1 {
        st.purchasedList := st.purchasedList[..idx] + st.purchasedList[idx + 1..];
        posted := PostUpdate(ui.url, Single(last.space, true));
      }
    } else {
      var idx := LastIndexOf(st.holdList, last.space);
      if idx > -1 {
        st.holdList := st.holdList[..idx] + st.holdList[idx + 1..];
      }
    }
    UpdateNextTarget(st, table, ui);
  }

  /** `handleResetList()`: nothing on an empty purchased list or when not
      confirmed; otherwise the purchases are posted as one batch undo, the list
      is emptied and the purchase entries leave the history. */
  method HandleResetList(st: State, confirmed: bool, table: ZoneTable, ui: Inputs) returns (posted: seq<Payload>)
    modifies st
    ensures old(st.purchasedList) == [] || !confirmed ==>
      posted == [] && st.purchasedList == old(st.purchasedList) && st.actionHistory == old(st.actionHistory) &&
      st.currentTarget == old(st.currentTarget)
    ensures old(st.purchasedList) != [] && confirmed ==>
      posted == PostUpdate(ui.url, Batch(old(st.purchasedList))) && st.purchasedList == [] &&
      st.actionHistory == DropKind(old(st.actionHistory), Purchase) &&
      IsNextTarget(table, old(st.currentTarget), st.wantToBuy, [], st.holdList, ui, st.currentTarget)
    ensures st.holdList == old(st.holdList) && st.wantToBuy == old(st.wantToBuy)
  {
    posted := [];
    if |st.purchasedList| == 0 {
      return;
    }
    if confirmed {
      posted := PostUpdate(ui.url, Batch(st.purchasedList));
      st.purchasedList := [];
      st.actionHistory := DropKind(st.actionHistory, Purchase);
      UpdateNextTarget(st, table, ui);
    }
  }

  /** The hold counter's click listener: nothing on an empty hold list or when
      not confirmed; otherwise the hold list is emptied and the hold entries
      leave the history, whose purchase entries stay in order. */
  method ResetHolds(st: State, confirmed: bool, table: ZoneTable, ui: Inputs)
    modifies st
    ensures old(st.holdList) == [] || !confirmed ==>
      st.holdList == old(st.holdList) && st.actionHistory == old(st.actionHistory) &&
      st.currentTarget == old(st.currentTarget)
    ensures old(st.holdList) != [] && confirmed ==>
      st.holdList == [] && st.actionHistory == DropKind(old(st.actionHistory), Hold) &&
      IsNextTarget(table, old(st.currentTarget), st.wantToBuy, st.purchasedList, [], ui, st.currentTarget)
    ensures st.purchasedList == old(st.purchasedList) && st.wantToBuy == old(st.wantToBuy)
  {
    if |st.holdList| == 0 {
      return;
    }
    if confirmed {
      st.holdList := [];
      st.actionHistory := DropKind(st.actionHistory, Hold);
      UpdateNextTarget(st, table, ui);
    }
  }

  /** The target `updateNextTarget()` leaves, given the target `before` and the
      rows, lists and page inputs it reads: unchanged without a URL; none when
      no row is unvisited; unchanged when the solver throws; otherwise the
      second stop of the route the solver returns over the location and the
      unvisited rows (that route always has one). */
  ghost predicate IsNextTarget(table: ZoneTable, before: Option<Booth>, rows: seq<Booth>, purchased: seq<string>,
                               hold: seq<string>, ui: Inputs, after: Option<Booth>)
  {
    if ui.url == "" then after == before
    else
      var remaining := Unvisited(rows, purchased, hold);
      var nodes := [StartNode(ui.ewsn, ui.slot, ui.number)] + remaining;
      if remaining == [] then after == None
      else if !StateTsp.AllFound(table, nodes) then after == before
      else exists p, d, nn, route :: |p| == |nodes| && multiset(p) == multiset(nodes) && p[0] == nodes[0] &&
             TspJs.IsSolved(table, nodes, p, d, nn, route) && after == Some(p[1])
  }

  /** When the search succeeds, the next target is one of the unvisited rows. */
  lemma NextTargetIsRemaining(table: ZoneTable, before: Option<Booth>, rows: seq<Booth>, purchased: seq<string>,
                              hold: seq<string>, ui: Inputs, after: Option<Booth>)
    requires IsNextTarget(table, before, rows, purchased, hold, ui, after)
    requires ui.url != "" && Unvisited(rows, purchased, hold) != []
    requires StateTsp.AllFound(table, [StartNode(ui.ewsn, ui.slot, ui.number)] + Unvisited(rows, purchased, hold))
    ensures after.Some? && after.value in Unvisited(rows, purchased, hold)
  {
    var remaining := Unvisited(rows, purchased, hold);
    var start := StartNode(ui.ewsn, ui.slot, ui.number);
    var nodes := [start] + remaining;
    var p, d, nn, route :| |p| == |nodes| && multiset(p) == multiset(nodes) && p[0] == nodes[0] &&
      TspJs.IsSolved(table, nodes, p, d, nn, route) && after == Some(p[1]);
    SecondStopRemaining(start, remaining, p);
  }

  /** `updateNextTarget()`, with the search deferred by `setTimeout` run at
      once: the target becomes the one IsNextTarget describes, and no list
      changes. */
  method UpdateNextTarget(st: State, table: ZoneTable, ui: Inputs)
    modifies st
    ensures IsNextTarget(table, old(st.currentTarget), st.wantToBuy, st.purchasedList, st.holdList, ui, st.currentTarget)
    ensures st.purchasedList == old(st.purchasedList) && st.holdList == old(st.holdList)
    ensures st.actionHistory == old(st.actionHistory) && st.wantToBuy == old(st.wantToBuy)
  {
    if ui.url == "" {
      return;
    }
    var remaining := Unvisited(st.wantToBuy, st.purchasedList, st.holdList);
    if remaining == [] {
      st.currentTarget := None;
      return;
    }
    var start := StartNode(ui.ewsn, ui.slot, ui.number);
    var nodes := [start] + remaining;
    assert TspJs.StartIndex(nodes) == 0;
    var path := TspJs.SolveTsp(table, nodes);
    if path.TypeError? {
      return;
    }
    st.currentTarget := Some(path.value[1]);
  }

  /** A route over the location and the rows that begins at the location stops
      next at one of the rows. */
  lemma SecondStopRemaining(start: Booth, remaining: seq<Booth>, p: seq<Booth>)
    requires remaining != [] && |p| == 1 + |remaining| && p[0] == start
    requires multiset(p) == multiset([start] + remaining)
    ensures p[1] in remaining
  {
    assert p == [p[0]] + p[1..];
    assert multiset(p) == multiset{start} + multiset(p[1..]);
    assert multiset([start] + remaining) == multiset{start} + multiset(remaining);
    assert p[1] in multiset(p[1..]) by {
      assert p[1..][0] == p[1];
    }
    assert multiset(p[1..]) == multiset(remaining) by {
      assert multiset(p[1..]) == multiset(p) - multiset{start};
    }
  }
}
