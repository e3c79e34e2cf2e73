/** The ledger handlers and the next-target search of the single-file web app
    (webapp/app.js), over its module-level `state`. Lists grow by `push` with no
    duplicate check, undo removes the last occurrence with `lastIndexOf` and
    `splice`, and the route comes from the priority-split solver over the
    app's own zone table. Every handler that changes a list ends by searching
    for the next target. Each post to the backend is returned as the payloads
    PostUpdate sends, none when the URL field is empty; a post of `{space}`
    without an `undo` field reads as `undo: false`. */
module WebApp {
  import opened JsValues
  import opened Booths
  import opened Ledger
  import opened Zones
  import opened WebState
  import StateTsp

  /** The target `updateNextTarget()` leaves, given the target `before` and the
      rows, lists and page inputs it reads: unchanged without a URL or a
      location label; none when no row is unvisited; unchanged when the solver
      throws; otherwise the second stop of the route the solver returns over the
      location and the unvisited rows, or none when that route has no second stop. */
  ghost predicate IsNextTarget(before: Option<Booth>, rows: seq<Booth>, purchased: seq<string>, hold: seq<string>,
                               ui: Inputs, after: Option<Booth>)
  {
    if ui.url == "" || ui.slot == "" then after == before
    else
      var remaining := Unvisited(rows, purchased, hold);
      var nodes := [StartNode(ui.ewsn, ui.slot, ui.number)] + remaining;
      if remaining == [] then after == None
      else if StateTsp.SolveThrows(WebAppTable, nodes) then after == before
      else exists p :: StateTsp.IsSolved(WebAppTable, nodes, p) && after == (if |p| > 1 then Some(p[1]) else None)
  }

  /** The next target is an unvisited row, and a high-priority one whenever a
      high-priority row is unvisited. */
  lemma NextTargetIsRemaining(before: Option<Booth>, rows: seq<Booth>, purchased: seq<string>, hold: seq<string>,
                              ui: Inputs, after: Option<Booth>)
    requires IsNextTarget(before, rows, purchased, hold, ui, after)
    requires ui.url != "" && ui.slot != ""
    requires !StateTsp.SolveThrows(WebAppTable, [StartNode(ui.ewsn, ui.slot, ui.number)] + Unvisited(rows, purchased, hold))
    ensures var nodes := [StartNode(ui.ewsn, ui.slot, ui.number)] + Unvisited(rows, purchased, hold);
      (StateTsp.Targets(nodes) == [] ==> after == None) &&
      (StateTsp.Targets(nodes) != [] ==>
         after.Some? && after.value in StateTsp.Targets(nodes) && after.value in Unvisited(rows, purchased, hold) &&
         (StateTsp.IsHighBooth(after.value) <==> StateTsp.HighGroup(nodes) != []))
  {
    var remaining := Unvisited(rows, purchased, hold);
    var start := StartNode(ui.ewsn, ui.slot, ui.number);
    var nodes := [start] + remaining;
    if remaining == [] {
      assert StateTsp.Targets(nodes) == [];
      return;
    }
    var p :| StateTsp.IsSolved(WebAppTable, nodes, p) && after == (if |p| > 1 then Some(p[1]) else None);
    var t := StateTsp.Targets(nodes);
    if t != [] {
      assert p[1] in multiset(p[1..]) by {
        assert p[1..][0] == p[1];
      }
      assert p[1] in t;
      assert p[1] != start;
      assert p[1] in remaining;
    }
  }

  /** `handleAction(type)`: nothing without a target; otherwise the code is
      pushed onto the list of the action's kind (a purchase is also posted), the
      action recorded, and the next target searched for. */
  method HandleAction(st: State, kind: ActionKind, ui: Inputs) returns (posted: seq<Payload>)
    modifies st
    ensures old(st.currentTarget).None? ==>
      posted == [] && st.purchasedList == old(st.purchasedList) && st.holdList == old(st.holdList) &&
      st.actionHistory == old(st.actionHistory) && st.currentTarget == None
    ensures old(st.currentTarget).Some? ==>
      var s := old(st.currentTarget).value.space;
      st.actionHistory == old(st.actionHistory) + [Action(kind, s)] &&
      (kind == Purchase ==>
         posted == PostUpdate(ui.url, Single(s, false)) && st.purchasedList == old(st.purchasedList) + [s] && st.holdList == old(st.holdList)) &&
      (kind == Hold ==>
         posted == [] && st.holdList == old(st.holdList) + [s] && st.purchasedList == old(st.purchasedList)) &&
      IsNextTarget(old(st.currentTarget), st.wantToBuy, st.purchasedList, st.holdList, ui, st.currentTarget)
    ensures st.wantToBuy == old(st.wantToBuy)
  {
    posted := [];
    if st.currentTarget.None? {
      return;
    }
    var space := st.currentTarget.value.space;
    if kind == Purchase {
      posted := PostUpdate(ui.url, Single(space, false));
      st.purchasedList := st.purchasedList + [space];
    } else {
      st.holdList := st.holdList + [space];
    }
    st.actionHistory := st.actionHistory + [Action(kind, space)];
    UpdateNextTarget(st, ui);
  }

  /** `handleUndo()`: nothing on an empty history; otherwise the last action is
      popped, the last occurrence of its code, if any, leaves the list of its
      kind, and the next target is searched for. An undone purchase is posted
      as `{space, undo: true}` even when the code was no longer in the list. */
  method HandleUndo(st: State, ui: Inputs) returns (posted: seq<Payload>)
    modifies st
    ensures old(st.actionHistory) == [] ==>
      posted == [] && st.purchasedList == old(st.purchasedList) && st.holdList == old(st.holdList) &&
      st.actionHistory == [] && st.currentTarget == old(st.currentTarget)
    ensures old(st.actionHistory) != [] ==>
      var a := old(st.actionHistory)[|old(st.actionHistory)| - 1];
      st.actionHistory == old(st.actionHistory)[..|old(st.actionHistory)| - 1] &&
      (a.kind == Purchase ==>
         posted == PostUpdate(ui.url, Single(a.space, true)) && st.purchasedList == RemoveLast(old(st.purchasedList), a.space) &&
         st.holdList == old(st.holdList)) &&
      (a.kind == Hold ==>
         posted == [] && st.holdList == RemoveLast(old(st.holdList), a.space) &&
         st.purchasedList == old(st.purchasedList)) &&
      IsNextTarget(old(st.currentTarget), st.wantToBuy, st.purchasedList, st.holdList, ui, st.currentTarget)
    ensures st.wantToBuy == old(st.wantToBuy)
  {
    posted := [];
    if |st.actionHistory| == 0 {
      return;
    }
    var last := st.actionHistory[|st.actionHistory| - 1];
    st.actionHistory := st.actionHistory[..|st.actionHistory| - 1];
    if last.kind == Purchase {
      st.purchasedList := RemoveLast(st.purchasedList, last.space);
      posted := PostUpdate(ui.url, Single(last.space, true));
    } else {
      st.holdList := RemoveLast(st.holdList, last.space);
    }
    UpdateNextTarget(st, ui);
  }

  /** `handleReset()`: when confirmed, the purchases are posted as one batch
      undo (if there were any), the purchased list is emptied, the purchase
      entries leave the history, and the next target is searched for; holds
      and their entries stay. */
  method HandleReset(st: State, confirmed: bool, ui: Inputs) returns (posted: seq<Payload>)
    modifies st
    ensures !confirmed ==>
      posted == [] && st.purchasedList == old(st.purchasedList) && st.actionHistory == old(st.actionHistory) &&
      st.currentTarget == old(st.currentTarget)
    ensures confirmed ==>
      posted == (if old(st.purchasedList) != [] then PostUpdate(ui.url, Batch(old(st.purchasedList))) else []) &&
      st.purchasedList == [] && st.actionHistory == DropKind(old(st.actionHistory), Purchase) &&
      IsNextTarget(old(st.currentTarget), st.wantToBuy, [], st.holdList, ui, st.currentTarget)
    ensures st.holdList == old(st.holdList) && st.wantToBuy == old(st.wantToBuy)
  {
    posted := [];
    if !confirmed {
      return;
    }
    if |st.purchasedList| > 0 {
      posted := PostUpdate(ui.url, Batch(st.purchasedList));
    }
    st.purchasedList := [];
    st.actionHistory := DropKind(st.actionHistory, Purchase);
    UpdateNextTarget(st, ui);
  }

  /** `handleHoldClear()`: nothing on an empty hold list or when not confirmed;
      otherwise the hold list is emptied, the history left as it is (hold
      entries included), and the next target searched for. */
  method HandleHoldClear(st: State, confirmed: bool, ui: Inputs)
    modifies st
    ensures old(st.holdList) == [] || !confirmed ==>
      st.holdList == old(st.holdList) && st.currentTarget == old(st.currentTarget)
    ensures old(st.holdList) != [] && confirmed ==>
      st.holdList == [] && IsNextTarget(old(st.currentTarget), st.wantToBuy, st.purchasedList, [], ui, st.currentTarget)
    ensures st.purchasedList == old(st.purchasedList) && st.actionHistory == old(st.actionHistory)
    ensures st.wantToBuy == old(st.wantToBuy)
  {
    if |st.holdList| == 0 {
      return;
    }
    if confirmed {
      st.holdList := [];
      UpdateNextTarget(st, ui);
    }
  }

  /** `updateNextTarget()`, with the search deferred by `setTimeout` run at
      once: the target becomes the one IsNextTarget describes, and no list
      changes. */
  method UpdateNextTarget(st: State, ui: Inputs)
    modifies st
    ensures IsNextTarget(old(st.currentTarget), st.wantToBuy, st.purchasedList, st.holdList, ui, st.currentTarget)
    ensures st.purchasedList == old(st.purchasedList) && st.holdList == old(st.holdList)
    ensures st.actionHistory == old(st.actionHistory) && st.wantToBuy == old(st.wantToBuy)
  {
    if ui.url == "" || ui.slot == "" {
      return;
    }
    var remaining := Unvisited(st.wantToBuy, st.purchasedList, st.holdList);
    if remaining == [] {
      st.currentTarget := None;
      return;
    }
    var nodes := [StartNode(ui.ewsn, ui.slot, ui.number)] + remaining;
    var path := StateTsp.SolveTsp(WebAppTable, nodes);
    if path.TypeError? {
      return;
    }
    var p := path.value;
    if |p| > 1 {
      st.currentTarget := Some(p[1]);
    } else {
      st.currentTarget := None;
    }
  }
}
