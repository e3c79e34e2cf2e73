/** The `App` controller of the modular web app (webapp/js/app.js): it holds the
    data manager and the current target, turns the purchase, hold, undo and reset
    buttons into data-manager calls and sync posts, and picks the next target with
    the nearest-neighbour solver. Confirmation dialogs are boolean inputs, the
    location selectors are string inputs, and the outcome of each post is the
    `reply` input of the drain that follows it. */
module WebController {
  import opened JsValues
  import opened Booths
  import opened Ledger
  import opened Zones
  import opened Tour
  import opened WebDataManager
  import TspSolver
  import StateTsp

  class App {
    const dm: DataManager
    var currentTarget: Option<Booth>

    /** `new App()`: a data manager over what storage held, and no target. */
    constructor(purchased: seq<string>, hold: seq<string>, history: seq<Action>, queue: seq<Payload>, url: string)
      ensures fresh(dm) && currentTarget == None
      ensures dm.wantToBuy == [] && dm.purchasedList == purchased && dm.holdList == hold
      ensures dm.actionHistory == history && dm.syncQueue == queue && dm.gasUrl == url
    {
      dm := new DataManager(purchased, hold, history, queue, url);
      currentTarget := None;
    }

    /** `searchNext()`: the location code is `${ewsn[0]}${label}${num}` from the
        three selectors. Without rows, or without unvisited rows, the target stays
        as it was; otherwise the target becomes `path[1]` of the solver's route
        from the location and the returned preview is `path[2]` when the route
        has one. A route that throws, or that stops at the location, leaves the
        target. */
    method SearchNext(ewsn: string, slot: string, num: string) returns (preview: Option<Booth>)
      modifies this
      ensures IsSearch(dm.wantToBuy != [], dm.GetUnvisited(), TemplateFirst(ewsn) + slot + num,
                       old(currentTarget), currentTarget, preview)
    {
      preview := None;
      if dm.wantToBuy == [] {
        return;
      }
      var currentSpace := TemplateFirst(ewsn) + slot + num;
      var candidates := dm.GetUnvisited();
      if candidates == [] {
        return;
      }
      var path := TspSolver.Solve(AreasTable, currentSpace, StateTsp.Spaces(candidates));
      if path.TypeError? {
        return;
      }
      var p := path.value;
      if |p| > 1 {
        assert p[0] != p[1];
        currentTarget := Some(candidates[p[1] - 1]);
        if |p| > 2 {
          assert p[0] != p[2];
          preview := Some(candidates[p[2] - 1]);
        }
        assert IsPick(candidates, currentSpace, p, currentTarget, preview);
      }
    }

    /** `handleAction(type)`: nothing without a target. A purchase goes through
        `addPurchased` and is then always posted as `{space, undo: false}`, even
        when the code was bought already; a hold goes through `addHold` and
        posts nothing. Then the next target is searched for from the location
        selectors, which the page has just moved to the handled booth (their
        values are the `ewsn`, `slot` and `num` inputs). */
    method HandleAction(kind: ActionKind, reply: nat -> Reply, ewsn: string, slot: string, num: string)
      returns (posted: seq<Payload>, preview: Option<Booth>)
      modifies dm, this
      ensures old(currentTarget).None? ==>
        posted == [] && preview == None && currentTarget == None &&
        dm.purchasedList == old(dm.purchasedList) && dm.holdList == old(dm.holdList) &&
        dm.actionHistory == old(dm.actionHistory) && dm.syncQueue == old(dm.syncQueue)
      ensures old(currentTarget).Some? && kind == Purchase ==>
        var s := old(currentTarget).value.space;
        dm.purchasedList == (if s in old(dm.purchasedList) then old(dm.purchasedList) else old(dm.purchasedList) + [s]) &&
        dm.actionHistory == (if s in old(dm.purchasedList) then old(dm.actionHistory) else old(dm.actionHistory) + [Action(Purchase, s)]) &&
        dm.holdList == old(dm.holdList) &&
        dm.syncQueue == AfterSync(old(dm.syncQueue), Single(s, false), dm.gasUrl, reply) &&
        posted == Posted(old(dm.syncQueue) + [Single(s, false)], dm.gasUrl, reply)
      ensures old(currentTarget).Some? && kind == Hold ==>
        var s := old(currentTarget).value.space;
        dm.holdList == (if s in old(dm.holdList) then old(dm.holdList) else old(dm.holdList) + [s]) &&
        dm.actionHistory == (if s in old(dm.holdList) then old(dm.actionHistory) else old(dm.actionHistory) + [Action(Hold, s)]) &&
        dm.purchasedList == old(dm.purchasedList) && dm.syncQueue == old(dm.syncQueue) && posted == []
      ensures old(currentTarget).Some? ==>
        IsSearch(dm.wantToBuy != [], dm.GetUnvisited(), TemplateFirst(ewsn) + slot + num,
                 old(currentTarget), currentTarget, preview)
      ensures dm.wantToBuy == old(dm.wantToBuy) && dm.gasUrl == old(dm.gasUrl)
    {
      posted, preview := [], None;
      if currentTarget.None? {
        return;
      }
      var space := currentTarget.value.space;
      if kind == Purchase {
        dm.AddPurchased(space);
        posted := dm.SyncUpdate(space, false, reply);
      } else {
        dm.AddHold(space);
      }
      preview := SearchNext(ewsn, slot, num);
    }

    /** `handleUndo()`: with an empty history nothing changes and nothing is
        posted; otherwise the last action is undone, and only an undone purchase
        is posted as `{space, undo: true}`. */
    method HandleUndo(reply: nat -> Reply) returns (posted: seq<Payload>)
      modifies dm
      ensures old(dm.actionHistory) == [] ==>
        posted == [] && dm.purchasedList == old(dm.purchasedList) && dm.holdList == old(dm.holdList) &&
        dm.actionHistory == [] && dm.syncQueue == old(dm.syncQueue)
      ensures old(dm.actionHistory) != [] ==>
        var a := old(dm.actionHistory)[|old(dm.actionHistory)| - 1];
        dm.actionHistory == old(dm.actionHistory)[..|old(dm.actionHistory)| - 1] &&
        (a.kind == Purchase ==>
           dm.purchasedList == RemoveAll(old(dm.purchasedList), a.space) && dm.holdList == old(dm.holdList) &&
           dm.syncQueue == AfterSync(old(dm.syncQueue), Single(a.space, true), dm.gasUrl, reply) &&
           posted == Posted(old(dm.syncQueue) + [Single(a.space, true)], dm.gasUrl, reply)) &&
        (a.kind == Hold ==>
           dm.holdList == RemoveAll(old(dm.holdList), a.space) && dm.purchasedList == old(dm.purchasedList) &&
           dm.syncQueue == old(dm.syncQueue) && posted == [])
      ensures dm.wantToBuy == old(dm.wantToBuy) && dm.gasUrl == old(dm.gasUrl)
    {
      posted := [];
      var action := dm.UndoLastAction();
      if action.Some? && action.value.kind == Purchase {
        posted := dm.SyncUpdate(action.value.space, true, reply);
      }
    }

    /** `handleReset()`: when confirmed, every list is emptied, and the former
        purchases are posted as one batch undo when there were any. The target
        is not cleared (only its display is). */
    method HandleReset(confirmed: bool, reply: nat -> Reply) returns (posted: seq<Payload>)
      modifies dm
      ensures !confirmed ==>
        posted == [] && dm.purchasedList == old(dm.purchasedList) && dm.holdList == old(dm.holdList) &&
        dm.actionHistory == old(dm.actionHistory) && dm.syncQueue == old(dm.syncQueue)
      ensures confirmed ==> dm.purchasedList == [] && dm.holdList == [] && dm.actionHistory == []
      ensures confirmed && old(dm.purchasedList) == [] ==> dm.syncQueue == old(dm.syncQueue) && posted == []
      ensures confirmed && old(dm.purchasedList) != [] ==>
        dm.syncQueue == AfterSync(old(dm.syncQueue), Batch(old(dm.purchasedList)), dm.gasUrl, reply) &&
        posted == Posted(old(dm.syncQueue) + [Batch(old(dm.purchasedList))], dm.gasUrl, reply)
      ensures dm.wantToBuy == old(dm.wantToBuy) && dm.gasUrl == old(dm.gasUrl)
    {
      posted := [];
      if confirmed {
        var backup := dm.ResetAll();
        if |backup| > 0 {
          posted := dm.SyncBatch(backup, reply);
        }
      }
    }

    /** `handleResetHold()`: nothing on an empty hold list or when not confirmed;
        otherwise `resetHold`, and nothing is posted. */
    method HandleResetHold(confirmed: bool)
      modifies dm
      ensures old(dm.holdList) == [] || !confirmed ==>
        dm.holdList == old(dm.holdList) && dm.actionHistory == old(dm.actionHistory)
      ensures old(dm.holdList) != [] && confirmed ==>
        dm.holdList == [] && dm.actionHistory == DropKind(old(dm.actionHistory), Hold)
      ensures dm.purchasedList == old(dm.purchasedList) && dm.syncQueue == old(dm.syncQueue)
      ensures dm.wantToBuy == old(dm.wantToBuy) && dm.gasUrl == old(dm.gasUrl)
    {
      if |dm.holdList| == 0 {
        return;
      }
      if confirmed {
        dm.ResetHold();
      }
    }
  }

  /** The outcome of a search among `candidates` from `location`: `p` is the
      solver's route over the location and the candidates' codes, the target is
      the candidate the route visits first (the nearest, the earliest on a tie),
      and the preview is the one after it, if any. */
  ghost predicate IsPick(candidates: seq<Booth>, location: string, p: seq<nat>, target: Option<Booth>, preview: Option<Booth>)
  {
    var nodes := TspSolver.Nodes(location, StateTsp.Spaces(candidates));
    TspSolver.IsSolveRoute(AreasTable, nodes, p) && |p| > 1 && 1 <= p[1] &&
    target == Some(candidates[p[1] - 1]) &&
    preview == (if |p| > 2 && 1 <= p[2] then Some(candidates[p[2] - 1]) else None)
  }

  /** The target and preview `searchNext()` leaves, from the target `before`:
      with no rows or no unvisited candidate, the target stays and there is no
      preview; when the solver's walk throws, the same; otherwise the solver's
      route decides: its second and third stops when it has a second stop, and
      nothing changes when it stops at the location. */
  ghost predicate IsSearch(hasRows: bool, candidates: seq<Booth>, location: string,
                           before: Option<Booth>, after: Option<Booth>, preview: Option<Booth>)
  {
    var nodes := TspSolver.Nodes(location, StateTsp.Spaces(candidates));
    if !hasRows || candidates == [] || TspSolver.WalkThrows(AreasTable, nodes) then after == before && preview == None
    else
      exists p :: TspSolver.IsSolveRoute(AreasTable, nodes, p) && RouteOutcome(candidates, location, p, before, after, preview)
  }

  /** What one solver route leaves: its second and third stops when it has a
      second stop, and the target as it was when it stops at the location. */
  ghost predicate RouteOutcome(candidates: seq<Booth>, location: string, p: seq<nat>,
                               before: Option<Booth>, after: Option<Booth>, preview: Option<Booth>)
  {
    if |p| > 1 then IsPick(candidates, location, p, after, preview) else after == before && preview == None
  }

  /** A successful search on codes that all have a label slot always moves the
      target to an unvisited candidate. */
  lemma SearchFindsCandidate(candidates: seq<Booth>, location: string, before: Option<Booth>,
                             after: Option<Booth>, preview: Option<Booth>)
    requires IsSearch(true, candidates, location, before, after, preview)
    requires candidates != [] && |location| >= 2
    requires forall b :: b in candidates ==> |b.space| >= 2
    ensures after.Some? && after.value in candidates
  {
    var nodes := TspSolver.Nodes(location, StateTsp.Spaces(candidates));
    forall k | 0 <= k < |nodes| ensures |nodes[k]| >= 2 {
      if k > 0 {
        assert nodes[k] == candidates[k - 1].space && candidates[k - 1] in candidates;
      }
    }
    TspSolver.WellFormedNeverThrows(AreasTable, nodes);
    var p :| TspSolver.IsSolveRoute(AreasTable, nodes, p) && RouteOutcome(candidates, location, p, before, after, preview);
    TspSolver.WellFormedRouteIsComplete(AreasTable, nodes, p);
    PermutationCounts(p, |nodes|);
    assert IsPick(candidates, location, p, after, preview);
  }
}
