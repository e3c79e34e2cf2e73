/** The `DataManager` class of the modular web app (webapp/js/data-manager.js):
    the want-to-buy rows, the purchased and hold lists with their action history,
    and the queue of posts waiting to reach the spreadsheet backend. Storage,
    the network and the queue items' ids and timestamps are not modelled: the
    constructor receives what storage held, and each send's outcome is an input. */
module WebDataManager {
  import opened JsValues
  import opened Booths
  import opened Ledger

  /** What the backend answered one post with: whether the HTTP status was ok,
      and the `status` field of the JSON reply. */
  datatype Reply = Reply(httpOk: bool, status: string)

  /** `sendToGas` resolves only for an ok HTTP status and `status === "success"`. */
  predicate Succeeded(r: Reply)
  {
    r.httpOk && r.status == "success"
  }

  /** The number of sends that succeed in a row from attempt `i` on, up to `n`. */
  function SuccessRun(reply: nat -> Reply, i: nat, n: nat): (k: nat)
    requires i <= n
    ensures i + k <= n
    ensures forall a :: i <= a < i + k ==> Succeeded(reply(a))
    ensures i + k < n ==> !Succeeded(reply(i + k))
    decreases n - i
  {
    if i == n || !Succeeded(reply(i)) then 0 else 1 + SuccessRun(reply, i + 1, n)
  }

  /** How many queue items one drain delivers: none without a backend URL,
      otherwise the leading items up to the first failed send. Attempt `a`
      receives `reply(a)`. */
  function Delivered(queue: seq<Payload>, url: string, reply: nat -> Reply): (k: nat)
    ensures k <= |queue|
    ensures url == "" ==> k == 0
    ensures forall a :: 0 <= a < k ==> Succeeded(reply(a))
    ensures url != "" && k < |queue| ==> !Succeeded(reply(k))
  {
    if url == "" then 0 else SuccessRun(reply, 0, |queue|)
  }

  /** The posts one drain makes, in order: the delivered items and, when the
      drain stopped at a failure, the item that failed. */
  function Posted(queue: seq<Payload>, url: string, reply: nat -> Reply): (p: seq<Payload>)
    ensures url == "" ==> p == []
    ensures url != "" ==> p == queue[..if Delivered(queue, url, reply) < |queue| then Delivered(queue, url, reply) + 1 else |queue|]
  {
    var k := Delivered(queue, url, reply);
    if url == "" then [] else if k < |queue| then queue[..k + 1] else queue
  }

  /** The queue after `addToQueue(p)` and a drain. */
  function AfterSync(queue: seq<Payload>, p: Payload, url: string, reply: nat -> Reply): (q: seq<Payload>)
    ensures |q| <= |queue| + 1
    ensures url == "" ==> q == queue + [p]
    ensures q != [] ==> q[|q| - 1] == p
  {
    var q2 := queue + [p];
    q2[Delivered(q2, url, reply)..]
  }

  class DataManager {
    var wantToBuy: seq<Booth>
    var purchasedList: seq<string>
    var holdList: seq<string>
    var actionHistory: seq<Action>
    var syncQueue: seq<Payload>
    /** The backend URL stored by `setGasUrl`, "" when none is set. */
    var gasUrl: string

    /** The lists as storage held them (empty when absent); no rows yet. */
    constructor(purchased: seq<string>, hold: seq<string>, history: seq<Action>, queue: seq<Payload>, url: string)
      ensures wantToBuy == [] && purchasedList == purchased && holdList == hold
      ensures actionHistory == history && syncQueue == queue && gasUrl == url
    {
      wantToBuy := [];
      purchasedList := purchased;
      holdList := hold;
      actionHistory := history;
      syncQueue := queue;
      gasUrl := url;
    }

    /** `setGasUrl(url)`. */
    method SetGasUrl(url: string)
      modifies this
      ensures gasUrl == url
      ensures wantToBuy == old(wantToBuy) && purchasedList == old(purchasedList) && holdList == old(holdList)
      ensures actionHistory == old(actionHistory) && syncQueue == old(syncQueue)
    {
      gasUrl := url;
    }

    /** `fetchFromSheet` storing the rows it received (`data.wantToBuy || []`). */
    method SetWantToBuy(rows: seq<Booth>)
      modifies this
      ensures wantToBuy == rows
      ensures purchasedList == old(purchasedList) && holdList == old(holdList)
      ensures actionHistory == old(actionHistory) && syncQueue == old(syncQueue) && gasUrl == old(gasUrl)
    {
      wantToBuy := rows;
    }

    /** `addHistory(type, space)`. */
    method AddHistory(kind: ActionKind, space: string)
      modifies this
      ensures actionHistory == old(actionHistory) + [Action(kind, space)]
      ensures wantToBuy == old(wantToBuy) && purchasedList == old(purchasedList) && holdList == old(holdList)
      ensures syncQueue == old(syncQueue) && gasUrl == old(gasUrl)
    {
      actionHistory := actionHistory + [Action(kind, space)];
    }

    /** `addPurchased(space)`: a code already in the list changes nothing, not
        even the history; a new one is appended and recorded. */
    method AddPurchased(space: string)
      modifies this
      ensures space in old(purchasedList) ==> purchasedList == old(purchasedList) && actionHistory == old(actionHistory)
      ensures space !in old(purchasedList) ==>
        purchasedList == old(purchasedList) + [space] && actionHistory == old(actionHistory) + [Action(Purchase, space)]
      ensures NoDuplicates(old(purchasedList)) ==> NoDuplicates(purchasedList)
      ensures wantToBuy == old(wantToBuy) && holdList == old(holdList)
      ensures syncQueue == old(syncQueue) && gasUrl == old(gasUrl)
    {
      if space !in purchasedList {
        purchasedList := purchasedList + [space];
        AddHistory(Purchase, space);
      }
    }

    /** `addHold(space)`: the same rule for the hold list. */
    method AddHold(space: string)
      modifies this
      ensures space in old(holdList) ==> holdList == old(holdList) && actionHistory == old(actionHistory)
      ensures space !in old(holdList) ==>
        holdList == old(holdList) + [space] && actionHistory == old(actionHistory) + [Action(Hold, space)]
      ensures NoDuplicates(old(holdList)) ==> NoDuplicates(holdList)
      ensures wantToBuy == old(wantToBuy) && purchasedList == old(purchasedList)
      ensures syncQueue == old(syncQueue) && gasUrl == old(gasUrl)
    {
      if space !in holdList {
        holdList := holdList + [space];
        AddHistory(Hold, space);
      }
    }

    /** `undoLastAction()`: `None` (null) on an empty history; otherwise the last
        entry is popped and returned, and every occurrence of its code leaves
        the list of its kind. */
    method UndoLastAction() returns (last: Option<Action>)
      modifies this
      ensures old(actionHistory) == [] ==>
        last == None && actionHistory == [] && purchasedList == old(purchasedList) && holdList == old(holdList)
      ensures old(actionHistory) != [] ==>
        last == Some(old(actionHistory)[|old(actionHistory)| - 1]) &&
        actionHistory == old(actionHistory)[..|old(actionHistory)| - 1]
      ensures last.Some? && last.value.kind == Purchase ==>
        purchasedList == RemoveAll(old(purchasedList), last.value.space) && holdList == old(holdList)
      ensures last.Some? && last.value.kind == Hold ==>
        holdList == RemoveAll(old(holdList), last.value.space) && purchasedList == old(purchasedList)
      ensures wantToBuy == old(wantToBuy) && syncQueue == old(syncQueue) && gasUrl == old(gasUrl)
    {
      if actionHistory == [] {
        return None;
      }
      var a := actionHistory[|actionHistory| - 1];
      actionHistory := actionHistory[..|actionHistory| - 1];
      if a.kind == Purchase {
        purchasedList := RemoveAll(purchasedList, a.space);
      } else {
        holdList := RemoveAll(holdList, a.space);
      }
      last := Some(a);
    }

    /** Buying a code that is not in the list yet and undoing it restores the
        lists and the history. */
    method PurchaseThenUndo(space: string) returns (last: Option<Action>)
      requires space !in purchasedList
      modifies this
      ensures last == Some(Action(Purchase, space))
      ensures purchasedList == old(purchasedList) && holdList == old(holdList) && actionHistory == old(actionHistory)
      ensures wantToBuy == old(wantToBuy) && syncQueue == old(syncQueue) && gasUrl == old(gasUrl)
    {
      AddPurchased(space);
      last := UndoLastAction();
      RemoveAllAfterAppend(old(purchasedList), space);
      assert (old(actionHistory) + [Action(Purchase, space)])[..|old(actionHistory)|] == old(actionHistory);
    }

    /** `resetAll()`: every list emptied, the former purchases returned. */
    method ResetAll() returns (backup: seq<string>)
      modifies this
      ensures backup == old(purchasedList)
      ensures purchasedList == [] && holdList == [] && actionHistory == []
      ensures wantToBuy == old(wantToBuy) && syncQueue == old(syncQueue) && gasUrl == old(gasUrl)
    {
      backup := purchasedList;
      purchasedList := [];
      holdList := [];
      actionHistory := [];
    }

    /** `resetHold()`: the hold list emptied and the hold entries dropped from
        the history, which keeps its purchase entries in order. */
    method ResetHold()
      modifies this
      ensures holdList == [] && actionHistory == DropKind(old(actionHistory), Hold)
      ensures purchasedList == old(purchasedList)
      ensures wantToBuy == old(wantToBuy) && syncQueue == old(syncQueue) && gasUrl == old(gasUrl)
    {
      holdList := [];
      actionHistory := DropKind(actionHistory, Hold);
    }

    /** `getUnvisited()`: the rows whose code is neither bought nor held. */
    function GetUnvisited(): (r: seq<Booth>)
      reads this
      ensures forall b :: b in r <==> b in wantToBuy && b.space !in purchasedList && b.space !in holdList
      ensures IsSubsequence(r, wantToBuy)
    {
      UnvisitedInOrder(wantToBuy, purchasedList, holdList);
      Unvisited(wantToBuy, purchasedList, holdList)
    }

    /** `addToQueue(payload)`: appended at the tail. */
    method AddToQueue(p: Payload)
      modifies this
      ensures syncQueue == old(syncQueue) + [p]
      ensures wantToBuy == old(wantToBuy) && purchasedList == old(purchasedList) && holdList == old(holdList)
      ensures actionHistory == old(actionHistory) && gasUrl == old(gasUrl)
    {
      syncQueue := syncQueue + [p];
    }

    /** `processQueue()`, run to completion: nothing without items or a URL;
        otherwise the head is sent and removed while sends succeed, and the
        first failure stops the drain with the failed item left at the head.
        `posted` lists the posts made, in order; attempt `a` gets `reply(a)`. */
    method ProcessQueue(reply: nat -> Reply) returns (posted: seq<Payload>)
      modifies this
      ensures syncQueue == old(syncQueue)[Delivered(old(syncQueue), gasUrl, reply)..]
      ensures posted == Posted(old(syncQueue), gasUrl, reply)
      ensures wantToBuy == old(wantToBuy) && purchasedList == old(purchasedList) && holdList == old(holdList)
      ensures actionHistory == old(actionHistory) && gasUrl == old(gasUrl)
    {
      posted := [];
      if |syncQueue| == 0 || gasUrl == "" {
        return;
      }
      ghost var queue := syncQueue;
      var attempt: nat := 0;
      while |syncQueue| > 0
        invariant attempt <= |queue| && syncQueue == queue[attempt..] && posted == queue[..attempt]
        invariant forall a :: 0 <= a < attempt ==> Succeeded(reply(a))
        invariant wantToBuy == old(wantToBuy) && purchasedList == old(purchasedList) && holdList == old(holdList)
        invariant actionHistory == old(actionHistory) && gasUrl == old(gasUrl)
        decreases |syncQueue|
      {
        var item := syncQueue[0];
        posted := posted + [item];
        if !Succeeded(reply(attempt)) {
          assert queue[..attempt + 1] == queue[..attempt] + [item];
          break;
        }
        assert queue[..attempt + 1] == queue[..attempt] + [item];
        syncQueue := syncQueue[1..];
        attempt := attempt + 1;
      }
    }

    /** `syncUpdate(space, isUndo)`: the post `{space, undo}` queued, then the drain. */
    method SyncUpdate(space: string, isUndo: bool, reply: nat -> Reply) returns (posted: seq<Payload>)
      modifies this
      ensures syncQueue == AfterSync(old(syncQueue), Single(space, isUndo), gasUrl, reply)
      ensures posted == Posted(old(syncQueue) + [Single(space, isUndo)], gasUrl, reply)
      ensures wantToBuy == old(wantToBuy) && purchasedList == old(purchasedList) && holdList == old(holdList)
      ensures actionHistory == old(actionHistory) && gasUrl == old(gasUrl)
    {
      AddToQueue(Single(space, isUndo));
      posted := ProcessQueue(reply);
    }

    /** `syncUpdate(spaces, true, true)`: the batch post `{spaces, undo: true}`
        queued, then the drain. */
    method SyncBatch(spaces: seq<string>, reply: nat -> Reply) returns (posted: seq<Payload>)
      modifies this
      ensures syncQueue == AfterSync(old(syncQueue), Batch(spaces), gasUrl, reply)
      ensures posted == Posted(old(syncQueue) + [Batch(spaces)], gasUrl, reply)
      ensures wantToBuy == old(wantToBuy) && purchasedList == old(purchasedList) && holdList == old(holdList)
      ensures actionHistory == old(actionHistory) && gasUrl == old(gasUrl)
    {
      AddToQueue(Batch(spaces));
      posted := ProcessQueue(reply);
    }
  }
}
