/** The `state` object the single-file web app (webapp/app.js) and the module
    web app (webapp/main.js) mutate: the purchased and hold lists, the action
    history, the current target and the want-to-buy rows. Saving it to storage
    is not modelled. */
module WebState {
  import opened JsValues
  import opened Booths
  import opened Ledger

  class State {
    var purchasedList: seq<string>
    var holdList: seq<string>
    var actionHistory: seq<Action>
    var currentTarget: Option<Booth>
    /** `state.comiketData.wantToBuy`. */
    var wantToBuy: seq<Booth>

    /** The lists as storage held them; no target and no rows yet. */
    constructor(purchased: seq<string>, hold: seq<string>, history: seq<Action>)
      ensures purchasedList == purchased && holdList == hold && actionHistory == history
      ensures currentTarget == None && wantToBuy == []
    {
      purchasedList := purchased;
      holdList := hold;
      actionHistory := history;
      currentTarget := None;
      wantToBuy := [];
    }

    /** The rows a load stored (`data.wantToBuy || []`). */
    method SetWantToBuy(rows: seq<Booth>)
      modifies this
      ensures wantToBuy == rows
      ensures purchasedList == old(purchasedList) && holdList == old(holdList)
      ensures actionHistory == old(actionHistory) && currentTarget == old(currentTarget)
    {
      wantToBuy := rows;
    }
  }

  /** What the handlers read from the page: the backend URL (`gas-url-input`)
      and the three location selectors (`current-ewsn`, `current-label`,
      `current-number`). */
  datatype Inputs = Inputs(url: string, ewsn: string, slot: string, number: string)

  /** The location pseudo-node `{space: `${ewsn[0]}${label}${number}`, isStart: true}`
      built from the three location selectors. */
  function StartNode(ewsn: string, slot: string, number: string): (b: Booth)
    ensures b.isStart && b.priority == NoPriority
    ensures ewsn != "" ==> b.space == [ewsn[0]] + slot + number
  {
    Booth(TemplateFirst(ewsn) + slot + number, NoPriority, true, "")
  }
}
