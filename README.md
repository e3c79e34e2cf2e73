# comiket_helper booth routing, modelled in Dafny

comiket_helper guides someone around the booths of a comic market. Each booth has a
code such as `東ア01a`:

- the hall character (here 東);
- the label of the island row (here ア);
- the seat number (here 01);
- a side letter (here a).

The engine parses these codes into a hall group, a label and a seat, and puts a cost
on moving between two booths. It orders the booths still to visit into a route and
keeps a ledger of purchases and holds, with undo and reset. A spreadsheet backend
serves the want-to-buy rows and records purchases. The logic exists in several
near-duplicate variants that differ in small ways, so each variant is its own module
here.

| module | file | models |
|---|---|---|
| `SpaceCode` | space_code.dfy | code parsing shared by the variants: the full-width to half-width shift, the label slot, the first-match hall rule over an ordered zone table, the leading ASCII-digit run and its value, seat folding at 32 |
| `JsValues` | js_values.dfy | JavaScript value quirks the code relies on: `Num` with `NaN` (NaN never wins a `<`), `TypeError` for `undefined[0]` / `undefined.charCodeAt`, template-string `${s[0]}` |
| `Zones` | zones.dfy | the four zone tables the variants carry (the two alphabets differ between variants) |
| `Booths` | booths.dfy | want-to-buy entries and `isHighPriority` with JavaScript `toUpperCase` |
| `Tour` | tour.dfy | routes over a distance matrix: permutations, path cost, segment reversal, the nearest-neighbour and 2-opt specifications |
| `TspSolver` | tsp_solver.dfy | webapp/js/tsp-solver.js: `parseSpace`, `calcDist` (weight 10), `solve` (nearest neighbour) |
| `Utils` | utils.dfy | webapp/utils.js and its copy in webapp/app.js: `distinct_space`, `calc_dist` (weight 20, 1000 hall penalty) |
| `JsRoute` | js_route.dfy | the distance matrix, nearest-neighbour and 2-opt loops shared by webapp/state.js, webapp/app.js and webapp/tsp.js |
| `StateTsp` | state_tsp.dfy | webapp/state.js (and its copy in webapp/app.js): `runTspAlgorithm`, `solveTsp` with the priority split |
| `TspJs` | tsp_js.dfy | webapp/tsp.js: `solveTsp` over all nodes |
| `Ledger` | ledger.dfy | list operations of the ledgers: filter, remove-all, `lastIndexOf`/`splice`, the unvisited filter |
| `WebState` | web_state.dfy | the `state` record of webapp/app.js and webapp/main.js |
| `WebApp` | web_app.dfy | the handlers of webapp/app.js |
| `MainJs` | main_js.dfy | the handlers of webapp/main.js |
| `WebDataManager` | data_manager.dfy | class `DataManager` of webapp/js/data-manager.js, with its sync queue |
| `WebController` | app_controller.dfy | class `App` of webapp/js/app.js |
| `Offline` | offline.dfy | offline/app.js: `distinct_space`, `calc_dist` (weight 4, 1e9), `calculateNextCircle`, the purchase list |
| `Pebble` | pebble.dfy | pebble/src/pkjs/index.js: `parseSpace`, `calcDist` (weight 7), pending purchases, next-target choice, the watch messages |
| `AppsScript` | apps_script.dfy | webapp/apps_script_code.js: `convertCharacters` and the extractor of `autoUpdateDate` |
| `SheetHandlers` | sheet_handlers.dfy | webapp/apps_script_code.js: `doGet` and `doPost` over an in-memory workbook |
| `TspLogic` | tsp_logic.dfy | TSP/logic.py: `calc_fool` (greedy) and `calc_opt` (2-opt) over a given matrix |
| `HeldKarp` | held_karp.dfy | TSP/logic.py: `calc_dp`, the Held–Karp bitmask dynamic programme |

Where the code changes state in place, the model does too:

- Classes (`DataManager`, `App`, the `state` record, the offline page, the watch
  companion, the workbook) have fields and `modifies` clauses.
- Loops become `while`/`for` loops with invariants.
- TSP/logic.py keeps its arrays: the `go` flags, the route reversed in place, and the
  `dp`/`parent` tables as `array2`.

Each loop is proved against a function or predicate that states what it computes.
The properties of that function are then proved as lemmas, for example:

- the result is a permutation and the start stays pinned;
- each 2-opt move strictly lowers the cost;
- the Held–Karp table entry is the least cost of any path over its mask.

## Model

| member | source | states |
|---|---|---|
| SpaceCode.ToHalfWidth | webapp/js/tsp-solver.js:10-15 | every char in U+FF01–U+FF5E moves down by 0xFEE0; every other char is kept; length is kept, so "" maps to "" |
| SpaceCode.ToHalfWidthKeepsAscii | webapp/utils.js:17-22 | text below U+FF01 (ASCII digits, letters) comes out unchanged |
| SpaceCode.FirstMatch | webapp/js/tsp-solver.js:28-34 | the index of the first zone, in table order, whose name starts with char 0 and whose labels contain char 1; -1 exactly when no zone matches |
| SpaceCode.LeadingDigits | webapp/js/tsp-solver.js:36-40 | the result is the maximal prefix of ASCII digits |
| SpaceCode.DigitsRoundTrip | webapp/js/tsp-solver.js:41 | the value of a number's decimal digits is that number |
| SpaceCode.LeadingZeroValue | webapp/js/tsp-solver.js:41 | leading zeros do not change the value `parseInt` reads |
| SpaceCode.ZerosValue | webapp/js/tsp-solver.js:41 | a run of zeros reads as 0 |
| SpaceCode.LeadingDigitsOfRun | webapp/js/tsp-solver.js:36-40 | a digit run followed by a non-digit yields exactly that run |
| SpaceCode.FoldSeat | webapp/js/tsp-solver.js:55-56 | seats up to 32 are kept, and every seat of an island (0..64) folds into 0..32 |
| SpaceCode.FoldMirror | webapp/js/tsp-solver.js:55-56 | seats s and 64 − s fold to the same value |
| JsValues.Abs | webapp/js/tsp-solver.js:58-59 | `Math.abs` is non-negative and equals x or −x |
| TspSolver.ParseSpace | webapp/js/tsp-solver.js:21-42 | an empty code gives ("", "", 0); otherwise the label slot is `space[1]` |
| TspSolver.ParseSpaceMeaning | webapp/js/tsp-solver.js:28-41 | the hall is "" iff no zone matches, else the first matching zone's name; the seat is the value of the maximal leading digit run of the half-width remainder (0 if none) |
| TspSolver.ParseSpaceRoundTrip | webapp/js/tsp-solver.js:21-42 | a code built from a zone's hall char and label, a seat with optional leading zeros and a non-digit suffix parses back to (zone, label, seat) |
| TspSolver.ParseSpaceAsWritten | webapp/js/tsp-solver.js:29 | with an absent zone table, every non-empty code throws a TypeError; "" still gives ("", "", 0) |
| TspSolver.LabelOptionsMissing | webapp/js/tsp-solver.js:29 | with the configuration as shipped, parsing any non-empty code, e.g. "東ア01", throws |
| TspSolver.FirstMatchIs | webapp/js/tsp-solver.js:28-34 | a matching zone with no earlier match is the one found |
| TspSolver.CostOf | webapp/js/tsp-solver.js:52-62 | 10000 whenever the hall groups differ; within a group 10·label distance + folded seat distance; a TypeError for an `undefined` label, NaN for an empty one |
| TspSolver.CalcDist | webapp/js/tsp-solver.js:47-63 | 10000 exactly across hall groups whatever the labels and seats; within a group, for codes of two or more chars, 10 × the absolute label code difference + the absolute folded seat difference (a shorter code within a group gives CostOf's TypeError or NaN, which this contract does not restate) |
| TspSolver.CalcDistSymmetric | webapp/js/tsp-solver.js:58-62 | `calcDist(a, b) == calcDist(b, a)` |
| TspSolver.CalcDistSelf | webapp/js/tsp-solver.js:58-62 | a code costs 0 to itself iff it has a label; a one-char code throws; "" gives NaN |
| TspSolver.CostFoldMirror | webapp/js/tsp-solver.js:55-56 | seats s and 64 − s give the same cost |
| TspSolver.CalcDistNumeric | webapp/js/tsp-solver.js:52-62 | between codes of two or more chars the cost is a non-negative number |
| TspSolver.NearestUnvisited | webapp/js/tsp-solver.js:82-93 | the first unvisited index at the strictly least cost; -1 when every remaining cost is NaN; a TypeError when some cost throws |
| TspSolver.Solve | webapp/js/tsp-solver.js:70-105 | [] for no candidates; otherwise a TypeError exactly when the greedy walk reaches a scan where an unvisited candidate's cost throws, and else the route from the start that takes, at each step, the earliest unvisited candidate of least numeric cost, stopping when every candidate is placed or only NaN costs remain |
| TspSolver.WalkPrefix | webapp/js/tsp-solver.js:75-102 | two walks of the scan agree on their common prefix, so the route is determined by the inputs |
| TspSolver.RouteExcludesThrow | webapp/js/tsp-solver.js:75-102 | once a route is returned, no walk reaches a scan that throws |
| TspSolver.WellFormedNeverThrows | webapp/js/tsp-solver.js:47-63 | when every code has two or more chars no scan throws, so solve returns a route |
| TspSolver.WellFormedRouteIsComplete | webapp/js/tsp-solver.js:81-104 | when every code has a label the route holds the start and every candidate exactly once |
| Utils.DistinctSpace | webapp/utils.js:24-45 | "" gives ["", "", ""]; otherwise the first-match hall key, `space[1]`, and the maximal leading digit string of the half-width remainder, left as text |
| Utils.DistinctSpaceHall | webapp/utils.js:31-36 | the hall key is "" iff no zone matches, else the first matching zone |
| Utils.NumberValue | webapp/utils.js:48 | `parseFloat(number) \|\| 0` of a digit string; "" reads as 0 |
| Utils.CalcDist | webapp/utils.js:47-61 | throws exactly on an `undefined` hall or, within a hall, an `undefined` label; 10000 when the first hall chars differ; else 20·label distance + folded seat distance + 1000 if the halls differ |
| Utils.CalcDistSymmetric | webapp/utils.js:54-60 | swapping the two points gives the same result |
| Utils.CalcDistByValue | webapp/utils.js:48-49 | only the numeric value of the seat strings matters |
| Utils.CalcDistSelf | webapp/utils.js:55-60 | a point with a label costs 0 to itself |
| Utils.PenaltyUnusedOnInitials | webapp/state.js:22-29 | called with first chars only, as the solvers do, the 1000 hall penalty never applies |
| Utils.PenaltyOnFullHalls | webapp/utils.js:55 | called with full hall keys, 東456 to 東7 at the same label and seat costs 1000 |
| Utils.CalcDistSeatRules | webapp/utils.js:48-52 | an empty seat reads as 0, and 60 folds to 4 |
| Offline.DistinctSpace | offline/app.js:37-58 | first-match hall over the offline table, `space[1]`, and the leading digit string |
| Offline.ParseNumber | offline/app.js:181 | `parseFloat` of the digit run: NaN when there are no leading digits, otherwise the digits' value |
| Offline.CalcDist | offline/app.js:159-169 | 1e9 when the first hall chars differ; else 4·label distance + folded seat distance; NaN for a NaN seat or empty label; a TypeError for an `undefined` target label |
| Offline.CalcDistSymmetric | offline/app.js:159-169 | swapping the two points gives the same result |
| Offline.Costs | offline/app.js:179-182 | one distance per target, in order |
| Offline.ScanDistances | offline/app.js:176-187 | the first target whose distance is strictly below 5e9 and below every earlier one, with that distance; -1 when none is; a TypeError when a distance throws |
| Offline.CalculateNextCircle | offline/app.js:171-191 | {message: "完了"} iff there are no targets; otherwise the first target of least distance with its distance attached, or nothing when every distance is NaN or too large |
| Offline.Choose | offline/app.js:173-191 | the choice made from a list of distances in target order: "完了" exactly for no targets, a TypeError exactly when some distance throws, nothing exactly when no distance is a number below 5e9, otherwise the first target of least distance |
| Offline.OtherBuildingIsFound | offline/app.js:162-163 | a target in another building (1e9) is still below the 5e9 start, so some target is chosen |
| Offline.MissingNumberNeverNearest | offline/app.js:181-183 | from 東456 ア 1, a target 東ア without a seat number costs NaN, which the strict `<` never takes |
| Offline.Candidates | offline/app.js:68-76 | no candidate's space is in the purchased list, and there are at most as many candidates as rows |
| Offline.CandidatesExact | offline/app.js:68-76 | the candidates are exactly the copies of the rows whose space is not purchased, each as often as among the copies and in their order (a subsequence of them); holds are not considered |
| Offline.UnboughtIsCandidate | offline/app.js:68-76 | every unpurchased row reaches the search as its copy |
| Offline.Page.constructor | offline/app.js:1-2 | the stored purchased list and no target |
| Offline.NextTargetOf | offline/app.js:60-79 | a found target's space is not in the purchased list, and the target the answer leaves is the one the search describes (IsNextTarget) |
| Offline.Page.UpdateNextTarget | offline/app.js:60-79 | the target becomes the first nearest candidate, or none when the search reports a message; the lists are unchanged |
| Offline.Page.Purchase | offline/app.js:128-139 | with a target that has a space: appends it, moves the location selectors to its hall, label and number (the label reads "" when no hall group matches, since `updateLabelOptions` then leaves the label select empty), and then the target becomes what the search from there over the unpurchased rows picks; without one nothing changes |
| Offline.Page.UndoLastPurchase | offline/app.js:141-147 | drops the last element and re-searches the target only when the list is non-empty; an empty list changes nothing |
| Offline.Page.ResetPurchasedList | offline/app.js:149-155 | when confirmed, empties the list and re-searches the target over all rows; otherwise nothing changes |
| Booths.Upper | webapp/state.js:89 | upper-cases each char, keeping the length |
| Booths.NumberPriority | webapp/state.js:87-91 | a numeric priority is high exactly for 4 and 5 |
| Booths.TextPriorityExamples | webapp/state.js:87-91 | "high", "High", "s", "高", "5" are high; "b", "" and an absent cell are not |
| JsRoute.HallNeedsLabel | webapp/utils.js:31-36 | a code with a hall group has a label char |
| JsRoute.Entry | webapp/state.js:20-29 | a matrix entry is non-negative when it does not throw |
| JsRoute.EntryIsPairCost | webapp/state.js:20-29 | the entry is `calc_dist` of the two parsed codes, called with first hall chars |
| JsRoute.EntrySymmetric | webapp/state.js:13-31 | the matrix is symmetric |
| JsRoute.Tabulate | webapp/state.js:13-31 | the nested loop fills 0 on the diagonal and the cost elsewhere, or throws iff some off-diagonal cost throws |
| JsRoute.MatrixOfEntries | webapp/state.js:13-31 | the filled matrix is square, symmetric and non-negative, and equals the entries off the diagonal |
| JsRoute.BuildMatrix | webapp/state.js:11-31 | throws iff there are two or more nodes and some code has no hall; else a cost matrix of the parsed codes |
| JsRoute.NearestRemaining | webapp/state.js:39-47 | the remaining node at strictly least distance, earliest on ties; -1 iff none remain |
| JsRoute.NearestNeighbour | webapp/state.js:33-51 | the nearest-neighbour tour from node 0: a permutation taking the earliest nearest remaining node at each step |
| JsRoute.ScanSegmentEnds | webapp/state.js:57-72 | the inner j loop: nodes and both ends kept; when it changes the path the cost strictly drops, and when it does not, no reversal starting after i would improve |
| JsRoute.TwoOptPass | webapp/state.js:56-73 | one pass: ends kept, the cost strictly lower when anything changed, and no change means a 2-opt local optimum |
| JsRoute.TwoOpt | webapp/state.js:53-74 | `while (improved)`: ends and nodes kept, cost never higher, and the result is a 2-opt local optimum |
| StateTsp.RunTspAlgorithm | webapp/state.js:4-80 | [] for no nodes; a TypeError iff some code has no hall; otherwise a permutation of the nodes, start omitted, from nearest neighbour then 2-opt over their matrix |
| StateTsp.RouteParts | webapp/state.js:76-79 | dropping the start from the route leaves a permutation of the input nodes |
| StateTsp.FindStart | webapp/state.js:85 | `nodes.find(n => n.isStart)`: the first start node, or none |
| StateTsp.GroupsPartition | webapp/state.js:93-94 | the high and normal groups split the targets exactly |
| StateTsp.NoStartThrows | webapp/state.js:85-97 | with no start node the solver throws |
| StateTsp.AllHighOrNormal | webapp/state.js:96-97 | with one group empty, the single route keeps the high-first order trivially |
| StateTsp.SplitHighFirst | webapp/state.js:100-104 | start, high route, then normal route puts every high node first |
| StateTsp.SolveTsp | webapp/state.js:82-105 | fewer than two nodes come back unchanged; a TypeError exactly when a code has no hall or the start is missing; otherwise the start, then every target once with all high ones first: with one group empty the targets follow runTspAlgorithm's nearest-neighbour + 2-opt route from the start, else the high group follows that route from the start and the normal group the route from the last high node |
| StateTsp.OneGroup | webapp/state.js:96-98 | one group: the start followed by the targets in the order of runTspAlgorithm's nearest-neighbour + 2-opt route from the start; a TypeError iff some code has no hall |
| StateTsp.TwoGroups | webapp/state.js:100-104 | both groups: the start, the high nodes in runTspAlgorithm's route from the start, then the normal nodes in its route from the last high node; a TypeError iff some code has no hall |
| StateTsp.ThenNormal | webapp/state.js:101-104 | the high path is kept and followed by the normal nodes in runTspAlgorithm's route from the last high node |
| StateTsp.NextStartFound | webapp/state.js:101-102 | the last high node has a hall, so the normal route throws only on a normal node |
| StateTsp.SplitThrows | webapp/state.js:93-104 | the split routes throw exactly when the single route would |
| TspJs.ConvertedPairCostSame | webapp/tsp.js:23-26 | `parseFloat(num) \|\| 0` before `calc_dist` gives the same cost as passing the digit string |
| TspJs.FirstStart | webapp/tsp.js:35-36 | the first node with `isStart`, or -1 |
| TspJs.StartIndex | webapp/tsp.js:35-36 | the start index is a valid node index for any non-empty node list |
| TspJs.SolveTsp | webapp/tsp.js:3-85 | fewer than two nodes come back unchanged; otherwise a permutation of all nodes with the start first; a TypeError iff some code has no hall |
| TspJs.SolvedParts | webapp/tsp.js:81-84 | the returned route is a permutation of the nodes beginning with the start |
| Ledger.PostUpdate | webapp/app.js:110-120 | nothing is sent when the URL is empty, and exactly the one payload otherwise |
| Ledger.Filter | webapp/main.js:87-89 | `filter` keeps only elements that pass, never more than it had |
| Ledger.FilterCount | webapp/js/data-manager.js:226 | each kept element keeps its multiplicity, each dropped one has none |
| Ledger.FilterSubsequence | webapp/main.js:258-262 | the filtered list keeps the original order |
| Ledger.RemoveAll | webapp/js/data-manager.js:226 | `filter(s => s !== x)`: x is gone and every other element keeps its count |
| Ledger.RemoveAllAfterAppend | webapp/js/data-manager.js:197-232 | removing a fresh x after appending it restores the list |
| Ledger.LastIndexOf | webapp/app.js:484 | the last index holding x, -1 iff x is absent |
| Ledger.RemoveLastCount | webapp/app.js:484-485 | `splice(lastIndexOf(x), 1)` removes one x when present and nothing otherwise |
| Ledger.RemoveLastAfterAppend | webapp/app.js:466-485 | undoing a push removes exactly that push |
| Ledger.RemoveLastKeepsPrefix | webapp/app.js:484-485 | the list before the removed occurrence is untouched |
| Ledger.DropKind | webapp/app.js:506-508 | an entry stays in the history iff it is of the other kind |
| Ledger.Unvisited | webapp/app.js:547-551 | the remaining rows are those whose code is in neither list |
| Ledger.UnvisitedInOrder | webapp/app.js:547-551 | the remaining rows keep their order |
| Ledger.UnvisitedFresh | webapp/js/data-manager.js:278-284 | with empty lists every row is unvisited |
| WebState.State.constructor | webapp/app.js:23-28 | the stored lists, no target, no rows |
| WebState.State.SetWantToBuy | webapp/app.js:448 | replaces the rows and nothing else |
| WebState.StartNode | webapp/app.js:563-566 | the start node is `${ewsn[0]}${label}${number}` with `isStart` |
| WebApp.HandleAction | webapp/app.js:459-476 | no target: nothing; a purchase pushes onto `purchasedList` (no duplicate check) and posts {space} when the URL field is non-empty; a hold pushes onto `holdList`; both record {type, space} and then re-search the target as `updateNextTarget` does |
| WebApp.HandleUndo | webapp/app.js:478-495 | empty history: nothing; otherwise pops the last entry, removes only the last occurrence of its space from the matching list, posts {space, undo:true} for a purchase when the URL field is non-empty, and re-searches the target |
| WebApp.HandleReset | webapp/app.js:497-512 | when confirmed: posts the batch undo only if purchases existed and the URL field is non-empty, empties `purchasedList`, keeps exactly the non-purchase entries of the history, leaves holds, and re-searches the target |
| WebApp.HandleHoldClear | webapp/app.js:514-522 | only when non-empty and confirmed: empties `holdList` and re-searches the target; the history is unchanged |
| WebApp.UpdateNextTarget | webapp/app.js:525-576 | no URL or no label: no change; no remaining rows: the target is cleared; when the solver throws the target is kept; otherwise the target is `path[1]` of solveTsp's priority-split route over the location and the remaining rows |
| WebApp.NextTargetIsRemaining | webapp/app.js:547-576 | a found target is a remaining booth, and a high-priority one iff a high-priority booth remains |
| MainJs.HandlePurchase | webapp/main.js:159-176 | without a target that has a space nothing happens; otherwise posts {space} when the URL field is non-empty, appends the space and {purchase, space}, and re-searches the target |
| MainJs.HandleHold | webapp/main.js:178-190 | without a target that has a space nothing happens; otherwise appends the space to `holdList` and {hold, space}, and re-searches the target |
| MainJs.HandleUndo | webapp/main.js:192-219 | empty history: nothing; otherwise pops the last entry, removes the last occurrence of its space, posts the undo only when that occurrence existed and the URL field is non-empty, and re-searches the target |
| MainJs.HandleResetList | webapp/main.js:221-241 | no-op on an empty list; when confirmed posts the batch (when the URL field is non-empty), empties `purchasedList`, drops the purchase history, leaves holds, and re-searches the target |
| MainJs.ResetHolds | webapp/main.js:80-95 | no-op on an empty hold list; when confirmed empties it, keeps exactly the non-hold entries of the history, leaves purchases, and re-searches the target |
| MainJs.UpdateNextTarget | webapp/main.js:244-288 | no URL: no change; nothing remaining: no target; when some code has no hall the solver throws and the target is kept; otherwise the target is `path[1]` of tsp.js's nearest-neighbour + 2-opt route from the location over the remaining rows |
| MainJs.NextTargetIsRemaining | webapp/main.js:258-281 | when the search succeeds, the target is one of the remaining rows |
| MainJs.SecondStopRemaining | webapp/main.js:277-288 | `path[1]` of a route over start and the remaining rows is a remaining row |
| WebDataManager.SuccessRun | webapp/js/data-manager.js:158-169 | the number of consecutive successful sends from position i, stopping at the first failure |
| WebDataManager.Delivered | webapp/js/data-manager.js:147-169 | no URL delivers nothing; otherwise every delivered item succeeded and the next one failed |
| WebDataManager.Posted | webapp/js/data-manager.js:158-169 | the items sent: the delivered prefix plus the failing head, nothing without a URL |
| WebDataManager.AfterSync | webapp/js/data-manager.js:122-129 | after `syncUpdate` the new payload is last in whatever is left of the queue |
| WebDataManager.DataManager.constructor | webapp/js/data-manager.js:8-23 | lists, history and queue as storage held them, no rows |
| WebDataManager.DataManager.SetGasUrl | webapp/js/data-manager.js:35-37 | stores the URL and nothing else |
| WebDataManager.DataManager.SetWantToBuy | webapp/js/data-manager.js:107 | replaces the rows and nothing else |
| WebDataManager.DataManager.AddHistory | webapp/js/data-manager.js:263-266 | appends {type, space} to the history |
| WebDataManager.DataManager.AddPurchased | webapp/js/data-manager.js:197-203 | a space already purchased changes nothing, history included; a new one is appended with a purchase entry; the list stays duplicate-free |
| WebDataManager.DataManager.AddHold | webapp/js/data-manager.js:208-214 | the same rule for `holdList` and "hold" |
| WebDataManager.DataManager.UndoLastAction | webapp/js/data-manager.js:219-233 | empty history returns null and changes nothing; otherwise removes and returns the last entry and removes every occurrence of its space from the matching list |
| WebDataManager.DataManager.PurchaseThenUndo | webapp/js/data-manager.js:197-232 | `addPurchased(x)` for a new x then `undoLastAction()` restores both lists and the history |
| WebDataManager.DataManager.ResetAll | webapp/js/data-manager.js:238-248 | empties both lists and the history and returns the former purchases |
| WebDataManager.DataManager.ResetHold | webapp/js/data-manager.js:253-258 | empties `holdList`, keeps exactly the non-hold entries of the history, leaves purchases |
| WebDataManager.DataManager.GetUnvisited | webapp/js/data-manager.js:278-284 | the rows in neither list, in their original order |
| WebDataManager.DataManager.AddToQueue | webapp/js/data-manager.js:134-142 | appends the payload at the tail |
| WebDataManager.DataManager.ProcessQueue | webapp/js/data-manager.js:147-173 | sends from the head, removing each item only after success, and stops at the first failure with that item still at the head; nothing without a URL |
| WebDataManager.DataManager.SyncUpdate | webapp/js/data-manager.js:122-129 | enqueues {space, undo} and drains |
| WebDataManager.DataManager.SyncBatch | webapp/js/data-manager.js:122-129 | enqueues {spaces, undo:true} and drains |
| WebController.App.constructor | webapp/js/app.js:9-13 | a data manager over the stored lists and no target |
| WebController.App.SearchNext | webapp/js/app.js:89-121 | no rows, nothing unvisited, or a throwing walk: the target stays and there is no preview; otherwise the target is `path[1]` of solve's greedy route from the location over the unvisited rows, with `path[2]` as preview; a route that stops at the location leaves the target |
| WebController.SearchFindsCandidate | webapp/js/app.js:105-116 | when every code has two or more chars, a search over unvisited rows always moves the target to one of them |
| WebController.App.HandleAction | webapp/js/app.js:126-143 | no target: nothing; a purchase calls `addPurchased` and always enqueues {space, undo:false}, even for a duplicate; a hold calls `addHold` and enqueues nothing; then `searchNext` runs from the updated location |
| WebController.App.HandleUndo | webapp/js/app.js:148-161 | enqueues {space, undo:true} only when the undone action was a purchase; empty history changes nothing |
| WebController.App.HandleReset | webapp/js/app.js:166-178 | when confirmed: `resetAll`, and the batch undo enqueued only for a non-empty backup |
| WebController.App.HandleResetHold | webapp/js/app.js:183-190 | no-op on an empty hold list; when confirmed `resetHold` and nothing enqueued |
| Pebble.ParseSpace | pebble/src/pkjs/index.js:24-44 | "" gives ["", "", 0]; otherwise the label slot is `space[1]` |
| Pebble.ParseSpaceMeaning | pebble/src/pkjs/index.js:30-43 | the first matching zone of the watch table, or ""; the leading-digit integer, or 0 |
| Pebble.ParseSpaceExample | pebble/src/pkjs/index.js:24-44 | "東ア01a" parses to (東456, ア, 1) |
| Pebble.InitialLocationParse | pebble/src/pkjs/index.js:67 | the initial location "東1ア01a" has label "1", which is in no zone, so it parses to ("", "1", 0) |
| Pebble.LabelOneInNoZone | pebble/src/pkjs/index.js:10-15 | no zone starting with 東 lists "1" |
| Pebble.CostOf | pebble/src/pkjs/index.js:52-60 | 10000 across hall groups; else 7·label distance + folded seat distance |
| Pebble.CalcDistMeaning | pebble/src/pkjs/index.js:46-61 | 10000 across hall groups; within one, a one-char code throws and two-char codes cost 7·label distance + folded seat distance |
| Pebble.CalcDistSymmetric | pebble/src/pkjs/index.js:57-60 | `calcDist(a, b) == calcDist(b, a)` |
| Pebble.CalcDistSelf | pebble/src/pkjs/index.js:57-60 | a code with a label costs 0 to itself |
| Pebble.CostFoldMirror | pebble/src/pkjs/index.js:54-55 | seats s and 64 − s give the same cost |
| Pebble.InitialLocationIsNowhere | pebble/src/pkjs/index.js:52 | from the initial location every booth of a known hall costs 10000 |
| Pebble.FirstLeast | pebble/src/pkjs/index.js:179-183 | with numeric keys, the index of the first least key |
| Pebble.Next | pebble/src/pkjs/index.js:179-183 | `unvisited[0]` after the sort: a row of the list, the only row when there is one; with two or more rows it throws iff some distance throws; with numeric distances it is the first row of least distance |
| Pebble.NumericNeverThrows | pebble/src/pkjs/index.js:179-181 | numeric distances never throw |
| Pebble.WellFormedCodesAreNumeric | pebble/src/pkjs/index.js:46-61 | between codes of two or more chars every distance is a number |
| Pebble.FirstPickFromInitialLocation | pebble/src/pkjs/index.js:179-183 | from the initial location, with rows of known halls, the first row is picked |
| Pebble.FirstOfTies | pebble/src/pkjs/index.js:179-183 | when all keys tie, the first row wins |
| Pebble.StillPending | pebble/src/pkjs/index.js:88-103 | the new pending list holds exactly the old pending codes still in the server list |
| Pebble.StillPendingIsCleanup | pebble/src/pkjs/index.js:88-103 | the cleanup keeps pending order and multiplicity, adds nothing, and a second cleanup changes nothing |
| Pebble.Listed | pebble/src/pkjs/index.js:92-98 | the inner loop finds the code iff some server row has it |
| Pebble.Unvisited | pebble/src/pkjs/index.js:165-167 | the server rows whose code is not pending |
| Pebble.PendingShrinksUnvisited | pebble/src/pkjs/index.js:240 | marking an unvisited row pending makes the unvisited list strictly shorter |
| Pebble.MarkPendingNoLonger | pebble/src/pkjs/index.js:240 | marking any code pending never lengthens the unvisited list |
| Pebble.Companion.constructor | pebble/src/pkjs/index.js:65-67 | no data, no pending codes, the initial location |
| Pebble.Companion.ServerList | pebble/src/pkjs/index.js:158-162 | the cached rows, when data with a list is cached |
| Pebble.Companion.Loaded | pebble/src/pkjs/index.js:82-103 | caches the response and replaces the pending list by its cleanup against the new server list |
| Pebble.Companion.UpdatePebble | pebble/src/pkjs/index.js:157-200 | nothing without data; "Finished!" when nothing is unvisited; otherwise the nearest unvisited row, its display name and the remaining count, or the TypeError the sort throws |
| Pebble.Companion.Bought | pebble/src/pkjs/index.js:225-255 | without data or with nothing unvisited nothing changes; a throwing sort changes nothing; otherwise the nearest target is appended to pending and becomes `lastSpace` (the unvisited list shrinks), the screen is refreshed, and the target is posted only when that refresh does not throw |
| Pebble.Companion.SetLoc | pebble/src/pkjs/index.js:256-263 | a supplied location replaces `lastSpace` and the screen is refreshed from it; otherwise nothing changes |
| AppsScript.ConvertChar | webapp/apps_script_code.js:3-10 | Ａ-Ｚ, ａ-ｚ, ０-９ move down by 65248; other chars except U+3000 and "．" are kept |
| AppsScript.Converted | webapp/apps_script_code.js:1-14 | the char-wise conversion keeps the length |
| AppsScript.ReplaceChar | webapp/apps_script_code.js:12 | a global replace of one char by another keeps everything else |
| AppsScript.ConvertCharacters | webapp/apps_script_code.js:1-14 | the loop and the two replacements compute the conversion |
| AppsScript.ConvertedIsNormal | webapp/apps_script_code.js:1-14 | converted text holds no full-width letter or digit, no U+3000 and no "．" |
| AppsScript.ConvertedIdempotent | webapp/apps_script_code.js:1-14 | converting twice equals converting once |
| AppsScript.ConvertedExample | webapp/apps_script_code.js:1-14 | "東Ａ０１ａ" becomes "東A01a" |
| AppsScript.RestStep | webapp/apps_script_code.js:32-52 | one step of the extractor for each flag state |
| AppsScript.Extract | webapp/apps_script_code.js:29-52 | the flag-driven loop computes the extracted code |
| AppsScript.BeforeHallSubsequence | webapp/apps_script_code.js:32-52 | the extracted code is a subsequence of the input |
| AppsScript.BeforeLabelSubsequence | webapp/apps_script_code.js:38-52 | after the hall char, the kept text is a subsequence of the rest |
| AppsScript.AfterLabelSubsequence | webapp/apps_script_code.js:43-51 | after the label, the kept text is a subsequence of the rest |
| AppsScript.BeforeHallShape | webapp/apps_script_code.js:32-52 | a non-empty result starts with a hall char, its second char is a label char, and the rest are ASCII digits and "a", with "b" allowed only as the last char |
| AppsScript.BeforeLabelShape | webapp/apps_script_code.js:38-52 | after the hall: a label char, then only digits, "a", and a final "b" |
| AppsScript.AfterLabelShape | webapp/apps_script_code.js:43-51 | after the label: only ASCII digits and "a", and "b" only as the last char |
| AppsScript.ExtractExamples | webapp/apps_script_code.js:32-52 | "於東ア01a" gives "東ア01a"; "西あ1b2" stops after the "b" |
| AppsScript.AutoUpdateDate | webapp/apps_script_code.js:19-56 | only an edit in column D of row ≥ 1 is rewritten, with the converted extract |
| AppsScript.FullWidthSeatDropped | webapp/apps_script_code.js:44-53 | as written, "東ア０１ａ" loses its seat and becomes "東ア", while "東ア01a" survives |
| AppsScript.NormalizedCodeIgnoresWidth | webapp/apps_script_code.js:53 | converting before extracting gives the same code for full- and half-width input and keeps "東ア０１ａ" as "東ア01a" |
| SheetHandlers.Split | webapp/apps_script_code.js:95 | `split(",")` yields at least one piece, none holding a comma |
| SheetHandlers.SplitJoin | webapp/apps_script_code.js:95 | joining the pieces with commas gives back the text |
| SheetHandlers.JoinSplit | webapp/apps_script_code.js:95 | splitting comma-free names joined by commas gives back the names |
| SheetHandlers.TrimStartMeaning | webapp/apps_script_code.js:95 | the text after its leading whitespace, starting with a non-space |
| SheetHandlers.TrimEndMeaning | webapp/apps_script_code.js:95 | the text before its trailing whitespace, ending with a non-space |
| SheetHandlers.TrimMeaning | webapp/apps_script_code.js:95 | `trim()` is a slice with only whitespace cut at both ends |
| SheetHandlers.TrimEdges | webapp/apps_script_code.js:95 | a trimmed name neither starts nor ends with whitespace |
| SheetHandlers.NormalizeHeader | webapp/apps_script_code.js:116 | a header lower-cased with whitespace removed holds no whitespace and no A-Z |
| SheetHandlers.NormalizeNormal | webapp/apps_script_code.js:116 | an already normal header is unchanged |
| SheetHandlers.NormalizeIdempotent | webapp/apps_script_code.js:116 | normalising twice equals normalising once |
| SheetHandlers.NormalizeExample | webapp/apps_script_code.js:116 | "So Ld" becomes "sold" |
| SheetHandlers.TargetNames | webapp/apps_script_code.js:93-96 | without a `sheets` parameter (or an empty one) the default sheet list is used |
| SheetHandlers.TargetNamesOfJoin | webapp/apps_script_code.js:94-96 | a comma-joined parameter yields each name trimmed, in order |
| SheetHandlers.RowObjectKeys | webapp/apps_script_code.js:121-125 | the row object has exactly the headers as keys |
| SheetHandlers.RowObjectLast | webapp/apps_script_code.js:122-124 | for a repeated header the last column wins |
| SheetHandlers.SheetResultMeaning | webapp/apps_script_code.js:119-132 | a sheet's result holds only rows with a truthy space and a soldout other than "x", and every such data row |
| SheetHandlers.Lookup | webapp/apps_script_code.js:102-108 | a named sheet when one exists, none iff no sheet has the name |
| SheetHandlers.FetchVisible | webapp/apps_script_code.js:101-136 | every row returned by `doGet` is visible |
| SheetHandlers.FetchAppend | webapp/apps_script_code.js:101-136 | the results of the sheets are concatenated in request order |
| SheetHandlers.FetchStep | webapp/apps_script_code.js:101-136 | one more requested sheet appends its own result |
| SheetHandlers.MissingSheetSkipped | webapp/apps_script_code.js:105-108 | a requested sheet that does not exist contributes nothing |
| SheetHandlers.FetchHasVisibleRows | webapp/apps_script_code.js:119-135 | every visible row of a requested sheet is in the result |
| SheetHandlers.IndexOf | webapp/apps_script_code.js:180-181 | `indexOf` is the first position of the header, -1 iff absent |
| SheetHandlers.Columns | webapp/apps_script_code.js:179-183 | the exact "space" and "soldout" columns of the header row, or none when the sheet is empty or lacks either |
| SheetHandlers.SetCell | webapp/apps_script_code.js:190 | writing a cell changes that cell only, extending a short row |
| SheetHandlers.SetCellTwice | webapp/apps_script_code.js:190 | the second write to a cell wins |
| SheetHandlers.WriteKeepsColumns | webapp/apps_script_code.js:190 | writing a status cell keeps the header columns and every space cell |
| SheetHandlers.ResetSheet | webapp/apps_script_code.js:186-193 | a reset keeps the sheet's name and row count |
| SheetHandlers.HitCount | webapp/apps_script_code.js:186-193 | the count never exceeds the number of data rows |
| SheetHandlers.ResetMeaning | webapp/apps_script_code.js:186-193 | a data row whose space is listed gets an empty status; every other row, and every sheet lacking a header, is unchanged |
| SheetHandlers.ResetIdempotent | webapp/apps_script_code.js:186-193 | a second batch reset changes nothing |
| SheetHandlers.FirstRow | webapp/apps_script_code.js:231-244 | the first row from i on whose space equals the code, or none |
| SheetHandlers.Hit | webapp/apps_script_code.js:216-246 | a hit is a matching data row of a sheet with both headers |
| SheetHandlers.HitMeaning | webapp/apps_script_code.js:216-246 | no earlier sheet has a hit |
| SheetHandlers.HitIsFirst | webapp/apps_script_code.js:216-246 | the hit is the first matching data row in sheet order; no hit means no data row anywhere matches |
| SheetHandlers.Marked | webapp/apps_script_code.js:214-246 | the single update keeps the number of sheets |
| SheetHandlers.MarkedMeaning | webapp/apps_script_code.js:231-244 | only the first matching row's status becomes "x", or "" on undo; nothing changes without a match |
| SheetHandlers.MarkedIdempotent | webapp/apps_script_code.js:231-244 | repeating the same update changes nothing more |
| SheetHandlers.MarkedRowHidden | webapp/apps_script_code.js:127-132 | a row marked "x" is filtered out of `doGet` |
| SheetHandlers.ClearedRowNotSoldOut | webapp/apps_script_code.js:190 | a cleared row reads soldout "" in `doGet` |
| SheetHandlers.Workbook.constructor | webapp/apps_script_code.js:165-166 | the workbook's sheets |
| SheetHandlers.Workbook.DoGet | webapp/apps_script_code.js:80-142 | "getSheets" lists the sheet names; otherwise the concatenated visible rows of the requested sheets |
| SheetHandlers.Workbook.SetValue | webapp/apps_script_code.js:190 | writes one cell of one sheet |
| SheetHandlers.Workbook.BatchReset | webapp/apps_script_code.js:170-201 | clears the status of every listed data row in every sheet with both headers, and counts them |
| SheetHandlers.Workbook.ResetRows | webapp/apps_script_code.js:186-193 | one sheet's row loop |
| SheetHandlers.Workbook.UpdateOne | webapp/apps_script_code.js:214-246 | found iff some sheet has a matching row; the first one is marked |
| SheetHandlers.Workbook.DoPost | webapp/apps_script_code.js:151-271 | an unparsable body is an error; {spaces, undo} resets in batch and reports the count; a missing space is an error with no change; otherwise the first match is updated, or "not found" |
| Tour.PermutationDistinct | TSP/logic.py:26-42 | a permutation has no repeated node |
| Tour.CoveringDistinctIsPermutation | TSP/logic.py:26-42 | distinct in-range nodes covering 0..n−1 form a permutation |
| Tour.ApplyPermutation | webapp/state.js:76-79 | mapping a permutation of indices onto the nodes permutes the nodes |
| Tour.RevMultiset | TSP/logic.py:176 | reversing keeps the nodes |
| Tour.ReverseSegmentMultiset | TSP/logic.py:88 | reversing a slice keeps the nodes and the length |
| Tour.ReverseSegmentAt | TSP/logic.py:88 | positions inside the slice are mirrored and the rest are kept |
| Tour.PathCostNonNegative | TSP/logic.py:67 | with non-negative distances the path cost is non-negative |
| Tour.PathCostConcat | TSP/logic.py:39 | the cost of a joined path adds the joining edge |
| Tour.PathCostRev | webapp/state.js:65 | with symmetric distances a reversed path costs the same |
| Tour.TwoOptDelta | TSP/logic.py:82-91 | reversing path[i+1..j] changes the cost by the new edge sum minus the current one |
| Tour.ReversalDelta | webapp/state.js:58-69 | reversing a middle segment changes the cost by d2 − d1 |
| Tour.NearestNeighbourUnique | TSP/logic.py:31-42 | the greedy tour with earliest tie-breaking is unique |
| Tour.ReversalStep | TSP/logic.py:86-92 | a reversal taken only when new < current keeps the nodes and both ends and strictly lowers the cost |
| TspLogic.CalcFool | TSP/logic.py:8-45 | `now >= n` stops; otherwise the greedy tour from `now`, a permutation of 0..n−1, with `dist_sum` its cost |
| TspLogic.GreedyExtend | TSP/logic.py:31-42 | appending the scan's pick keeps the route distinct and greedy |
| TspLogic.NearestUnvisited | TSP/logic.py:32-38 | the lowest-index unvisited node at strictly least distance, -1 iff all are visited |
| TspLogic.ReverseSlice | TSP/logic.py:88 | `path[i+1:j+1] = path[i+1:j+1][::-1]` in place |
| TspLogic.ImproveOnce | TSP/logic.py:72-95 | on improvement the path is the reversal of the first pair, in the i-then-j scan order, whose reversal strictly lowers the cost (FirstImprovement), with ends kept and `path_length` the true, lower cost; no pair improves means the path is unchanged and a 2-opt local optimum |
| TspLogic.CalcOpt | TSP/logic.py:49-103 | ends and nodes kept, `path_length` the true cost and never higher, and the result a 2-opt local optimum |
| HeldKarp.HasPow2 | TSP/logic.py:125 | the mask `1 << start` holds only the start |
| HeldKarp.HasRemove | TSP/logic.py:135 | `s ^ (1 << v)` of a mask holding v is s without v |
| HeldKarp.HasFull | TSP/logic.py:153 | `(1 << n) - 1` holds exactly the nodes below n |
| HeldKarp.Init | TSP/logic.py:122-125 | the initial table is finite only at `dp[1 << start][start]` |
| HeldKarp.Scan | TSP/logic.py:139-147 | the u-loop's best predecessor, -1 iff the minimum stays infinite |
| HeldKarp.ScanMin | TSP/logic.py:139-147 | the scan's minimum is no more than any finite predecessor's cost plus its edge |
| HeldKarp.ScanWitness | TSP/logic.py:139-151 | the chosen predecessor is in the mask and achieves the minimum |
| HeldKarp.DpSound | TSP/logic.py:125-151 | a finite `dp[s][v]` is the cost of the reconstructed path from the start over exactly the nodes of s, ending at v |
| HeldKarp.DpOptimal | TSP/logic.py:125-151 | every path from the start over exactly s ending at v costs at least `dp[s][v]`, which is then finite |
| HeldKarp.Relax | TSP/logic.py:139-147 | the u-loop computes the scan |
| HeldKarp.FillCell | TSP/logic.py:135-151 | one cell gets its final value and parent; no other cell changes |
| HeldKarp.FillRow | TSP/logic.py:131-151 | the v-loop completes one mask row |
| HeldKarp.FillTables | TSP/logic.py:122-151 | after the mask loop `dp` and `parent` hold the least costs and their predecessors |
| HeldKarp.CalcDp | TSP/logic.py:106-183 | a start out of bounds stops; otherwise a route that visits every node once starting at the start, whose cost is no more than that of any such route |
| HeldKarp.RouteOptimal | TSP/logic.py:153-165 | the selected minimum is no more than the cost of any full route from the start |
| HeldKarp.SelectLast | TSP/logic.py:153-165 | the chosen last node has a finite full-mask cost that is no more than any other node's finite full-mask cost |
| HeldKarp.SingleCity | TSP/logic.py:157-159 | for one city the full-mask cost is 0 |
| HeldKarp.WalkBack | TSP/logic.py:166-176 | following `parent` back from the last node and reversing gives the best path |
| HeldKarp.FullPathIsPermutation | TSP/logic.py:166-179 | a path over the full mask is a permutation of the nodes |

## Left out

- UI and DOM: element lookups, toasts, tweet embeds, the radar canvas and pinch zoom are not modelled. The location selectors are string inputs and `confirm()` is a boolean input.
- Network I/O (`fetch`, XHR, `sendToGas`) is left out. Each send's outcome is the `reply` input of `ProcessQueue`. A post in webapp/app.js and webapp/main.js is returned as the list of payloads `postUpdate` sends: none when the URL field is empty, else the one payload.
- Persistence is not modelled: localStorage reads become constructor arguments and writes are dropped.
- Timing and concurrency: `setTimeout`, `setInterval`, async/await and the `isProcessing` flag are left out. The queue drain is one sequential loop. The searches that `updateNextTarget` and `searchNext` defer with `setTimeout` run at once, at the end of the handler that schedules them.
- The `Date.now`/`Math.random` queue ids are dropped: the queue holds payloads only.
- The Google Apps Script services are replaced by an in-memory workbook of string cells. `JSON.parse` of the post body becomes an optional `PostData` input. Only string cells are modelled, so `undo` is a boolean and truthiness of other cell types is not covered.
- `toLowerCase` and `toUpperCase` are modelled for ASCII letters (plus ſ and ı for upper case). Other Unicode case mappings are treated as identity.
- Strings are sequences of code points, not UTF-16 code units. This matters only for chars outside the basic plane.
- `parseFloat` is modelled on the leading ASCII-digit strings the parsers produce, not on general text (signs, decimals, exponents).
- Pebble.Next: the `sort` comparator with NaN keys is not modelled as a sort. With NaN keys only membership and throwing are stated, because the engine's sort order is then unspecified.
- Pebble.Next, Pebble.FirstPickFromInitialLocation, Pebble.FirstOfTies: `sort` is assumed stable, as ECMAScript 2019 and later require. On an older engine with an unstable sort (V8 before 7.0, for example, used quicksort on arrays longer than 10), the pick is some row of least distance and not necessarily the first; from the initial location every known-hall row ties at 10000, so which row Pebble.Companion.UpdatePebble and Pebble.Companion.Bought show there rests on this assumption.
- SheetHandlers.Workbook.DoPost: `{space}` without `undo` reads as `undo: false`, and the catch-all error reply covers only an unparsable body.
- HeldKarp.CalcDp: the dead `n == 0` check is not modelled, because a start below n implies n > 0. The printed `min_tour_dist` becomes the returned route's cost.
- TspLogic.CalcFool requires every distance below 10^10, the scan's starting bound. Without that, the Python code would append -1 to the route.
- TspLogic.CalcOpt: the 10-second time limit is left out, so the model always reaches a 2-opt local optimum.
- The pandas CSV reading and writing of TSP/logic.py, the `math.sqrt` Euclidean distances (the matrix is an input), and the top-level script are left out.
- Distances are integers throughout. The Python distances are floats; the model takes them as given integers.
- The matrix solvers (`TspLogic`, `JsRoute`) require a symmetric non-negative matrix, which 2-opt termination needs. `JsRoute.MatrixOfEntries` proves that the webapp's own matrix has that form.
- WebController.App.HandleAction: the location selectors that `updateCurrentLocation` (webapp/js/app.js:141) sets before the search are inputs, because that update writes DOM selects and rounds the seat to the nearest listed option.
- The zone table that webapp/utils.js imports from config.js is not shown. `MainJs.UpdateNextTarget` takes it as a parameter.
- Config.LABEL_OPTIONS, read by webapp/js/tsp-solver.js, is absent from webapp/js/config.js. The corrected parser uses the `AREAS` areas (see Findings).
- `getSheets`, the sheet-list fetch and the selected-sheet bookkeeping of the data manager are left out. They are I/O wrappers.
- The per-area remaining counters and `updateLabelOptions` in offline/app.js, webapp/app.js and webapp/main.js are left out. They only drive the DOM.
- `sortTargets` in webapp_old/js/modal-manager.js is left out, because it relies on locale-dependent collation.
- The scrapers, OCR, the watch UI in C, the service worker and the plotting scripts are not part of this model.

## Findings

| source | as written | input that shows it | evidently intended | confidence | as-written member | corrected member |
|---|---|---|---|---|---|---|
| webapp/js/tsp-solver.js:29 | the hall lookup iterates `Object.entries(Config.LABEL_OPTIONS)`, but config.js defines no `LABEL_OPTIONS`, so `Object.entries(undefined)` throws | any non-empty code, e.g. "東ア01" | look the hall up in the configured `AREAS` list | high, not executed | TspSolver.LabelOptionsMissing | TspSolver.ParseSpaceMeaning |
| webapp/apps_script_code.js:44-53 | after the label only ASCII digits and "a"/"b" are kept, and the full-width conversion runs after extraction, so a full-width seat is dropped | "東ア０１ａ" is written back as "東ア" | convert first, then extract, giving "東ア01a" | medium, not executed | AppsScript.FullWidthSeatDropped | AppsScript.NormalizedCodeIgnoresWidth |
