# Dock yard store, modelled in Dafny

The dock-yard dashboard keeps one in-memory store. It holds:

- 21 loading docks, each with a status, an optional vehicle assignment, a crew list and an optional running timer;
- a pool of crew members not placed on a dock, each tagged with a holding area (unassigned, on break, absent, Starkist C/D);
- a map from crew ids to names;
- the list of finished time records;
- the set of statuses the dashboard shows, and the search text.

Handlers change the store:

- cycling or setting a dock's status;
- saving the edit dialog's patch;
- starting and stopping a dock's timer;
- dragging crew onto a dock or into a pool;
- the crew manager's add, rename, delete and move.

Derived views are computed from the store:

- the visible docks;
- the utilization and crew-total figures;
- the crew roster;
- the CSV export of the records;
- the blocks the daily schedule grid draws.

The model is split into one module per concern:

- `Domain`: statuses, pool tags, docks, pool entries, time records and the drag payload.
- `Decimal` and `Duration`: `String(n)`, `pad2` and `fmtDuration`.
- `DockOps`: the per-dock state machine (status cycling, the edit patch, timer start and stop).
- `Crew`: crew placement steps, the unique-placement invariant and the crew id allocator `nextCrewId`, a method with its two loops.
- `Views`:
  - search and filters;
  - the utilization and crew-total figures;
  - the crew roster, built by a method that fills an insertion-ordered id set.
- `Csv`: field quoting, row building, the exported text, and a reader used to prove that the export reads back.
- `Schedule`: clipping of record blocks and live blocks to the grid window.
- `Store`: the class `DockYard`, whose fields are the store's state and whose methods are the handlers, each proved against the functions above. Also the opening state and the lemmas about allocating crew ids from it.

Every dock's `startedAt` and `runningLabel` are modelled as `Option`s. A timer runs exactly when `startedAt` is present. `DockYard.Valid()` keeps two things:

- the layout: 21 docks `dock_1` … `dock_21` in order;
- the pairing `startedAt` present ⇔ `runningLabel` present.

Unique placement of crew ids ("every crew id is in at most one place") is not part of `Valid()`. The drag handlers keep it only when the drag payload names the dock that actually holds the crew member. Each handler states it as a conditional guarantee.

The CSV duration column is `Math.round` of the elapsed seconds, clamped at zero.

## Model

| member | source | states |
|---|---|---|
| Domain.StatusIndex | src/App.jsx:57-67 | every status has a position below nine in the status table, and the table holds that status at that position |
| Domain.PoolLabel | src/App.jsx:206-215 | every pool has a non-empty heading |
| Domain.PoolLabelInjective | src/App.jsx:206-215 | different pools have different headings |
| Domain.Accepted | src/App.jsx:220-229 | a drag payload is accepted exactly when it is present and its crew id is non-empty, and then it is passed on unchanged |
| Decimal.NatToString | src/App.jsx:187-189 | String(n) is a non-empty run of decimal digits with no leading zero (it starts with 0 exactly when n is 0); it has one digit exactly when n < 10 and two exactly when 10 <= n < 100 |
| Decimal.ParseNatToString | src/App.jsx:187-189 | the decimal rendering of n reads back as n |
| Decimal.NatToStringInjective | src/App.jsx:187-189 | different numbers have different renderings |
| Decimal.Pad2 | src/App.jsx:187-189 | padStart(2, "0") is String(n) itself from 10 on and "0" followed by String(n) below 10: at least two digits, exactly two below 100 |
| Decimal.ParsePad2 | src/App.jsx:187-189 | the padded rendering reads back as the number |
| Decimal.Pad2Injective | src/App.jsx:187-189 | different numbers have different padded renderings |
| Duration.Split | src/App.jsx:190-195 | minutes and seconds are below 60, and hours*3600 + minutes*60 + seconds equals the input |
| Duration.FmtDuration | src/App.jsx:190-195 | fmtDuration is digits with colons three and six places from the end; it is exactly eight characters below 100 hours, and from 100 hours on the hours carry no leading zero |
| Duration.FmtDurationRoundTrip | src/App.jsx:190-195 | fmtDuration has the H+:MM:SS colon layout; its three fields read back as the hours, the minutes (below 60) and the seconds (below 60) of the input, and the whole reads back as the number of seconds |
| DockOps.Next | src/App.jsx:284-292 | the next status is the following entry of the table, wrapping from the last to the first |
| DockOps.CycleNIndex | src/App.jsx:284-292 | n cycles move a status n places along the table, modulo nine |
| DockOps.CycleNRestore | src/App.jsx:284-292 | n cycles give back the starting status exactly when n is a multiple of nine |
| DockOps.MapDockOnlyTarget | src/App.jsx:284-297 | the per-dock update changes the docks with the given id and leaves every other dock in place and unchanged |
| DockOps.Cycled | src/App.jsx:284-292 | one press changes only the status, to the next one |
| DockOps.WithStatus | src/App.jsx:293-297 | the selector leaves every field but the status as it was, and the status is the chosen one |
| DockOps.CycleTimesAt | src/App.jsx:284-292 | cycling one dock n times moves that dock n statuses on and leaves every other dock as it was |
| DockOps.NineCyclesRestoreDocks | src/App.jsx:284-292 | nine presses on one dock give back the dock list unchanged |
| DockOps.EditPatch | src/App.jsx:1136-1142 | the saved patch keeps the chosen status; its assignment is absent exactly when carrier, trailer and destination are all empty, and otherwise holds the three as typed |
| DockOps.Patched | src/App.jsx:402-405 | the patch sets status and assignment; id, name, crew and timer fields are untouched |
| DockOps.SaveIdempotent | src/App.jsx:402-405 | saving the same patch twice equals saving it once |
| DockOps.Toggled | src/App.jsx:407-442 | a running timer stops and the dock becomes Completed with no label; an idle dock with a startable status starts at now with the status's label; an idle dock with any other status is unchanged; id, name, crew and assignment never change; the timer pairing is kept |
| DockOps.StopRecord | src/App.jsx:411-432 | the record has the dock's id and name, start = startedAt, end = now, the captured label (or the status label when none was captured), and the assignment's carrier, trailer and destination (or empty strings) |
| DockOps.RecordLabel | src/App.jsx:420-422 | a record's label is never empty: the label captured at start when it is non-empty, otherwise the label of the dock's status |
| DockOps.StartThenStop | src/App.jsx:407-442 | starting then stopping, even after a status change in between, records the label captured at start and the two times, and leaves the dock Completed with no timer |
| Crew.Without | src/App.jsx:324-326 | filter keeps exactly the elements other than the id, and is the identity when the id is absent |
| Crew.WithoutConcat | src/App.jsx:390-400 | filtering distributes over concatenation, so the remaining ids keep their relative order |
| Crew.WithoutNoDup | src/App.jsx:390-400 | filtering never creates a duplicate |
| Crew.PoolWithout | src/App.jsx:329 | removing an id from the pool keeps exactly the other entries, and the pool ids are the filtered ids |
| Crew.PlaceInPool | src/App.jsx:354-359 | an existing entry is retagged in place and every other entry stays at its position unchanged; otherwise a new entry goes to the front of the unchanged pool |
| Crew.PlaceInPoolNoDup | src/App.jsx:354-359 | sending an id to a pool keeps the pool ids unique, and the id is then in the pool |
| Crew.ClearFromDock | src/App.jsx:322-328 | every dock other than the payload's origin is unchanged (with no origin, the whole list); the origin's crew list is its old list with the crew id filtered out, order kept; no duplicate is created |
| Crew.AddToDock | src/App.jsx:330-338 | the target dock gains the crew id at the end if it was absent; every other dock, and the target when it already held the id, is unchanged; no duplicate is created |
| Crew.RemoveFromAllDocks | src/App.jsx:732-738 | every dock's crew list is filtered of the id; only crew lists change |
| Crew.DropToDockUnique | src/App.jsx:317-339 | with a truthful origin, unique placement is kept and the crew id ends up on the target dock only |
| Crew.DropToDockIdempotent | src/App.jsx:317-339 | repeating the same drop on a dock changes nothing further |
| Crew.DropToPoolUnique | src/App.jsx:340-360 | with a truthful origin, unique placement is kept and the crew id ends up in the pool and on no dock |
| Crew.MoveToUnique | src/App.jsx:731-745 | from any state with unique placement, the move keeps it and leaves the crew id in the pool with the chosen tag and on no dock |
| Crew.DeleteUnique | src/App.jsx:390-400 | deleting a crew id keeps unique placement |
| Crew.DeleteUnknownNoop | src/App.jsx:390-400 | deleting an id that is nowhere leaves the pool and the docks unchanged |
| Crew.CandidateIdInjective | src/App.jsx:362-382 | the candidate ids C01, C02, …, C99, C100, … are pairwise different |
| Crew.NextCrewId | src/App.jsx:362-382 | the result is the first candidate id that has no name, no pool entry and no dock place (the taken test of lines 365-369) |
| Crew.CandidateId | src/App.jsx:364-374 | the k-th candidate is "C" followed by two digits below 100 ("C0" and the digit below 10) and by String(k) without a leading zero from 100 on |
| Crew.AddFreshUnique | src/App.jsx:383-387 | putting a fresh id at the front of the pool keeps unique placement |
| Views.ContainsIff | src/App.jsx:502 | includes holds exactly when the query occurs at some position of the text |
| Views.SearchText | src/App.jsx:498-500 | the searched text is the dock name, a space, the trailer, a space and the carrier, with the two empty strings when there is no assignment |
| Views.VisibleDocks | src/App.jsx:493-504 | a dock is visible exactly when its status is selected and, for a non-empty query, its lower-cased name, trailer and carrier text contains the lower-cased query |
| Views.VisibleConcat | src/App.jsx:493-504 | the filter distributes over concatenation, so visible docks keep the dock order |
| Views.VisibleAll | src/App.jsx:493-504 | with every status selected and no query, every dock is visible |
| Views.AvailableOnly | src/App.jsx:493-504 | with only Available selected a Loading dock is never visible; an Available dock is, when the query is empty or matches it |
| Views.AllStatuses | src/App.jsx:268-270 | the full selection has nine statuses |
| Views.FullIffNine | src/App.jsx:298-303 | a selection has size nine exactly when it holds every status |
| Views.ToggleFilter | src/App.jsx:304-309 | the toggled status flips membership; every other status keeps it |
| Views.ToggleFilterTwice | src/App.jsx:304-309 | toggling a status twice restores the selection |
| Views.ToggleAll | src/App.jsx:298-303 | a full selection becomes empty; any other selection becomes full |
| Views.RoundedPercent | src/App.jsx:278-283 | Math.round(100*b/n) lies in 0..100 and is within half a unit of the exact percentage, an exact half rounding up |
| Views.Utilization | src/App.jsx:278-283 | the utilization figure lies in 0..100 and is the nearest integer to the busy percentage |
| Views.BusyCount | src/App.jsx:279-281 | the busy count is at most the number of docks; it equals it exactly when every dock is busy and is zero exactly when none is |
| Views.BusyCountConcat | src/App.jsx:279-281 | the busy count of a split dock list is the sum of the counts of its parts |
| Views.BusyCountOne | src/App.jsx:279-281 | a single dock counts one exactly when it is busy, so with the split the count is the length of the filtered list |
| Views.OddNoTie | src/App.jsx:278-283 | with an odd number of docks the exact percentage is never a tie, so the rounded value is strictly nearest |
| Views.UtilizationNoTie | src/App.jsx:278-283 | with the yard's 21 docks the rounding never meets a tie |
| Views.AllCrew | src/App.jsx:759-765 | the docks' crew lists together hold exactly the ids placed on some dock |
| Views.SumCrew | src/App.jsx:759-765 | the reduce over the docks counts every dock place |
| Views.CrewTotal | src/App.jsx:759-765 | the Crew Total is the pool size plus the number of dock places |
| Views.AllCrewNoDup | src/App.jsx:759-765 | under unique placement the dock places hold no id twice and share none with the pool |
| Views.CrewTotalIsRosterSize | src/App.jsx:759-765 | under unique placement the Crew Total equals the number of roster rows |
| Views.AppendNewProps | src/App.jsx:506-508 | adding ids to an insertion-ordered set keeps the earlier ids in front, holds exactly the old and new ids, and adds no duplicate |
| Views.RosterIdsProps | src/App.jsx:505-515 | the roster lists every id in the pool or on a dock exactly once, pool ids first in pool order |
| Views.FindPool | src/App.jsx:510 | a pool entry is found exactly when the id is in the pool, and it carries that id |
| Views.FindPoolFirst | src/App.jsx:510 | the entry found is the first one with the id |
| Views.FindDock | src/App.jsx:511 | a dock is found exactly when some dock holds the id, and it is the first such dock |
| Views.DisplayName | src/App.jsx:277 | the shown name is the stored non-empty name, else the id, so it is never blank for a non-empty id |
| Views.PoolLocation | src/App.jsx:509-513 | an id with a pool entry is located under that entry's pool heading |
| Views.Location | src/App.jsx:512 | an id in the pool is located under the heading of a pool entry it has; otherwise, if a dock holds it, at the name of a dock that holds it; otherwise "unknown" |
| Views.DockLocation | src/App.jsx:509-513 | under unique placement an id on a dock is located at that dock's name |
| Views.RosterLocations | src/App.jsx:505-515 | a roster id is always found in the pool or on a dock, so "unknown" is never shown; under unique placement the location is its pool heading or its dock |
| Views.AddAll | src/App.jsx:506-508 | the Set.add loop gives the insertion-ordered set of the old ids and the new ones |
| Views.CrewRows | src/App.jsx:505-515 | the rows are one per roster id, in roster order, each with the id, its shown name and its location |
| Csv.DoubleQuotesLength | src/App.jsx:476 | doubling quotes lengthens a field by exactly its number of double quotes |
| Csv.ReadQuotedDoubled | src/App.jsx:476 | a field with its quotes doubled and a closing quote after it reads back as the field, leaving the rest of the text |
| Csv.EscapeUnchangedIff | src/App.jsx:474-477 | a field is written unchanged exactly when it holds no double quote, comma or line feed; otherwise it is wrapped in double quotes |
| Csv.CarriageReturnNotQuoted | src/App.jsx:476 | a field with a bare carriage return is not quoted, while one with a line feed is |
| Csv.DurationSec | src/App.jsx:457 | the duration is the elapsed seconds rounded half up, within half a second of the elapsed time, and zero when less than half a second elapsed |
| Csv.RecordFields | src/App.jsx:456-468 | each record gives nine columns, as many as the header |
| Csv.Rows | src/App.jsx:445-470 | the rows are the nine-column header followed by one row per record, in record order |
| Csv.EscapeAll | src/App.jsx:474-477 | a row's fields are escaped one by one, keeping their number and order |
| Csv.Lines | src/App.jsx:472-479 | one text line per row, in row order, each the row's escaped fields joined by commas |
| Csv.JoinFirst | src/App.jsx:478-480 | a join starts with its first part, and a join of one part is that part |
| Csv.ExportCsv | src/App.jsx:470-480 | the exported text starts with the header line, and is exactly the header line when there are no records |
| Csv.ExportReadsBack | src/App.jsx:444-480 | reading the exported text back gives exactly the header and the record rows, whatever quotes, commas or line feeds the fields hold |
| Schedule.FixedBlock | src/App.jsx:1486-1491 | a record's block keeps its dock and label, is not live and is the record cut to the window: each end moves only inward and only to the window's edge; it runs forward exactly when the record does, meets the window and the window is not empty |
| Schedule.FixedBlocks | src/App.jsx:1484-1491 | a record gives a block exactly when it overlaps the window; each block is the record clipped to the window, is not live, and runs forward when the record does |
| Schedule.FixedBlocksConcat | src/App.jsx:1484-1491 | clipping keeps the record order |
| Schedule.RunningLabel | src/App.jsx:1481 | a live block's label is never empty: the label captured at start when it is non-empty, a fixed "in progress" label otherwise |
| Schedule.LiveBlock | src/App.jsx:1476-1483 | a running dock's block keeps the dock's id and name, is live, starts at the later of its start and the window's opening and ends at the earlier of now and the window's close; it runs forward exactly when the timer started by now and by the close and the window opened by now |
| Schedule.RunningBlocks | src/App.jsx:1474-1483 | as written: every running dock started before the window closes gives one live block; it lies in the window only once the window has opened |
| Schedule.RunningBlocksConcat | src/App.jsx:1474-1483 | the running blocks keep the dock order |
| Schedule.RunningBlocksOne | src/App.jsx:1474-1483 | as written, a dock gives exactly one block when its timer runs and started before the close, none otherwise |
| Schedule.RunningBlockBeforeOpening | src/App.jsx:1474-1483 | as written, before the window opens, a timer started earlier gives a block that ends before it starts |
| Schedule.LiveBlocks | src/App.jsx:1474-1483 | corrected: a running dock gives a live block exactly when its timer interval overlaps the window, and every such block lies in the window and runs forward |
| Schedule.LiveBlocksConcat | src/App.jsx:1474-1483 | corrected: the live blocks keep the dock order |
| Schedule.LiveBlocksOne | src/App.jsx:1474-1483 | corrected: a dock gives exactly one block when its running interval overlaps the window, none otherwise |
| Schedule.LiveBlocksAgree | src/App.jsx:1474-1483 | once the window has opened the corrected live blocks equal the ones as written |
| Schedule.Blocks | src/App.jsx:1492 | as written: the record blocks then the running blocks, no more than records plus docks |
| Schedule.BlocksInWindow | src/App.jsx:1474-1492 | as written, once the window has opened, every drawn block lies inside the window and runs forward; record blocks come first and are not live, running blocks follow |
| Schedule.BlocksBeforeOpening | src/App.jsx:1474-1492 | as written, before the window opens, the grid draws a block that ends before it starts, where the corrected composition draws none |
| Schedule.CorrectedBlocks | src/App.jsx:1492 | corrected: the record blocks then the corrected live blocks, no more than records plus docks |
| Schedule.CorrectedBlocksInWindow | src/App.jsx:1474-1492 | corrected: at any time of day every drawn block lies inside the window and runs forward, record blocks first and not live, live blocks after |
| Schedule.BlocksAgree | src/App.jsx:1474-1492 | once the window has opened the corrected composition draws exactly what the program draws |
| Store.InitDocks | src/App.jsx:231-239 | the opening dock list has 21 docks, number i+1 at position i |
| Store.LayoutDistinct | src/App.jsx:137 | the docks dock_1 … dock_21 have pairwise different ids |
| Store.DockIndex | src/App.jsx:407-410 | the index found holds the dock with the id, and none is found exactly when no dock has it |
| Store.ToggleDocks | src/App.jsx:407-442 | toggling a timer keeps the layout, the timer pairing and every crew list, changes only the dock with the id, and changes nothing for an idle dock whose status is not startable |
| Store.OpeningValid | src/App.jsx:231-250 | the opening state has the layout, consistent timers and every crew member in one place |
| Store.DockYard.constructor | src/App.jsx:262-271 | the store opens with the 21 idle docks, crew C01 to C05 unassigned and named, no records, every status shown and an empty search |
| Store.DockYard.CycleStatus | src/App.jsx:284-292 | the dock with the id moves to the next status; every other dock and all other state are unchanged |
| Store.DockYard.SetDockStatus | src/App.jsx:293-297 | the dock with the id takes the chosen status; nothing else changes |
| Store.DockYard.SaveDock | src/App.jsx:402-405 | the dock with the id takes the patch; nothing else changes |
| Store.DockYard.ToggleTimer | src/App.jsx:407-442 | the dock with the id is toggled and the others are unchanged; stopping a running timer puts exactly one record at the front, otherwise the records are unchanged; an idle non-startable dock leaves the docks unchanged; unique placement is kept |
| Store.DockYard.ToggleFilter | src/App.jsx:304-309 | the toggled status flips membership in the selection; the store invariant is kept |
| Store.DockYard.ToggleAll | src/App.jsx:298-303 | the selection becomes the toggled-all selection; the store invariant is kept |
| Store.DockYard.DropToDock | src/App.jsx:317-339 | no payload is a no-op; otherwise the crew id leaves its origin dock and the pool and joins the target; with a truthful origin, unique placement is kept and only the target holds the id |
| Store.DockYard.DropToPool | src/App.jsx:340-360 | no payload is a no-op; otherwise the crew id leaves its origin dock and takes the pool's tag; with a truthful origin, unique placement is kept and the id is in the pool and on no dock |
| Store.DockYard.MoveTo | src/App.jsx:731-745 | the crew id leaves every dock and takes the chosen tag; unique placement is kept unconditionally |
| Store.DockYard.AddCrew | src/App.jsx:383-387 | the new id is the first free candidate; it is named (the id itself when the name is empty) and put at the front of the pool; unique placement is kept |
| Store.DockYard.RenameCrew | src/App.jsx:388-389 | the id's name becomes the new name, or the id when the new name is empty; the store invariant is kept |
| Store.DockYard.DeleteCrew | src/App.jsx:390-400 | the id leaves the pool, every dock and the name map, other entries keep their order; unique placement is kept; an unknown id changes nothing |
| Store.CandidateIdsSmall | src/App.jsx:363-364 | candidates 1 to 8 are C01 to C08 |
| Store.OpeningKeys | src/App.jsx:245-250 | the opening names are exactly candidates 1 to 5 |
| Store.OpeningNamedUpTo | src/App.jsx:240-250 | in the opening state the named crew are candidates 1 to 5 and the pool holds only named crew |
| Store.NamedUpToTaken | src/App.jsx:362-382 | when the named crew are candidates 1 to m, candidates 1 to m are taken and m + 1 is free |
| Store.AllocatesNext | src/App.jsx:362-382 | on such a store the allocator returns candidate m + 1 |
| Store.NamedUpToStep | src/App.jsx:383-387 | adding candidate m + 1 under a non-empty name makes the named crew candidates 1 to m + 1 |
| Store.AddNextNamed | src/App.jsx:383-387 | addCrew on such a store allocates candidate m + 1 and puts it at the front of the pool |
| Store.ThreeAddsFromStart | src/App.jsx:362-387 | from the opening state three additions get C06, C07 and C08, the pool becoming C08, C07, C06 followed by C01 to C05 |

## Left out

- Views.RoundedPercent: the source divides and multiplies in floating point, the model in exact rationals. With the yard's 21 docks no busy share comes within 1/42 of a half, so rounding picks the same integer either way.

- `Date.now()` and the local date-time formatter `toLocalISO` are outside the model. The current time and the window bounds are parameters (`now`, `gridStart`, `gridEnd`), and the CSV timestamps come from a formatter passed in as a function `iso`.
- Drag-and-drop transport (`DataTransfer`, `JSON.parse` in `getDnDPayload`) is outside the model. The payload arrives as an `Option<Payload>`, and `Accepted` drops a missing payload or one with an empty crew id.
- The file download (`Blob`, object URL, anchor click) is left out as browser I/O; the model stops at the exported text.
- Rendering is left out: JSX, styles, the colour table, pixel geometry, locale time strings and `pickBlockColor`.
- The one-second redraw tick is left out; it changes no store state.
- The search box's setter is left out. It is a plain assignment of the `query` field.
- React's update batching is left out. Each handler is one atomic step, with `toggleTimer`'s record update taken in the same step as its dock update.
- `dockOrder` is left out. It sorts docks by the number in their id, and under the layout the dock list is always in that order already.
- Schedule.Block: a record block in the source also spreads the record's carrier, trailer and destination. The model keeps only the fields the grid uses (dock, times, label, live).
- Views.Lower: lower-casing covers ASCII letters only; other characters are unchanged, so Unicode case mapping is not modelled.
- Domain.Dock: a `startedAt` of 0 is falsy in the source but counts as a running timer here, since a timestamp is never 0 in practice.
- Crew.ClearFromDock: an origin of "" is falsy in the source and clears nothing. Here it clears docks with id "", and under the layout no such dock exists.
- Domain.PoolLabel: the default branch of `poolLabel` is not modelled. Pool tags are a closed enumeration and only the four known tags are ever stored.

## Findings

| source | as written | input that shows it | evidently intended | confidence | as-written member | corrected member |
|---|---|---|---|---|---|---|
| src/App.jsx:1474-1483 | a running dock gives a live block whenever its timer started before the window closes, from max(startedAt, gridStart) to min(now, gridEnd) | timer started at 1000, now = 2000, window [5000, 10000]: the block runs from 5000 to 2000, ending before it starts | keep the block only when the running interval overlaps the window, i.e. also require now > gridStart, as the record blocks do | medium; not executed | Schedule.RunningBlockBeforeOpening, Schedule.BlocksBeforeOpening | Schedule.LiveBlocks, Schedule.CorrectedBlocksInWindow |
