# Falling-blocks background simulation, modelled in Dafny

The repository animates a decorative background. Tetromino pieces fall
down a grid of cells, settle into a stack, clear completed rows, and steer
away from the mouse pointer. Two copies of the simulation exist:

- `src/main.js` is the current one. Pieces spawn on a timer at row -3 and
  gravity runs every 100 ms. The stack is relieved at 35% of the height,
  and a piece near the pointer moves one column away from it.
- `src/mainBeforeBugFix.js` is the earlier one. A piece spawns its
  successor as soon as its journey starts, the list is refilled when it
  empties, and gravity runs every 80 ms. The stack is relieved at 30% of
  the height. A hovered piece is probed one column but moved three.

The model is split into four files:

- `board.dfy` (module `Board`) holds the settled-cell grid (`staticUnits`)
  that both copies share. It has:
  - value-level specification functions: row removal, collision probing,
    freezing, row clearing and stack relief;
  - the class `Board`, whose methods edit the grid in place with the
    source's loops, each proved equal to those functions.
- `catalog.dfy` (module `Catalog`) holds the seven templates and the random
  draws of a spawn.
- `main_sim.dfy` (module `MainSim`) models `src/main.js`.
- `legacy_sim.dfy` (module `LegacySim`) models `src/mainBeforeBugFix.js`.

Each of the two simulation modules has:

- a piece datatype;
- specification functions for one spawn, one gravity pass, one steering
  step and one frame;
- lemmas about those functions;
- a class `Simulation` whose methods update the piece list, the grid and
  the timers in place and are proved to produce what the functions say.

Inputs that the program takes from its environment are parameters:

- the clock (`Date.now()`) is `now`;
- each `Math.random()` spawn is a `Draw`, a template index in [0, 7) and a
  column in [0, width). The earlier copy can spawn several times in one
  gravity pass, so it receives a supply of draws and reports how many it
  used;
- the pointer is an integer pixel in both copies. In `main.js` the
  steering functions work on the pointer cell `pixel / 12`; in
  `mainBeforeBugFix.js` they also compare the pixel with the centre pixel;
- the grid dimensions are constructor and `Resize` arguments.

The floating-point tests become exact integer comparisons:

- the stack fraction `(H - r) / H >= 0.35` becomes `20 * (H - r) >= 7 * H`,
  and `>= 0.3` becomes `10 * (H - r) >= 3 * H`. Both are false when `H`
  is 0, where the source compares NaN;
- the distance test `sqrt(dx² + dy²) <= 2.5` becomes `dx² + dy² <= 6`;
- the half-integer centre column is kept doubled;
- the early-spawn test `(y + 2) / (H + 2) >= 0.001` becomes
  `1000 * (y + 2) >= H + 2`.

## Model

| member | source | states |
|---|---|---|
| Board.EmptyGrid | src/main.js:147-155 | the grid has `w` columns of `h` cells and every cell is empty |
| Board.Board.InitializeGrid | src/main.js:147-155 | the nested loops build exactly `EmptyGrid(width, height)` and leave the dimensions alone |
| Board.Board.constructor | src/main.js:125-135 | a grid of the given dimensions, all empty |
| Board.Board.Resize | src/main.js:125-135 | new dimensions and a fresh empty grid of those dimensions |
| Board.ShiftOut | src/main.js:264-267 | cutting row `row` from every column and unshifting an empty cell keeps the shape; row 0 becomes empty, rows 1..row hold the old rows 0..row-1, and the rows below `row` are unchanged |
| Board.Board.ShiftOutRow | src/main.js:264-267 | the per-column splice/unshift loop produces `ShiftOut` of the old grid |
| Board.RemoveBottom | src/main.js:158-163 | the shape is kept, the new row 0 is empty (when there are rows), and every cell `(x, y)` with `y >= 1` holds the old `(x, y-1)`, so the old bottom row is gone |
| Board.Board.RemoveBottomRow | src/main.js:158-163 | the method leaves the grid equal to `RemoveBottom` of the old grid, with unchanged dimensions |
| Board.SpliceOne | src/main.js:160 | JavaScript's `splice(start, 1)` shortens a column by one exactly when the clamped start lies inside it |
| Board.RemoveBottomAsWrittenAgrees | src/mainBeforeBugFix.js:165-170 | on a grid with at least one row, the code as written equals `RemoveBottom` |
| Board.RemoveBottomAsWrittenGrowsEmptyColumns | src/main.js:158-163 | on a grid with columns but no rows, the code as written grows every column to one cell, so the grid is no longer `w` by 0 |
| Board.Collides | src/main.js:181-197 | the probe is true exactly when some unit, moved by (dx, dy), lies outside [0, W), at a row `>= H`, or on a non-empty cell of a row `>= 0`; rows above the top are passable, and the bounds test comes first, so no cell is read out of range |
| Board.CollidesShift | src/mainBeforeBugFix.js:195-211 | probing at an offset is the same as probing the moved piece in place |
| Catalog.TemplateUnits | src/main.js:27-98 | each of the seven templates has four units, with column offsets in [-2, 1] and row offsets in [-1, 1] |
| Catalog.SpawnProbeSeesOnlyColumns | src/main.js:181-197 | for a piece at row -2 or above, the probe is true exactly when some unit falls outside the columns, whatever the grid holds |
| Board.Stamp | src/main.js:222-238 | after the unit loop of `freezePiece`, a cell holds the fill exactly when it is in bounds and covered by a unit; every other cell is unchanged and out-of-bounds units are dropped |
| Board.NewRows | src/main.js:220-238 | the affected-row list is duplicate-free, lies in [0, H), and holds exactly the rows of the in-bounds units |
| Board.Insert | src/main.js:249 | inserting into an ascending list gives an ascending list with one more occurrence of the value |
| Board.SortAsc | src/main.js:249 | the numeric sort gives an ascending permutation of its input with the same elements, still in [0, H) |
| Board.InsertStrict | src/main.js:249 | inserting a new value into a strictly ascending list keeps it strictly ascending |
| Board.SortAscStrict | src/main.js:249 | sorting a duplicate-free row list gives a strictly ascending list |
| Board.CompleteRows | src/main.js:251-260 | a row is in the result exactly when it is listed and every column of it is occupied |
| Board.CompleteRowsFrame | src/main.js:251-260 | which listed rows are complete depends only on those rows' cells |
| Board.ClearRows | src/main.js:248-270 | the loop over the rows keeps the grid's shape |
| Board.ClearRowsDecidedUpFront | src/main.js:248-270 | with strictly ascending rows, clearing them one by one equals deciding every row's completeness on the original grid and then shifting out the complete ones, so an earlier clear never changes a later listed row |
| Board.Board.RowIsComplete | src/main.js:252-260 | the early-exit scan answers `RowComplete` |
| Board.Board.ClearCompleteRows | src/mainBeforeBugFix.js:276-298 | the method sorts the rows and leaves the grid equal to `ClearRows` over the sorted rows, with unchanged dimensions |
| Board.HighestFrom | src/main.js:275-289 | the result is the first row at or below `y` that holds a block, or `H` when no such row exists |
| Board.HighestPoint | src/main.js:275-289 | the topmost occupied row lies in [0, H] |
| Board.Board.FindHighestPoint | src/main.js:274-289 | the nested scan with its two early exits returns `HighestPoint` |
| Board.Relieved | src/main.js:291-297 | relief keeps the grid's shape |
| Board.ReliefOnlyUnderPressure | src/main.js:273-298 | relief removes exactly the bottom row when `(H - r)/H` reaches the threshold and otherwise changes nothing; an empty grid is never touched |
| Board.Board.ManageStackHeight | src/mainBeforeBugFix.js:301-326 | the method leaves the grid equal to `Relieved` of the old grid |
| Board.Settle | src/main.js:217-245 | freezing keeps the grid's shape |
| Board.StampStep | src/main.js:222-238 | one more unit writes its fill into its cell and adds its row to the list exactly when it is in bounds (and, for the row, not yet listed) |
| Board.Board.StampUnits | src/main.js:220-238 | the unit loop leaves the grid equal to `Stamp` of the old grid and returns exactly `NewRows` |
| Board.Board.Freeze | src/main.js:217-245 | the method stamps the units, clears the sorted affected rows and relieves the stack, ending with the grid equal to `Settle` |
| Board.SettleDecidesRowsUpFront | src/main.js:240-244 | freezing clears exactly those collected rows that are complete on the stamped grid, as if every row were checked before any is removed, and then relieves the stack |
| Board.MinCol | src/main.js:322-333 | the result is the column of some unit and no unit lies left of it |
| Board.MaxCol | src/main.js:322-333 | the result is the column of some unit and no unit lies right of it |
| Board.CenterTwice | src/mainBeforeBugFix.js:347-358 | the min/max accumulator loop returns the leftmost plus the rightmost unit column |
| MainSim.SpawnGrid | src/main.js:166-178 | a spawn keeps the grid's shape |
| MainSim.SpawnReliefOnlyAtSideEdges | src/main.js:166-178 | a spawn removes a row only when the random column puts a unit outside the columns |
| MainSim.Simulation.CreateNewPiece | src/main.js:166-178 | exactly one new piece is appended, and the grid loses its bottom row exactly when that piece collides where it stands |
| MainSim.FreezeGrid | src/main.js:209 | freezing a piece keeps the grid's shape |
| MainSim.GravityStep | src/main.js:201-213 | one loop body keeps the grid's shape and at least i-1 pieces in the list |
| MainSim.GravityStepShape | src/main.js:201-213 | the piece at i-1 either moves one row down with nothing else changed, leaving the grid alone, or leaves the list; the pieces around it are untouched |
| MainSim.GravityFrom | src/main.js:200-214 | the reverse loop keeps the grid's shape |
| MainSim.GravityFromShape | src/main.js:200-214 | after the loop from i-1 down to 0, the first i pieces are the marked ones, each one row lower, in their old order; the rest are untouched; and when none froze, the grid is unchanged |
| MainSim.Gravity | src/main.js:200-214 | a gravity pass keeps the grid's shape |
| MainSim.GravityShape | src/main.js:200-214 | every piece present at the start either falls one row or is removed, and the survivors keep their order; the grid changes only if some piece froze |
| MainSim.Simulation.ApplyGravity | src/main.js:200-214 | the reverse loop that splices in place leaves the grid and list equal to `Gravity` of the old ones |
| MainSim.IsNear | src/main.js:301-319 | the answer is true exactly when some unit lies within distance 2.5 of the pointer cell |
| MainSim.SteeringMovesOneColumnAway | src/main.js:336-367 | a piece changes exactly when its throttle has expired, the pointer is near, the pointer column is strictly to one side of the centre, and the one-column probe away from it is free; it then moves exactly one column away and records the time, and nothing else about it changes |
| MainSim.PushKeepsClear | src/main.js:357-364 | a move taken only after a free probe leaves a clear piece clear |
| MainSim.SteeringKeepsClear | src/main.js:336-367 | a piece that does not collide before steering does not collide after it |
| MainSim.Simulation.SteerPiece | src/main.js:341-365 | one loop body returns the piece as `Steered` describes |
| MainSim.SteerAll | src/main.js:340-366 | steering keeps the list's length and steers every piece independently |
| MainSim.Simulation.HandleMouseInteraction | src/main.js:336-367 | the loop leaves the list equal to `SteerAll` of the old list, with the pointer cell taken as the floor of pixel / 12 |
| MainSim.Frame | src/main.js:406-426 | one frame keeps the grid's shape |
| MainSim.Simulation.constructor | src/main.js:8-24 | an empty grid, no pieces, and all timers at 0 |
| MainSim.Simulation.GameLoop | src/main.js:406-426 | gravity runs exactly when `now >= timeEvent` and spawning exactly when `now >= spawnTimer`; each deadline then becomes `now + 100` or `now + 200`, and the grid and list equal `Frame` |
| LegacySim.SpawnGrid | src/mainBeforeBugFix.js:173-187 | a spawn keeps the grid's shape |
| LegacySim.Spawn | src/mainBeforeBugFix.js:173-187 | a spawn keeps the grid's shape and uses exactly one draw |
| LegacySim.SpawnPieces | src/mainBeforeBugFix.js:186 | a spawn appends the piece made from the next draw |
| LegacySim.SpawnReliefOnlyAtSideEdges | src/mainBeforeBugFix.js:180-184 | a spawn removes a row only when the random column puts a unit outside the columns |
| LegacySim.Simulation.CreateNewPiece | src/mainBeforeBugFix.js:173-187 | exactly one new piece (row -2, unflagged, last move time 0) is appended, and the grid loses its bottom row exactly when that piece collides where it stands |
| LegacySim.FreezeGrid | src/mainBeforeBugFix.js:245-273 | freezing a piece keeps the grid's shape |
| LegacySim.TriggerStep | src/mainBeforeBugFix.js:218-225 | the trigger half keeps the grid's shape and at least i pieces in the list, and uses at most one draw |
| LegacySim.TriggerStepShape | src/mainBeforeBugFix.js:218-225 | the piece at i-1 is flagged exactly when it triggers; it then uses one draw and its spawn goes to the end; nothing else changes |
| LegacySim.Simulation.TriggerNext | src/mainBeforeBugFix.js:218-225 | the method's effect on grid, list and draw counter equals `TriggerStep` |
| LegacySim.FallStep | src/mainBeforeBugFix.js:227-235 | the fall half keeps the grid's shape and at least i-1 pieces in the list |
| LegacySim.FallStepShape | src/mainBeforeBugFix.js:227-235 | the piece at i-1 either moves one row down or leaves the list; the pieces around it are untouched |
| LegacySim.Simulation.Fall | src/mainBeforeBugFix.js:227-235 | the method's effect on grid and list equals `FallStep` |
| LegacySim.StepOnce | src/mainBeforeBugFix.js:215-236 | one loop body keeps the grid's shape and at least i-1 pieces, and uses at most one draw |
| LegacySim.StepOnceShape | src/mainBeforeBugFix.js:215-236 | the piece at i-1 has fallen one row (flagged once its journey has started) or left the list, the rest is untouched, and its spawn, if any, is at the end |
| LegacySim.StepFrom | src/mainBeforeBugFix.js:215-236 | the loop keeps the grid's shape and uses at most one draw per visited piece |
| LegacySim.StepFromShape | src/mainBeforeBugFix.js:215-236 | the loop uses one draw per triggering piece; the visited pieces that survive have fallen in order; behind them come the unvisited pieces and then the spawned pieces, in draw order |
| LegacySim.Refill | src/mainBeforeBugFix.js:238-241 | after the refill the list is never empty |
| LegacySim.RefillShape | src/mainBeforeBugFix.js:238-241 | the refill spawns exactly when no survivor and no spawned piece is left, and its piece joins the spawned ones |
| LegacySim.Gravity | src/mainBeforeBugFix.js:214-242 | a gravity pass keeps the grid's shape and leaves the list non-empty |
| LegacySim.GravityShape | src/mainBeforeBugFix.js:214-242 | every piece present at the start falls one row or is removed, and the survivors keep their order. Behind them come the spawned pieces, still exactly as spawned, so the pass did not step them. One draw is used per triggering piece, plus one refill exactly when nothing else is left, and the list is never empty afterwards |
| LegacySim.Simulation.ApplyGravity | src/mainBeforeBugFix.js:214-242 | the reverse loop, while it appends to the list it walks, leaves grid, list and draw count equal to `Gravity` |
| LegacySim.TriggersAtMostOnce | src/mainBeforeBugFix.js:218-225 | a step changes a piece's flag exactly when it triggers; a flagged piece never triggers and stays flagged, so a piece triggers at most one spawn in its lifetime |
| LegacySim.Hovers | src/mainBeforeBugFix.js:329-344 | the answer is true exactly when the pointer cell is one of the piece's unit cells |
| LegacySim.SteeringMovesThreeColumns | src/mainBeforeBugFix.js:361-389 | a piece changes exactly when its throttle has expired, it is hovered, and the one-column probe away from the pointer is free. It then moves exactly 3 columns left when the pointer pixel is right of the centre pixel, and 3 right otherwise, a tie included; it records the time, and nothing else changes |
| LegacySim.ThreeColumnMoveCanCollide | src/mainBeforeBugFix.js:372-386 | a clear I piece on an empty 10 by 20 grid, hovered at its left end, is moved past the right edge: collision-freedom is not preserved |
| LegacySim.Simulation.SteerPiece | src/mainBeforeBugFix.js:365-387 | one loop body returns the piece as `Steered` describes |
| LegacySim.SteerAll | src/mainBeforeBugFix.js:364-388 | steering keeps the list's length and steers every piece independently |
| LegacySim.Simulation.HandleMouseInteraction | src/mainBeforeBugFix.js:361-389 | the loop leaves the list equal to `SteerAll` of the old list |
| LegacySim.Simulation.constructor | src/mainBeforeBugFix.js:9-24 | an empty grid, no pieces, and both timers at 0 |
| LegacySim.Simulation.GameLoop | src/mainBeforeBugFix.js:429-443 | gravity runs exactly when `now >= timeEvent`, the deadline then becomes `now + 80`, and steering follows on the result |

## Left out

- Rendering, the canvas and the DOM (`render`, `getContext`, the stylesheet, `handleMouseMove`, `setupMouseListeners`, the resize listener and the pixel sizing in `resizeCanvas`). They are output and event wiring. The grid dimensions are parameters.
- `requestAnimationFrame` rescheduling is left out: `GameLoop` models one frame. `Date.now()` is the parameter `now`. In `main.js`, steering reads the clock a second time, so it gets its own parameter `steerNow`.
- `Math.random()` is a `Draw` parameter (or a sequence of them).
- `initialize` is not modelled as a member: it is the constructor followed by a first spawn and a first frame.
- The alias `generateNewPiece` is not modelled, since it only calls `createNewPiece`.
- Fractional pointer coordinates are not modelled. The pointer is an integer pixel, so `Math.floor(mouseX / unitSize)` is Euclidean division by a positive unit size.
- The `if (!piece) return` guard in `freezePiece` is not modelled. Every caller passes a piece from the list, so the guard never fires.
- Object identity is not modelled. Pieces are values in a sequence, and updating "the" piece object is a sequence update at its index. Nothing in the program aliases pieces, so no behaviour is lost.
- Floating-point rounding is not modelled beyond the exact comparisons above. The doubles compare the same as exact arithmetic, because each threshold (0.35, 0.3, 0.001) is the correctly rounded value of the exact fraction and rounding is monotone. The only exception would be grids taller than about 10^15 rows.
- The colours are opaque strings. The invalid `rgb(256,256,256)` literal is carried as it is.

## Findings

| source | as written | input that shows it | evidently intended | confidence | as-written member | corrected member |
|---|---|---|---|---|---|---|
| src/main.js:158-163 (also src/mainBeforeBugFix.js:165-170) | `splice(gridHeight - 1, 1)` then `unshift(0)` on every column, whatever the height | a window shorter than one unit, so `gridHeight` is 0, and a spawn at a side edge: every column grows from 0 cells to 1 | with no rows there is nothing to remove and the columns keep length `gridHeight` | low (not executed) | Board.RemoveBottomAsWrittenGrowsEmptyColumns | Board.RemoveBottom |
