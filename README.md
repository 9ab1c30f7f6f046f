# Game of Life engine

A model of the browser Game of Life in `game.js`. The page draws a table of
60 × 30 cells, and each cell carries a `data-status` of `alive` or `dead`.
The engine does five things:

- **Toggle.** It flips a cell when the cell is clicked.
- **Step.** It advances one generation. A first pass over every cell counts the
  live neighbours and collects the cells that must flip into a `toggles` list.
  A second pass then flips them.
- **Auto-play.** It runs the step on a recurring timer.
- **Clear and randomise.** It resets every cell, either to dead or at random.
- **Load a pattern.** It reads a plain-text pattern file and stamps the pattern
  onto the centre of the board.

The model has three modules.

- `Life` (life.dfy) is the rule on plain values. A generation is a
  `seq<seq<Status>>` read `g[y][x]`, as the table is built row by row.
  - **Neighbours.** The eight addresses `getNeighbors` pushes, filtered down to
    the cells that exist. There is no wrap-around.
  - **Counting.** The live count `getAmountOfAliveCells` takes over those
    addresses.
  - **Rule.** Each cell's decision in step's first pass.
  - **Visit order.** The order in which `forEachCell` visits the cells.
  - **Toggle list.** The list the first pass collects.
  - **Flipping.** The effect of flipping the listed cells one after the other.
  - **Main theorem.** Step's collect-then-flip computes Conway's next
    generation (B3/S23) from the old generation alone.
- `Pattern` (pattern.dfy) covers `parseAndPlaceCellsFile` on values:
  - splitting on line feeds and dropping the two header lines;
  - sizing the shape by its first row and its row count;
  - centring the shape on the board;
  - overlaying the `'O'` cells onto the board, including a load that throws
    part way through.
- `Game` (game.dfy) is the `gameOfLife` object as a class.
  - **Board.** The board is an `array2<Status>` indexed `cells[x, y]`, like the
    cell ids `"x-y"`. Every operation changes it in place through `setStatus`
    and `toggleStatus`. Each method is proved against the `Life` and `Pattern`
    functions through the ghost view `Board()`.
  - **Timer handle.** `stepInterval` is `None` while idle and the handle of the
    recurring timer while auto-playing. The host's live recurring timers are
    the set `timers`, and the next handle `setInterval` would return is
    `nextHandle`.

`forEachCell` visits the `td` elements in document order. That order is row
by row, left to right within a row (game.js:74-77). The model follows it in
three places:

- `Life.CellOrder` defines the order.
- The nested loops of `Step`, `ClearBoard` and `RandomizeBoard` walk the
  cells in that order.
- `Life.TogglesFollowCellOrder` proves that the toggle list is that order
  with the cells the rule leaves alone removed. `Life.TogglesInVisitOrder`
  and `Life.TogglesMeaning` state the consequences: the list is in that
  order, and names each flipping cell once.

## Model

| member | source | states |
|---|---|---|
| Life.Toggle | game.js:12-18 | the flipped status always differs from the original (alive becomes dead, dead becomes alive) |
| Life.ToggleTwice | game.js:12-18 | flipping a status twice gives it back |
| Life.Candidates | game.js:34-46 | getNeighbors pushes eight addresses, and they are exactly the eight cells around (x, y) |
| Life.KeepInBounds | game.js:48-50 | the null filter never lengthens the list |
| Life.KeepInBoundsMembers | game.js:48-50 | the filter keeps exactly those listed addresses for which a cell exists |
| Life.KeepInBoundsDistinct | game.js:48-50 | filtering a duplicate-free list leaves it duplicate-free |
| Life.NeighborsMembers | game.js:26-51 | the neighbour list holds exactly the existing cells adjacent to (x, y); the board does not wrap |
| Life.NeighborsDistinct | game.js:26-51 | no neighbour is listed twice |
| Life.NeighborCount | game.js:26-51 | the neighbour count is the number of existing cells in the 3-by-3 block around the cell, minus the cell itself |
| Life.NeighborCountByPosition | game.js:35-50 | on a board at least 2 by 2, a corner cell has 3 neighbours, an edge cell 5 and an interior cell 8 |
| Life.AliveCount | game.js:53-59 | the live count never exceeds the number of cells counted |
| Life.AliveCountExtremes | game.js:53-59 | the count is 0 exactly when every listed cell is dead, and equals the list's length exactly when every listed cell is alive |
| Life.AliveCountCardinality | game.js:53-59 | over a duplicate-free list, the count is the size of the set of live listed cells |
| Life.InLiveAround | game.js:26-59 | a cell belongs to the live neighbourhood of (x, y) exactly when it is adjacent, exists and is alive |
| Life.LiveNeighborsCount | game.js:207-208 | getAmountOfAliveCells(getNeighbors(cell)) is the number of live existing cells adjacent to the cell |
| Life.NextState | game.js:210-221 | after its decision is applied, a cell is alive exactly when it has 3 live neighbours, or 2 and was alive (B3/S23) |
| Life.RuleCases | game.js:210-218 | the rule case by case: death by isolation or overcrowding, survival with 2 or 3, birth with 3, a dead cell stays dead otherwise |
| Life.NextGen | game.js:195-222 | the next generation has the board's shape, and each of its cells is NextState of the old generation |
| Life.CellOrderVisitsEachOnce | game.js:98-103 | forEachCell visits every cell of the board, and only those cells, each exactly once |
| Life.CellOrderInVisitOrder | game.js:98-103 | forEachCell visits the cells row by row, left to right |
| Life.InVisitOrderDistinct | game.js:98-103 | a list in document order names no cell twice |
| Life.DecisionAt | game.js:205-220 | the first pass's decision for each cell is the rule applied to that cell in the pre-step generation |
| Life.DecisionsMeaning | game.js:205-220 | the same for all cells at once |
| Life.RowTogglesMembers | game.js:205-220 | one row's contribution to the toggle list is exactly the row's cells that must flip |
| Life.TogglesUpToMembers | game.js:205-220 | after the first rows, the toggle list holds exactly the cells of those rows that must flip |
| Life.TogglesUpToInVisitOrder | game.js:204-220 | the partial toggle list is in document order |
| Life.Toggles | game.js:204-220 | every cell step's first pass collects exists |
| Life.TogglesMeaning | game.js:204-220 | the toggle list names each cell at most once, and names exactly the existing cells that must flip |
| Life.TogglesInVisitOrder | game.js:204-220 | the toggle list is in forEachCell's order |
| Life.RowTogglesFlagged | game.js:205-220 | one row's part of the toggle list is that row's cells, left to right, with those the first pass does not mark removed |
| Life.TogglesUpToFlagged | game.js:204-220 | after the first rows, the toggle list is those rows' cells in visiting order with the unmarked ones removed |
| Life.FlaggedDecisions | game.js:205-220 | keeping the cells the first pass marks keeps exactly the cells the rule says must flip |
| Life.TogglesFollowCellOrder | game.js:204-220 | the toggle list is forEachCell's visiting order with every cell the rule leaves alone removed |
| Life.ToggleAtCell | game.js:12-18 | toggleStatus on a generation flips the chosen cell and leaves every other cell as it was |
| Life.ToggleAtTwice | game.js:12-18 | toggling the same cell twice restores the board |
| Life.SetAtCell | game.js:8-11 | setStatus gives the chosen cell the new status and leaves every other cell as it was |
| Life.ApplyToggles | game.js:221 | flipping listed cells keeps the board's shape |
| Life.ApplyTogglesSnoc | game.js:221 | flipping one more listed cell is one more toggleStatus after the earlier flips |
| Life.ApplyDistinctToggles | game.js:221 | with no cell listed twice, a cell ends up flipped exactly when it is listed, and every unlisted cell is unchanged |
| Life.ToggleOrderIrrelevant | game.js:221 | two duplicate-free lists of the same cells flip the board identically, whatever their order |
| Life.StepIsNextGen | game.js:204-221 | collecting against the old generation and then flipping yields the next generation, which depends on the old one alone |
| Life.Blank | game.js:185-193 | the cleared board: every cell dead |
| Life.BlankHasNoLiveNeighbors | game.js:205-218 | on an all-dead board no cell has a live neighbour or must flip |
| Life.BlankIsStill | game.js:195-222 | an all-dead board collects no toggles and stays all dead |
| Life.LiveNeighborsOfThree | game.js:207-208 | when only three cells are alive, a cell's live-neighbour count is how many of the three are adjacent to it |
| Life.VerticalCell | game.js:195-222 | each cell one generation after a lone three-cell column equals the matching cell of the three-cell row |
| Life.HorizontalCell | game.js:195-222 | each cell one generation after a lone three-cell row equals the matching cell of the three-cell column |
| Life.VerticalToHorizontal | game.js:195-222 | a lone three-cell column becomes the three-cell row through its centre |
| Life.HorizontalToVertical | game.js:195-222 | a lone three-cell row becomes the three-cell column through its centre |
| Life.BlinkerPeriodTwo | game.js:195-222 | the blinker has period two on any board that holds its 3-by-3 box |
| Pattern.Split | game.js:156 | split('\n') always yields at least one piece |
| Pattern.SplitPieces | game.js:156 | no piece holds a line feed |
| Pattern.JoinSplit | game.js:156 | joining the pieces with line feeds gives back the text |
| Pattern.SplitLine | game.js:156 | a line feed after a piece free of line feeds closes that piece |
| Pattern.SplitNoLine | game.js:156 | text free of line feeds is a single piece |
| Pattern.SplitJoin | game.js:156 | splitting lines free of line feeds after joining them gives the lines back |
| Pattern.HeaderIgnored | game.js:156 | the body rows are the lines after the first two, whatever those two hold |
| Pattern.OnlyLongerRowsMiss | game.js:157-177 | with the width taken from the first row, only a later, longer row can put an 'O' past the right edge |
| Pattern.RowReach | game.js:171-177 | the number of characters of a row read before a throw is at most the row's length |
| Pattern.RowReachMeaning | game.js:171-177 | every 'O' read lands on the board, and reading stops early only at an 'O' past the edge |
| Pattern.RowReachAt | game.js:171-177 | conversely, the first 'O' past the edge, or the end of the row, is where reading stops |
| Pattern.RowReachAll | game.js:171-177 | the whole row is read exactly when all its 'O's land |
| Pattern.Reached | game.js:169-181 | the body part read before a throw has no more rows than the body |
| Pattern.ReachedAll | game.js:169-181 | when every 'O' lands, the whole body is read |
| Pattern.ReachedCut | game.js:169-181 | with row k the first that does not fit, reading ends inside row k, at the first 'O' past the edge |
| Pattern.ReachedPrefixes | game.js:169-181 | each row read is a prefix of its body row |
| Pattern.FirstMiss | game.js:169-181 | a body that does not fit has a first 'O' past the edge in reading order |
| Pattern.ReachedMarks | game.js:169-181 | the rows read mark a cell exactly when the body marks it at a position before the first 'O' past the edge |
| Pattern.OverlayRow | game.js:171-177 | placing one row keeps the board's shape |
| Pattern.Overlay | game.js:169-181 | placing rows keeps the board's shape |
| Pattern.OverlayRowCells | game.js:171-177 | placing a row turns alive exactly the cells under its 'O's and leaves every other cell as it was |
| Pattern.MarkedLast | game.js:169-181 | a cell is marked by a body when the rows above the last row mark it, or when an 'O' of the last row lies over it |
| Pattern.OverlayCellAt | game.js:169-181 | after the rows are placed, each marked cell is alive and every other cell is as it was |
| Pattern.OverlayCells | game.js:169-181 | the same for every cell at once |
| Pattern.Load | game.js:154-183 | the board after a load keeps the board's shape |
| Pattern.RejectedLoadChangesNothing | game.js:156-164 | with no body row, a first row wider than the board, or more rows than the board is high, no cell changes |
| Pattern.RowsFit | game.js:162-167 | a shape no taller than the board is placed on rows that exist |
| Pattern.LoadSetsMarks | game.js:166-177 | in a placed load, each 'O' at body row k, column i sets cell (w/2 - shapeWidth/2 + i, h/2 - shapeHeight/2 + k) alive, and that cell exists |
| Pattern.OffBoardLoad | game.js:169-181 | a load that throws at its first 'O' past the edge has set alive every 'O' before that one in reading order, and changed nothing else |
| Pattern.LoadKeepsOtherCells | game.js:169-181 | loading only overlays: a cell under no 'O' keeps its state, and a live cell stays alive |
| Pattern.SplitTwoRows | game.js:156 | body text of two rows free of line feeds splits into those two rows |
| Pattern.CarriageReturnCounts | game.js:156-157 | a '\r' before a line feed stays in its row and counts toward the shape's width |
| Pattern.DiagonalRows | game.js:156 | the file "ignored\nignored\nO.\n.O" has body rows "O." and ".O" |
| Pattern.DiagonalMarks | game.js:169-181 | the diagonal placed from (29, 14) marks exactly (29, 14) and (30, 15) |
| Pattern.DiagonalFits | game.js:162-177 | every 'O' of the diagonal lands on the 60-column board |
| Pattern.DiagonalExample | game.js:154-183 | on the 60-by-30 board the diagonal is placed centred: (29, 14) and (30, 15) become alive and nothing else changes |
| Pattern.LoadTwice | game.js:154-183 | loading the same file twice has the effect of loading it once |
| Game.Seeded | game.js:243-249 | the randomised board has each cell alive exactly when its draw says so |
| Game.GameOfLife.constructor | game.js:74-77 | a new game has a width-by-height board of dead cells and auto-play idle |
| Game.GameOfLife.ToggleStatus | game.js:12-18 | flips cell (x, y) in the array and nothing else |
| Game.GameOfLife.SetStatus | game.js:8-11 | writes the status into cell (x, y) of the array and nothing else |
| Game.GameOfLife.AliveAmong | game.js:53-59 | the array's live count over listed cells equals the count on the board's generation |
| Game.GameOfLife.VisitCell | game.js:205-220 | the forEachCell callback appends the cell exactly when the rule says it must flip |
| Game.GameOfLife.CollectRow | game.js:205-220 | visiting a row appends that row's cells that must flip, left to right |
| Game.GameOfLife.CollectToggles | game.js:204-220 | the first pass, which reads the board without changing it, returns the toggle list of the current generation |
| Game.GameOfLife.ApplyToggleList | game.js:221 | toggles.forEach(toggleStatus) leaves the board as ApplyToggles of the old generation |
| Game.GameOfLife.Step | game.js:195-222 | after step the board is the next generation of the board before it |
| Game.GameOfLife.Stop | game.js:226-231 | afterwards auto-play is idle and no timer runs; on an idle game nothing changes |
| Game.GameOfLife.EnableAutoPlay | game.js:233-241 | from idle it starts exactly one new recurring timer, stores its handle and advances the next handle by one; from running it stops and the next handle stays; at most one timer ever runs |
| Game.GameOfLife.ClearBoard | game.js:185-193 | from any state, leaves every cell dead and auto-play idle; a second call therefore changes nothing |
| Game.GameOfLife.RandomizeBoard | game.js:243-249 | each cell is set alive exactly when its draw says so |
| Game.GameOfLife.PlaceRow | game.js:171-177 | reports whether every 'O' of the row landed; the board gets the full row's overlay when they did, otherwise the overlay of the part read before the throw |
| Game.GameOfLife.PlaceRows | game.js:169-181 | reports whether every 'O' of the body landed; the board gets the overlay of the body part read before any throw |
| Game.GameOfLife.ParseAndPlaceCellsFile | game.js:154-183 | the outcome is the file's classification (placed, too large, no body row, off the board), and the new board is Load of the old one |

## Left out

- **DOM and rendering.** Building the table (game.js:68-89), the CSS
  `className` (game.js:9) and the element lookups by id (game.js:2-4) are
  not modelled. A cell is its `(x, y)` entry in the array.
- **Cell ids.** The `parseInt` of element ids into coordinates
  (game.js:19-25, 98-102) is not modelled. Coordinates are integers from the
  start.
- **Event wiring and file upload.** The listeners (game.js:106-138) and the
  `FileReader` upload in `receiveCellsFile` (game.js:140-152) are input and
  output. `ParseAndPlaceCellsFile` takes the file text as a parameter.
- **Timers.** `setInterval` and `clearInterval` are modelled only as handles
  in a set. The model does not fire a timer or run `step` every 100 ms.
  Auto-play running `step` repeatedly is therefore not captured beyond
  `Step`'s own contract.
- **Randomness.** `Math.random()` in `randomizeBoard` is replaced by a
  caller-supplied grid of booleans, one draw per cell.
- **Shape width.** The shape width is the length of the first body row only,
  as the code computes it at game.js:157. It is not the length of the longest
  row, and the model follows the code.
- **Exceptions.** An exception is modelled as an `Outcome` with the board as
  the code leaves it:
  - `cellRows[0].length` on a file with fewer than three lines (game.js:157)
    becomes `NoBodyRow`, with no cell changed.
  - Setting the status of a missing cell, for an 'O' past the right edge
    (game.js:174), becomes `OffBoard`, with the cells set before the throw.
  - The exception itself is not propagated.
- **Characters, not UTF-16 code units.** A row's `.length` (game.js:157) and
  its `split('')` (game.js:171) count UTF-16 code units. The model's strings
  count characters. A row holding a character outside the Basic Multilingual
  Plane is therefore sized and placed differently here. Splitting the file on
  line feeds is not affected.
- `Game.GameOfLife.Board`: the ghost view of the array only states its shape.
  What the board holds is stated by the methods that change it.
- `Life.Toggles`: its own contract says only that every listed cell exists.
  Which cells it lists, and in what order, is stated by
  `Life.TogglesMeaning` and `Life.TogglesInVisitOrder`.
- `Life.ApplyToggles`: its own contract states only the board's shape. Its
  effect is stated by `Life.ApplyTogglesSnoc` and `Life.ApplyDistinctToggles`.
- `Life.KeepInBounds` and `Life.AliveCount` state only a length bound. What
  they keep and count is stated by `Life.KeepInBoundsMembers`,
  `Life.AliveCountExtremes` and `Life.AliveCountCardinality`.
- `Pattern.OverlayRow` and `Pattern.Overlay`: their own contracts state
  only the board's shape. Their effect is stated by
  `Pattern.OverlayRowCells` and `Pattern.OverlayCellAt`.
- `Pattern.Load`: its own contract states only the board's shape. Its
  effect is stated by these lemmas:
  - `Pattern.RejectedLoadChangesNothing`;
  - `Pattern.LoadSetsMarks`;
  - `Pattern.OffBoardLoad`;
  - `Pattern.LoadKeepsOtherCells`.
- `Pattern.Split`, `Pattern.RowReach` and `Pattern.Reached` state only size
  bounds. What they compute is stated by these lemmas:
  - `Pattern.JoinSplit`, `Pattern.SplitLine` and `Pattern.SplitPieces`;
  - `Pattern.RowReachMeaning` and `Pattern.RowReachAt`;
  - `Pattern.ReachedAll`, `Pattern.ReachedCut` and `Pattern.ReachedPrefixes`.
