# Minesweeper game engine, modelled in Dafny

This project models the game engine of a server-side Minesweeper service
(`src/services/minesweeper.py`). It has two parts.

* **The board engine** (`MinesweeperGame`) is in `engine.dfy` as the class
  `Engine.Game`. Pure facts about boards are in `grid.dfy`. A game owns a
  `height × width` field of cells, a counter of opened cells and a
  `completed` flag. The game stores each cell as a one-character string.
  The model uses the datatype `Cells.Cell`:
  * `Hidden` is `" "`;
  * `Mine` is `"M"`, a hidden mine;
  * `Opened(n)` is the digit `n`;
  * `Exploded` is `"X"`.

  `Cells.Marker` and `Cells.Parse` map between the two forms, and are
  proved inverse to each other. The field is a `seq<seq<Cell>>` that the
  methods reassign, one cell at a time (`Grid.Write`), where the source
  assigns into its list of lists. The game's operations are methods with
  the source's loops:
  * mine placement by rejection sampling;
  * the nested-loop count of mines in the clipped 3×3 block;
  * the stack-driven flood fill;
  * the full reveal on a loss.
* **The session registry** (`MinesweeperService`) is in `service.dfy` as
  the class `Service.Registry`. It holds a `map<string, Game>` from game id
  to game. Its operations:
  * `NewGame` checks the parameters, creates a game and stores it;
  * `Turn` refuses unknown ids, finished games and cells off the field, and
    otherwise applies the move;
  * `FormatResponse` / `MaskField` build the caller's view, which hides the
    mines while the game is on.

Main invariant: while a game is not over (`Engine.InPlay`),
* its mines are exactly `minesCount` hidden `Mine` cells;
* every opened cell shows its true count;
* `openedCells + #Hidden + #Mine == width * height`.

The flood fill keeps this invariant. So does re-stamping an opened cell,
which changes nothing. From it, the win test
`openedCells + minesCount == width * height` holds exactly when no hidden
empty cell is left (`Engine.WonIffAllSafeOpened`).

A won game shows its mines as `Mine` ("M"): the masking applies only while
`completed` is false (line 89). Three places where the code misbehaves are
recorded under "## Findings":
* the parameter check (line 95) has no lower bounds;
* the loss reveal (lines 41-47) under-counts;
* a negative coordinate re-stamps the wrong cell (lines 111 and 119).

In each case `NewGame` and `Turn` use the corrected behaviour, and a separate
member models the code as written.

What is given from outside as parameters:
* the random cells drawn by `random.randint` are the `draws` sequence;
* the `uuid4` game id is the `gid` string, which must not already be in
  the registry.

## Model

| member | source | states |
|---|---|---|
| `Cells.ParseMarker` | src/services/minesweeper.py:44-47 | reading back the marker stored for a cell (" ", "M", a digit, "X") gives that cell again |
| `Cells.MarkerParse` | src/services/minesweeper.py:64-66 | every string that reads as a cell is exactly that cell's marker, so the encoding is one to one |
| `Grid.CountHiddenBoard` | src/services/minesweeper.py:18 | the fresh field has `width * height` hidden cells and no cell of any other kind |
| `Grid.CountCellsWrite` | src/services/minesweeper.py:30 | writing one cell moves it from the count of its old kind to that of its new kind; every other kind's count stays the same |
| `Grid.AdjMinesIsMinesNear` | src/services/minesweeper.py:33-39 | the window count equals the number of mines at most one row and one column away from the cell, the cell itself included; cells off the board never count |
| `Grid.AdjMinesBound` | src/services/minesweeper.py:35-38 | a count is at most 9, and at most 8 when the cell itself is not a mine |
| `Grid.AdjMinesSame` | src/services/minesweeper.py:37 | the count depends only on where the `"M"` cells are, so opened or exploded cells never change it |
| `Grid.RevealAsWrittenUndercounts` | src/services/minesweeper.py:41-47 | on the one-row field `M`, `" "`, the single reveal pass shows `0` next to the exploded mine, while the true count is 1 |
| `Engine.WonIffAllSafeOpened` | src/services/minesweeper.py:49-50 | during play, the win test holds iff no hidden empty cell remains; the opened counter never exceeds `width * height - minesCount` |
| `Engine.InPlayAfterOpens` | src/services/minesweeper.py:64-67 | opening hidden cells with their counts, while adding the number opened to the counter, keeps the in-play bookkeeping |
| `Engine.ZerosClosedStep` | src/services/minesweeper.py:61-72 | one pop of the fill keeps every hidden neighbour of each cell the fill set to 0 on the stack |
| `Engine.ChainOpen` | src/services/minesweeper.py:62-67 | opening the popped cell extends the chain of opened cells. The cell was the start, or was pushed by a cell that went to 0, which becomes its parent. It is not yet in the chain, and the rest of the stack keeps its pushers |
| `Engine.ChainPush` | src/services/minesweeper.py:69-72 | cells pushed around the cell just set to 0 record it as their pusher |
| `Engine.ChainSkip` | src/services/minesweeper.py:62-64 | popping a cell that is off the field or not hidden keeps the pushers of the rest of the stack |
| `Engine.OpenStepCounts` | src/services/minesweeper.py:64-67 | opening a hidden cell with its count keeps the fill's bookkeeping: only hidden cells opened, the counter one up for one hidden cell fewer, the mines unchanged, and the start opened or still stacked |
| `Engine.OpenStep` | src/services/minesweeper.py:64-72 | opening the popped hidden cell, and pushing the block around it when its count is 0, keeps the whole fill invariant. The cell joins the chain, and one hidden cell fewer is left |
| `Engine.ChainStaysLeft` | src/services/minesweeper.py:58-72 | on the one-row field `" "`, `" "`, `"M"`, `" "`, `" "`, every cell chained to the start (0, 0) lies in the first two columns |
| `Engine.FillStopsAtCounts` | src/services/minesweeper.py:58-72 | on that field the fill from (0, 0) opens exactly (0, 0) with 0 and (0, 1) with 1. The separate zero region at (0, 3)-(0, 4) stays hidden |
| `Engine.BlockCells` | src/services/minesweeper.py:70-71 | the block the loops push holds exactly the cells of the board within one row and one column of the centre |
| `Engine.BlockPending` | src/services/minesweeper.py:69-72 | after the block is pushed, every on-board neighbour of the centre is on the stack, and so is everything that was on it |
| `Engine.PushBlock` | src/services/minesweeper.py:69-72 | the nested loops append exactly the block to the stack, row by row. Everything they push is on the board and near the centre, and every on-board neighbour is among the pushed cells |
| `Engine.Game.OpenPopped` | src/services/minesweeper.py:64-72 | opening a popped hidden cell with its count (and pushing its block if the count is 0) keeps the fill invariant and leaves one hidden cell fewer |
| `Engine.Game.FillStep` | src/services/minesweeper.py:61-72 | one round of the loop keeps the fill invariant. The invariant says: only hidden cells opened, with their counts; counter and mines balanced; start opened or stacked; zeros closed; opened cells chained to the start; stacked cells tied to their pushers. The round opens a cell or shrinks the stack |
| `Engine.Game.constructor` | src/services/minesweeper.py:13-22 | the new game has the given sizes and id. Its field has exactly `minesCount` mines, all at drawn cells, and every other cell hidden. `openedCells` is 0, `completed` is false and the in-play invariant holds |
| `Engine.Game.GenerateMines` | src/services/minesweeper.py:24-31 | rejection sampling over the drawn cells ends with exactly `minesCount` mines. Every mine is at a drawn cell, and the rest of the field stays hidden |
| `Grid.WindowCount` | src/services/minesweeper.py:33-39 | the loops' count for any coordinates: on the board it is the count of the clipped 3×3 block; more than one step off the board it is 0, as Python's empty ranges give |
| `Grid.PyIndex` | src/services/minesweeper.py:111 | Python's list index for -n ≤ i < n lies in 0..n-1 and is i itself, or i + n for a negative i |
| `Engine.Game.CountAdjacentMines` | src/services/minesweeper.py:33-39 | the nested loops return the loops' count for any coordinates. On the field that is the number of mines in rows `max(0,r-1)..min(height,r+2)-1` × columns `max(0,c-1)..min(width,c+2)-1` |
| `Engine.Game.RestampAsWritten` | src/services/minesweeper.py:111-119 | the re-stamp as written, for every index Python accepts: the cell picked by Python indexing is overwritten with the count for the coordinates as given |
| `Engine.NegativeRestampMiscounts` | src/services/minesweeper.py:111-119 | on the in-play field `" "`, `"M"`, `"1"`, the move (-1, -1) re-stamps (0, 2) with 0. The field is then no longer in play-consistent state: (0, 2) shows 0 next to a mine |
| `Engine.Game.IsGameWon` | src/services/minesweeper.py:49-50 | during play, the win test holds exactly when no hidden non-mine cell is left |
| `Engine.Game.RevealAllCellsAsWritten` | src/services/minesweeper.py:41-47 | the source's single row-major pass turns each mine into `Exploded`. Every other cell gets the count seen on the field at that moment, where the mines already passed have exploded |
| `Engine.Game.RevealAllCells` | src/services/minesweeper.py:41-47 | corrected reveal: every former mine is `Exploded`, every other cell is `Opened` with its true count on the original field, no hidden cell is left |
| `Engine.Game.OpenCell` | src/services/minesweeper.py:58-72 | the flood fill only opens hidden cells, each with its count; mines and opened cells stay put. The start cell (if on the field) is no longer hidden, and no hidden cell is left next to a cell the fill set to 0. Every opened cell is joined to the start by a chain of cells the fill set to 0, so no zero region apart from the start's is opened. `openedCells` grows by exactly the number of cells opened, and the in-play invariant is kept. It terminates on (hidden cells, stack length) |
| `Engine.Game.OpenEmptyCells` | src/services/minesweeper.py:74-76 | runs the fill only for a hidden cell on the field; otherwise field and counter are unchanged |
| `Service.AcceptsAsWrittenUnplayable` | src/services/minesweeper.py:95 | the written check accepts width -2, height -3 and 5 mines, though no draws let mine placement finish. It also accepts a 3×3 board with -1 mines, where every reachable field keeps opened + hidden + mines at 9, so the win test never holds |
| `Service.ValidParametersChar` | src/services/minesweeper.py:95-96 | the corrected check is the written one plus sides ≥ 1 and mines ≥ 0. What it accepts has room for every mine and at least one safe cell |
| `Service.MaskField` | src/services/minesweeper.py:89 | while the game is on, no cell of the view is a mine: mines show as hidden and every other cell is copied. Once it is over, the view is the field itself |
| `Service.MaskHidesMines` | src/services/minesweeper.py:89 | while the game is on, two fields that differ only in which hidden cells are mines give the same view |
| `Service.FormatResponse` | src/services/minesweeper.py:83-92 | the response has the game's id, sizes, mine count and flag. While the game is on, its field shows no mine; every other cell is copied; once over, it is the field itself |
| `Service.Registry.constructor` | src/services/minesweeper.py:80-81 | a registry starts with no games |
| `Service.Registry.NewGame` | src/services/minesweeper.py:94-99 | invalid parameters give `InvalidParameters` and leave the registry unchanged. Otherwise exactly one entry is added, a fresh game under the new id, and the result is its view |
| `Service.Registry.Turn` | src/services/minesweeper.py:101-124 | an unknown id gives `GameNotFound`, a completed game gives `GameAlreadyCompleted`, and a cell off the field gives `OutOfBounds`; none of these changes anything. Otherwise: a mine completes the game and reveals every cell; a hidden cell is flood filled: only cells chained to it through zeros are opened, and no hidden cell is left next to a zero it set; an opened cell stays as it is. After a non-mine move, `completed` is set exactly when the win test holds. The registry map never changes |

## Left out

- Randomness: the cells drawn by `random.randint` (line 27-28) are the `draws` parameter. `Engine.Game.constructor` and `Service.Registry.NewGame` require that the draws lie on the field and hold at least `minesCount` distinct cells, so the sampling loop ends within them. An endless random stream does that with probability 1.
- Identifiers: `uuid.uuid4()` (line 14) is replaced by a caller-supplied id that is not yet in the registry.
- `Service.Registry.Turn`: refuses every coordinate outside 0..height-1 × 0..width-1 with `OutOfBounds`, and changes nothing. The source raises `IndexError` only beyond -height..height-1 (and likewise for columns). A negative index within that range reaches line 111 on the cell Python's indexing picks from the far end. If that cell is a mine, the game is lost. If it is hidden, the guard at line 75 opens nothing and only the win test runs. If it is opened, the cell is re-stamped with a count taken around the negative coordinates; see Findings, where `Engine.Game.RestampAsWritten` models this. Only this third outcome has an as-written member.
- `Engine.Game.CountAdjacentMines`: takes any coordinates, as the source does. For an empty window it skips the loops; this is equivalent to Python's empty ranges.
- The losing branch of `turn` returns the game object's attribute dictionary (line 114). The model returns the view instead. The game is completed at that point, so that view is the unmasked field with the same sizes, id and flag.
- `Engine.Game.OpenCell`: the fill's loop body is split into `FillStep` and `OpenPopped`, and the block push into `PushBlock`. The stack stays a `seq` value that the loop reassigns. The chain of opened cells is ghost state.
- `increment_opened_cells` (lines 55-56) is written inline as `openedCells := openedCells + 1`.
- HTTP plumbing is not modelled: `HTTPException` and status codes, `Depends`, `get_active_games` / `get_minesweeper_service` (lines 127-132), routing, application wiring and CORS.
- `async`, the module-level `active_games` dictionary shared between service instances, and concurrent requests are not modelled. The registry is one object.
- The `print` of the registry (line 102) has no effect on state and is left out.
- Field `remaining_cells` and `decrement_remaining_cells` (lines 20, 52-53) are never read and are left out.
- Request records (`NewGameSchema`, `TurnSchema`) appear only as plain method parameters.

## Findings

| source | as written | input that shows it | evidently intended | confidence | as-written member | corrected member |
|---|---|---|---|---|---|---|
| src/services/minesweeper.py:95 | the check bounds width and height only from above, and the mine count only by `width * height - 1` | width -2, height -3, mines 5 passes; the field has no cells and `randint(0, -4)` raises. Width 3, height 3, mines -1 passes and the game can never be won | sides from 1 to 30 and from 0 to `width * height - 1` mines | not executed; high | `Service.AcceptsAsWrittenUnplayable` | `Service.ValidParametersChar` (used by `Service.Registry.NewGame`) |
| src/services/minesweeper.py:41-47 | one row-major pass rewrites `"M"` to `"X"` and counts only `"M"`, so mines already passed no longer count | field `M`, `" "` (one row): the reveal shows `X`, `0` | every non-mine cell shows its true count of nearby mines | not executed; high | `Engine.Game.RevealAllCellsAsWritten`, `Grid.RevealAsWrittenUndercounts` | `Engine.Game.RevealAllCells` (used by `Service.Registry.Turn`) |
| src/services/minesweeper.py:111-119 | line 111 indexes the field with the coordinates as sent, so negative ones pick a cell from the far end. Line 119 then writes the count for the negative coordinates themselves into that cell | height 1, width 3, field `" "`, `"M"`, `"1"`, move (-1, -1): cell (0, 2) is re-stamped `"0"` while it touches the mine | coordinates outside the field are refused, as the guard of line 75 treats them | not executed; high | `Engine.Game.RestampAsWritten`, `Engine.NegativeRestampMiscounts` | `Service.Registry.Turn` (refuses them with `OutOfBounds` and keeps every game valid) |
