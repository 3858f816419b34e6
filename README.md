# Conway's Game of Life: a verified model of the simulation engine

This project models the engine of a command-line Game of Life (`conway.py`, class
`Game`). The engine holds the current generation in `board` and a shadow buffer
`tmpboard` of the same shape. `update_one(y, x)` counts the live neighbours of one
cell, with no wrap-around. It then applies the B3/S23 rule: a live cell with fewer
than two or more than three neighbours dies, and a dead cell with exactly three is
born. It reads `board` and writes only into `tmpboard`, and only when the cell
changes. `update_all` sweeps every cell and then replaces `board` with a deep copy
of `tmpboard`. `draw` turns the board into a text frame.

The model has four modules:

- `Rules` (`rules.dfy`) holds the pure specification on grid values
  (`seq<seq<int>>`, cells 0/1). It contains the bounds test `InBounds`, the
  neighbour count `Count` (taken over the source's eight offsets, in the source's
  order), the rule `Next` and the synchronous step `Step`, with lemmas about them.
- `Conway` (`game.dfy`) holds the class `Game`, with the two buffers as
  `array2<int>` fields and the methods `CountNeighbours`, `UpdateOne`, `UpdateAll`
  and `Draw`. Each is proved against the functions of `Rules` and `Render`. The
  object invariant `Valid()` says three things: the buffers have `ysize` rows of
  `xsize` cells, the buffers are distinct arrays, and between steps `tmpboard`
  equals `board` cell by cell with every cell 0 or 1. This invariant is the reason
  the "write only on change" update is correct.
- `Render` (`render.dfy`) holds the frame string built by `draw` and the proof
  that cutting the frame at its newlines gives back one line per row.
- `Glider` (`glider.dfy`) holds the demonstration board of `runglider` as a test
  value. It proves that after four generations the glider stands one row down and
  one column right. A client method runs the imperative engine four times on that
  board.

The short-circuit `and` in the neighbour test is checked, not assumed. `IsLive`
reads `g[y][x]` only after `InBounds` holds, and Dafny's well-formedness check
proves that no out-of-grid cell is ever read.

## Model

| member | source | states |
|---|---|---|
| `Rules.InBounds` | conway.py:26 | definition: a position is on the grid exactly when 0 <= y < ysize and 0 <= x < xsize, so no index wraps |
| `Rules.IsLive` | conway.py:27-34 | definition: a neighbour is live when it is in bounds and its cell `== 1`; the cell is read only under the bounds test (checked by well-formedness) |
| `Rules.CountOver` | conway.py:32-35 | counting over a list of offsets finds at most one live cell per offset |
| `Rules.Count` | conway.py:31-35 | the live-neighbour count of a cell is between 0 and 8 |
| `Rules.CountUnfold` | conway.py:32-35 | the count is the sum of the eight in-bounds-and-equals-1 tests, one per offset in the loop's order |
| `Rules.CountIsLiveNeighbours` | conway.py:26-35 | the count equals the number of live, in-bounds cells in the 3x3 window other than the cell itself; off-grid positions add nothing and nothing wraps |
| `Rules.HitSetSize` | conway.py:32-35 | with no repeated offset, the set of live positions reached has as many elements as the loop counts |
| `Rules.HitSetMembers` | conway.py:32-35 | a position is reached exactly when it is live and one of the offsets leads to it |
| `Rules.CornerCount` | conway.py:26-35 | the corner (0, 0) of a grid at least 2x2 counts only (1, 0), (0, 1) and (1, 1) |
| `Rules.CountLocal` | conway.py:31-35 | the count depends only on the eight cells around the cell |
| `Rules.Next` | conway.py:37-44 | the rule always yields 0 or 1 |
| `Rules.NextTable` | conway.py:37-44 | the rule table: underpopulation below 2, survival with 2 or 3, overpopulation above 3, birth exactly at 3 |
| `Rules.Step` | conway.py:46-51 | a step keeps the grid's shape (ysize rows of xsize cells) and yields only 0/1 cells |
| `Rules.StepLocal` | conway.py:46-51 | a new cell depends only on the 3x3 window of the old generation around it (synchronous update) |
| `Rules.CountEmpty` | conway.py:31-35 | every count on the dead grid is 0 |
| `Rules.EmptyIsFixedPoint` | conway.py:41-51 | the dead grid is a fixed point of the step: nothing is born without three live neighbours |
| `Rules.IsolatedCellDies` | conway.py:37-40 | a live cell with no live in-bounds neighbour has count 0 and dies |
| `Render.Glyph` | conway.py:55-64 | a cell is drawn as ' ' exactly when it is 0, and as 'x' otherwise |
| `Render.RowText` | conway.py:59-65 | a row's line has one character per cell: ' ' for 0, 'x' otherwise, and no newline |
| `Render.RowsText` | conway.py:58-65 | one line per row, in row order |
| `Render.Join` | conway.py:66 | joining no lines gives the empty text; otherwise the text starts with the first line and ends with the last |
| `Render.JoinNewlines` | conway.py:66 | lines without newlines join into a text with one newline between each consecutive pair, so one fewer than the lines |
| `Render.LinesJoin` | conway.py:66 | cutting the newline-joined lines at their newlines gives back the lines |
| `Render.Frame` | conway.py:53-66 | a board with no rows gives the empty frame; otherwise cutting the frame at its newlines gives exactly one line per row, the row's own line |
| `Render.FrameLayout` | conway.py:53-66 | the frame has ysize lines of xsize characters each, ' ' for a 0 cell and 'x' for any other; a board with no rows gives the empty frame |
| `Conway.DeepCopy` | conway.py:25 | the copy is a fresh array of the same shape holding the same cells |
| `Conway.Game.constructor` | conway.py:18-25 | the game keeps the caller's board itself, and its shadow buffer is a fresh deep copy; the invariant holds |
| `Conway.Game.CountNeighbours` | conway.py:26-35 | the loop over the eight offsets returns `Count` of the board, which is the number of live in-bounds neighbours |
| `Conway.Game.UpdateOne` | conway.py:29-44 | board unchanged; every other shadow cell unchanged; a live cell with fewer than 2 or more than 3 neighbours gets 0 and otherwise keeps its shadow value; a dead cell with exactly 3 gets 1 and otherwise keeps its shadow value |
| `Conway.Game.UpdateAll` | conway.py:46-51 | the new board is a fresh array equal to `Step` of the old board; the shadow buffer is the same array and again equals the board; shape and 0/1 cells are preserved |
| `Conway.Game.Draw` | conway.py:53-65 | the frame is `Render.Frame` of the board |
| `Glider.Board` | conway.py:77-98 | the demonstration board has 20 rows of 20 cells, each 0 or 1 |
| `Glider.BoardIsPhase0` | conway.py:77-98 | the demonstration board holds exactly the glider's five cells |
| `Glider.CountFromLive` | conway.py:31-35 | on such a grid the count is the sum of the eight neighbour tests on the predicate |
| `Glider.StepBetween` | conway.py:46-51 | a step between two such grids follows from the rule holding cell by cell |
| `Glider.GliderTranslates` | conway.py:77-98 | four steps of the demonstration board give the initial glider shifted by one row and one column |
| `Glider.GliderGame` | conway.py:76-99 | a game over the demonstration board satisfies the invariant |
| `Glider.RunGlider` | conway.py:99-100 | four `UpdateAll` calls on the demonstration game leave a valid 20x20 game whose board is four `Step`s of the demonstration board, which is the glider moved one row down and one column right |

## Left out

- `binaryrandom` and the random-board branch of `__init__` (conway.py:14-15, 24) are left out: they depend on a foreign random source and on floating-point comparison. The board is always supplied by the caller.
- `run` (conway.py:68-74) is left out. It is an endless loop whose only work besides `draw` and `update_all` is clearing the terminal and sleeping. `runrandom` and the `__main__` entry point are left out for the same reason, and so is the `game.run()` call in `runglider`. The client method `Glider.RunGlider` runs four generations in place of that call.
- The `print` in `draw` (conway.py:66) is left out: `Conway.Game.Draw` returns the frame string instead of printing it.
- The code does no dimension validation and raises no error, so the model has no `DimensionMismatch` or `InvalidDimensions` outcome. The constructor requires that the board has `ysize` rows of `xsize` cells, all 0 or 1.
- `Conway.Game.constructor`: Python's `if initialboard:` sends an empty board to the random branch. With zero rows that branch also yields an empty board, but as a new list rather than the caller's. The model keeps the caller's (empty) array in that case.
- `Conway.Game.constructor`: two aliasing behaviours of the Python object are not modelled. First, `deepcopy` keeps rows that the caller's board shares: a board built as `[[0, 1, 0]] * 3` gives a `tmpboard` whose three rows are one list, so one `update_all` yields `[[1, 0, 1]] * 3` where `Step` gives `[[0, 0, 0], [1, 1, 1], [0, 0, 0]]`. An `array2` has no shared rows, so the model covers only boards with distinct rows. Second, the caller still holds `initialboard` (conway.py:21) and may change it before the first step, which leaves `tmpboard` stale. The model rules this out: `UpdateAll` requires `Valid()`, which says that `tmpboard` equals `board`.
- Cells outside {0, 1} are not covered by the generation-step theorem. The count and `UpdateOne` follow the code for any integer cell (a neighbour counts when it `== 1`), but `Valid()` requires 0/1 cells. Outside {0, 1}, the rule's `== 1` test and `draw`'s `== 0` test disagree.
- The engine has no separate snapshot operation. `Draw` has no `modifies` clause, so calling it twice without a step returns the same frame and changes nothing.
