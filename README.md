# Minesweeper board engine in Dafny

This project models the board and cell state engine of a terminal Minesweeper
game, written in C++, together with the grid container it is built on:

- `Board` keeps a `rows x cols` grid of cells and the number of mines, and does the following:
  - lays mines by drawing random cells until enough distinct cells hold one;
  - labels every other cell with its number of adjacent mines;
  - handles the moves uncover, flag and remove-flag;
  - opens zero regions with a recursive four-way flood fill;
  - decides a win;
  - resets the grid to 0 x 0.
- `Cell` is a pair of a visibility state (covered, uncovered, flagged) and a
  value: an adjacency count 0..8, or the mine, ordinal 9.
- `Array<T>` is a resizable buffer with a start index and bounds-checked indexing.
  `Array2D<T>` stores a grid row-major in an `Array<T>` and reshapes it in
  place with `setRow` and `setColumn`. `Row<T>` is the proxy for the second
  subscript and applies the column check.

The modules follow the program's structure:

| file | module | models |
|---|---|---|
| errors.dfy | `Errors` | the exceptions, as an `Error` datatype; `Outcome` for mutators, `Result` for reads |
| cell.dfy | `Cells` | `State`, `Value` (a newtype 0..9 with the named ordinals), `Cell` |
| array.dfy | `Arrays` | the class `Array<T>` over a Dafny `array<T>` |
| array2d.dfy | `Grid2D` | the classes `Array2D<T>` and `Row<T>`, and the row-major index algebra |
| grid.dfy | `Grids` | the grid as a value (`seq<seq<Cell>>`), lookup with the two bounds errors, cell counts |
| labels.dfy | `Labels` | neighbour counts in the source's direction order; the invariant of the labelling scan |
| placement.dfy | `Placement` | which cells a sequence of draws mines |
| fill.dfy | `Fill` | a relational specification of the flood fill, with its exactness and uniqueness |
| moves.dfy | `Moves` | flag and remove-flag as functions on the grid |
| win.dfy | `Winning` | the two-clause win rule |
| board.dfy | `Boards` | the presets and the class `Board` |

`Board`, `Array2D` and `Array` are classes whose methods update their fields
and buffer in place. Each class's ghost `Contents()`/`Matrix()`/`Elements()`
gives its state as a value. Each method's `ensures` ties the new state to a
function of the old one, and the functions in `Grids`, `Labels`, `Placement`,
`Fill`, `Moves` and `Winning` carry the properties.

The main results:

- `AssignCellValues` leaves the grid equal to `Labelled(g0)`. In that grid every
  non-mine cell holds its number of in-bounds mine neighbours, and mines and
  states stay as they were. The proof runs the scan's row-by-row invariant
  `Partway` through the eight guarded increments around each mine.
- `ShuffleMines` counts exactly the mine cells and never lays more than
  `numMines`. It completes exactly when the count reaches `numMines`, and the
  board then holds exactly `numMines` mines, which needs `numMines <= rows * cols`.
  It consumes an even number of draws, so the mines are exactly the cells named
  by the pairs (0, 1), (2, 3), … of draws, row draw first; labelling again
  changes nothing.
- `FloodFill` satisfies `FillSpec`:
  - only covered non-mine cells are uncovered, and nothing else changes;
  - every opened zero cell has no openable orthogonal neighbour left;
  - the start is opened if it is a covered non-mine cell on the board, and
    everything opened is reachable from it; any other start changes nothing.

  `FillExact` shows that a fill meeting `FillSpec` opens exactly the cells
  reachable along a fill path, and `FillUnique` shows the result is
  determined. Termination is by the number of covered cells.
- `WonGame` returns `WinRule`. `FlagsMatchExactly` shows that the flag clause
  holds exactly when the flagged cells are the mines.
- Flag and remove-flag are inverse moves, and each changes one cell.

## Model

| member | source | states |
|---|---|---|
| Cells.AdjacentCount | Minesweeper/Minesweeper/cell.h:52-63 | the count ordinals 0..8 are the values NO_ADJ_MINES..EIGHT_ADJ_MINES, none of them the mine |
| Cells.Increment | Minesweeper/Minesweeper/board.cpp:555 | adding one to a count's ordinal gives the next value, strictly greater |
| Cells.Cell.SetState | Minesweeper/Minesweeper/cell.cpp:92-95 | afterwards GetState is the new state and the value is unchanged |
| Cells.Cell.SetValue | Minesweeper/Minesweeper/cell.cpp:107-110 | afterwards GetValue is the new value and the state is unchanged |
| Cells.NewCell | Minesweeper/Minesweeper/cell.cpp:21 | a default cell is covered with no adjacent mines |
| Cells.CopyOf | Minesweeper/Minesweeper/cell.cpp:70-80 | copy construction and assignment copy both state and value |
| Cells.SettersIndependent | Minesweeper/Minesweeper/cell.h:89-91 | a cell is exactly one state and one value: the last state set wins, setting state and value commute, and a copy equals the original |
| Arrays.Resized | Minesweeper/Minesweeper/array.h:328-348 | a resized buffer has exactly n elements: the old ones below min(old length, n), the default after |
| Arrays.Array.constructor | Minesweeper/Minesweeper/array.h:98-101 | the default array has length 0, start index 0 and no elements |
| Arrays.Array.Make | Minesweeper/Minesweeper/array.h:116-137 | a negative length fails with the negative-length error; otherwise length, start index and default elements as given |
| Arrays.Array.Get | Minesweeper/Minesweeper/array.h:242-260 | indexing succeeds exactly when start <= i < start + length and then yields element i - start; otherwise the lower- or upper-bound error |
| Arrays.Array.Set | Minesweeper/Minesweeper/array.h:242-260 | a write through operator[] has the same bounds errors and changes nothing on error; otherwise it overwrites exactly element i - start |
| Arrays.Array.SetStartIndex | Minesweeper/Minesweeper/array.h:288-292 | only the start index changes; the valid index range shifts to [start, start + length) |
| Arrays.Array.SetLength | Minesweeper/Minesweeper/array.h:324-359 | a negative length fails and keeps buffer and length; otherwise the length is n and the elements are the old ones resized to n |
| Arrays.Array.Assign | Minesweeper/Minesweeper/array.h:202-228 | assignment gives equal length, start index and elements, in a fresh buffer unless it is self-assignment |
| Grid2D.IdxInRange | Minesweeper/Minesweeper/array2D.h:420-428 | for 0 <= r < rows and 0 <= c < cols, Select's index r * cols + c lies in [0, rows * cols) |
| Grid2D.IdxInjective | Minesweeper/Minesweeper/array2D.h:420-428 | two in-grid pairs with the same row-major index are the same pair |
| Grid2D.RowMajor | Minesweeper/Minesweeper/array2D.h:420-428 | cell (i, j) of the grid a buffer stands for is buffer element i * cols + j |
| Grid2D.RowMajorUpdate | Minesweeper/Minesweeper/array2D.h:420-428 | writing buffer element r * cols + c writes grid cell (r, c) and no other cell |
| Grid2D.WidenedSameWidth | Minesweeper/Minesweeper/array2D.h:326-378 | rebuilding to the column count the grid already has leaves every cell unchanged |
| Grid2D.PartialStep | Minesweeper/Minesweeper/array2D.h:343-347 | one copy of setColumn's inner loop adds cell (i, j) of the old grid to the new |
| Grid2D.PartialRowDone | Minesweeper/Minesweeper/array2D.h:341-350 | a row of the copy is complete once j reaches the smaller of the old and new widths |
| Grid2D.PartialEnd | Minesweeper/Minesweeper/array2D.h:338-373 | after the last row the copy is the old grid widened or narrowed to the new width |
| Grid2D.RowMajorConstant | Minesweeper/Minesweeper/array2D.h:329 | the fresh temporary buffer stands for a grid of default elements |
| Grid2D.Array2D.constructor | Minesweeper/Minesweeper/array2D.h:111-113 | the default grid is 0 x 0 over an empty buffer |
| Grid2D.Array2D.SetRow | Minesweeper/Minesweeper/array2D.h:272-292 | negative: rows 0 and the negative-row error; 0: a 0 x 0 grid with empty storage; otherwise rows = r and the buffer resized to r * cols, keeping its leading elements; storage length rows * cols whenever it returns normally |
| Grid2D.Array2D.SetColumn | Minesweeper/Minesweeper/array2D.h:308-379 | negative: cols 0 and the negative-column error; 0: a 0 x 0 grid; otherwise storage length rows * c and cell (i, j) kept for every j below both column counts, default elsewhere |
| Grid2D.Array2D.CopyWidening | Minesweeper/Minesweeper/array2D.h:332-352 | the widening copy loops build the old grid padded to the new width |
| Grid2D.Array2D.CopyNarrowing | Minesweeper/Minesweeper/array2D.h:354-374 | the narrowing copy loops build the old grid cut to the new width |
| Grid2D.Array2D.CopyRowPrefix | Minesweeper/Minesweeper/array2D.h:341-348 | the inner copy loop copies cells 0 .. n - 1 of row i, leaving both counters at (i, n) |
| Grid2D.Array2D.CopyCell | Minesweeper/Minesweeper/array2D.h:343-347 | tempArray[tempArrayCount] = m_array1D[originalArrayCount] copies cell (i, j) to its place in the new width |
| Grid2D.Array2D.RowAt | Minesweeper/Minesweeper/array2D.h:395-404 | a row outside [0, rows - 1] fails with the row error; otherwise a fresh proxy for that row |
| Grid2D.Array2D.Select | Minesweeper/Minesweeper/array2D.h:420-428 | an in-grid pair selects grid cell (r, c) |
| Grid2D.Array2D.SelectSet | Minesweeper/Minesweeper/array2D.h:420-428 | a write through Select overwrites buffer element r * cols + c, which for an in-grid pair is exactly cell (r, c) |
| Grid2D.Row.constructor | Minesweeper/Minesweeper/row.h:80-82 | the proxy holds its grid and its row |
| Grid2D.Row.SetRowDesired | Minesweeper/Minesweeper/row.h:168-172 | after setRowDesired(r), getRowDesired returns r |
| Grid2D.Row.Get | Minesweeper/Minesweeper/row.h:131-140 | a column outside [0, cols - 1] fails with the column error; otherwise the result is Select(row, column), the grid cell for an in-grid pair |
| Grid2D.Row.Set | Minesweeper/Minesweeper/row.h:131-140 | a write through the proxy fails on a bad column and changes nothing; on a good column it is Select's write: buffer element row * cols + column is overwritten, or it fails with the buffer's bound error and nothing changes; for an in-grid pair exactly that cell is overwritten |
| Grids.Lookup | Minesweeper/Minesweeper/array2D.h:395-404 | grid[r][c] succeeds exactly when 0 <= r < rows and 0 <= c < cols; the row error comes first, then the column error |
| Grids.CountPut | Minesweeper/Minesweeper/board.cpp:514-519 | overwriting one cell changes a count by what leaves and what comes in |
| Grids.CountLe | Minesweeper/Minesweeper/board.cpp:502-525 | a cellwise implication between two grids bounds the counts, and equal counts make it an equivalence |
| Grids.CountZero | Minesweeper/Minesweeper/board.cpp:504 | a count is zero exactly when no cell satisfies the predicate |
| Grids.CountSplit | Minesweeper/Minesweeper/board.cpp:450-462 | predicates that split a predicate split its count |
| Grids.CountBound | Minesweeper/Minesweeper/board.cpp:508 | no count exceeds rows * cols |
| Labels.DirOf | Minesweeper/Minesweeper/board.cpp:553-597 | the eight neighbour offsets, numbered in the order AssignCellValues visits them; every other offset maps to 8 |
| Labels.DirOfNeighbour | Minesweeper/Minesweeper/board.cpp:553-597 | the eight directions are eight distinct offsets |
| Labels.AdjacentSymmetric | Minesweeper/Minesweeper/board.cpp:553-597 | (r, c) is a neighbour of (i, j) exactly when (i, j) is a neighbour of (r, c) |
| Labels.AdjacentMines | Minesweeper/Minesweeper/board.cpp:539-601 | a cell has at most eight mine neighbours |
| Labels.AdjacentBefore | Minesweeper/Minesweeper/board.cpp:542-545 | the mine neighbours the scan has passed are among all mine neighbours |
| Labels.AdjacentBeforeStart | Minesweeper/Minesweeper/board.cpp:542 | before the scan starts no mine has been passed |
| Labels.AdjacentBeforeEnd | Minesweeper/Minesweeper/board.cpp:542-600 | after the last row every mine neighbour has been passed |
| Labels.AdjacentBeforeRowEnd | Minesweeper/Minesweeper/board.cpp:542-600 | the end of row i and the start of row i + 1 are the same point of the scan |
| Labels.PassedAmongNext | Minesweeper/Minesweeper/board.cpp:545-598 | passing cell (i, j) adds it to a neighbour prefix exactly when it is one of those neighbours |
| Labels.AdjacentBeforeNext | Minesweeper/Minesweeper/board.cpp:545-598 | passing cell (i, j) adds one to exactly the counts of its mine-free neighbours, when it is a mine |
| Labels.Bump | Minesweeper/Minesweeper/board.cpp:554-555 | one guarded increment: an in-bounds non-mine cell gains one, a mine is untouched, no state and no other cell changes |
| Labels.PartwayStart | Minesweeper/Minesweeper/board.cpp:532-533 | all-zero non-mine cells are the scan's state before it starts |
| Labels.BumpStep | Minesweeper/Minesweeper/board.cpp:553-597 | each of the eight increments around a mine keeps the scan's invariant |
| Labels.PartwayMineDone | Minesweeper/Minesweeper/board.cpp:548-598 | after the eight increments around a mine the scan moves to the next cell |
| Labels.PartwaySafeDone | Minesweeper/Minesweeper/board.cpp:548 | passing a cell that is not a mine changes no count |
| Labels.PartwayRowDone | Minesweeper/Minesweeper/board.cpp:545-599 | the end of a row is the start of the next |
| Labels.PartwayEnd | Minesweeper/Minesweeper/board.cpp:539-601 | at the end of the scan the grid is the start grid labelled |
| Labels.Labelled | Minesweeper/Minesweeper/board.cpp:535-537 | labelling keeps shape, states and mines, and gives each non-mine cell its number of mine neighbours |
| Labels.LabelledIdempotent | Minesweeper/Minesweeper/board.cpp:539-601 | labelling a labelled grid changes nothing |
| Labels.LabelledMineCount | Minesweeper/Minesweeper/board.cpp:539-601 | labelling keeps the number of mines |
| Placement.DrawnCells | Minesweeper/Minesweeper/board.cpp:511-512 | every drawn cell (row draw % rows, column draw % cols) is on the board |
| Placement.DrawnCellsNext | Minesweeper/Minesweeper/board.cpp:508-521 | each further pair of draws adds its one cell |
| Placement.DrawAt | Minesweeper/Minesweeper/board.cpp:511-512 | the k-th pair (draws 2k and 2k + 1, row draw first) names a cell on the board |
| Placement.DrawnCellsPairs | Minesweeper/Minesweeper/board.cpp:508-521 | for an even number of draws, a cell is drawn exactly when one of the pairs (0, 1), (2, 3), … names it |
| Placement.Mined | Minesweeper/Minesweeper/board.cpp:514-519 | mining a set of cells sets exactly those cells to the mine |
| Placement.MinedAdd | Minesweeper/Minesweeper/board.cpp:514-519 | mining one more fresh cell is one cell write |
| Placement.MinedMines | Minesweeper/Minesweeper/board.cpp:514 | on a mine-free grid, a cell is a mine after mining s exactly when it is in s |
| Placement.MinedNone | Minesweeper/Minesweeper/board.cpp:504 | mining no cells changes nothing |
| Placement.MinedClean | Minesweeper/Minesweeper/board.cpp:532-533 | mining a grid of zero counts leaves every other cell at zero, as AssignCellValues requires |
| Placement.LabelledMined | Minesweeper/Minesweeper/board.cpp:502-525 | after mining and labelling, the mines are exactly the drawn cells, labelling again changes nothing and no mine is gained or lost |
| Fill.EvolvesTrans | Minesweeper/Minesweeper/board.cpp:283-314 | two fills in a row open only what the first grid could open |
| Fill.NotOpenableStays | Minesweeper/Minesweeper/board.cpp:286-292 | a cell the fill cannot open stays exactly as it was |
| Fill.OpenableEarlier | Minesweeper/Minesweeper/board.cpp:286-292 | a cell openable later was openable before |
| Fill.StartDone | Minesweeper/Minesweeper/board.cpp:286-295 | a fill leaves its own start unopenable |
| Fill.FillPathEarlier | Minesweeper/Minesweeper/board.cpp:298-309 | a fill path of a later grid is a fill path of the earlier |
| Fill.ReachExtend | Minesweeper/Minesweeper/board.cpp:298-309 | a reach from a neighbour of an open zero cell extends to that cell |
| Fill.FillNothing | Minesweeper/Minesweeper/board.cpp:286-292 | a cell out of bounds, not covered or a mine: the fill changes nothing |
| Fill.FillSingle | Minesweeper/Minesweeper/board.cpp:292-298 | a covered counted cell is opened alone |
| Fill.FillSoFarStart | Minesweeper/Minesweeper/board.cpp:295-298 | opening a zero cell starts the fill's invariant |
| Fill.FillSoFarStep | Minesweeper/Minesweeper/board.cpp:302-309 | each of the four recursive calls keeps the invariant and leaves its neighbour unopenable |
| Fill.StepReach | Minesweeper/Minesweeper/board.cpp:302-309 | what a recursive call opens is reachable from the start |
| Fill.StepClosed | Minesweeper/Minesweeper/board.cpp:302-309 | a recursive call keeps the zero cells opened before it closed |
| Fill.FillSoFarEnd | Minesweeper/Minesweeper/board.cpp:298-310 | after the four calls the fill meets its specification |
| Fill.ClosedAtStart | Minesweeper/Minesweeper/board.cpp:298-310 | with the start's four neighbours unopenable, every opened zero cell is closed |
| Fill.PathOpened | Minesweeper/Minesweeper/board.cpp:283-314 | a closed fill opens every cell along a fill path from its start |
| Fill.FillExact | Minesweeper/Minesweeper/board.cpp:283-314 | a fill meeting the specification opens a cell exactly when it is reachable from the start |
| Fill.FillUnique | Minesweeper/Minesweeper/board.cpp:283-314 | the specification determines the fill's result |
| Fill.EvolvesCovered | Minesweeper/Minesweeper/board.cpp:295 | a fill never adds covered cells, the measure the recursion decreases |
| Moves.FlagMove | Minesweeper/Minesweeper/board.cpp:185-208 | off the board: the not-part-of-board error; not covered: cannot flag; covered: only that cell becomes flagged |
| Moves.UnflagMove | Minesweeper/Minesweeper/board.cpp:223-246 | off the board: the not-part-of-board error; not flagged: the not-flagged error; flagged: only that cell becomes covered |
| Moves.FlagThenUnflag | Minesweeper/Minesweeper/board.cpp:199-245 | removing the flag just placed restores the grid |
| Moves.UnflagThenFlag | Minesweeper/Minesweeper/board.cpp:199-245 | flagging the cell just unflagged restores the grid |
| Moves.FlagCounts | Minesweeper/Minesweeper/board.cpp:199-207 | a flag adds one flag and keeps every mine |
| Moves.UnflagCounts | Minesweeper/Minesweeper/board.cpp:237-245 | a flag removal removes one flag and keeps every mine |
| Winning.ScanCell | Minesweeper/Minesweeper/board.cpp:444-463 | one cell of WonGame's inner loop updates the verdict and both counts |
| Winning.ScanRow | Minesweeper/Minesweeper/board.cpp:442-464 | one row of WonGame's outer loop updates the verdict and both counts |
| Winning.FlagsMatchExactly | Minesweeper/Minesweeper/board.cpp:466-468 | with numMines mines on the board, the flag clause holds exactly when the flagged cells are the mines |
| Winning.FlagsOverrideCovered | Minesweeper/Minesweeper/board.cpp:466-468 | an illustration on one 1 x 2 grid: the flag clause wins even though a safe cell is still covered |
| Winning.ExtraFlagLoses | Minesweeper/Minesweeper/board.cpp:451-468 | an illustration on one 1 x 2 grid: a flagged safe cell loses even with every mine flagged |
| Winning.OneRowCounts | Minesweeper/Minesweeper/board.cpp:442-464 | helper for the two illustrations: the counts of a one-row grid of two cells, cell by cell |
| Boards.PresetOf | Minesweeper/Minesweeper/board.h:73-83 | Beginner 10 x 10 with 10 mines, Intermediate 16 x 16 with 40, Expert 16 x 30 with 100; every preset has 0 < mines < rows * cols |
| Boards.Board.constructor | Minesweeper/Minesweeper/board.cpp:34-38 | a new board has no cells and no mines |
| Boards.Board.CellAt | Minesweeper/Minesweeper/row.h:131-140 | m_arrayCells[row][column] is the grid lookup, with the row error first, then the column error |
| Boards.Board.SetCellAt | Minesweeper/Minesweeper/row.h:131-140 | a write through m_arrayCells[row][column] overwrites exactly that cell |
| Boards.Board.CreateBoard | Minesweeper/Minesweeper/board.cpp:113-124 | only fresh objects join the footprint; a sizing error ends the call, leaving the grid setRow or setColumn left (negative row: rows 0, columns and buffer kept; negative column: rows = row, columns 0, buffer as setRow resized it); otherwise row x column cells, numMines = mines, states as before (all covered after a reset), labelled, an even number of draws used, mines exactly the drawn cells, never more than mines of them, complete exactly when there are mines of them, which needs mines <= row * column |
| Boards.Board.Resize | Minesweeper/Minesweeper/board.cpp:116-117 | setRow then setColumn: the first error wins and leaves the grid that setter left (negative row: rows 0, columns and buffer kept; negative column: rows = row, columns 0, buffer as setRow resized it); otherwise the new shape, with no mine and, from covered cells, all covered |
| Boards.Board.ShuffleMines | Minesweeper/Minesweeper/board.cpp:502-525 | an even number of draws is used, and the cells are the old ones with the drawn cells mined, then labelled; never more than numMines mines; complete exactly when the count reaches numMines, and then exactly numMines mines and numMines <= rows * cols |
| Boards.Board.LayMines | Minesweeper/Minesweeper/board.cpp:504-521 | draws are taken two at a time, so an even number is used; countMines is always the number of mine cells, and the grid is the old one with the drawn cells mined |
| Boards.Board.LayDrawn | Minesweeper/Minesweeper/board.cpp:510-520 | one round mines the drawn cell, adding one mine exactly when the cell held none |
| Boards.Board.PlaceMine | Minesweeper/Minesweeper/board.cpp:514-519 | a cell that is not a mine becomes one, and the mine count goes up by one; a mine stays |
| Boards.Board.AssignCellValues | Minesweeper/Minesweeper/board.cpp:539-601 | starting from zero non-mine cells, the result is the grid labelled: each non-mine cell holds its number of in-bounds mine neighbours, mines and states unchanged |
| Boards.Board.BumpAround | Minesweeper/Minesweeper/board.cpp:553-597 | the eight guarded increments around a mine move the scan's invariant by eight directions |
| Boards.Board.BumpNorthEast | Minesweeper/Minesweeper/board.cpp:553-573 | the north, northeast, east and southeast increments |
| Boards.Board.BumpSouthWest | Minesweeper/Minesweeper/board.cpp:575-597 | the south, southwest, west and northwest increments |
| Boards.Board.BumpNeighbour | Minesweeper/Minesweeper/board.cpp:554-555 | the source's bounds test guards exactly the in-bounds neighbour, and the increment keeps the scan's invariant |
| Boards.Board.IncrementIfNotMine | Minesweeper/Minesweeper/board.cpp:554-555 | a non-mine cell's count goes up by one, a mine is left alone |
| Boards.Board.UncoverCell | Minesweeper/Minesweeper/board.cpp:139-170 | off the board: the not-part-of-board error and nothing changes; not covered: the already-uncovered error and nothing changes; a covered zero cell: the flood fill; any other covered cell, a mine too: only that cell is uncovered |
| Boards.Board.FloodFill | Minesweeper/Minesweeper/board.cpp:283-314 | the result meets the fill specification: only openable cells opened, the opened zero region closed, the start opened if it could be, everything opened reachable from it |
| Boards.Board.FillNeighbours | Minesweeper/Minesweeper/board.cpp:302-305 | the calls north and east, then the rest, complete the fill from an opened zero cell |
| Boards.Board.FillSouthWest | Minesweeper/Minesweeper/board.cpp:306-309 | the calls south and west complete the fill |
| Boards.Board.FillToward | Minesweeper/Minesweeper/board.cpp:302-309 | one recursive call keeps the fill's invariant and leaves its neighbour unopenable |
| Boards.Board.FlagCell | Minesweeper/Minesweeper/board.cpp:185-208 | the new grid is FlagMove's; on its error nothing changes |
| Boards.Board.RemoveFlaggedCell | Minesweeper/Minesweeper/board.cpp:223-246 | the new grid is UnflagMove's; on its error nothing changes |
| Boards.Board.IsMine | Minesweeper/Minesweeper/board.cpp:259-267 | true exactly when the cell holds the mine; a pair off the board gives the container's row or column error |
| Boards.Board.WonGame | Minesweeper/Minesweeper/board.cpp:435-471 | won exactly when no non-mine cell is covered or flagged, or when the flags and the flagged mines both number numMines |
| Boards.Board.ResetEmptyBoard | Minesweeper/Minesweeper/board.cpp:484-489 | only fresh objects join the footprint; the grid becomes 0 x 0 with empty storage, whatever it was, so resetting twice is resetting once |

## Left out

- `Board::DisplayBoard`: console output and colour attributes only.
- `srand`/`rand`: the mine picks are a parameter `draws`, two draws per round. The loop also ends when fewer than two draws remain. `complete` is true exactly when `numMines` mines were laid. The randomness and its distribution are not modelled.
- Boards.Board.ShuffleMines: the source keeps drawing until `numMines` mines are laid. The model stops early when the draws run out. So the exact count of `numMines` mines is promised only when `complete` holds. In every case there are at most `numMines` mines and they are the drawn cells.
- Boards.Board.CreateBoard: it requires that no cell holds a mine or a count, as after construction or `ResetEmptyBoard`. That is the precondition ShuffleMines and AssignCellValues document.
- Boards.Board.CreateBoard: it also requires a positive row count and column count when `mines > 0`, because `rand() % 0` is undefined behaviour in C++.
- Boards.Board.FloodFill: it requires the row and column to lie in `-1 .. rows` and `-1 .. cols`. Every caller is an in-bounds cell or one of its orthogonal neighbours. The source's bounds test only excludes -1 and the size itself.
- The game loop in minesweeper.cpp (menus, input parsing, play-again): it is I/O. Its turn rule is not modelled: loss when `IsMine` holds after an uncover, and `WonGame` after every move.
- The exception classes in exception.cpp: they become the `Error` datatype, whose constructors are the messages. The catch that turns a container error into "not part of the board" is modelled in UncoverCell, FlagCell and RemoveFlaggedCell.
- stub.cpp: `main` and leak-check flags.
- Destructors, `delete[]`, `nullptr` buffers: a zero-length Dafny array stands for `nullptr`.
- The copy constructors of `Array`, `Array2D`, `Row` and `Board`, `Board::operator=`, and the 2-argument constructor and `operator=` of `Array2D` are not modelled: the game never calls them on the board's state. `Array::operator=` is modelled as `Assign`.
- `Cell` is a value (a datatype). The source updates a cell in place through the reference the subscripts return. The model writes the updated value back into the buffer, which has the same effect.
- The element type's default constructor (`new T[n]`) is the `init` value each container is built with.
- Integer overflow of `rows * cols` and of the mine counters is not modelled: the sizes the game uses are small.
