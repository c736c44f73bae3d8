/** Board (board.h, board.cpp): the game's cells in an Array2D<Cell>, the
    number of mines, and the moves and queries the game loop calls. */
module Boards {
  import opened Errors
  import opened Cells
  import opened Arrays
  import opened Grid2D
  import opened Grids
  import opened Labels
  import opened Placement
  import opened Fill
  import opened Moves
  import opened Winning

  const SmallSize := 10
  const MediumSize := 16
  const LargeSize := 30
  const BeginnerMines := 10
  const IntermediateMines := 40
  const ExpertMines := 100

  datatype Difficulty = Beginner | Intermediate | Expert

  datatype Preset = Preset(rows: int, cols: int, mines: int)

  /** The CreateBoard arguments of each menu choice; every preset leaves at
      least one cell free of mines, so the mine-laying loop can finish. */
  function PresetOf(d: Difficulty): (p: Preset)
    ensures 0 < p.rows && 0 < p.cols && 0 < p.mines < p.rows * p.cols
    ensures d == Beginner ==> p == Preset(10, 10, 10)
    ensures d == Intermediate ==> p == Preset(16, 16, 40)
    ensures d == Expert ==> p == Preset(16, 30, 100)
  {
    match d
    case Beginner => Preset(SmallSize, SmallSize, BeginnerMines)
    case Intermediate => Preset(MediumSize, MediumSize, IntermediateMines)
    case Expert => Preset(MediumSize, LargeSize, ExpertMines)
  }

  class Board {
    const cells: Array2D<Cell>   // m_arrayCells
    var numMines: int            // m_numMines

    ghost function Repr(): set<object>
      reads cells, cells.storage
    {
      {this} + cells.Repr()
    }

    ghost predicate Valid()
      reads cells, cells.storage
    {
      cells.Valid() && cells.init == NewCell()
    }

    /** The cells as a grid: cells.rows rows, each cells.cols wide. */
    ghost function Contents(): (g: Grid)
      reads cells, cells.storage, cells.storage.buf
      requires Valid()
      ensures |g| == cells.rows && IsRect(g, cells.cols)
      ensures forall r, c :: InBounds(g, r, c) <==> 0 <= r < cells.rows && 0 <= c < cells.cols
    {
      cells.Matrix()
    }

    /** No cell of the buffer holds a mine or a count: the state ShuffleMines
        and AssignCellValues start from. */
    ghost predicate NoMines()
      reads cells, cells.storage, cells.storage.buf
    {
      forall k :: 0 <= k < |cells.storage.Elements()| ==> cells.storage.Elements()[k].value == NoAdjMines
    }

    ghost predicate AllCovered()
      reads cells, cells.storage, cells.storage.buf
    {
      forall k :: 0 <= k < |cells.storage.Elements()| ==> cells.storage.Elements()[k].state == Covered
    }

    /** The default constructor: no cells and no mines. */
    constructor ()
      ensures Valid() && fresh(Repr())
      ensures cells.rows == 0 && cells.cols == 0 && cells.storage.Elements() == [] && numMines == 0
    {
      cells := new Array2D(NewCell());
      numMines := 0;
    }

    /** m_arrayCells[row][column], read: the row check of Array2D::operator[],
        then the column check of Row::operator[]. */
    method CellAt(row: int, column: int) returns (res: Result<Cell>)
      requires Valid()
      ensures res == Lookup(Contents(), row, column)
    {
      var proxy := cells.RowAt(row);
      if proxy.Failure? {
        return Failure(proxy.error);
      }
      res := proxy.value.Get(column);
    }

    /** m_arrayCells[row][column], written through the reference, for a pair
        the caller has checked. */
    method SetCellAt(row: int, column: int, x: Cell)
      requires Valid() && InBounds(Contents(), row, column)
      modifies cells.storage.buf
      ensures Valid() && Contents() == Put(old(Contents()), row, column, x)
    {
      var proxy := cells.RowAt(row);
      var _ := proxy.value.Set(column, x);
    }

    /** CreateBoard: size the grid with setRow then setColumn (either one's
        exception ends the call), store the mine count, lay the mines. */
    method CreateBoard(row: int, column: int, mines: int, draws: seq<nat>) returns (o: Outcome, complete: bool, used: nat)
      requires Valid() && NoMines()
      requires 0 < mines && 0 <= row && 0 <= column ==> 0 < row && 0 < column
      modifies Repr()
      ensures Valid() && fresh(Repr() - old(Repr()))
      ensures row < 0 ==> && o == Fail(NegativeRowSize) && !complete && numMines == old(numMines)
                          && cells.rows == 0 && cells.cols == old(cells.cols)
                          && cells.storage.Elements() == old(cells.storage.Elements())
      ensures 0 <= row && column < 0 ==> && o == Fail(NegativeColumnSize) && !complete && numMines == old(numMines)
                                         && cells.rows == row && cells.cols == 0
                                         && cells.storage.Elements()
                                            == if row == 0 then [] else Resized(old(cells.storage.Elements()), row * old(cells.cols), NewCell())
      ensures 0 <= row && 0 <= column ==> && o == Pass && numMines == mines
                                          && cells.rows == (if column == 0 then 0 else row) && cells.cols == column
      ensures o == Pass && old(AllCovered()) ==> forall r, c :: InBounds(Contents(), r, c) ==> Contents()[r][c].state == Covered
      ensures o == Pass ==> Labelled(Contents()) == Contents()
      ensures used <= |draws|
      ensures o == Pass ==> MinesExactly(Contents(), DrawnCells(draws[..used], cells.rows, cells.cols))
      ensures complete ==> o == Pass && Count(Contents(), IsMineCell) == (if mines < 0 then 0 else mines)
      ensures o == Pass ==> (complete <==> Count(Contents(), IsMineCell) >= mines)
      ensures o == Pass ==> Count(Contents(), IsMineCell) <= (if mines < 0 then 0 else mines)
      ensures complete && 0 < mines ==> mines <= row * column
      ensures o == Pass && !complete ==> |draws| < used + 2
      ensures used % 2 == 0
    {
      o := Resize(row, column);
      if o.Fail? {
        return o, false, 0;
      }
      numMines := mines;
      complete, used := ShuffleMines(draws);
      o := Pass;
      if complete && 0 < mines {
        CountBound(Contents(), cells.cols, IsMineCell);
      }
    }

    /** The two sizing calls CreateBoard starts with, setRow then setColumn;
        the cells they keep or add carry no mine. */
    method Resize(row: int, column: int) returns (o: Outcome)
      requires Valid() && NoMines()
      modifies Repr()
      ensures Valid() && fresh(Repr() - old(Repr())) && numMines == old(numMines)
      ensures row < 0 ==> && o == Fail(NegativeRowSize) && cells.rows == 0 && cells.cols == old(cells.cols)
                          && cells.storage.Elements() == old(cells.storage.Elements())
      ensures 0 <= row && column < 0 ==> && o == Fail(NegativeColumnSize) && cells.rows == row && cells.cols == 0
                                         && cells.storage.Elements()
                                            == if row == 0 then [] else Resized(old(cells.storage.Elements()), row * old(cells.cols), NewCell())
      ensures 0 <= row && 0 <= column ==> && o == Pass
                                          && cells.rows == (if column == 0 then 0 else row) && cells.cols == column
      ensures o == Pass ==> forall r, c :: InBounds(Contents(), r, c) ==> Contents()[r][c].value == NoAdjMines
      ensures o == Pass && old(AllCovered()) ==> forall r, c :: InBounds(Contents(), r, c) ==> Contents()[r][c].state == Covered
    {
      o := cells.SetRow(row);
      if o.Fail? {
        return;
      }
      ghost var m1: Grid := cells.Matrix();
      assert forall i, j :: 0 <= i < |m1| && 0 <= j < |m1[i]| ==> m1[i][j].value == NoAdjMines && (old(AllCovered()) ==> m1[i][j].state == Covered) by {
        forall i, j | 0 <= i < |m1| && 0 <= j < |m1[i]|
          ensures m1[i][j].value == NoAdjMines && (old(AllCovered()) ==> m1[i][j].state == Covered)
        {
          FitsWhen(cells.rows, cells.cols, cells.storage.length);
          assert m1[i][j] in cells.storage.Elements();
        }
      }
      o := cells.SetColumn(column);
    }

    /** ShuffleMines: draw a cell (row draw % rows, column draw % columns)
        until numMines cells hold mines, laying a mine whenever the drawn cell
        has none; then label the cells. The draws stand for rand(): the loop
        also stops when fewer than two are left. */
    method ShuffleMines(draws: seq<nat>) returns (complete: bool, used: nat)
      requires Valid()
      requires forall r, c :: InBounds(Contents(), r, c) ==> Contents()[r][c].value == NoAdjMines
      requires 0 < numMines ==> 0 < cells.rows && 0 < cells.cols
      modifies cells.storage.buf
      ensures Valid()
      ensures used <= |draws| && used % 2 == 0 && (complete || |draws| < used + 2)
      ensures Contents() == Labelled(Mined(old(Contents()), DrawnCells(draws[..used], cells.rows, cells.cols)))
      ensures Labelled(Contents()) == Contents()
      ensures MinesExactly(Contents(), DrawnCells(draws[..used], cells.rows, cells.cols))
      ensures complete ==> Count(Contents(), IsMineCell) == (if numMines < 0 then 0 else numMines)
      ensures complete <==> Count(Contents(), IsMineCell) >= numMines
      ensures Count(Contents(), IsMineCell) <= (if numMines < 0 then 0 else numMines)
      ensures complete && 0 < numMines ==> numMines <= cells.rows * cells.cols
    {
      ghost var g0 := Contents();
      var countMines;
      countMines, used := LayMines(draws);
      complete := countMines >= numMines;
      ghost var drawn := DrawnCells(draws[..used], cells.rows, cells.cols);
      MinedClean(g0, drawn);
      AssignCellValues();
      LabelledMined(g0, drawn);
      if complete && 0 < numMines {
        CountBound(Contents(), cells.cols, IsMineCell);
      }
    }

    /** ShuffleMines' loop: pairs of draws pick cells, each one becomes a
        mine, until numMines distinct cells are mined or the draws run out. */
    method LayMines(draws: seq<nat>) returns (countMines: int, used: nat)
      requires Valid()
      requires forall r, c :: InBounds(Contents(), r, c) ==> Contents()[r][c].value != Mine
      requires 0 < numMines ==> 0 < cells.rows && 0 < cells.cols
      modifies cells.storage.buf
      ensures Valid() && used <= |draws| && used % 2 == 0
      ensures Contents() == Mined(old(Contents()), DrawnCells(draws[..used], cells.rows, cells.cols))
      ensures countMines == Count(Contents(), IsMineCell)
      ensures countMines <= numMines || countMines == 0
      ensures countMines < numMines ==> |draws| < used + 2
    {
      ghost var g0 := Contents();
      countMines := 0;
      used := 0;
      MinedNone(g0);
      CountZero(g0, IsMineCell);
      while countMines < numMines && used + 1 < |draws|
        invariant Valid() && used <= |draws| && used % 2 == 0
        invariant Contents() == Mined(g0, DrawnCells(draws[..used], cells.rows, cells.cols))
        invariant countMines == Count(Contents(), IsMineCell)
        invariant countMines <= numMines || countMines == 0
        decreases |draws| - used
      {
        var placed := LayDrawn(draws, used, g0);
        used := used + 2;
        if placed {
          countMines := countMines + 1;
        }
      }
    }

    /** One round of LayMines: the next two draws pick a cell, which becomes a mine. */
    method LayDrawn(draws: seq<nat>, used: nat, ghost g0: Grid) returns (placed: bool)
      requires Valid() && used + 1 < |draws| && 0 < cells.rows && 0 < cells.cols
      requires forall r, c :: InBounds(g0, r, c) ==> g0[r][c].value != Mine
      requires Contents() == Mined(g0, DrawnCells(draws[..used], cells.rows, cells.cols))
      modifies cells.storage.buf
      ensures Valid()
      ensures Contents() == Mined(g0, DrawnCells(draws[..used + 2], cells.rows, cells.cols))
      ensures Count(Contents(), IsMineCell) == Count(old(Contents()), IsMineCell) + (if placed then 1 else 0)
    {
      var cellRow := draws[used] % cells.GetRow();
      var cellCol := draws[used + 1] % cells.GetColumn();
      ghost var p := Pos(cellRow, cellCol);
      ghost var s := DrawnCells(draws[..used], cells.rows, cells.cols);
      DrawnCellsNext(draws, used, cells.rows, cells.cols);
      MinedMines(g0, s, cellRow, cellCol);
      if p !in s {
        MinedAdd(g0, s, p);
      } else {
        assert s + {p} == s;
      }
      placed := PlaceMine(cellRow, cellCol);
    }

    /** The body of ShuffleMines' loop: a mine is laid in the drawn cell unless
        it already holds one. */
    method PlaceMine(row: int, column: int) returns (placed: bool)
      requires Valid() && InBounds(Contents(), row, column)
      modifies cells.storage.buf
      ensures Valid()
      ensures placed <==> old(Contents())[row][column].value != Mine
      ensures Contents() == if placed then Put(old(Contents()), row, column, old(Contents())[row][column].SetValue(Mine))
                            else old(Contents())
      ensures Count(Contents(), IsMineCell) == Count(old(Contents()), IsMineCell) + (if placed then 1 else 0)
    {
      var probe := CellAt(row, column);
      var cell := probe.value;
      placed := false;
      if cell.GetValue() != Mine {
        CountPut(Contents(), row, column, cell.SetValue(Mine), IsMineCell);
        SetCellAt(row, column, cell.SetValue(Mine));
        placed := true;
      }
    }

    /** AssignCellValues: scan the cells row by row and, around each mine,
        add one to every in-bounds neighbour that is not a mine. */
    method AssignCellValues()
      requires Valid()
      requires forall r, c :: InBounds(Contents(), r, c) && Contents()[r][c].value != Mine ==> Contents()[r][c].value == NoAdjMines
      modifies cells.storage.buf
      ensures Valid() && Contents() == Labelled(old(Contents()))
    {
      ghost var g0 := Contents();
      PartwayStart(g0);
      for i := 0 to cells.GetRow()
        invariant Valid() && Partway(g0, Contents(), i, 0, 0)
      {
        for j := 0 to cells.GetColumn()
          invariant Valid() && Partway(g0, Contents(), i, j, 0)
        {
          var probe := CellAt(i, j);
          if probe.value.GetValue() == Mine {
            BumpAround(g0, i, j);
            PartwayMineDone(g0, Contents(), i, j);
          } else {
            PartwaySafeDone(g0, Contents(), i, j);
          }
        }
        PartwayRowDone(g0, Contents(), i);
      }
      PartwayEnd(g0, Contents());
    }

    /** The eight guarded increments around the mine at (i, j), in the
        source's order; each guard is the source's bounds test. */
    method BumpAround(ghost g0: Grid, i: int, j: int)
      requires Valid() && Partway(g0, Contents(), i, j, 0) && InBounds(g0, i, j) && g0[i][j].value == Mine
      requires 0 <= i < cells.rows && 0 <= j < cells.cols
      modifies cells.storage.buf
      ensures Valid() && Partway(g0, Contents(), i, j, 8)
    {
      BumpNorthEast(g0, i, j);
      BumpSouthWest(g0, i, j);
    }

    /** The first four increments of BumpAround: north, northeast, east, southeast. */
    method BumpNorthEast(ghost g0: Grid, i: int, j: int)
      requires Valid() && Partway(g0, Contents(), i, j, 0) && InBounds(g0, i, j) && g0[i][j].value == Mine
      requires 0 <= i < cells.rows && 0 <= j < cells.cols
      modifies cells.storage.buf
      ensures Valid() && Partway(g0, Contents(), i, j, 4)
    {
      BumpNeighbour(g0, i, j, 0, i - 1 != -1);
      BumpNeighbour(g0, i, j, 1, i - 1 != -1 && j + 1 != cells.GetColumn());
      BumpNeighbour(g0, i, j, 2, j + 1 != cells.GetColumn());
      BumpNeighbour(g0, i, j, 3, i + 1 != cells.GetRow() && j + 1 != cells.GetColumn());
    }

    /** The last four increments of BumpAround: south, southwest, west, northwest. */
    method BumpSouthWest(ghost g0: Grid, i: int, j: int)
      requires Valid() && Partway(g0, Contents(), i, j, 4) && InBounds(g0, i, j) && g0[i][j].value == Mine
      requires 0 <= i < cells.rows && 0 <= j < cells.cols
      modifies cells.storage.buf
      ensures Valid() && Partway(g0, Contents(), i, j, 8)
    {
      BumpNeighbour(g0, i, j, 4, i + 1 != cells.GetRow());
      BumpNeighbour(g0, i, j, 5, i + 1 != cells.GetRow() && j - 1 != -1);
      BumpNeighbour(g0, i, j, 6, j - 1 != -1);
      BumpNeighbour(g0, i, j, 7, i - 1 != -1 && j - 1 != -1);
    }

    /** One guarded increment: when the bounds test `inside` holds, the
        neighbour in direction k gets one more adjacent mine unless it is a mine. */
    method BumpNeighbour(ghost g0: Grid, i: int, j: int, k: int, inside: bool)
      requires Valid() && Partway(g0, Contents(), i, j, k) && InBounds(g0, i, j) && g0[i][j].value == Mine
      requires 0 <= k < 8 && (inside <==> 0 <= i + DR(k) < cells.rows && 0 <= j + DC(k) < cells.cols)
      modifies cells.storage.buf
      ensures Valid() && Partway(g0, Contents(), i, j, k + 1)
    {
      ghost var before := Contents();
      if inside {
        IncrementIfNotMine(i + DR(k), j + DC(k));
      }
      BumpStep(g0, before, i, j, k);
    }

    /** if (cell != MINE) cell.SetValue(cell + 1), for an in-bounds cell. */
    method IncrementIfNotMine(row: int, column: int)
      requires Valid() && InBounds(Contents(), row, column)
      modifies cells.storage.buf
      ensures Valid() && Contents() == Bump(old(Contents()), Pos(row, column))
    {
      var probe := CellAt(row, column);
      var cell := probe.value;
      if cell.GetValue() != Mine {
        SetCellAt(row, column, cell.SetValue(Increment(cell.GetValue())));
      }
    }

    /** UncoverCell: a cell off the board is an error; a covered zero cell
        starts a flood fill, any other covered cell (a mine too) is uncovered
        alone; uncovering an uncovered or flagged cell is an error. */
    method UncoverCell(row: int, column: int) returns (o: Outcome)
      requires Valid()
      modifies cells.storage.buf
      ensures Valid()
      ensures !InBounds(old(Contents()), row, column) ==> o == Fail(NotPartOfBoard) && Contents() == old(Contents())
      ensures InBounds(old(Contents()), row, column) && old(Contents())[row][column].state != Covered
              ==> o == Fail(AlreadyUncoveredOrFlagged) && Contents() == old(Contents())
      ensures InBounds(old(Contents()), row, column) && old(Contents())[row][column].state == Covered ==> o == Pass
      ensures InBounds(old(Contents()), row, column) && old(Contents())[row][column].state == Covered
              && old(Contents())[row][column].value == NoAdjMines
              ==> FillSpec(old(Contents()), Contents(), row, column)
      ensures InBounds(old(Contents()), row, column) && old(Contents())[row][column].state == Covered
              && old(Contents())[row][column].value != NoAdjMines
              ==> Contents() == Put(old(Contents()), row, column, old(Contents())[row][column].SetState(Uncovered))
    {
      var probe := CellAt(row, column);
      if probe.Failure? {
        return Fail(NotPartOfBoard);
      }
      var cell := probe.value;
      if cell.GetState() == Covered {
        if cell.GetValue() == NoAdjMines {
          FloodFill(row, column);
        } else {
          SetCellAt(row, column, cell.SetState(Uncovered));
        }
        o := Pass;
      } else {
        o := Fail(AlreadyUncoveredOrFlagged);
      }
    }

    /** FloodFill: a cell in bounds, covered and not a mine is uncovered, and
        when it has no adjacent mines the fill goes on north, east, south and
        west. Every call comes from an in-bounds cell, so the row and column
        are at most one step outside the grid. */
    method FloodFill(row: int, column: int)
      requires Valid() && -1 <= row <= cells.rows && -1 <= column <= cells.cols
      modifies cells.storage.buf
      ensures Valid() && FillSpec(old(Contents()), Contents(), row, column)
      decreases Count(Contents(), IsCoveredCell), 3
    {
      ghost var g0 := Contents();
      if row != -1 && row != cells.GetRow() && column != -1 && column != cells.GetColumn() {
        var probe := CellAt(row, column);
        var cell := probe.value;
        if cell.GetState() == Covered && cell.GetValue() != Mine {
          CountPut(g0, row, column, cell.SetState(Uncovered), IsCoveredCell);
          SetCellAt(row, column, cell.SetState(Uncovered));
          if cell.GetValue() == NoAdjMines {
            FillSoFarStart(g0, row, column);
            FillNeighbours(row, column, g0);
          } else {
            FillSingle(g0, row, column);
          }
          return;
        }
      }
      FillNothing(g0, row, column);
    }

    /** The recursion of FloodFill once it has uncovered the zero cell (row,
        column) of g0: north and east here, then south and west. */
    method FillNeighbours(row: int, column: int, ghost g0: Grid)
      requires Valid() && 0 <= row < cells.rows && 0 <= column < cells.cols
      requires FillSoFar(g0, Contents(), row, column)
      modifies cells.storage.buf
      ensures Valid() && FillSpec(g0, Contents(), row, column)
      decreases Count(Contents(), IsCoveredCell) + 1, 2
    {
      ghost var g1 := Contents();
      FillToward(row, column, g0, Pos(row - 1, column));
      ghost var g2 := Contents();
      EvolvesCovered(g1, g2);
      FillToward(row, column, g0, Pos(row, column + 1));
      ghost var g3 := Contents();
      EvolvesCovered(g2, g3);
      NotOpenableStays(g2, g3, row - 1, column);
      FillSouthWest(row, column, g0);
    }

    /** The last two of FillNeighbours' calls, south and west, once the
        fills north and east are done. */
    method FillSouthWest(row: int, column: int, ghost g0: Grid)
      requires Valid() && 0 <= row < cells.rows && 0 <= column < cells.cols
      requires FillSoFar(g0, Contents(), row, column)
      requires !Openable(Contents(), row - 1, column) && !Openable(Contents(), row, column + 1)
      modifies cells.storage.buf
      ensures Valid() && FillSpec(g0, Contents(), row, column)
      decreases Count(Contents(), IsCoveredCell) + 1, 1
    {
      ghost var g3 := Contents();
      FillToward(row, column, g0, Pos(row + 1, column));
      ghost var g4 := Contents();
      EvolvesCovered(g3, g4);
      NotOpenableStays(g3, g4, row - 1, column);
      NotOpenableStays(g3, g4, row, column + 1);
      FillToward(row, column, g0, Pos(row, column - 1));
      ghost var g5 := Contents();
      NotOpenableStays(g4, g5, row - 1, column);
      NotOpenableStays(g4, g5, row, column + 1);
      NotOpenableStays(g4, g5, row + 1, column);
      FillSoFarEnd(g0, g5, row, column);
    }

    /** One of FillNeighbours' four recursive calls: the fill from the
        neighbour n of (row, column). */
    method FillToward(row: int, column: int, ghost g0: Grid, n: Pos)
      requires Valid() && 0 <= row < cells.rows && 0 <= column < cells.cols
      requires FillSoFar(g0, Contents(), row, column) && Step(Pos(row, column), n)
      modifies cells.storage.buf
      ensures Valid() && Evolves(old(Contents()), Contents())
      ensures FillSoFar(g0, Contents(), row, column) && !Openable(Contents(), n.r, n.c)
      decreases Count(Contents(), IsCoveredCell) + 1, 0
    {
      ghost var a := Contents();
      FloodFill(n.r, n.c);
      FillSoFarStep(g0, a, Contents(), row, column, n);
    }

    /** FlagCell: the grid move FlagMove, its error reported and nothing changed on failure. */
    method FlagCell(row: int, column: int) returns (o: Outcome)
      requires Valid()
      modifies cells.storage.buf
      ensures Valid()
      ensures FlagMove(old(Contents()), row, column).Success?
              ==> o == Pass && Contents() == FlagMove(old(Contents()), row, column).value
      ensures FlagMove(old(Contents()), row, column).Failure?
              ==> o == Fail(FlagMove(old(Contents()), row, column).error) && Contents() == old(Contents())
    {
      var probe := CellAt(row, column);
      if probe.Failure? {
        return Fail(NotPartOfBoard);
      }
      var cell := probe.value;
      if cell.GetState() == Covered {
        SetCellAt(row, column, cell.SetState(Flagged));
        o := Pass;
      } else {
        o := Fail(CannotFlag);
      }
    }

    /** RemoveFlaggedCell: the grid move UnflagMove, its error reported and
        nothing changed on failure. */
    method RemoveFlaggedCell(row: int, column: int) returns (o: Outcome)
      requires Valid()
      modifies cells.storage.buf
      ensures Valid()
      ensures UnflagMove(old(Contents()), row, column).Success?
              ==> o == Pass && Contents() == UnflagMove(old(Contents()), row, column).value
      ensures UnflagMove(old(Contents()), row, column).Failure?
              ==> o == Fail(UnflagMove(old(Contents()), row, column).error) && Contents() == old(Contents())
    {
      var probe := CellAt(row, column);
      if probe.Failure? {
        return Fail(NotPartOfBoard);
      }
      var cell := probe.value;
      if cell.GetState() == Flagged {
        SetCellAt(row, column, cell.SetState(Covered));
        o := Pass;
      } else {
        o := Fail(NotFlagged);
      }
    }

    /** IsMine: whether the cell holds a mine. There is no bounds check of its
        own, so a pair off the board ends in the container's exception. */
    method IsMine(row: int, column: int) returns (res: Result<bool>)
      requires Valid()
      ensures InBounds(Contents(), row, column) ==> res == Success(Contents()[row][column].value == Mine)
      ensures !InBounds(Contents(), row, column) ==> res == Failure(Lookup(Contents(), row, column).error)
    {
      var probe := CellAt(row, column);
      if probe.Failure? {
        return Failure(probe.error);
      }
      var isMine := false;
      if probe.value.GetValue() == Mine {
        isMine := true;
      }
      res := Success(isMine);
    }

    /** WonGame: scan the cells counting flags and flagged mines, losing on
        any covered or flagged cell that is not a mine; then win anyway when
        both counts equal the number of mines. */
    method WonGame() returns (won: bool)
      requires Valid()
      ensures won == WinRule(Contents(), numMines)
    {
      ghost var g := Contents();
      var wonGame := true;
      var numFlags := 0;
      var numMinesFlagged := 0;
      for i := 0 to cells.GetRow()
        invariant wonGame == AllSafeUncovered(g[..i])
        invariant numFlags == Count(g[..i], IsFlaggedCell) && numMinesFlagged == Count(g[..i], IsFlaggedMine)
      {
        for j := 0 to cells.GetColumn()
          invariant wonGame == (AllSafeUncovered(g[..i]) && RowSafeUncovered(g[i][..j]))
          invariant numFlags == Count(g[..i], IsFlaggedCell) + CountRow(g[i][..j], IsFlaggedCell)
          invariant numMinesFlagged == Count(g[..i], IsFlaggedMine) + CountRow(g[i][..j], IsFlaggedMine)
        {
          var probe := CellAt(i, j);
          var cell := probe.value;
          ScanCell(g[i], j);
          if cell.GetState() == Covered && cell.GetValue() != Mine {
            wonGame := false;
          } else if cell.GetState() == Flagged && cell.GetValue() != Mine {
            numFlags := numFlags + 1;
            wonGame := false;
          }
          if cell.GetState() == Flagged && cell.GetValue() == Mine {
            numFlags := numFlags + 1;
            numMinesFlagged := numMinesFlagged + 1;
          }
        }
        ScanRow(g, i);
      }
      assert g[..cells.rows] == g;
      if numFlags == numMines && numMinesFlagged == numMines {
        wonGame := true;
      }
      won := wonGame;
    }

    /** ResetEmptyBoard: setRow(0) then setColumn(0), leaving no cells; the
        result does not depend on the board before, so resetting twice is
        resetting once. */
    method ResetEmptyBoard()
      requires Valid()
      modifies cells, cells.storage
      ensures Valid() && fresh(Repr() - old(Repr())) && NoMines() && AllCovered()
      ensures cells.rows == 0 && cells.cols == 0 && cells.storage.Elements() == [] && numMines == old(numMines)
    {
      var _ := cells.SetRow(0);
      var _ := cells.SetColumn(0);
    }
  }
}
