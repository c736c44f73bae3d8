/** FlagCell and RemoveFlaggedCell on the grid as a value. */
module Moves {
  import opened Errors
  import opened Cells
  import opened Grids

  /** Board::FlagCell: a cell off the board is an error, so is a cell that is
      not covered; a covered cell becomes flagged and nothing else changes. */
  function FlagMove(g: Grid, r: int, c: int): (res: Result<Grid>)
    ensures res.Success? <==> InBounds(g, r, c) && g[r][c].state == Covered
    ensures !InBounds(g, r, c) ==> res == Failure(NotPartOfBoard)
    ensures InBounds(g, r, c) && g[r][c].state != Covered ==> res == Failure(CannotFlag)
    ensures res.Success? ==> && SameCellsBut(g, res.value, r, c)
                             && res.value[r][c] == Cell(Flagged, g[r][c].value)
  {
    if Lookup(g, r, c).Failure? then Failure(NotPartOfBoard)
    else if g[r][c].GetState() == Covered then Success(Put(g, r, c, g[r][c].SetState(Flagged)))
    else Failure(CannotFlag)
  }

  /** Board::RemoveFlaggedCell: a cell off the board is an error, so is a
      cell that is not flagged; a flagged cell becomes covered and nothing
      else changes. */
  function UnflagMove(g: Grid, r: int, c: int): (res: Result<Grid>)
    ensures res.Success? <==> InBounds(g, r, c) && g[r][c].state == Flagged
    ensures !InBounds(g, r, c) ==> res == Failure(NotPartOfBoard)
    ensures InBounds(g, r, c) && g[r][c].state != Flagged ==> res == Failure(NotFlagged)
    ensures res.Success? ==> && SameCellsBut(g, res.value, r, c)
                             && res.value[r][c] == Cell(Covered, g[r][c].value)
  {
    if Lookup(g, r, c).Failure? then Failure(NotPartOfBoard)
    else if g[r][c].GetState() == Flagged then Success(Put(g, r, c, g[r][c].SetState(Covered)))
    else Failure(NotFlagged)
  }

  /** h has g's shape and g's cells everywhere except perhaps at (r, c). */
  ghost predicate SameCellsBut(g: Grid, h: Grid, r: int, c: int)
  {
    && |h| == |g| && (forall i :: 0 <= i < |g| ==> |h[i]| == |g[i]|)
    && forall i, j :: InBounds(g, i, j) && (i != r || j != c) ==> h[i][j] == g[i][j]
  }

  /** Removing the flag just placed restores the grid. */
  lemma FlagThenUnflag(g: Grid, r: int, c: int)
    requires FlagMove(g, r, c).Success?
    ensures UnflagMove(FlagMove(g, r, c).value, r, c) == Success(g)
  {
    var h := FlagMove(g, r, c).value;
    var k := UnflagMove(h, r, c).value;
    assert k == g by {
      forall i | 0 <= i < |g|
        ensures k[i] == g[i]
      {
        assert forall j :: 0 <= j < |g[i]| ==> InBounds(g, i, j);
      }
    }
  }

  /** Flagging again the cell just unflagged restores the grid. */
  lemma UnflagThenFlag(g: Grid, r: int, c: int)
    requires UnflagMove(g, r, c).Success?
    ensures FlagMove(UnflagMove(g, r, c).value, r, c) == Success(g)
  {
    var h := UnflagMove(g, r, c).value;
    var k := FlagMove(h, r, c).value;
    assert k == g by {
      forall i | 0 <= i < |g|
        ensures k[i] == g[i]
      {
        assert forall j :: 0 <= j < |g[i]| ==> InBounds(g, i, j);
      }
    }
  }

  /** A flag move adds one flag and keeps every mine. */
  lemma FlagCounts(g: Grid, r: int, c: int)
    requires FlagMove(g, r, c).Success?
    ensures Count(FlagMove(g, r, c).value, IsFlaggedCell) == Count(g, IsFlaggedCell) + 1
    ensures Count(FlagMove(g, r, c).value, IsMineCell) == Count(g, IsMineCell)
  {
    CountPut(g, r, c, g[r][c].SetState(Flagged), IsFlaggedCell);
    CountPut(g, r, c, g[r][c].SetState(Flagged), IsMineCell);
  }

  /** An unflag move removes one flag and keeps every mine. */
  lemma UnflagCounts(g: Grid, r: int, c: int)
    requires UnflagMove(g, r, c).Success?
    ensures Count(UnflagMove(g, r, c).value, IsFlaggedCell) == Count(g, IsFlaggedCell) - 1
    ensures Count(UnflagMove(g, r, c).value, IsMineCell) == Count(g, IsMineCell)
  {
    CountPut(g, r, c, g[r][c].SetState(Covered), IsFlaggedCell);
    CountPut(g, r, c, g[r][c].SetState(Covered), IsMineCell);
  }
}
