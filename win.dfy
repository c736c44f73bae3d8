/** Board::WonGame's rule on the grid as a value. */
module Winning {
  import opened Cells
  import opened Grids

  /** The scan's verdict before the final test: no cell that is not a mine
      is left covered or flagged. */
  ghost predicate AllSafeUncovered(g: Grid)
  {
    forall r, c :: InBounds(g, r, c) && g[r][c].value != Mine ==> g[r][c].state == Uncovered
  }

  /** No cell of the row that is not a mine is left covered or flagged. */
  ghost predicate RowSafeUncovered(s: seq<Cell>)
  {
    forall b :: 0 <= b < |s| && s[b].value != Mine ==> s[b].state == Uncovered
  }

  /** One more cell of WonGame's inner loop: the verdict and the counts of the
      row so far take in cell j. */
  lemma ScanCell(s: seq<Cell>, j: int)
    requires 0 <= j < |s|
    ensures RowSafeUncovered(s[..j + 1]) == (RowSafeUncovered(s[..j]) && (s[j].value != Mine ==> s[j].state == Uncovered))
    ensures CountRow(s[..j + 1], IsFlaggedCell) == CountRow(s[..j], IsFlaggedCell) + (if IsFlaggedCell(s[j]) then 1 else 0)
    ensures CountRow(s[..j + 1], IsFlaggedMine) == CountRow(s[..j], IsFlaggedMine) + (if IsFlaggedMine(s[j]) then 1 else 0)
  {
    assert s[..j + 1][..j] == s[..j];
    assert forall b :: 0 <= b < j ==> s[..j + 1][b] == s[..j][b];
  }

  /** One more row of WonGame's outer loop. */
  lemma ScanRow(g: Grid, i: int)
    requires 0 <= i < |g|
    ensures AllSafeUncovered(g[..i + 1]) == (AllSafeUncovered(g[..i]) && RowSafeUncovered(g[i][..|g[i]|]))
    ensures Count(g[..i + 1], IsFlaggedCell) == Count(g[..i], IsFlaggedCell) + CountRow(g[i][..|g[i]|], IsFlaggedCell)
    ensures Count(g[..i + 1], IsFlaggedMine) == Count(g[..i], IsFlaggedMine) + CountRow(g[i][..|g[i]|], IsFlaggedMine)
  {
    assert g[..i + 1][..i] == g[..i];
    assert g[i][..|g[i]|] == g[i];
    assert forall a :: 0 <= a < i ==> g[..i + 1][a] == g[..i][a];
    var h := g[..i + 1];
    if AllSafeUncovered(g[..i]) && RowSafeUncovered(g[i]) {
      forall r, c | InBounds(h, r, c) && h[r][c].value != Mine
        ensures h[r][c].state == Uncovered
      {
        if r < i {
          assert InBounds(g[..i], r, c);
        }
      }
    }
    if AllSafeUncovered(h) {
      forall r, c | InBounds(g[..i], r, c) && g[..i][r][c].value != Mine
        ensures g[..i][r][c].state == Uncovered
      {
        assert InBounds(h, r, c);
      }
      forall b | 0 <= b < |g[i]| && g[i][b].value != Mine
        ensures g[i][b].state == Uncovered
      {
        assert InBounds(h, i, b);
      }
    }
  }

  /** The final test: as many flags, and as many flagged mines, as the board has mines. */
  ghost predicate FlagsMatch(g: Grid, numMines: int)
  {
    Count(g, IsFlaggedCell) == numMines && Count(g, IsFlaggedMine) == numMines
  }

  /** The game is won by either clause; the second overrides the first. */
  ghost predicate WinRule(g: Grid, numMines: int)
  {
    AllSafeUncovered(g) || FlagsMatch(g, numMines)
  }

  /** On a board holding numMines mines the flag clause holds exactly when the
      flagged cells are the mines. */
  lemma FlagsMatchExactly(g: Grid, numMines: int)
    requires Count(g, IsMineCell) == numMines
    ensures FlagsMatch(g, numMines)
            <==> forall r, c :: InBounds(g, r, c) ==> (g[r][c].state == Flagged <==> g[r][c].value == Mine)
  {
    CountSplit(g, IsFlaggedCell, IsFlaggedMine, IsFlaggedSafe);
    CountLe(g, IsFlaggedMine, g, IsMineCell);
    CountZero(g, IsFlaggedSafe);
    if forall r, c :: InBounds(g, r, c) ==> (g[r][c].state == Flagged <==> g[r][c].value == Mine) {
      CountSame(g, IsFlaggedMine, IsMineCell);
    }
  }

  /** Flagging every mine wins even while safe cells are still covered. */
  lemma FlagsOverrideCovered()
    ensures var g := [[Cell(Flagged, Mine), Cell(Covered, OneAdjMine)]];
            !AllSafeUncovered(g) && WinRule(g, 1)
  {
    var g := [[Cell(Flagged, Mine), Cell(Covered, OneAdjMine)]];
    assert InBounds(g, 0, 1);
    OneRowCounts(g[0]);
  }

  /** A flag on a safe cell spoils the flag clause even with every mine flagged. */
  lemma ExtraFlagLoses()
    ensures var g := [[Cell(Flagged, Mine), Cell(Flagged, OneAdjMine)]];
            !AllSafeUncovered(g) && !WinRule(g, 1)
  {
    var g := [[Cell(Flagged, Mine), Cell(Flagged, OneAdjMine)]];
    assert InBounds(g, 0, 1);
    OneRowCounts(g[0]);
  }

  /** The counts of a one-row, two-cell grid, cell by cell. */
  lemma OneRowCounts(s: seq<Cell>)
    requires |s| == 2
    ensures forall p: Cell -> bool :: Count([s], p) == (if p(s[0]) then 1 else 0) + (if p(s[1]) then 1 else 0)
  {
    forall p: Cell -> bool
      ensures Count([s], p) == (if p(s[0]) then 1 else 0) + (if p(s[1]) then 1 else 0)
    {
      assert [s][..0] == [];
      assert s[..1][..0] == [];
      assert CountRow(s[..1], p) == (if p(s[0]) then 1 else 0);
    }
  }
}
