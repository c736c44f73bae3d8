/** The board's cells as a value: the grid Board::m_arrayCells stands for,
    with the lookups and counts the board's contracts are stated in. */
module Grids {
  import opened Errors
  import opened Cells

  /** Row i, column j is g[i][j]. */
  type Grid = seq<seq<Cell>>

  datatype Pos = Pos(r: int, c: int)

  predicate InBounds(g: Grid, r: int, c: int)
  {
    0 <= r < |g| && 0 <= c < |g[r]|
  }

  /** Every row of g is cols wide. */
  predicate IsRect(g: Grid, cols: int)
  {
    forall i :: 0 <= i < |g| ==> |g[i]| == cols
  }

  /** The grid after cell (r, c) is overwritten with x. */
  function Put(g: Grid, r: int, c: int, x: Cell): (h: Grid)
    requires InBounds(g, r, c)
    ensures |h| == |g| && forall i :: 0 <= i < |g| ==> |h[i]| == |g[i]|
    ensures forall i, j :: InBounds(g, i, j) ==> h[i][j] == if i == r && j == c then x else g[i][j]
  {
    g[r := g[r][c := x]]
  }

  /** grid[r][c]: the row check of Array2D::operator[] comes first, then the
      column check of Row::operator[]. */
  function Lookup(g: Grid, r: int, c: int): (res: Result<Cell>)
    ensures res.Success? <==> InBounds(g, r, c)
    ensures res.Success? ==> res.value == g[r][c]
    ensures (r < 0 || r >= |g|) ==> res == Failure(RowIndexOutOfBounds)
    ensures 0 <= r < |g| && (c < 0 || c >= |g[r]|) ==> res == Failure(ColumnIndexOutOfBounds)
  {
    if r < 0 || r > |g| - 1 then Failure(RowIndexOutOfBounds)
    else if c < 0 || c > |g[r]| - 1 then Failure(ColumnIndexOutOfBounds)
    else Success(g[r][c])
  }

  predicate IsMineCell(x: Cell) { x.value == Mine }
  predicate IsCoveredCell(x: Cell) { x.state == Covered }
  predicate IsFlaggedCell(x: Cell) { x.state == Flagged }
  predicate IsFlaggedMine(x: Cell) { x.state == Flagged && x.value == Mine }
  predicate IsFlaggedSafe(x: Cell) { x.state == Flagged && x.value != Mine }
  predicate Never(x: Cell) { false }

  /** The number of cells of a row that satisfy p. */
  function CountRow(s: seq<Cell>, p: Cell -> bool): (n: nat)
    ensures n <= |s|
  {
    if |s| == 0 then 0 else CountRow(s[..|s| - 1], p) + (if p(s[|s| - 1]) then 1 else 0)
  }

  /** The number of cells of a grid that satisfy p. */
  function Count(g: Grid, p: Cell -> bool): nat
  {
    if |g| == 0 then 0 else Count(g[..|g| - 1], p) + CountRow(g[|g| - 1], p)
  }

  /** Overwriting one element changes a row's count by what leaves and what comes in. */
  lemma {:induction false} CountRowPut(s: seq<Cell>, j: int, x: Cell, p: Cell -> bool)
    requires 0 <= j < |s|
    ensures CountRow(s[j := x], p) == CountRow(s, p) - (if p(s[j]) then 1 else 0) + (if p(x) then 1 else 0)
    decreases |s|
  {
    var t := s[j := x];
    if j < |s| - 1 {
      assert t[..|t| - 1] == s[..|s| - 1][j := x];
      CountRowPut(s[..|s| - 1], j, x, p);
    } else {
      assert t[..|t| - 1] == s[..|s| - 1];
    }
  }

  /** Overwriting one cell changes a grid's count by what leaves and what comes in. */
  lemma {:induction false} CountPut(g: Grid, r: int, c: int, x: Cell, p: Cell -> bool)
    requires InBounds(g, r, c)
    ensures Count(Put(g, r, c, x), p) == Count(g, p) - (if p(g[r][c]) then 1 else 0) + (if p(x) then 1 else 0)
    decreases |g|
  {
    var h := Put(g, r, c, x);
    if r < |g| - 1 {
      assert h[..|h| - 1] == Put(g[..|g| - 1], r, c, x);
      CountPut(g[..|g| - 1], r, c, x, p);
    } else {
      assert h[..|h| - 1] == g[..|g| - 1];
      CountRowPut(g[r], c, x, p);
    }
  }

  /** Where p on s implies q on t element by element, s counts no more under p
      than t under q, and equal counts mean the implication is an equivalence. */
  lemma {:induction false} CountRowLe(s: seq<Cell>, p: Cell -> bool, t: seq<Cell>, q: Cell -> bool)
    requires |s| == |t| && forall k :: 0 <= k < |s| && p(s[k]) ==> q(t[k])
    ensures CountRow(s, p) <= CountRow(t, q)
    ensures CountRow(s, p) == CountRow(t, q) ==> forall k :: 0 <= k < |s| && q(t[k]) ==> p(s[k])
    decreases |s|
  {
    if |s| > 0 {
      var n := |s| - 1;
      CountRowLe(s[..n], p, t[..n], q);
      assert forall k :: 0 <= k < n ==> s[..n][k] == s[k] && t[..n][k] == t[k];
    }
  }

  /** CountRowLe, cell by cell over two grids of one shape. */
  lemma {:induction false} CountLe(g: Grid, p: Cell -> bool, h: Grid, q: Cell -> bool)
    requires |g| == |h| && forall i :: 0 <= i < |g| ==> |g[i]| == |h[i]|
    requires forall i, j :: InBounds(g, i, j) && p(g[i][j]) ==> q(h[i][j])
    ensures Count(g, p) <= Count(h, q)
    ensures Count(g, p) == Count(h, q) ==> forall i, j :: InBounds(g, i, j) && q(h[i][j]) ==> p(g[i][j])
    decreases |g|
  {
    if |g| > 0 {
      var n := |g| - 1;
      assert forall i :: 0 <= i < n ==> g[..n][i] == g[i] && h[..n][i] == h[i];
      CountLe(g[..n], p, h[..n], q);
      assert forall j :: 0 <= j < |g[n]| && p(g[n][j]) ==> q(h[n][j]) by {
        forall j | 0 <= j < |g[n]| && p(g[n][j])
          ensures q(h[n][j])
        {
          assert InBounds(g, n, j);
        }
      }
      CountRowLe(g[n], p, h[n], q);
    }
  }

  /** Predicates that agree on every cell count alike. */
  lemma CountSame(g: Grid, p: Cell -> bool, q: Cell -> bool)
    requires forall i, j :: InBounds(g, i, j) ==> (p(g[i][j]) <==> q(g[i][j]))
    ensures Count(g, p) == Count(g, q)
  {
    CountLe(g, p, g, q);
    CountLe(g, q, g, p);
  }

  /** A count is zero exactly when no cell satisfies the predicate. */
  lemma CountZero(g: Grid, p: Cell -> bool)
    ensures Count(g, p) == 0 <==> forall i, j :: InBounds(g, i, j) ==> !p(g[i][j])
  {
    CountLe(g, Never, g, p);
    if forall i, j :: InBounds(g, i, j) ==> !p(g[i][j]) {
      CountLe(g, p, g, Never);
    }
    assert Count(g, Never) == 0 by {
      CountLe(g, Never, g, Never);
      CountNever(g);
    }
  }

  lemma {:induction false} CountNever(g: Grid)
    ensures Count(g, Never) == 0
    decreases |g|
  {
    if |g| > 0 {
      CountNever(g[..|g| - 1]);
      CountRowNever(g[|g| - 1]);
    }
  }

  lemma {:induction false} CountRowNever(s: seq<Cell>)
    ensures CountRow(s, Never) == 0
    decreases |s|
  {
    if |s| > 0 {
      CountRowNever(s[..|s| - 1]);
    }
  }

  /** A count is the sum of the counts of two predicates that split it. */
  lemma {:induction false} CountRowSplit(s: seq<Cell>, p: Cell -> bool, q: Cell -> bool, u: Cell -> bool)
    requires forall k :: 0 <= k < |s| ==> (p(s[k]) <==> q(s[k]) || u(s[k])) && !(q(s[k]) && u(s[k]))
    ensures CountRow(s, p) == CountRow(s, q) + CountRow(s, u)
    decreases |s|
  {
    if |s| > 0 {
      var n := |s| - 1;
      assert forall k :: 0 <= k < n ==> s[..n][k] == s[k];
      CountRowSplit(s[..n], p, q, u);
    }
  }

  lemma {:induction false} CountSplit(g: Grid, p: Cell -> bool, q: Cell -> bool, u: Cell -> bool)
    requires forall i, j :: InBounds(g, i, j) ==> (p(g[i][j]) <==> q(g[i][j]) || u(g[i][j])) && !(q(g[i][j]) && u(g[i][j]))
    ensures Count(g, p) == Count(g, q) + Count(g, u)
    decreases |g|
  {
    if |g| > 0 {
      var n := |g| - 1;
      assert forall i :: 0 <= i < n ==> g[..n][i] == g[i];
      CountSplit(g[..n], p, q, u);
      forall k | 0 <= k < |g[n]|
        ensures (p(g[n][k]) <==> q(g[n][k]) || u(g[n][k])) && !(q(g[n][k]) && u(g[n][k]))
      {
        assert InBounds(g, n, k);
      }
      CountRowSplit(g[n], p, q, u);
    }
  }

  /** No count exceeds the number of cells. */
  lemma {:induction false} CountBound(g: Grid, cols: nat, p: Cell -> bool)
    requires IsRect(g, cols)
    ensures Count(g, p) <= |g| * cols
    decreases |g|
  {
    if |g| > 0 {
      var n := |g| - 1;
      assert IsRect(g[..n], cols);
      CountBound(g[..n], cols, p);
      assert n * cols + cols == |g| * cols;
    }
  }
}
