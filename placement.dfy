/** Where ShuffleMines lays its mines, given the values rand() returned. */
module Placement {
  import opened Cells
  import opened Grids
  import opened Labels

  /** The cells named by consecutive pairs of draws, each pair taken as
      (draw % rows, draw % cols), the row draw first. */
  function DrawnCells(draws: seq<nat>, rows: int, cols: int): (s: set<Pos>)
    ensures forall p :: p in s ==> 0 <= p.r < rows && 0 <= p.c < cols
    decreases |draws|
  {
    if |draws| < 2 || rows <= 0 || cols <= 0 then {}
    else DrawnCells(draws[..|draws| - 2], rows, cols) + {Pos(draws[|draws| - 2] % rows, draws[|draws| - 1] % cols)}
  }

  /** One more pair of draws adds one cell. */
  lemma DrawnCellsNext(draws: seq<nat>, n: nat, rows: int, cols: int)
    requires n + 2 <= |draws| && 0 < rows && 0 < cols
    ensures DrawnCells(draws[..n + 2], rows, cols)
            == DrawnCells(draws[..n], rows, cols) + {Pos(draws[n] % rows, draws[n + 1] % cols)}
  {
    assert draws[..n + 2][..n] == draws[..n];
  }

  /** The cell the k-th pair of draws names: draws 2k and 2k + 1, the row draw first. */
  function DrawAt(draws: seq<nat>, k: nat, rows: int, cols: int): (p: Pos)
    requires 2 * k + 1 < |draws| && 0 < rows && 0 < cols
    ensures 0 <= p.r < rows && 0 <= p.c < cols
  {
    Pos(draws[2 * k] % rows, draws[2 * k + 1] % cols)
  }

  /** For an even prefix, the drawn cells are exactly those named by the pairs
      (0, 1), (2, 3), ...: a cell is drawn iff some pair names it. */
  lemma {:induction false} DrawnCellsPairs(draws: seq<nat>, n: nat, rows: int, cols: int)
    requires n <= |draws| && n % 2 == 0 && 0 < rows && 0 < cols
    ensures forall p :: p in DrawnCells(draws[..n], rows, cols)
                        <==> exists k :: 0 <= k < n / 2 && p == DrawAt(draws, k, rows, cols)
    decreases n
  {
    if n > 0 {
      DrawnCellsPairs(draws, n - 2, rows, cols);
      DrawnCellsNext(draws, n - 2, rows, cols);
      var last := n / 2 - 1;
      assert 2 * last == n - 2;
      forall p | p in DrawnCells(draws[..n], rows, cols)
        ensures exists k :: 0 <= k < n / 2 && p == DrawAt(draws, k, rows, cols)
      {
        if p !in DrawnCells(draws[..n - 2], rows, cols) {
          assert p == DrawAt(draws, last, rows, cols);
        }
      }
      forall p, k | 0 <= k < n / 2 && p == DrawAt(draws, k, rows, cols)
        ensures p in DrawnCells(draws[..n], rows, cols)
      {
        if k < last {
          assert p in DrawnCells(draws[..n - 2], rows, cols);
        }
      }
    }
  }

  /** The mines of g are exactly the cells of s. */
  ghost predicate MinesExactly(g: Grid, s: set<Pos>)
  {
    forall r, c :: InBounds(g, r, c) ==> (g[r][c].value == Mine <==> Pos(r, c) in s)
  }

  /** g with a mine in every cell of s. */
  ghost function Mined(g: Grid, s: set<Pos>): (h: Grid)
    ensures |h| == |g| && forall i :: 0 <= i < |g| ==> |h[i]| == |g[i]|
    ensures forall i, j :: InBounds(g, i, j) ==> h[i][j] == if Pos(i, j) in s then g[i][j].SetValue(Mine) else g[i][j]
  {
    seq(|g|, i requires 0 <= i < |g| =>
      seq(|g[i]|, j requires 0 <= j < |g[i]| => if Pos(i, j) in s then g[i][j].SetValue(Mine) else g[i][j]))
  }

  /** Laying a mine in a fresh cell is one cell write. */
  lemma MinedAdd(g: Grid, s: set<Pos>, p: Pos)
    requires InBounds(g, p.r, p.c) && p !in s
    ensures Mined(g, s + {p}) == Put(Mined(g, s), p.r, p.c, g[p.r][p.c].SetValue(Mine))
  {
    var a := Mined(g, s + {p});
    var b := Put(Mined(g, s), p.r, p.c, g[p.r][p.c].SetValue(Mine));
    forall i | 0 <= i < |g|
      ensures a[i] == b[i]
    {
      assert forall j :: 0 <= j < |g[i]| ==> InBounds(g, i, j);
    }
  }

  /** On a grid without mines, the mines after laying s are exactly the cells of s. */
  lemma MinedMines(g: Grid, s: set<Pos>, i: int, j: int)
    requires InBounds(g, i, j) && g[i][j].value != Mine
    ensures Mined(g, s)[i][j].value == Mine <==> Pos(i, j) in s
  {
  }

  /** Laying no mines changes nothing. */
  lemma MinedNone(g: Grid)
    ensures Mined(g, {}) == g
  {
    var h := Mined(g, {});
    forall i | 0 <= i < |g|
      ensures h[i] == g[i]
    {
      assert forall j :: 0 <= j < |g[i]| ==> InBounds(g, i, j);
    }
  }

  /** Laying mines on a grid of zero counts leaves every other cell at zero. */
  lemma MinedClean(g: Grid, s: set<Pos>)
    requires forall r, c :: InBounds(g, r, c) ==> g[r][c].value == NoAdjMines
    ensures forall r, c :: InBounds(Mined(g, s), r, c) && Mined(g, s)[r][c].value != Mine
                           ==> Mined(g, s)[r][c].value == NoAdjMines
  {
    var h := Mined(g, s);
    forall r, c | InBounds(h, r, c) && h[r][c].value != Mine
      ensures h[r][c].value == NoAdjMines
    {
      assert InBounds(g, r, c);
    }
  }

  /** Mining a grid without mines and labelling it: the mines are exactly the
      drawn cells, labelling again changes nothing, and no mine is gained or lost. */
  lemma LabelledMined(g: Grid, s: set<Pos>)
    requires forall r, c :: InBounds(g, r, c) ==> g[r][c].value != Mine
    ensures Labelled(Labelled(Mined(g, s))) == Labelled(Mined(g, s))
    ensures MinesExactly(Labelled(Mined(g, s)), s)
    ensures Count(Labelled(Mined(g, s)), IsMineCell) == Count(Mined(g, s), IsMineCell)
  {
    var m := Mined(g, s);
    LabelledIdempotent(m);
    LabelledMineCount(m);
    var h := Labelled(m);
    forall r, c | InBounds(h, r, c)
      ensures h[r][c].value == Mine <==> Pos(r, c) in s
    {
      assert InBounds(g, r, c) && InBounds(m, r, c);
    }
  }
}
