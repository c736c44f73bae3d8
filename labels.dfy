/** The adjacency numbers AssignCellValues writes: for each non-mine cell the
    number of its (at most eight) in-bounds neighbours that are mines. */
module Labels {
  import opened Cells
  import opened Grids

  /** Row and column offsets of direction k, in the order AssignCellValues
      visits a mine's neighbours: north, northeast, east, southeast, south,
      southwest, west, northwest. */
  function DR(k: int): int
  {
    if k == 0 || k == 1 || k == 7 then -1 else if k == 2 || k == 6 then 0 else 1
  }

  function DC(k: int): int
  {
    if k == 0 || k == 4 then 0 else if k == 1 || k == 2 || k == 3 then 1 else -1
  }

  function Neighbour(r: int, c: int, k: int): Pos
  {
    Pos(r + DR(k), c + DC(k))
  }

  /** The direction whose offset is (dr, dc), or 8 when (dr, dc) is not the
      offset of a neighbour. */
  function DirOf(dr: int, dc: int): (k: int)
    ensures 0 <= k <= 8
    ensures k < 8 ==> DR(k) == dr && DC(k) == dc
    ensures k == 8 <==> (dr == 0 && dc == 0) || dr < -1 || dr > 1 || dc < -1 || dc > 1
  {
    if dr == -1 && dc == 0 then 0
    else if dr == -1 && dc == 1 then 1
    else if dr == 0 && dc == 1 then 2
    else if dr == 1 && dc == 1 then 3
    else if dr == 1 && dc == 0 then 4
    else if dr == 1 && dc == -1 then 5
    else if dr == 0 && dc == -1 then 6
    else if dr == -1 && dc == -1 then 7
    else 8
  }

  /** The eight directions are eight distinct offsets. */
  lemma DirOfNeighbour(k: int)
    requires 0 <= k < 8
    ensures DirOf(DR(k), DC(k)) == k
  {
  }

  /** Being neighbours is symmetric. */
  lemma AdjacentSymmetric(dr: int, dc: int)
    ensures DirOf(dr, dc) < 8 <==> DirOf(-dr, -dc) < 8
  {
  }

  /** 1 for an in-bounds mine at p, else 0. */
  function MineAt(g: Grid, p: Pos): (n: nat)
    ensures n <= 1
    ensures n == 1 <==> InBounds(g, p.r, p.c) && g[p.r][p.c].value == Mine
  {
    if InBounds(g, p.r, p.c) && g[p.r][p.c].value == Mine then 1 else 0
  }

  /** The mines among the first n neighbours of (r, c), in direction order. */
  function MinesAmong(g: Grid, r: int, c: int, n: nat): (s: nat)
    requires n <= 8
    ensures s <= n
  {
    if n == 0 then 0 else MinesAmong(g, r, c, n - 1) + MineAt(g, Neighbour(r, c, n - 1))
  }

  /** The number of mines among the in-bounds neighbours of (r, c). */
  function AdjacentMines(g: Grid, r: int, c: int): (n: nat)
    ensures n <= 8
  {
    MinesAmong(g, r, c, 8)
  }

  /** p comes before (i, j) in the row-by-row scan. */
  predicate Before(p: Pos, i: int, j: int)
  {
    p.r < i || (p.r == i && p.c < j)
  }

  /** The mines among the first n neighbours of (r, c) that the row-by-row
      scan has passed once it reaches (i, j). */
  function PassedAmong(g: Grid, r: int, c: int, i: int, j: int, n: nat): (s: nat)
    requires n <= 8
    ensures s <= MinesAmong(g, r, c, n)
  {
    if n == 0 then 0
    else PassedAmong(g, r, c, i, j, n - 1)
         + (if Before(Neighbour(r, c, n - 1), i, j) then MineAt(g, Neighbour(r, c, n - 1)) else 0)
  }

  /** The mines next to (r, c) that the scan has passed once it reaches (i, j). */
  function AdjacentBefore(g: Grid, r: int, c: int, i: int, j: int): (n: nat)
    ensures n <= AdjacentMines(g, r, c)
  {
    PassedAmong(g, r, c, i, j, 8)
  }

  /** Before the scan starts no mine has been passed. */
  lemma {:induction false} AdjacentBeforeStart(g: Grid, r: int, c: int, n: nat)
    requires n <= 8
    ensures PassedAmong(g, r, c, 0, 0, n) == 0
  {
    if n > 0 {
      AdjacentBeforeStart(g, r, c, n - 1);
    }
  }

  /** Once the scan is past the last row every neighbouring mine has been passed. */
  lemma {:induction false} AdjacentBeforeEnd(g: Grid, r: int, c: int, n: nat)
    requires n <= 8
    ensures PassedAmong(g, r, c, |g|, 0, n) == MinesAmong(g, r, c, n)
  {
    if n > 0 {
      AdjacentBeforeEnd(g, r, c, n - 1);
    }
  }

  /** The end of row i and the start of row i + 1 are the same point of the scan. */
  lemma {:induction false} AdjacentBeforeRowEnd(g: Grid, r: int, c: int, i: int, n: nat)
    requires 0 <= i < |g| && n <= 8
    ensures PassedAmong(g, r, c, i, |g[i]|, n) == PassedAmong(g, r, c, i + 1, 0, n)
  {
    if n > 0 {
      AdjacentBeforeRowEnd(g, r, c, i, n - 1);
    }
  }

  /** Passing cell (i, j) adds it to the count of the first n neighbours of
      (r, c) exactly when it is one of them. */
  lemma {:induction false} PassedAmongNext(g: Grid, r: int, c: int, i: int, j: int, n: nat)
    requires n <= 8
    ensures PassedAmong(g, r, c, i, j + 1, n)
            == PassedAmong(g, r, c, i, j, n) + (if DirOf(i - r, j - c) < n then MineAt(g, Pos(i, j)) else 0)
  {
    if n > 0 {
      PassedAmongNext(g, r, c, i, j, n - 1);
      DirOfNeighbour(n - 1);
    }
  }

  /** Passing cell (i, j) adds it to the count of exactly its neighbours. */
  lemma AdjacentBeforeNext(g: Grid, r: int, c: int, i: int, j: int)
    ensures AdjacentBefore(g, r, c, i, j + 1)
            == AdjacentBefore(g, r, c, i, j) + (if DirOf(r - i, c - j) < 8 then MineAt(g, Pos(i, j)) else 0)
  {
    PassedAmongNext(g, r, c, i, j, 8);
    AdjacentSymmetric(r - i, c - j);
  }

  /** The grid after one guarded increment of AssignCellValues: an in-bounds
      non-mine cell's count goes up by one. */
  function Bump(g: Grid, p: Pos): (h: Grid)
    ensures |h| == |g| && forall i :: 0 <= i < |g| ==> |h[i]| == |g[i]|
    ensures forall i, j :: InBounds(g, i, j) ==> h[i][j].state == g[i][j].state
    ensures forall i, j :: InBounds(g, i, j) && Pos(i, j) != p ==> h[i][j] == g[i][j]
    ensures InBounds(g, p.r, p.c) && g[p.r][p.c].value != Mine
            ==> h[p.r][p.c].value as int == g[p.r][p.c].value as int + 1
    ensures InBounds(g, p.r, p.c) && g[p.r][p.c].value == Mine ==> h == g
  {
    if InBounds(g, p.r, p.c) && g[p.r][p.c].value != Mine
    then Put(g, p.r, p.c, g[p.r][p.c].SetValue(Increment(g[p.r][p.c].value)))
    else g
  }

  /** The state of AssignCellValues' scan of the grid that started as g0, at
      cell (i, j) after the first k of the eight increments around it (k is 0
      unless (i, j) is a mine): states and mines as in g0, and each non-mine
      cell counting the mines passed so far. */
  ghost predicate Partway(g0: Grid, g: Grid, i: int, j: int, k: int)
  {
    && |g| == |g0| && (forall r :: 0 <= r < |g0| ==> |g[r]| == |g0[r]|)
    && forall r, c :: InBounds(g0, r, c) ==>
         && g[r][c].state == g0[r][c].state
         && (g[r][c].value == Mine <==> g0[r][c].value == Mine)
         && (g0[r][c].value != Mine
             ==> g[r][c].value as int == AdjacentBefore(g0, r, c, i, j) + (if DirOf(r - i, c - j) < k then 1 else 0))
  }

  /** Zeroed counts are the state before the scan starts. */
  lemma PartwayStart(g0: Grid)
    requires forall r, c :: InBounds(g0, r, c) && g0[r][c].value != Mine ==> g0[r][c].value == NoAdjMines
    ensures Partway(g0, g0, 0, 0, 0)
  {
    forall r, c | InBounds(g0, r, c)
      ensures AdjacentBefore(g0, r, c, 0, 0) == 0
    {
      AdjacentBeforeStart(g0, r, c, 8);
    }
  }

  /** The k-th increment around mine (i, j) keeps the scan's invariant, and it
      never turns a count into a mine. */
  lemma BumpStep(g0: Grid, g: Grid, i: int, j: int, k: int)
    requires Partway(g0, g, i, j, k) && InBounds(g0, i, j) && g0[i][j].value == Mine && 0 <= k < 8
    ensures Partway(g0, Bump(g, Neighbour(i, j, k)), i, j, k + 1)
  {
    var p := Neighbour(i, j, k);
    var h: Grid := Bump(g, p);
    DirOfNeighbour(k);
    forall r, c | InBounds(g0, r, c)
      ensures h[r][c].state == g0[r][c].state
      ensures h[r][c].value == Mine <==> g0[r][c].value == Mine
      ensures g0[r][c].value != Mine
              ==> h[r][c].value as int == AdjacentBefore(g0, r, c, i, j) + (if DirOf(r - i, c - j) < k + 1 then 1 else 0)
    {
      assert InBounds(g, r, c);
      if Pos(r, c) == p && g0[r][c].value != Mine {
        AdjacentBeforeNext(g0, r, c, i, j);
      }
    }
  }

  /** After the eight increments around a mine, the scan moves on to the next cell. */
  lemma PartwayMineDone(g0: Grid, g: Grid, i: int, j: int)
    requires Partway(g0, g, i, j, 8) && InBounds(g0, i, j) && g0[i][j].value == Mine
    ensures Partway(g0, g, i, j + 1, 0)
  {
    forall r, c | InBounds(g0, r, c)
      ensures AdjacentBefore(g0, r, c, i, j + 1) == AdjacentBefore(g0, r, c, i, j) + (if DirOf(r - i, c - j) < 8 then 1 else 0)
    {
      AdjacentBeforeNext(g0, r, c, i, j);
    }
  }

  /** Passing a cell that is not a mine changes no count. */
  lemma PartwaySafeDone(g0: Grid, g: Grid, i: int, j: int)
    requires Partway(g0, g, i, j, 0) && InBounds(g0, i, j) && g0[i][j].value != Mine
    ensures Partway(g0, g, i, j + 1, 0)
  {
    forall r, c | InBounds(g0, r, c)
      ensures AdjacentBefore(g0, r, c, i, j + 1) == AdjacentBefore(g0, r, c, i, j)
    {
      AdjacentBeforeNext(g0, r, c, i, j);
    }
  }

  /** The end of a row is the start of the next. */
  lemma PartwayRowDone(g0: Grid, g: Grid, i: int)
    requires 0 <= i < |g0| && Partway(g0, g, i, |g0[i]|, 0)
    ensures Partway(g0, g, i + 1, 0, 0)
  {
    forall r, c | InBounds(g0, r, c)
      ensures AdjacentBefore(g0, r, c, i, |g0[i]|) == AdjacentBefore(g0, r, c, i + 1, 0)
    {
      AdjacentBeforeRowEnd(g0, r, c, i, 8);
    }
  }

  /** g with every non-mine cell holding its number of adjacent mines. */
  function Labelled(g: Grid): (h: Grid)
    ensures |h| == |g| && forall i :: 0 <= i < |g| ==> |h[i]| == |g[i]|
    ensures forall r, c :: InBounds(g, r, c) ==> && h[r][c].state == g[r][c].state
                                                 && (h[r][c].value == Mine <==> g[r][c].value == Mine)
    ensures forall r, c :: InBounds(g, r, c) && g[r][c].value != Mine
                           ==> h[r][c].value as int == AdjacentMines(g, r, c)
  {
    seq(|g|, i requires 0 <= i < |g| =>
      seq(|g[i]|, j requires 0 <= j < |g[i]| =>
        if g[i][j].value == Mine then g[i][j] else g[i][j].SetValue(AdjacentCount(AdjacentMines(g, i, j)))))
  }

  /** At the end of the scan the grid is g0 labelled. */
  lemma PartwayEnd(g0: Grid, g: Grid)
    requires Partway(g0, g, |g0|, 0, 0)
    ensures g == Labelled(g0)
  {
    var h := Labelled(g0);
    forall r | 0 <= r < |g0|
      ensures g[r] == h[r]
    {
      forall c | 0 <= c < |g0[r]|
        ensures g[r][c] == h[r][c]
      {
        assert InBounds(g0, r, c);
        AdjacentBeforeEnd(g0, r, c, 8);
      }
    }
  }

  /** Labelling keeps the mines, so it keeps every neighbour count. */
  lemma {:induction false} MinesAmongLabelled(g: Grid, r: int, c: int, n: nat)
    requires n <= 8
    ensures MinesAmong(Labelled(g), r, c, n) == MinesAmong(g, r, c, n)
  {
    if n > 0 {
      MinesAmongLabelled(g, r, c, n - 1);
      var p := Neighbour(r, c, n - 1);
      if InBounds(g, p.r, p.c) {
        assert Labelled(g)[p.r][p.c].value == Mine <==> g[p.r][p.c].value == Mine;
      }
    }
  }

  /** Labelling keeps the mines where they are, so labelling twice is
      labelling once. */
  lemma LabelledIdempotent(g: Grid)
    ensures Labelled(Labelled(g)) == Labelled(g)
  {
    var h := Labelled(g);
    var h2 := Labelled(h);
    forall r | 0 <= r < |g|
      ensures h2[r] == h[r]
    {
      forall c | 0 <= c < |g[r]|
        ensures h2[r][c] == h[r][c]
      {
        assert InBounds(g, r, c) && InBounds(h, r, c);
        MinesAmongLabelled(g, r, c, 8);
      }
    }
  }

  /** Labelling keeps the number of mines. */
  lemma LabelledMineCount(g: Grid)
    ensures Count(Labelled(g), IsMineCell) == Count(g, IsMineCell)
  {
    var h := Labelled(g);
    CountLe(g, IsMineCell, h, IsMineCell);
    CountLe(h, IsMineCell, g, IsMineCell);
  }
}
