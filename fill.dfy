/** What Board::FloodFill does to a grid, stated as a relation between the
    grid before (g) and after (h) a fill started at (r, c). */
module Fill {
  import opened Cells
  import opened Grids

  /** The cells FloodFill uncovers when it visits them: in bounds, covered, not a mine. */
  predicate Openable(g: Grid, r: int, c: int)
  {
    InBounds(g, r, c) && g[r][c].state == Covered && g[r][c].value != Mine
  }

  predicate SameShape(g: Grid, h: Grid)
  {
    |g| == |h| && forall i :: 0 <= i < |g| ==> |g[i]| == |h[i]|
  }

  /** h is g with some openable cells uncovered and nothing else changed:
      values, flags, mines and uncovered cells stay as they are. */
  ghost predicate Evolves(g: Grid, h: Grid)
  {
    && SameShape(g, h)
    && forall r, c :: InBounds(g, r, c) ==>
         && h[r][c].value == g[r][c].value
         && (h[r][c].state == g[r][c].state || (Openable(g, r, c) && h[r][c].state == Uncovered))
  }

  /** Cell (r, c) was covered in g and is uncovered in h. */
  predicate Opened(g: Grid, h: Grid, r: int, c: int)
  {
    InBounds(g, r, c) && InBounds(h, r, c) && g[r][c].state == Covered && h[r][c].state == Uncovered
  }

  /** The four cells FloodFill recurses into, in its order: north, east, south, west. */
  predicate Step(p: Pos, q: Pos)
  {
    q == Pos(p.r - 1, p.c) || q == Pos(p.r, p.c + 1) || q == Pos(p.r + 1, p.c) || q == Pos(p.r, p.c - 1)
  }

  /** Every zero cell the fill opened has no openable orthogonal neighbour left. */
  ghost predicate Closed(g: Grid, h: Grid)
  {
    forall r, c {:trigger Opened(g, h, r, c)} :: Opened(g, h, r, c) && h[r][c].value == NoAdjMines ==>
      !Openable(h, r - 1, c) && !Openable(h, r, c + 1) && !Openable(h, r + 1, c) && !Openable(h, r, c - 1)
  }

  /** A path a fill may follow through g: openable cells, each an orthogonal
      step from the one before, and every cell but the last a zero cell. */
  ghost predicate FillPath(g: Grid, path: seq<Pos>)
  {
    && |path| > 0
    && (forall k :: 0 <= k < |path| ==> Openable(g, path[k].r, path[k].c))
    && (forall k :: 0 <= k < |path| - 1 ==> g[path[k].r][path[k].c].value == NoAdjMines && Step(path[k], path[k + 1]))
  }

  ghost predicate Reachable(g: Grid, s: Pos, p: Pos)
  {
    exists path :: FillPath(g, path) && path[0] == s && path[|path| - 1] == p
  }

  /** The fill from (r, c) turned g into h: only openable cells were
      uncovered, the zero region it opened is closed, the start was opened if
      it could be, and everything opened is reachable from the start. */
  ghost predicate FillSpec(g: Grid, h: Grid, r: int, c: int)
  {
    && Evolves(g, h)
    && Closed(g, h)
    && (Openable(g, r, c) ==> h[r][c].state == Uncovered)
    && ReachedFrom(g, h, Pos(r, c))
  }

  /** Every cell opened between g and h is reachable in g from s. */
  ghost predicate ReachedFrom(g: Grid, h: Grid, s: Pos)
  {
    forall i, j {:trigger Opened(g, h, i, j)} :: Opened(g, h, i, j) ==> Reachable(g, s, Pos(i, j))
  }

  lemma EvolvesTrans(a: Grid, b: Grid, c: Grid)
    requires Evolves(a, b) && Evolves(b, c)
    ensures Evolves(a, c)
  {
    forall i, j | InBounds(a, i, j)
      ensures c[i][j].value == a[i][j].value
      ensures c[i][j].state == a[i][j].state || (Openable(a, i, j) && c[i][j].state == Uncovered)
    {
      assert InBounds(b, i, j);
    }
  }

  /** A cell the fill cannot open stays exactly as it was. */
  lemma NotOpenableStays(a: Grid, b: Grid, i: int, j: int)
    requires Evolves(a, b) && !Openable(a, i, j)
    ensures !Openable(b, i, j)
    ensures InBounds(a, i, j) ==> b[i][j] == a[i][j]
  {
  }

  /** An openable cell of the later grid was openable in the earlier. */
  lemma OpenableEarlier(a: Grid, b: Grid, i: int, j: int)
    requires Evolves(a, b) && Openable(b, i, j)
    ensures Openable(a, i, j)
  {
  }

  /** A fill started at n leaves n unopenable. */
  lemma StartDone(a: Grid, b: Grid, n: Pos)
    requires FillSpec(a, b, n.r, n.c)
    ensures !Openable(b, n.r, n.c)
  {
    if !Openable(a, n.r, n.c) {
      NotOpenableStays(a, b, n.r, n.c);
    }
  }

  /** A fill path of a later grid is one of the earlier grid. */
  lemma FillPathEarlier(a: Grid, b: Grid, path: seq<Pos>)
    requires Evolves(a, b) && FillPath(b, path)
    ensures FillPath(a, path)
  {
    forall k | 0 <= k < |path|
      ensures Openable(a, path[k].r, path[k].c)
    {
      OpenableEarlier(a, b, path[k].r, path[k].c);
    }
  }

  /** A zero cell s openable in a extends to s every reach from its neighbour
      n in a later grid b. */
  lemma ReachExtend(a: Grid, b: Grid, s: Pos, n: Pos, p: Pos)
    requires Evolves(a, b) && Openable(a, s.r, s.c) && a[s.r][s.c].value == NoAdjMines && Step(s, n)
    requires Reachable(b, n, p)
    ensures Reachable(a, s, p)
  {
    var path :| FillPath(b, path) && path[0] == n && path[|path| - 1] == p;
    FillPathEarlier(a, b, path);
    var longer := [s] + path;
    assert forall k :: 1 <= k < |longer| ==> longer[k] == path[k - 1];
    assert FillPath(a, longer);
  }

  /** The fill visits a cell it cannot open: nothing changes. */
  lemma FillNothing(g: Grid, r: int, c: int)
    requires !Openable(g, r, c)
    ensures FillSpec(g, g, r, c)
  {
  }

  /** The fill opens a cell with adjacent mines and stops there. */
  lemma FillSingle(g: Grid, r: int, c: int)
    requires Openable(g, r, c) && g[r][c].value != NoAdjMines
    ensures FillSpec(g, Put(g, r, c, g[r][c].SetState(Uncovered)), r, c)
  {
    var h := Put(g, r, c, g[r][c].SetState(Uncovered));
    forall i, j | Opened(g, h, i, j)
      ensures Reachable(g, Pos(r, c), Pos(i, j))
    {
      assert FillPath(g, [Pos(r, c)]);
    }
  }

  /** Every zero cell the fill from (r, c) opened, except the start itself,
      has no openable orthogonal neighbour left. */
  ghost predicate ClosedBut(g: Grid, h: Grid, r: int, c: int)
  {
    forall i, j {:trigger Opened(g, h, i, j)} :: Opened(g, h, i, j) && h[i][j].value == NoAdjMines && (i != r || j != c) ==>
      !Openable(h, i - 1, j) && !Openable(h, i, j + 1) && !Openable(h, i + 1, j) && !Openable(h, i, j - 1)
  }

  /** The fill from the zero cell (r, c) of g is under way and h is where it
      stands: the start is open, the fills of its neighbours done so far are
      closed, and everything opened is reachable from the start. */
  ghost predicate FillSoFar(g: Grid, h: Grid, r: int, c: int)
  {
    && Openable(g, r, c) && g[r][c].value == NoAdjMines
    && Evolves(g, h) && ClosedBut(g, h, r, c)
    && h[r][c].state == Uncovered
    && ReachedFrom(g, h, Pos(r, c))
  }

  /** Uncovering the zero cell starts the fill. */
  lemma FillSoFarStart(g: Grid, r: int, c: int)
    requires Openable(g, r, c) && g[r][c].value == NoAdjMines
    ensures FillSoFar(g, Put(g, r, c, g[r][c].SetState(Uncovered)), r, c)
  {
    assert FillPath(g, [Pos(r, c)]);
  }

  /** A fill from the neighbour n of the start moves the fill on, and leaves
      n unopenable. */
  lemma FillSoFarStep(g: Grid, a: Grid, b: Grid, r: int, c: int, n: Pos)
    requires FillSoFar(g, a, r, c) && Step(Pos(r, c), n) && FillSpec(a, b, n.r, n.c)
    ensures FillSoFar(g, b, r, c) && !Openable(b, n.r, n.c)
  {
    EvolvesTrans(g, a, b);
    StartDone(a, b, n);
    StepReach(g, a, b, Pos(r, c), n);
    StepClosed(g, a, b, r, c);
  }

  /** What the fill from the neighbour n opens is reachable from the start s. */
  lemma StepReach(g: Grid, a: Grid, b: Grid, s: Pos, n: Pos)
    requires Evolves(g, a) && Openable(g, s.r, s.c) && g[s.r][s.c].value == NoAdjMines && Step(s, n)
    requires ReachedFrom(g, a, s) && Evolves(a, b) && ReachedFrom(a, b, n)
    ensures ReachedFrom(g, b, s)
  {
    forall i, j | Opened(g, b, i, j)
      ensures Reachable(g, s, Pos(i, j))
    {
      if a[i][j].state == Covered {
        assert Opened(a, b, i, j);
        ReachExtend(g, a, s, n, Pos(i, j));
      } else {
        assert Opened(g, a, i, j);
      }
    }
  }

  /** A closed fill after one that is closed but at its start leaves it so. */
  lemma StepClosed(g: Grid, a: Grid, b: Grid, r: int, c: int)
    requires Evolves(g, a) && Evolves(a, b) && ClosedBut(g, a, r, c) && Closed(a, b)
    ensures ClosedBut(g, b, r, c)
  {
    forall i, j | Opened(g, b, i, j) && b[i][j].value == NoAdjMines && (i != r || j != c)
      ensures !Openable(b, i - 1, j) && !Openable(b, i, j + 1) && !Openable(b, i + 1, j) && !Openable(b, i, j - 1)
    {
      if a[i][j].state == Covered {
        assert Opened(a, b, i, j);
      } else {
        assert Opened(g, a, i, j);
        NotOpenableStays(a, b, i - 1, j);
        NotOpenableStays(a, b, i, j + 1);
        NotOpenableStays(a, b, i + 1, j);
        NotOpenableStays(a, b, i, j - 1);
      }
    }
  }

  /** Once all four neighbours of the start are unopenable the fill is done. */
  lemma FillSoFarEnd(g: Grid, h: Grid, r: int, c: int)
    requires FillSoFar(g, h, r, c)
    requires !Openable(h, r - 1, c) && !Openable(h, r, c + 1) && !Openable(h, r + 1, c) && !Openable(h, r, c - 1)
    ensures FillSpec(g, h, r, c)
  {
    ClosedAtStart(g, h, r, c);
  }

  /** A fill closed everywhere but at its start, and closed there too, is closed. */
  lemma ClosedAtStart(g: Grid, h: Grid, r: int, c: int)
    requires ClosedBut(g, h, r, c)
    requires !Openable(h, r - 1, c) && !Openable(h, r, c + 1) && !Openable(h, r + 1, c) && !Openable(h, r, c - 1)
    ensures Closed(g, h)
  {
    forall i, j | Opened(g, h, i, j) && h[i][j].value == NoAdjMines
      ensures !Openable(h, i - 1, j) && !Openable(h, i, j + 1) && !Openable(h, i + 1, j) && !Openable(h, i, j - 1)
    {
      if i != r || j != c {
        assert Opened(g, h, i, j);
      }
    }
  }

  /** Along a fill path of g every cell is uncovered in a closed result h. */
  lemma {:induction false} PathOpened(g: Grid, h: Grid, path: seq<Pos>, k: int)
    requires Evolves(g, h) && Closed(g, h) && FillPath(g, path)
    requires h[path[0].r][path[0].c].state == Uncovered
    requires 0 <= k < |path|
    ensures h[path[k].r][path[k].c].state == Uncovered
    decreases k
  {
    if k > 0 {
      PathOpened(g, h, path, k - 1);
      var p, q := path[k - 1], path[k];
      assert Opened(g, h, p.r, p.c);
      assert Openable(g, q.r, q.c);
      assert !Openable(h, q.r, q.c);
    }
  }

  /** The fill opens exactly the cells reachable from its start. */
  lemma FillExact(g: Grid, h: Grid, r: int, c: int, i: int, j: int)
    requires FillSpec(g, h, r, c)
    ensures Opened(g, h, i, j) <==> Reachable(g, Pos(r, c), Pos(i, j))
  {
    if Reachable(g, Pos(r, c), Pos(i, j)) {
      var path :| FillPath(g, path) && path[0] == Pos(r, c) && path[|path| - 1] == Pos(i, j);
      PathOpened(g, h, path, |path| - 1);
    }
  }

  /** The specification determines the fill's result. */
  lemma FillUnique(g: Grid, h1: Grid, h2: Grid, r: int, c: int)
    requires FillSpec(g, h1, r, c) && FillSpec(g, h2, r, c)
    ensures h1 == h2
  {
    forall i | 0 <= i < |g|
      ensures h1[i] == h2[i]
    {
      forall j | 0 <= j < |g[i]|
        ensures h1[i][j] == h2[i][j]
      {
        assert InBounds(g, i, j);
        FillExact(g, h1, r, c, i, j);
        FillExact(g, h2, r, c, i, j);
      }
    }
  }

  /** A fill never adds covered cells. */
  lemma EvolvesCovered(g: Grid, h: Grid)
    requires Evolves(g, h)
    ensures Count(h, IsCoveredCell) <= Count(g, IsCoveredCell)
  {
    CountLe(h, IsCoveredCell, g, IsCoveredCell);
  }
}
