/** Array2D<T> (array2D.h) and its row proxy Row<T> (row.h): a rows x cols
    grid stored row-major in an Array<T> whose start index is 0. */
module Grid2D {
  import opened Errors
  import opened Arrays

  /** The row-major order index that Array2D::Select computes. */
  function Idx(r: int, c: int, cols: int): int
  {
    r * cols + c
  }

  /** Select's index of an in-grid pair hits the first rows * cols elements. */
  lemma IdxInRange(r: int, c: int, rows: int, cols: int)
    requires 0 <= r < rows && 0 <= c < cols
    ensures 0 <= Idx(r, c, cols) < rows * cols
  {
    assert r * cols <= (rows - 1) * cols by {
      MulMonotone(r, rows - 1, cols);
    }
  }

  lemma MulMonotone(a: int, b: int, n: int)
    requires a <= b && 0 <= n
    ensures a * n <= b * n
  {
  }

  lemma IdxInRangeAll(rows: int, cols: int)
    ensures forall r, c :: 0 <= r < rows && 0 <= c < cols ==> 0 <= Idx(r, c, cols) < rows * cols
  {
    forall r, c | 0 <= r < rows && 0 <= c < cols
      ensures 0 <= Idx(r, c, cols) < rows * cols
    {
      IdxInRange(r, c, rows, cols);
    }
  }

  /** Two in-grid pairs share a row-major index only if they are equal. */
  lemma IdxInjective(r1: int, c1: int, r2: int, c2: int, cols: int)
    requires 0 <= c1 < cols && 0 <= c2 < cols
    requires Idx(r1, c1, cols) == Idx(r2, c2, cols)
    ensures r1 == r2 && c1 == c2
  {
    if r1 < r2 {
      MulMonotone(r1 + 1, r2, cols);
      assert false;
    } else if r2 < r1 {
      MulMonotone(r2 + 1, r1, cols);
      assert false;
    }
  }

  lemma IdxInjectiveAll(cols: int)
    ensures forall r1, c1, r2, c2 :: 0 <= c1 < cols && 0 <= c2 < cols && Idx(r1, c1, cols) == Idx(r2, c2, cols)
                                     ==> r1 == r2 && c1 == c2
  {
    forall r1, c1, r2, c2 | 0 <= c1 < cols && 0 <= c2 < cols && Idx(r1, c1, cols) == Idx(r2, c2, cols)
      ensures r1 == r2 && c1 == c2
    {
      IdxInjective(r1, c1, r2, c2, cols);
    }
  }

  /** Every in-grid pair of a rows x cols grid has a row-major index below n. */
  ghost predicate Fits(rows: int, cols: int, n: int)
  {
    forall r, c :: 0 <= r < rows && 0 <= c < cols ==> 0 <= Idx(r, c, cols) < n
  }

  lemma FitsWhen(rows: int, cols: int, n: int)
    requires rows * cols <= n
    ensures Fits(rows, cols, n)
  {
    IdxInRangeAll(rows, cols);
  }

  /** The grid a row-major buffer stands for: the abstraction function that
      Array2D's Matrix() and the copy loops' invariants are stated in. */
  ghost function RowMajor<T>(s: seq<T>, rows: nat, cols: nat): (m: seq<seq<T>>)
    requires Fits(rows, cols, |s|)
    ensures |m| == rows && forall i :: 0 <= i < rows ==> |m[i]| == cols
    ensures forall i, j :: 0 <= i < rows && 0 <= j < cols ==> m[i][j] == s[Idx(i, j, cols)]
  {
    seq(rows, i requires 0 <= i < rows => seq(cols, j requires 0 <= j < cols => s[Idx(i, j, cols)]))
  }

  /** Writing one buffer element writes the grid cell whose row-major index it is. */
  lemma RowMajorUpdate<T>(s: seq<T>, rows: nat, cols: nat, r: int, c: int, x: T)
    requires Fits(rows, cols, |s|) && 0 <= r < rows && 0 <= c < cols
    ensures 0 <= Idx(r, c, cols) < |s| && Fits(rows, cols, |s[Idx(r, c, cols) := x]|)
    ensures RowMajor(s[Idx(r, c, cols) := x], rows, cols)
            == RowMajor(s, rows, cols)[r := RowMajor(s, rows, cols)[r][c := x]]
  {
    IdxInjectiveAll(cols);
    var m := RowMajor(s, rows, cols);
    var m' := RowMajor(s[Idx(r, c, cols) := x], rows, cols);
    var u := m[r := m[r][c := x]];
    forall i | 0 <= i < rows
      ensures m'[i] == u[i]
    {
      assert |m'[i]| == |u[i]|;
      forall j | 0 <= j < cols
        ensures m'[i][j] == u[i][j]
      {
      }
    }
  }

  /** The grid after its column count becomes col: each row keeps its first
      min(width, col) elements and is padded with d. */
  ghost function Widened<T>(m: seq<seq<T>>, col: nat, d: T): (w: seq<seq<T>>)
    ensures |w| == |m| && forall i :: 0 <= i < |m| ==> |w[i]| == col
  {
    seq(|m|, i requires 0 <= i < |m| => seq(col, j requires 0 <= j < col => if j < |m[i]| then m[i][j] else d))
  }

  /** Widening to the width a grid already has changes nothing. */
  lemma WidenedSameWidth<T>(m: seq<seq<T>>, col: nat, d: T)
    requires forall i :: 0 <= i < |m| ==> |m[i]| == col
    ensures Widened(m, col, d) == m
  {
    var w := Widened(m, col, d);
    forall i | 0 <= i < |m|
      ensures w[i] == m[i]
    {
    }
  }

  /** The grid setColumn's copy loops have built once rows 0 .. i - 1 and the
      first j cells of row i are copied from m, cells of m outside the new
      width col dropped and every other cell d. */
  ghost function Partial<T>(m: seq<seq<T>>, col: nat, i: int, j: int, d: T): (p: seq<seq<T>>)
    ensures |p| == |m| && forall a :: 0 <= a < |m| ==> |p[a]| == col
  {
    seq(|m|, a requires 0 <= a < |m| =>
      seq(col, b requires 0 <= b < col => if (a < i || (a == i && b < j)) && b < |m[a]| then m[a][b] else d))
  }

  lemma PartialStart<T>(m: seq<seq<T>>, col: nat, d: T)
    ensures Partial(m, col, 0, 0, d) == seq(|m|, _ => seq(col, _ => d))
  {
    var p := Partial(m, col, 0, 0, d);
    forall a | 0 <= a < |m|
      ensures p[a] == seq(col, _ => d)
    {
    }
  }

  lemma PartialStep<T>(m: seq<seq<T>>, col: nat, i: int, j: int, d: T)
    requires 0 <= i < |m| && 0 <= j < col && j < |m[i]|
    ensures Partial(m, col, i, j + 1, d) == Partial(m, col, i, j, d)[i := Partial(m, col, i, j, d)[i][j := m[i][j]]]
  {
    var p := Partial(m, col, i, j, d);
    var q := Partial(m, col, i, j + 1, d);
    forall a | 0 <= a < |m|
      ensures q[a] == p[i := p[i][j := m[i][j]]][a]
    {
    }
  }

  /** A row is complete once j reaches the shorter of its old and new widths. */
  lemma PartialRowDone<T>(m: seq<seq<T>>, col: nat, i: int, j: int, d: T)
    requires 0 <= i < |m| && (j >= col || j >= |m[i]|)
    ensures Partial(m, col, i, j, d) == Partial(m, col, i + 1, 0, d)
  {
    var p := Partial(m, col, i, j, d);
    var q := Partial(m, col, i + 1, 0, d);
    forall a | 0 <= a < |m|
      ensures p[a] == q[a]
    {
    }
  }

  lemma PartialEnd<T>(m: seq<seq<T>>, col: nat, d: T)
    ensures Partial(m, col, |m|, 0, d) == Widened(m, col, d)
  {
    var p := Partial(m, col, |m|, 0, d);
    forall a | 0 <= a < |m|
      ensures p[a] == Widened(m, col, d)[a]
    {
    }
  }

  /** The buffer a fresh Array(n) holds stands for a grid of d's. */
  lemma RowMajorConstant<T>(rows: nat, cols: nat, n: nat, d: T)
    requires Fits(rows, cols, n)
    ensures RowMajor(seq(n, _ => d), rows, cols) == seq(rows, _ => seq(cols, _ => d))
  {
    var m := RowMajor(seq(n, _ => d), rows, cols);
    forall a | 0 <= a < rows
      ensures m[a] == seq(cols, _ => d)
    {
    }
  }

  /** Select's index moves by one row's width from one row to the next. */
  lemma IdxNextRow(i: int, cols: int)
    ensures Idx(i + 1, 0, cols) == Idx(i, 0, cols) + cols
  {
  }

  class Array2D<T> {
    const storage: Array<T>   // m_array1D
    var rows: int             // m_row
    var cols: int             // m_col
    const init: T             // the element T's default constructor makes

    ghost function Repr(): set<object>
      reads this, storage
    {
      {this, storage, storage.buf}
    }

    /** The buffer holds at least rows * cols elements, indexed from 0. */
    ghost predicate Valid()
      reads this, storage
    {
      && storage.Valid() && storage.startIndex == 0 && storage.init == init
      && 0 <= rows && 0 <= cols && rows * cols <= storage.length
    }

    /** The grid: row i is elements i * cols .. i * cols + cols - 1 of the buffer. */
    ghost function Matrix(): (m: seq<seq<T>>)
      reads this, storage, storage.buf
      requires Valid()
      ensures |m| == rows && forall i :: 0 <= i < rows ==> |m[i]| == cols
    {
      FitsWhen(rows, cols, storage.length);
      RowMajor(storage.Elements(), rows, cols)
    }

    /** The default constructor: a 0 x 0 grid over an empty buffer. */
    constructor (init: T)
      ensures Valid() && fresh(Repr()) && this.init == init
      ensures rows == 0 && cols == 0 && storage.Elements() == []
    {
      storage := new Array(init);
      rows := 0;
      cols := 0;
      this.init := init;
    }

    function GetRow(): int
      reads this
    {
      rows
    }

    function GetColumn(): int
      reads this
    {
      cols
    }

    /** setRow: a negative count sets rows to 0 and throws; 0 empties the grid
        (both counts and the buffer); otherwise rows = row and the buffer is
        resized to row * cols, keeping its leading elements. */
    method SetRow(row: int) returns (o: Outcome)
      requires Valid()
      modifies this, storage
      ensures Valid() && fresh(Repr() - old(Repr()))
      ensures row < 0 ==> && o == Fail(NegativeRowSize) && rows == 0 && cols == old(cols)
                          && storage.Elements() == old(storage.Elements())
      ensures row == 0 ==> o == Pass && rows == 0 && cols == 0 && storage.Elements() == []
      ensures 0 < row ==> && o == Pass && rows == row && cols == old(cols)
                          && storage.Elements() == Resized(old(storage.Elements()), row * old(cols), init)
      ensures 0 <= row ==> storage.length == rows * cols
    {
      if row < 0 {
        rows := 0;
        return Fail(NegativeRowSize);
      } else if row == 0 {
        rows := 0;
        cols := 0;
      }
      rows := row;
      var _ := storage.SetLength(rows * cols);
      o := Pass;
    }

    /** setColumn: a negative count sets cols to 0 and throws; 0 empties the
        grid; otherwise the buffer is rebuilt as rows x col, keeping element
        (i, j) for every j below both the old and the new column count. */
    method SetColumn(col: int) returns (o: Outcome)
      requires Valid()
      modifies this, storage
      ensures Valid() && fresh(Repr() - old(Repr()))
      ensures col < 0 ==> && o == Fail(NegativeColumnSize) && cols == 0 && rows == old(rows)
                          && storage.Elements() == old(storage.Elements())
      ensures col == 0 ==> o == Pass && rows == 0 && cols == 0 && storage.Elements() == []
      ensures 0 < col ==> && o == Pass && rows == old(rows) && cols == col
                          && storage.length == rows * cols
                          && Matrix() == Widened(old(Matrix()), col, init)
    {
      if col < 0 {
        cols := 0;
        return Fail(NegativeColumnSize);
      } else if col == 0 {
        rows := 0;
        cols := 0;
        var _ := storage.SetLength(rows * cols);
        return Pass;
      }
      var rowCount := rows;
      FitsWhen(rowCount, cols, storage.length);
      var made := Array<T>.Make(rowCount * col, 0, init);
      var temp := made.value;
      FitsWhen(rowCount, col, temp.length);
      if col > cols {
        CopyWidening(temp, col);
      } else {
        CopyNarrowing(temp, col);
      }
      storage.Assign(temp);
      cols := col;
      o := Pass;
    }

    /** setColumn's copy when the grid widens: each old row is copied whole
        and the counter into the new buffer then skips col - cols cells. */
    method CopyWidening(temp: Array<T>, col: int)
      requires Valid() && temp.Valid() && temp.startIndex == 0 && temp.buf != storage.buf
      requires cols < col && Fits(rows, col, temp.length) && temp.Elements() == seq(temp.length, _ => init)
      modifies temp.buf
      ensures temp.Valid() && RowMajor(temp.Elements(), rows, col) == Widened(Matrix(), col, init)
    {
      ghost var m0 := Matrix();
      FitsWhen(rows, cols, storage.length);
      RowMajorConstant(rows, col, temp.length, init);
      PartialStart(m0, col, init);
      var tempCount := -1;
      var originalCount := -1;
      for i := 0 to rows
        invariant temp.Valid() && temp.startIndex == 0 && temp.buf != storage.buf
        invariant Fits(rows, col, temp.length)
        invariant tempCount == Idx(i, 0, col) - 1 && originalCount == Idx(i, 0, cols) - 1
        invariant RowMajor(temp.Elements(), rows, col) == Partial(m0, col, i, 0, init)
      {
        tempCount, originalCount := CopyRowPrefix(temp, col, i, cols, tempCount, originalCount);
        PartialRowDone(m0, col, i, cols, init);
        IdxNextRow(i, col);
        IdxNextRow(i, cols);
        tempCount := tempCount + (col - cols);
      }
      PartialEnd(m0, col, init);
    }

    /** setColumn's copy when the grid narrows (or keeps its width): the first
        col cells of each old row are copied and the counter into the old
        buffer then skips cols - col cells. */
    method CopyNarrowing(temp: Array<T>, col: int)
      requires Valid() && temp.Valid() && temp.startIndex == 0 && temp.buf != storage.buf
      requires 0 <= col <= cols && Fits(rows, col, temp.length) && temp.Elements() == seq(temp.length, _ => init)
      modifies temp.buf
      ensures temp.Valid() && RowMajor(temp.Elements(), rows, col) == Widened(Matrix(), col, init)
    {
      ghost var m0 := Matrix();
      FitsWhen(rows, cols, storage.length);
      RowMajorConstant(rows, col, temp.length, init);
      PartialStart(m0, col, init);
      var tempCount := -1;
      var originalCount := -1;
      for i := 0 to rows
        invariant temp.Valid() && temp.startIndex == 0 && temp.buf != storage.buf
        invariant Fits(rows, col, temp.length)
        invariant tempCount == Idx(i, 0, col) - 1 && originalCount == Idx(i, 0, cols) - 1
        invariant RowMajor(temp.Elements(), rows, col) == Partial(m0, col, i, 0, init)
      {
        tempCount, originalCount := CopyRowPrefix(temp, col, i, col, tempCount, originalCount);
        PartialRowDone(m0, col, i, col, init);
        IdxNextRow(i, col);
        IdxNextRow(i, cols);
        originalCount := originalCount + (cols - col);
      }
      PartialEnd(m0, col, init);
    }

    /** The inner loop of setColumn's copies: cells 0 .. n - 1 of row i, with
        both counters pre-incremented before each copy. */
    method CopyRowPrefix(temp: Array<T>, col: int, i: int, n: int, tc: int, oc: int)
      returns (tempCount: int, originalCount: int)
      requires Valid() && temp.Valid() && temp.startIndex == 0 && temp.buf != storage.buf
      requires 0 <= i < rows && 0 <= n <= cols && n <= col && Fits(rows, col, temp.length)
      requires tc == Idx(i, 0, col) - 1 && oc == Idx(i, 0, cols) - 1
      requires RowMajor(temp.Elements(), rows, col) == Partial(Matrix(), col, i, 0, init)
      modifies temp.buf
      ensures temp.Valid() && temp.startIndex == 0
      ensures tempCount == Idx(i, n, col) - 1 && originalCount == Idx(i, n, cols) - 1
      ensures RowMajor(temp.Elements(), rows, col) == Partial(Matrix(), col, i, n, init)
    {
      ghost var m0 := Matrix();
      FitsWhen(rows, cols, storage.length);
      tempCount, originalCount := tc, oc;
      for j := 0 to n
        invariant temp.Valid() && temp.startIndex == 0
        invariant tempCount == Idx(i, j, col) - 1 && originalCount == Idx(i, j, cols) - 1
        invariant RowMajor(temp.Elements(), rows, col) == Partial(m0, col, i, j, init)
      {
        tempCount := tempCount + 1;
        originalCount := originalCount + 1;
        CopyCell(temp, col, i, j, tempCount, originalCount);
      }
    }

    /** One copy of setColumn: temp[tempCount] = m_array[originalCount], the
        two counters standing at cell (i, j) of the new and the old width. */
    method CopyCell(temp: Array<T>, col: int, i: int, j: int, tempCount: int, originalCount: int)
      requires Valid() && temp.Valid() && temp.startIndex == 0 && temp.buf != storage.buf
      requires 0 <= i < rows && 0 <= j < cols && j < col && Fits(rows, col, temp.length)
      requires tempCount == Idx(i, j, col) && originalCount == Idx(i, j, cols)
      requires RowMajor(temp.Elements(), rows, col) == Partial(Matrix(), col, i, j, init)
      modifies temp.buf
      ensures temp.Valid() && temp.startIndex == 0
      ensures RowMajor(temp.Elements(), rows, col) == Partial(Matrix(), col, i, j + 1, init)
    {
      ghost var m0 := Matrix();
      FitsWhen(rows, cols, storage.length);
      ghost var before := temp.Elements();
      assert storage.Get(originalCount) == Success(m0[i][j]);
      var _ := temp.Set(tempCount, storage.Get(originalCount).value);
      RowMajorUpdate(before, rows, col, i, j, m0[i][j]);
      PartialStep(m0, col, i, j, init);
    }

    /** operator[]: a row outside [0, rows - 1] throws; otherwise a proxy for that row. */
    method RowAt(rowDesired: int) returns (res: Result<Row<T>>)
      requires Valid()
      ensures rowDesired < 0 || rowDesired > rows - 1 ==> res == Failure(RowIndexOutOfBounds)
      ensures 0 <= rowDesired < rows ==> && res.Success? && fresh(res.value)
                                         && res.value.array2D == this && res.value.rowDesired == rowDesired
    {
      if rowDesired < 0 || rowDesired > rows - 1 {
        return Failure(RowIndexOutOfBounds);
      }
      var proxy := new Row(this, rowDesired);
      res := Success(proxy);
    }

    /** Select read: the element at row-major index r * cols + c, which for an
        in-grid pair lies inside the first rows * cols elements and is cell (r, c). */
    function Select(r: int, c: int): (res: Result<T>)
      reads this, storage, storage.buf
      requires Valid()
      ensures 0 <= r < rows && 0 <= c < cols ==> res == Success(Matrix()[r][c])
    {
      FitsWhen(rows, cols, storage.length);
      storage.Get(Idx(r, c, cols))
    }

    /** Select write, through the reference it returns: an in-grid pair
        overwrites exactly cell (r, c). */
    method SelectSet(r: int, c: int, x: T) returns (o: Outcome)
      requires Valid()
      modifies storage.buf
      ensures Valid()
      ensures o.Pass? <==> Select(r, c).Success?
      ensures o.Pass? ==> storage.Elements() == old(storage.Elements())[Idx(r, c, cols) := x]
      ensures o.Fail? ==> storage.Elements() == old(storage.Elements())
      ensures 0 <= r < rows && 0 <= c < cols ==> o == Pass && Matrix() == old(Matrix())[r := old(Matrix())[r][c := x]]
    {
      FitsWhen(rows, cols, storage.length);
      o := storage.Set(Idx(r, c, cols), x);
      if 0 <= r < rows && 0 <= c < cols {
        RowMajorUpdate(old(storage.Elements()), rows, cols, r, c, x);
      }
    }
  }

  /** Row<T>: the proxy Array2D::operator[] returns, which applies the column
      bounds check and forwards to Select. */
  class Row<T> {
    const array2D: Array2D<T>   // m_array2D
    var rowDesired: int         // m_rowDesired

    constructor (array2D: Array2D<T>, rowDesired: int)
      ensures this.array2D == array2D && this.rowDesired == rowDesired
    {
      this.array2D := array2D;
      this.rowDesired := rowDesired;
    }

    function GetRowDesired(): int
      reads this
    {
      rowDesired
    }

    /** setRowDesired: getRowDesired returns the new row afterwards. */
    method SetRowDesired(r: int)
      modifies this
      ensures GetRowDesired() == r
    {
      rowDesired := r;
    }

    /** operator[] read: a column outside [0, cols - 1] throws; otherwise Select. */
    function Get(columnDesired: int): (res: Result<T>)
      reads this, array2D, array2D.storage, array2D.storage.buf
      requires array2D.Valid()
      ensures columnDesired < 0 || columnDesired > array2D.cols - 1 ==> res == Failure(ColumnIndexOutOfBounds)
      ensures 0 <= columnDesired < array2D.cols ==> res == array2D.Select(rowDesired, columnDesired)
      ensures 0 <= rowDesired < array2D.rows && 0 <= columnDesired < array2D.cols
              ==> res == Success(array2D.Matrix()[rowDesired][columnDesired])
    {
      if columnDesired < 0 || columnDesired > array2D.GetColumn() - 1 then Failure(ColumnIndexOutOfBounds)
      else array2D.Select(rowDesired, columnDesired)
    }

    /** operator[] write, through the reference it returns: the column check,
        then the Select write. */
    method Set(columnDesired: int, x: T) returns (o: Outcome)
      requires array2D.Valid()
      modifies array2D.storage.buf
      ensures array2D.Valid()
      ensures columnDesired < 0 || columnDesired > array2D.cols - 1
              ==> o == Fail(ColumnIndexOutOfBounds) && array2D.Matrix() == old(array2D.Matrix())
      ensures 0 <= columnDesired < array2D.cols
              ==> && (o.Pass? <==> old(array2D.Select(rowDesired, columnDesired)).Success?)
                  && (o.Pass? ==> array2D.storage.Elements()
                                  == old(array2D.storage.Elements())[Idx(rowDesired, columnDesired, array2D.cols) := x])
                  && (o.Fail? ==> array2D.storage.Elements() == old(array2D.storage.Elements()))
      ensures 0 <= rowDesired < array2D.rows && 0 <= columnDesired < array2D.cols
              ==> && o == Pass
                  && array2D.Matrix() == old(array2D.Matrix())[rowDesired := old(array2D.Matrix())[rowDesired][columnDesired := x]]
    {
      if columnDesired < 0 || columnDesired > array2D.GetColumn() - 1 {
        return Fail(ColumnIndexOutOfBounds);
      }
      o := array2D.SelectSet(rowDesired, columnDesired, x);
    }
  }
}
