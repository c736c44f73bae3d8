/** Array<T> (array.h): a resizable buffer with a start index and
    bounds-checked indexing. */
module Arrays {
  import opened Errors

  /** The first n elements of s, padded with d when s is shorter: what a
      buffer holds after it is reallocated to length n. */
  function Resized<T>(s: seq<T>, n: nat, d: T): (r: seq<T>)
    ensures |r| == n
    ensures forall i :: 0 <= i < n ==> r[i] == if i < |s| then s[i] else d
  {
    if n <= |s| then s[..n] else s + seq(n - |s|, _ => d)
  }

  class Array<T> {
    var buf: array<T>     // m_array; a zero-length buffer stands for nullptr
    var length: int       // m_length
    var startIndex: int   // m_start_index
    const init: T         // the element T's default constructor makes (new T[n])

    ghost function Repr(): set<object>
      reads this
    {
      {this, buf}
    }

    ghost predicate Valid()
      reads this
    {
      length == buf.Length
    }

    /** The elements, in buffer order. */
    ghost function Elements(): seq<T>
      reads this, buf
    {
      buf[..]
    }

    /** The default constructor: length 0, start index 0. */
    constructor (init: T)
      ensures Valid() && fresh(buf)
      ensures length == 0 && startIndex == 0 && Elements() == [] && this.init == init
    {
      buf := new T[0](_ => init);
      length := 0;
      startIndex := 0;
      this.init := init;
    }

    /** The length constructor Array(length, start_index): a negative length
        throws, so no array is made; otherwise length default elements. */
    static method Make(length: int, startIndex: int, init: T) returns (res: Result<Array<T>>)
      ensures length < 0 ==> res == Failure(NegativeLength)
      ensures 0 <= length ==> res.Success? && fresh(res.value) && fresh(res.value.buf)
      ensures res.Success? ==> res.value.Valid() && res.value.init == init
                               && res.value.length == length && res.value.startIndex == startIndex
                               && res.value.Elements() == seq(length, _ => init)
    {
      if length < 0 {
        return Failure(NegativeLength);
      }
      var a := new Array(init);
      a.buf := new T[length](_ => init);
      a.length := length;
      a.startIndex := startIndex;
      res := Success(a);
    }

    /** operator[] read: index i is valid exactly when start <= i < start + length,
        and then names element i - start. */
    function Get(index: int): (res: Result<T>)
      reads this, buf
      requires Valid()
      ensures res.Success? <==> startIndex <= index < startIndex + length
      ensures index < startIndex ==> res == Failure(IndexBelowLowerBound)
      ensures startIndex <= index && startIndex + length <= index ==> res == Failure(IndexAboveUpperBound)
      ensures res.Success? ==> res.value == Elements()[index - startIndex]
    {
      if index < startIndex then Failure(IndexBelowLowerBound)
      else if index >= length + startIndex then Failure(IndexAboveUpperBound)
      else Success(buf[index - startIndex])
    }

    /** operator[] write, through the reference it returns: the same bounds
        errors as reading; otherwise element i - start becomes x. */
    method Set(index: int, x: T) returns (o: Outcome)
      requires Valid()
      modifies buf
      ensures o.Pass? <==> Get(index).Success?
      ensures o.Fail? ==> o.error == Get(index).error && Elements() == old(Elements())
      ensures o.Pass? ==> Elements() == old(Elements())[index - startIndex := x]
    {
      if index < startIndex {
        return Fail(IndexBelowLowerBound);
      } else if index >= length + startIndex {
        return Fail(IndexAboveUpperBound);
      }
      buf[index - startIndex] := x;
      o := Pass;
    }

    /** setStartIndex: only the start index changes, shifting the valid range. */
    method SetStartIndex(start: int)
      requires Valid()
      modifies this`startIndex
      ensures Valid() && startIndex == start
      ensures forall i :: Get(i).Success? <==> start <= i < start + length
      ensures length == old(length) && Elements() == old(Elements())
      ensures forall i :: start <= i < start + length ==> Get(i) == Success(Elements()[i - start])
    {
      startIndex := start;
    }

    /** setLength: a negative length throws and changes nothing; otherwise the
        buffer is reallocated to n elements keeping the first min(length, n). */
    method SetLength(n: int) returns (o: Outcome)
      requires Valid()
      modifies this`buf, this`length
      ensures Valid() && fresh(Repr() - old(Repr()))
      ensures n < 0 ==> o == Fail(NegativeLength) && buf == old(buf) && length == old(length)
      ensures 0 <= n ==> o == Pass && length == n && Elements() == Resized(old(Elements()), n, init)
    {
      if n > 0 {
        var newArray := new T[n](_ => init);
        var smallest := if length < n then length else n;
        var original := buf;
        for i := 0 to smallest
          invariant forall k :: 0 <= k < i ==> newArray[k] == original[k]
          invariant forall k :: i <= k < n ==> newArray[k] == init
        {
          newArray[i] := original[i];
        }
        buf := newArray;
        length := n;
        o := Pass;
      } else if n == 0 {
        buf := new T[0](_ => init);
        length := 0;
        o := Pass;
      } else {
        o := Fail(NegativeLength);
      }
    }

    /** operator=: this becomes an independent copy of rhs, with its length,
        start index and elements. */
    method Assign(rhs: Array<T>)
      requires Valid() && rhs.Valid()
      modifies this`buf, this`length, this`startIndex
      ensures Valid() && fresh(Repr() - old(Repr()))
      ensures length == old(rhs.length) && startIndex == old(rhs.startIndex)
      ensures Elements() == old(rhs.Elements())
      ensures rhs != this ==> fresh(buf)
    {
      if rhs != this {
        var source := rhs.buf;
        var copy := new T[rhs.length](_ => init);
        for i := 0 to rhs.length
          invariant forall k :: 0 <= k < i ==> copy[k] == source[k]
        {
          copy[i] := source[i];
        }
        length := rhs.length;
        startIndex := rhs.startIndex;
        buf := copy;
      }
    }
  }
}
