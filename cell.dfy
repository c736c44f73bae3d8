/** One board tile: a visibility state and a value (cell.h, cell.cpp). */
module Cells {

  /** The three mutually exclusive visibility states of a cell. */
  datatype State = Covered | Uncovered | Flagged

  /** The value enumeration, by ordinal: 0..8 adjacent mines, then the mine. */
  newtype Value = v: int | 0 <= v <= 9

  const NoAdjMines: Value := 0
  const OneAdjMine: Value := 1
  const TwoAdjMines: Value := 2
  const ThreeAdjMines: Value := 3
  const FourAdjMines: Value := 4
  const FiveAdjMines: Value := 5
  const SixAdjMines: Value := 6
  const SevenAdjMines: Value := 7
  const EightAdjMines: Value := 8
  const Mine: Value := 9

  /** The value whose ordinal is n, for an adjacency count n; it is never the mine.
      That a cell's count never exceeds 8 is Labels.AdjacentMines' bound. */
  function AdjacentCount(n: nat): (v: Value)
    requires n <= 8
    ensures v as int == n && v != Mine
  {
    n as Value
  }

  /** static_cast<Value>(static_cast<int>(v) + 1): the next ordinal after a count.
      AssignCellValues never lifts a count to the mine: Labels.BumpStep keeps
      every count at the mines passed, at most 8. */
  function Increment(v: Value): (w: Value)
    requires v != Mine
    ensures w as int == v as int + 1 && w > v
  {
    (v as int + 1) as Value
  }

  /** A cell holds exactly one state and one value. */
  datatype Cell = Cell(state: State, value: Value) {

    function GetState(): State { state }

    function GetValue(): Value { value }

    /** Cell::SetState: the state becomes s and the value is kept. */
    function SetState(s: State): (c: Cell)
      ensures c.GetState() == s && c.GetValue() == GetValue()
    {
      this.(state := s)
    }

    /** Cell::SetValue: the value becomes v and the state is kept. */
    function SetValue(v: Value): (c: Cell)
      ensures c.GetValue() == v && c.GetState() == GetState()
    {
      this.(value := v)
    }
  }

  /** The default constructor: a covered cell with no adjacent mines. */
  function NewCell(): (c: Cell)
    ensures c.GetState() == Covered && c.GetValue() == NoAdjMines
  {
    Cell(Covered, NoAdjMines)
  }

  /** The copy constructor and operator=: both members are copied. */
  function CopyOf(rhs: Cell): (c: Cell)
    ensures c.GetState() == rhs.GetState() && c.GetValue() == rhs.GetValue()
  {
    Cell(rhs.GetState(), rhs.GetValue())
  }

  /** Setting a state and then another keeps only the last; setting the
      state and the value commute, because they touch different members. */
  lemma SettersIndependent(c: Cell, s: State, t: State, v: Value)
    ensures c.SetState(s).SetState(t) == c.SetState(t)
    ensures c.SetState(s).SetValue(v) == c.SetValue(v).SetState(s)
    ensures CopyOf(c) == c
  {
  }
}
