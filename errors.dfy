/** The failures the core raises as exceptions, one constructor per message,
    and the two shapes an operation that may raise one returns. */
module Errors {

  datatype Error =
    | IndexBelowLowerBound      // Array::operator[]: index smaller than the start index
    | IndexAboveUpperBound      // Array::operator[]: index at or past start index + length
    | NegativeLength            // Array length constructor, Array::setLength
    | NegativeRowSize           // Array2D::setRow
    | NegativeColumnSize        // Array2D::setColumn
    | RowIndexOutOfBounds       // Array2D::operator[]
    | ColumnIndexOutOfBounds    // Row::operator[]
    | NotPartOfBoard            // Board moves on a cell outside the grid
    | AlreadyUncoveredOrFlagged // Board::UncoverCell on a cell that is not covered
    | CannotFlag                // Board::FlagCell on a cell that is not covered
    | NotFlagged                // Board::RemoveFlaggedCell on a cell that is not flagged

  /** What a mutator that may throw reports. */
  datatype Outcome = Pass | Fail(error: Error)

  /** What an accessor that may throw returns. */
  datatype Result<+T> = Success(value: T) | Failure(error: Error)
}
