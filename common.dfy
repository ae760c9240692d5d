/** Types shared by the cell model and the sheet model: addresses, values,
    and the failure-carrying wrappers that stand for the source's exceptions. */
module Common {

  datatype Option<+T> = None | Some(value: T)

  datatype Result<+R, +E> = Success(value: R) | Failure(error: E)

  /** The exceptions the core raises: InvalidPositionException,
      FormulaException (a formula that does not parse) and
      CircularDependencyException. */
  datatype SheetError = InvalidPosition | ParseError | CircularDependency

  /** Outcome of a mutating call: it either completes or raises. */
  datatype Outcome = Pass | Fail(error: SheetError)

  /** A cell address, row and column counted from zero. */
  datatype Position = Position(row: int, col: int)

  /** Bounds of the address space. Position::IsValid lives in a header that
      is not part of this model. Only the concrete example lemmas use
      them, and only through positions in the first row and two columns. */
  const MaxRows: int := 16384
  const MaxCols: int := 16384

  predicate IsValid(p: Position) {
    0 <= p.row < MaxRows && 0 <= p.col < MaxCols
  }

  /** Cell::Value: a string, a number, or an evaluation error token.
      Floating point is not modelled: numbers are reals. */
  datatype Value = StringValue(s: string) | NumberValue(n: real) | ErrorValue(token: string)

  /** Printable size of the sheet: the bounding box of the stored cells. */
  datatype Size = Size(rows: int, cols: int)
}
