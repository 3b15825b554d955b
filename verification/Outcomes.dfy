/** How a call ends. */
module Outcomes {

  const EX_SOFTWARE: int := 70
  const EX_IOERR: int := 74

  /** A call returns a value, or the program has exited. */
  datatype Outcome<+T> = Return(value: T) | Exit(code: int)
}
