/** Success-or-failure values that replace the process exits of the C program. */
module Outcomes {
  /** Pass, or Fail carrying the reason the program would have exited. */
  datatype Outcome<+E> = Pass | Fail(error: E)
}
