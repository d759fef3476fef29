/** How a step of the program ends: with a value, or with the process exit code
  * that the program's `err()` helper passes to `exit`. */
module Outcome {
  datatype Result<T> = Ok(value: T) | Abort(code: nat)
  {
    predicate IsOk() { this.Ok? }
  }

  /** Exit code of an out-of-bounds dynamic-array write. */
  const BOUNDS_ERROR: nat := 4
  /** Exit code of reading past the end of the prime file. */
  const END_OF_FILE_ERROR: nat := 7
  /** Exit code of a remainder that should be prime but is not in the table. */
  const MISSING_PRIME_ERROR: nat := 17
}
