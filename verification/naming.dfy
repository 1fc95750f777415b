/** The time-unit constants of src/naming.py (lines 17-20), in seconds. */
module Naming {
  const SECOND: int := 1
  const MINUTE: int := 60 * SECOND
  const HOUR: int := 60 * MINUTE
  const DAY: int := 24 * HOUR
}
