/** Units of the integer clock: one tick is a microsecond. */
module Clock {
  const SECOND: int := 1_000_000
  const DAY: int := 86_400 * SECOND
}
