/** The configuration constants of config.go. Durations and instants are
    counted in nanoseconds, as Go's time.Duration is. */
module Config {

  const MILLISECOND: int := 1_000_000
  const SECOND: int := 1_000 * MILLISECOND
  const MINUTE: int := 60 * SECOND

  /** Ticker periods for short, medium and long countdowns. */
  const TICK_FAST: int := 100 * MILLISECOND
  const TICK_MEDIUM: int := 500 * MILLISECOND
  const TICK_SLOW: int := 1 * SECOND

  /** Remaining time below which a countdown is shown in red. */
  const WARNING_THRESHOLD: int := 5 * MINUTE

  /** Big-text glyph dimensions. */
  const GLYPH_WIDTH: nat := 8
  const GLYPH_HEIGHT: nat := 7
  const GLYPH_SPACING: nat := 1

  /** Capacity of the queue between the keyboard reader and the timer loop. */
  const KEY_BUFFER_SIZE: nat := 10

  /** Terminal size used when the size query fails. */
  const DEFAULT_TERM_WIDTH: int := 80
  const DEFAULT_TERM_HEIGHT: int := 24
}
