/** Engine ticks: milliseconds since start, as the widgets compare them. */
module Clock {

  /** `util_tick_passed(tick)`: the clock has reached `tick`. */
  predicate TickPassed(now: int, tick: int) {
    now >= tick
  }
}
