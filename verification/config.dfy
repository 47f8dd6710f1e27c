/** Tuning constants of the receiver and the small Option type the pipeline
    uses for "no decode" results. */
module Config {

  /** Fewest accumulated pulses a burst needs before it is considered. */
  const MIN_PULSES: nat := 10
  /** Ceiling (exclusive) on the population standard deviation of a burst, in microseconds. */
  const MAX_STD_DEV: nat := 1200
  /** Admissible decoded bit lengths, both bounds inclusive. */
  const MIN_BITS_LEN: nat := 31
  const MAX_BITS_LEN: nat := 33
  /** Window, in milliseconds, inside which an identical decode is suppressed. */
  const REPEAT_SUPPRESSION_MS: nat := 100
  /** Durations are kept only when strictly between these two bounds, in microseconds. */
  const MIN_PULSE_US: int := 100
  const MAX_PULSE_US: int := 5000
  /** The outlier filter keeps values within this many standard deviations of the mean. */
  const STD_MULTIPLIER: nat := 2

  datatype Option<+T> = None | Some(value: T)
}
