# RF pulse-train receiver — a verified model

This project models the capture-and-decode core of the radio receiver script
`recever32.py`. The script listens to a GPIO pin through pigpio. Each level
change (an *edge*) arrives with a microsecond tick, and the gap since the
previous edge is recorded as a pulse duration when it lies strictly between
100 and 5000 µs. When the line stays idle, a watchdog *timeout* fires, and the
burst collected so far is judged:

- A burst is decoded only when it holds at least 10 pulses and its
  population standard deviation is below 1200 µs.
- Decoding first drops every duration farther than two standard deviations
  from the mean.
- It then reads the remaining durations as (high, low) pairs against the
  average high and the average low duration:
  - a short high with a long low gives `0`;
  - a long high with a short low gives `1`;
  - any other pair contributes no bit.
- The result is kept only when it has 31 to 33 bits.
- A decoded pattern is reported with its decimal and hexadecimal value,
  unless it repeats the previous report within 100 ms.
- Every timeout discards the collected burst.

The script's global variables (`timings`, `last_tick`, `last_bits`,
`last_bits_time`, lines 12-15) become one immutable `Receiver.State`, whose
initial value `Receiver.Init` holds their initial values (`Dedup.Initial` for
the last two), and `rf_callback`
becomes the step function `Receiver.Step`. A run over a list of events is
`Receiver.Run`.

## Representation choices

- Floating-point statistics are replaced by exact arithmetic.
  - `Stats.Spread(xs) = n·Σx² − (Σx)²` is an integer equal to `n²` times the
    population variance.
  - The real-valued mean, the sum of squared deviations and the variance are
    kept as ghost reference definitions.
  - Dafny has no square root, so a standard deviation is any `sigma >= 0`
    whose square is the variance (`Stats.IsStdDev`).
  - Each integer test is proved equivalent to the source's real-valued
    comparison:
    - the qualifier `σ < 1200`: `Stats.StdDevBelowMeaning`;
    - the outlier band `mean ± 2σ`: `Outliers.WithinBandMeaning`;
    - the comparisons with `avg_high` and `avg_low`: `BitDecoder.ClassifyMeaning`.
- The averages `avg_high` and `avg_low` are held as sums and counts
  (`BitDecoder.Thresholds`). Comparisons are cross-multiplied.
- The foreign call `pigpio.tickDiff` is a function parameter `tickDiff`.
- The wall clock `time.time()` is the `now` field of a timeout event, in
  seconds.
- A report is a value (`Receiver.Emission`: time, bits, decoding), not two
  printed lines.

## Behaviour worth noting

- **Duration bounds.** Durations are kept only when strictly inside
  `(100, 5000)`. The bounds are exclusive, and they are written as literals
  in `rf_callback`.
- **Last tick.** The last tick is updated on every edge, including edges
  whose duration is discarded (lines 38-43), so the next gap is always
  measured from the most recent edge.
- **Qualifier boundary.** The standard-deviation gate rejects a burst whose
  deviation equals 1200 (`<`, not `<=`).
- **Bit loop.** The pair loop walks the *filtered* durations (line 70), not
  the unfiltered ones.
- **Hex text.** The hexadecimal text is Python's unpadded `hex()`
  (`"0x3"` for `"00011"`), not zero-padded to a nibble width. Leading zeros
  of the pattern are therefore not recoverable from the hex text. They are
  recoverable from the pattern length (`Codec.DecodeBits`). The unpadded
  text of a value is unique (`Codec.HexCanonical`), so a report's hex text
  is fixed by its value.

## Model

| member | source | states |
|---|---|---|
| Receiver.OnEdge | recever32.py:38-43 | The new last tick is the edge's tick. The durations gain at most one element, at the end. One is added exactly when there was a previous tick and the measured gap is admissible, and the element is that gap. Admissibility of all stored durations is preserved. The suppression state is untouched. |
| Receiver.OnTimeout | recever32.py:32-36 | The durations are always emptied and the last tick is kept. A report is made exactly when the burst qualifies, decodes, and is separated from the previous report. The report carries the decoded bits and the time, and becomes the new suppression state. Without a report the suppression state is unchanged. |
| Receiver.QualifiesMeaning | recever32.py:33 | The integer qualifier holds exactly when there are at least 10 durations and the real standard deviation is below 1200. |
| Receiver.ProcessTimings | recever32.py:85-96 | Reports exactly when the decoder yields a pattern that differs from the last report or comes more than 100 ms after it. A report is well formed and is recorded. Well formed means: an admissible binary pattern; the decimal value it spells, which renders back to it; and the unpadded `0x` hex text of that value, with no leading zero unless the value is zero. Otherwise nothing changes. |
| Receiver.DecodedReportWellFormed | recever32.py:91 | An admissible pattern decodes to a value below `2^len` that renders back to the pattern, with the value's unpadded hex text. |
| Receiver.Step | recever32.py:29-43 | An edge never reports; it sets the last tick to its own tick and leaves the suppression state alone. A timeout empties the durations and keeps the last tick. Only a timeout reports. A report is well formed, separated from the previous suppression state, and becomes the new one. Without a report the suppression state is unchanged. |
| Receiver.Run | recever32.py:29-43 | A run makes at most one report per event. |
| Receiver.RunKeepsDurationsAdmissible | recever32.py:38-41 | After any sequence of events, every stored duration is strictly between 100 and 5000. |
| Receiver.RunLastTick | recever32.py:35-43 | After any run, the last tick is the tick of the most recent edge. With no edge it is the initial one: timeouts never reset it. |
| Receiver.EdgesRecordDurations | recever32.py:38-43 | A run of edges appends exactly the admissible gaps between consecutive ticks. The first gap is measured from the previous last tick. Nothing is reported. |
| Receiver.RunEmissionsWellFormed | recever32.py:85-96 | Every report of any run is an admissible binary pattern together with its decoding: a value that renders back to the pattern and that value's unpadded hex text. |
| Receiver.RunRespectsWindow | recever32.py:88-96 | Over any run, the first report is separated from the initial suppression state and each report from the previous one. The final suppression state records the last report, or is unchanged when nothing was reported. |
| EndToEnd.BurstAdmissible | recever32.py:40-41 | A clean burst whose two levels are admissible durations is admissible throughout. |
| EndToEnd.BurstQualifies | recever32.py:33 | A clean burst of at least five pairs qualifies when its two levels are less than 2400 µs apart. |
| EndToEnd.CleanBurstReported | recever32.py:32-36 | End to end: at the timeout after a clean burst of an admissible pattern holding both symbols, the pattern is reported with its decoding exactly when it is separated from the last report. |
| Dedup.Admit | recever32.py:88-96 | Emits exactly when the pattern differs from the last one or more than the 100 ms window has passed. On emission the state becomes (pattern, now). On suppression it is unchanged. |
| Dedup.NewPatternReported | recever32.py:90-96 | A pattern different from the last report is always reported and recorded. |
| Dedup.RepeatSuppressed | recever32.py:90 | A repeat is suppressed exactly when it comes no later than 0.1 s after the last report. Suppression leaves the state unchanged. |
| Dedup.AdmitIdempotent | recever32.py:90-96 | Offering the same pattern twice at the same instant reports it at most once. The second offer changes nothing. |
| Codec.DecodeBits | recever32.py:21-27 | A decoding exists exactly for non-empty binary strings (otherwise the `ValueError` case). The value is below `2^len`. Rendering the value in `len` digits gives the string back. The hex text starts with `0x`, and its digits read back as the value. The first digit is `0` exactly when the value is zero, and then it is the only digit (Python's unpadded `hex()`). |
| Codec.HexCanonical | recever32.py:24 | Any digit string without a leading zero (other than `"0"` itself) is exactly the unpadded hex text of its value, so the hex text of a report is determined by its value. |
| Codec.HexRoundTrip | recever32.py:24 | The unpadded hex digits of a value read back as the value. Only zero has a leading `0` digit. |
| Bitstrings.BinValueBound | recever32.py:23 | The value of a `k`-digit binary string is below `2^k`. |
| Bitstrings.BinaryRoundTrip | recever32.py:23 | Reading a binary string and rendering it back in the same width restores it, leading zeros included. |
| Bitstrings.ValueRoundTrip | recever32.py:23 | Any value below `2^w` survives rendering in `w` digits and reading back. |
| Stats.SqDevNonNegative | recever32.py:47 | The sum of squared deviations is never negative. |
| Stats.SqDevExpand | recever32.py:47 | The sum of squared deviations from any point equals `Σx² − 2m·Σx + n·m²`. |
| Stats.SpreadIsScaledSqDev | recever32.py:46-47 | `n` times the sum of squared deviations from the mean is the integer spread. |
| Stats.SpreadIsScaledVariance | recever32.py:45-48 | The integer spread is exactly `n²` times the population variance. |
| Stats.SpreadNonNegative | recever32.py:47 | The spread of any sequence is non-negative. |
| Stats.StdDevBelowMeaning | recever32.py:45-48 | For the standard deviation `sigma` of a non-empty sequence, `sigma < bound` exactly when the integer test holds. |
| Outliers.WithinBandMeaning | recever32.py:53-55 | The integer band test holds exactly when the value lies in `[mean − 2σ, mean + 2σ]`. |
| Outliers.KeepWithin | recever32.py:55 | The result is an order-preserving subsequence of the input. Every kept value is in the band. Each in-band value keeps its full multiplicity and each out-of-band value is gone. |
| Outliers.FilterOutliers | recever32.py:50-55 | Inputs shorter than two are returned unchanged. Otherwise the result is the in-order subsequence of exactly the in-band values, with multiplicities. |
| Outliers.FilterOutliersBand | recever32.py:50-55 | In terms of the real mean and standard deviation, every survivor is within two standard deviations, and every element within two standard deviations survives. |
| Outliers.KeepWithinAll | recever32.py:55 | When every value is in the band, the filter returns its input. |
| BitDecoder.Evens | recever32.py:61 | Has `⌈n/2⌉` elements, the `j`-th being the input's `2j`-th. |
| BitDecoder.Odds | recever32.py:62 | Has `⌊n/2⌋` elements, the `j`-th being the input's `(2j+1)`-th. |
| BitDecoder.CompareWithMean | recever32.py:67-76 | Comparing a value with the average `s/n` is the same as comparing `x·n` with `s`, both ways. |
| BitDecoder.ClassifyMeaning | recever32.py:70-78 | A pair gives `0` exactly when high < avg_high and low > avg_low. It gives `1` exactly when high > avg_high and low < avg_low. It gives nothing exactly when neither holds. |
| BitDecoder.PairBits | recever32.py:70-78 | The first `k` pairs give a binary string of at most `k` bits. |
| BitDecoder.PairBitsMatch | recever32.py:70-78 | When each of the first `k` pairs classifies as the corresponding symbol of a target, the pairs spell out the target's first `k` symbols. |
| BitDecoder.PairBitsSilent | recever32.py:70-78 | Pairs that do not classify contribute no bits. |
| BitDecoder.PairBitsProvenance | recever32.py:70-78 | Each output bit comes from one of the pairs, and is that pair's classification. |
| BitDecoder.PairSourcesIncreasing | recever32.py:70-78 | The pairs the bits come from are strictly increasing: the bits keep the pairs' order. |
| BitDecoder.PairSourcesComplete | recever32.py:70-78 | No classifying pair is skipped. |
| BitDecoder.TimingsToBits | recever32.py:57-82 | No result when the filtered burst has fewer than 4 durations. A result is binary, 31 to 33 bits long, and at most half the filtered length. |
| BitDecoder.TimingsToBitsMeaning | recever32.py:57-82 | For any input, after filtering: a pattern is produced exactly when at least 4 durations survive and between 31 and 33 pairs classify. The pattern then has one bit per classifying pair, in order, and each bit is that pair's classification. |
| BitDecoder.DecodeUnfiltered | recever32.py:57-82 | When the filter drops nothing and the pairs classify as an admissible-length target, the decoder returns exactly that target. |
| BitDecoder.DecodeSilent | recever32.py:57-82 | When the filter drops nothing and no pair classifies, the decoder returns nothing. |
| SyntheticBurst.NothingFiltered | recever32.py:50-55 | In a clean two-level burst every duration is exactly one standard deviation from the mean, so the filter keeps everything. |
| SyntheticBurst.EncodeThresholds | recever32.py:61-68 | The high and low averages of a clean burst, as sums and counts of the two levels. |
| SyntheticBurst.ClassifyEncoded | recever32.py:70-78 | Each pair of a clean burst with both symbols classifies as the bit it encodes. |
| SyntheticBurst.EncodeDecodeRoundTrip | recever32.py:57-82 | Round trip: a clean burst (short < long) of an admissible-length pattern holding both symbols decodes to exactly that pattern. |
| SyntheticBurst.UniformBurstNotDecoded | recever32.py:57-82 | A clean burst of a single repeated symbol never decodes: both averages equal the levels, so no pair classifies. |

## Left out

- `main.py` (the menu launcher) and everything in `recever32.py` outside the
  decode core is not modelled. That covers the pigpio connection and pin
  setup (lines 1-10), the callback and watchdog registration and the sleep
  loop (98-108), and the display loop (112-144). These are hardware and
  process setup with no logic to verify.
- Receiver.OnEdge: `pigpio.tickDiff` is an arbitrary function parameter.
  Its 32-bit wrap-around of the tick counter is not modelled, because it is
  a foreign call whose code is not part of this model. All properties hold
  for any `tickDiff`.
- Receiver.Step: the `level` argument of `rf_callback` matters only as
  "timeout or not". Rising and falling edges are one event kind, as in the
  source.
- Stats.StdDevBelowMeaning: exact arithmetic replaces IEEE doubles. The
  rounding of `sum/len`, `** 2` and `** 0.5` is not modelled, so at the exact
  boundary (σ = 1200, or a value exactly at mean ± 2σ) the source's float
  result may differ from the exact one.
- Dedup.Admit: the window test at line 90 multiplies a float difference of
  `time.time()` readings by 1000. The model compares exact reals, so exactly
  at the 100 ms boundary the float result may differ from the exact one.
- Outliers.FilterOutliers: only the default multiplier of two is modelled,
  the only value the source uses.
- Codec.DecodeBits: Python's `int(s, 2)` also accepts surrounding
  whitespace, underscores, a sign and a `0b` prefix. The model gives `None`
  for every string that is not a non-empty run of `0`/`1`. The only caller
  passes such runs.
- `time.strftime` and the two `print` calls are replaced by the `Emission`
  record. The time-of-day formatting is not modelled.
- Concurrency: pigpio delivers callbacks one at a time, so a run is a plain
  sequence of events.
- `get_stddev` on an empty list raises `ZeroDivisionError`. The source never
  calls it on one: the qualifier needs 10 values and the filter needs 2. The
  reference definitions therefore require a non-empty sequence.
