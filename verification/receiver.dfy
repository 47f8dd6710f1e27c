/** The receiver's event handling (`rf_callback` and `process_timings`):
    edges accumulate pulse durations, a watchdog timeout turns the collected
    burst into a report when it qualifies and always starts a new burst.
    The global variables of the program become one immutable `State`, and
    each callback becomes a step function from state to state. */
module Receiver {
  import opened Config
  import opened Stats
  import opened Bitstrings
  import opened BitDecoder
  import opened Codec
  import opened Dedup

  /** A duration is kept only when strictly between the two bounds. */
  predicate Admissible(d: int)
  {
    MIN_PULSE_US < d < MAX_PULSE_US
  }

  predicate AllAdmissible(t: seq<int>)
  {
    forall i :: 0 <= i < |t| ==> Admissible(t[i])
  }

  /** The collected durations, the tick of the last edge (none before the
      first one) and the repeat-suppression state. */
  datatype State = State(timings: seq<int>, lastTick: Option<int>, dedup: DedupState)

  const Init := State([], None, Dedup.Initial)

  /** A level change at a tick, or the watchdog timeout at a wall-clock time
      in seconds. */
  datatype Event = Edge(tick: int) | Timeout(now: real)

  /** One report: when it was made, the pattern, and its decoding. */
  datatype Emission = Emission(time: real, bits: string, code: Option<Code>)

  /** An edge: the time since the previous edge is measured with `tickDiff`
      and kept when admissible; the edge's tick becomes the last tick
      whether or not the duration was kept. */
  function OnEdge(s: State, tick: int, tickDiff: (int, int) -> int): (r: State)
    ensures r.lastTick == Some(tick)
    ensures r.dedup == s.dedup
    ensures |s.timings| <= |r.timings| <= |s.timings| + 1 && r.timings[..|s.timings|] == s.timings
    ensures |r.timings| > |s.timings| <==> s.lastTick.Some? && Admissible(tickDiff(s.lastTick.value, tick))
    ensures |r.timings| > |s.timings| ==> r.timings[|s.timings|] == tickDiff(s.lastTick.value, tick)
    ensures AllAdmissible(s.timings) ==> AllAdmissible(r.timings)
  {
    var kept :=
      if s.lastTick.Some? && Admissible(tickDiff(s.lastTick.value, tick))
      then s.timings + [tickDiff(s.lastTick.value, tick)]
      else s.timings;
    State(kept, Some(tick), s.dedup)
  }

  /** A burst is decoded when it holds enough pulses and its standard
      deviation is below the ceiling (see `QualifiesMeaning`). */
  predicate Qualifies(t: seq<int>)
  {
    |t| >= MIN_PULSES && StdDevBelow(t, MAX_STD_DEV)
  }

  /** The qualifier in the source's terms, for the standard deviation
      `sigma` of the burst. */
  lemma {:induction false} QualifiesMeaning(t: seq<int>, sigma: real)
    requires IsStdDev(t, sigma)
    ensures Qualifies(t) <==> |t| >= MIN_PULSES && sigma < MAX_STD_DEV as real
  {
    StdDevBelowMeaning(t, MAX_STD_DEV, sigma);
  }

  /** Two consecutive reports respect the suppression window: either the
      pattern changed or more than the window has passed. */
  predicate Separated(prev: DedupState, e: Emission)
  {
    e.bits != prev.lastBits || e.time - prev.lastTime > WINDOW_SECONDS
  }

  function Reported(e: Emission): DedupState
  {
    DedupState(e.bits, e.time)
  }

  /** A report carries an admissible binary pattern and its decoding: the
      value the pattern spells and the unpadded hexadecimal text of it. */
  predicate WellFormed(e: Emission)
  {
    IsBinary(e.bits) && MIN_BITS_LEN <= |e.bits| <= MAX_BITS_LEN &&
    e.code == DecodeBits(e.bits) &&
    e.code.Some? && e.code.value.decimal < Pow2(|e.bits|) &&
    ToBinary(e.code.value.decimal, |e.bits|) == e.bits
  }

  /** A decoded pattern of admissible length makes a well-formed report. */
  lemma DecodedReportWellFormed(bits: string, now: real)
    requires IsBinary(bits) && MIN_BITS_LEN <= |bits| <= MAX_BITS_LEN
    ensures WellFormed(Emission(now, bits, DecodeBits(bits)))
  {
  }

  /** `process_timings`: decode the burst and report it unless it repeats
      the last report inside the window. */
  function ProcessTimings(t: seq<int>, dedup: DedupState, now: real): (r: (DedupState, Option<Emission>))
    ensures r.1.Some? <==>
      (TimingsToBits(t).Some? && Separated(dedup, Emission(now, TimingsToBits(t).value, None)))
    ensures r.1.Some? ==> r.1.value.bits == TimingsToBits(t).value && r.1.value.time == now
    ensures r.1.Some? ==> WellFormed(r.1.value) && r.0 == Reported(r.1.value)
    ensures r.1.None? ==> r.0 == dedup
  {
    var bits := TimingsToBits(t);
    if bits.Some? && |bits.value| > 0 then
      var (next, report) := Admit(dedup, bits.value, now);
      if report then
        DecodedReportWellFormed(bits.value, now);
        (next, Some(Emission(now, bits.value, DecodeBits(bits.value))))
      else (dedup, None)
    else (dedup, None)
  }

  /** The watchdog timeout: a qualifying burst is processed, and the
      collected durations are discarded in every case. The last tick is
      kept. */
  function OnTimeout(s: State, now: real): (r: (State, Option<Emission>))
    ensures r.0.timings == [] && r.0.lastTick == s.lastTick
    ensures r.1.Some? <==>
      (Qualifies(s.timings) && TimingsToBits(s.timings).Some? &&
       Separated(s.dedup, Emission(now, TimingsToBits(s.timings).value, None)))
    ensures r.1.Some? ==> r.1.value.bits == TimingsToBits(s.timings).value && r.1.value.time == now
    ensures r.1.Some? ==> WellFormed(r.1.value) && r.0.dedup == Reported(r.1.value)
    ensures r.1.None? ==> r.0.dedup == s.dedup
  {
    if Qualifies(s.timings) then
      var (dedup, e) := ProcessTimings(s.timings, s.dedup, now);
      (State([], s.lastTick, dedup), e)
    else
      (State([], s.lastTick, s.dedup), None)
  }

  /** `rf_callback` dispatch: an edge records a duration and never
      reports; the watchdog may report once and resets the durations. */
  function Step(s: State, ev: Event, tickDiff: (int, int) -> int): (r: (State, Option<Emission>))
    ensures ev.Edge? ==> r.1.None? && r.0.lastTick == Some(ev.tick) && r.0.dedup == s.dedup
    ensures ev.Timeout? ==> r.0.timings == [] && r.0.lastTick == s.lastTick
    ensures r.1.None? ==> r.0.dedup == s.dedup
    ensures r.1.Some? ==> ev.Timeout? && WellFormed(r.1.value) && Separated(s.dedup, r.1.value) &&
                          r.0.dedup == Reported(r.1.value)
  {
    match ev
    case Edge(tick) => (OnEdge(s, tick, tickDiff), None)
    case Timeout(now) => OnTimeout(s, now)
  }

  /** `Step`'s contract restated over the destructured pair. The run lemmas
      use this form, which keeps their proofs small. */
  lemma StepReports(s: State, ev: Event, tickDiff: (int, int) -> int)
    ensures var (s1, e) := Step(s, ev, tickDiff);
      (e.None? ==> s1.dedup == s.dedup) &&
      (e.Some? ==> ev.Timeout? && WellFormed(e.value) && Separated(s.dedup, e.value) && s1.dedup == Reported(e.value))
  {
  }

  function Outputs(e: Option<Emission>): (r: seq<Emission>)
    ensures |r| <= 1
  {
    if e.Some? then [e.value] else []
  }

  /** The state after a sequence of events, and the reports made on the way. */
  function Run(s: State, evs: seq<Event>, tickDiff: (int, int) -> int): (r: (State, seq<Emission>))
    ensures |r.1| <= |evs|
    decreases |evs|
  {
    if evs == [] then (s, [])
    else
      var (s1, e) := Step(s, evs[0], tickDiff);
      var (s2, out) := Run(s1, evs[1..], tickDiff);
      (s2, Outputs(e) + out)
  }

  /** Every stored duration is admissible, whatever the events. */
  lemma {:induction false} RunKeepsDurationsAdmissible(s: State, evs: seq<Event>, tickDiff: (int, int) -> int)
    requires AllAdmissible(s.timings)
    ensures AllAdmissible(Run(s, evs, tickDiff).0.timings)
    decreases |evs|
  {
    if evs != [] {
      RunKeepsDurationsAdmissible(Step(s, evs[0], tickDiff).0, evs[1..], tickDiff);
    }
  }

  /** The tick of the most recent edge among `evs`, if any. */
  function LastEdgeTick(evs: seq<Event>): Option<int>
  {
    if evs == [] then None
    else
      var later := LastEdgeTick(evs[1..]);
      if later.Some? then later
      else if evs[0].Edge? then Some(evs[0].tick)
      else None
  }

  /** The last tick is the tick of the most recent edge; timeouts never
      reset it. */
  lemma {:induction false} RunLastTick(s: State, evs: seq<Event>, tickDiff: (int, int) -> int)
    ensures Run(s, evs, tickDiff).0.lastTick ==
      if LastEdgeTick(evs).Some? then LastEdgeTick(evs) else s.lastTick
    decreases |evs|
  {
    if evs != [] {
      RunLastTick(Step(s, evs[0], tickDiff).0, evs[1..], tickDiff);
    }
  }

  function Edges(ticks: seq<int>): (r: seq<Event>)
    ensures |r| == |ticks|
    ensures forall i :: 0 <= i < |r| ==> r[i] == Edge(ticks[i])
  {
    seq(|ticks|, i requires 0 <= i < |ticks| => Edge(ticks[i]))
  }

  /** The admissible differences between consecutive edge ticks, the first
      one measured from `prev`. */
  function Durations(prev: Option<int>, ticks: seq<int>, tickDiff: (int, int) -> int): seq<int>
    decreases |ticks|
  {
    if ticks == [] then []
    else
      var d := if prev.Some? && Admissible(tickDiff(prev.value, ticks[0])) then [tickDiff(prev.value, ticks[0])] else [];
      d + Durations(Some(ticks[0]), ticks[1..], tickDiff)
  }

  /** A run of edges appends exactly the admissible durations between them
      and reports nothing. */
  lemma {:induction false} EdgesRecordDurations(s: State, ticks: seq<int>, tickDiff: (int, int) -> int)
    ensures Run(s, Edges(ticks), tickDiff).0.timings == s.timings + Durations(s.lastTick, ticks, tickDiff)
    ensures Run(s, Edges(ticks), tickDiff).0.dedup == s.dedup
    ensures Run(s, Edges(ticks), tickDiff).1 == []
    decreases |ticks|
  {
    if ticks != [] {
      var s1 := OnEdge(s, ticks[0], tickDiff);
      assert Edges(ticks)[1..] == Edges(ticks[1..]);
      assert Step(s, Edges(ticks)[0], tickDiff) == (s1, None);
      var (s2, out) := Run(s1, Edges(ticks[1..]), tickDiff);
      assert Run(s, Edges(ticks), tickDiff) == (s2, [] + out);
      EdgesRecordDurations(s1, ticks[1..], tickDiff);
      var d := if s.lastTick.Some? && Admissible(tickDiff(s.lastTick.value, ticks[0])) then [tickDiff(s.lastTick.value, ticks[0])] else [];
      var later := Durations(Some(ticks[0]), ticks[1..], tickDiff);
      assert Durations(s.lastTick, ticks, tickDiff) == d + later;
      assert s1.timings == s.timings + d;
      assert s1.timings + later == s.timings + (d + later);
    }
  }

  /** Every report is an admissible pattern together with its decoding. */
  lemma {:induction false} RunEmissionsWellFormed(s: State, evs: seq<Event>, tickDiff: (int, int) -> int)
    ensures forall i :: 0 <= i < |Run(s, evs, tickDiff).1| ==> WellFormed(Run(s, evs, tickDiff).1[i])
    decreases |evs|
  {
    if evs != [] {
      var (s1, e) := Step(s, evs[0], tickDiff);
      StepReports(s, evs[0], tickDiff);
      RunEmissionsWellFormed(s1, evs[1..], tickDiff);
    }
  }

  /** Repeat suppression over a whole run: the first report is separated
      from the initial state, each report from the one before it, and the
      final suppression state records the last report. */
  ghost predicate RespectsWindow(s: State, evs: seq<Event>, tickDiff: (int, int) -> int)
  {
    var (st, out) := Run(s, evs, tickDiff);
    (|out| == 0 ==> st.dedup == s.dedup) &&
    (|out| > 0 ==> Separated(s.dedup, out[0]) && st.dedup == Reported(out[|out| - 1])) &&
    (forall i :: 0 < i < |out| ==> Separated(Reported(out[i - 1]), out[i]))
  }

  lemma {:induction false} RunRespectsWindow(s: State, evs: seq<Event>, tickDiff: (int, int) -> int)
    ensures RespectsWindow(s, evs, tickDiff)
    decreases |evs|
  {
    if evs != [] {
      var (s1, e) := Step(s, evs[0], tickDiff);
      StepReports(s, evs[0], tickDiff);
      RunRespectsWindow(s1, evs[1..], tickDiff);
      var (s2, rest) := Run(s1, evs[1..], tickDiff);
      assert Run(s, evs, tickDiff) == (s2, Outputs(e) + rest);
      if e.Some? {
        var out := [e.value] + rest;
        forall i | 0 < i < |out|
          ensures Separated(Reported(out[i - 1]), out[i])
        {
          if i > 1 {
            assert out[i - 1] == rest[i - 2] && out[i] == rest[i - 1];
          }
        }
      }
    }
  }
}
