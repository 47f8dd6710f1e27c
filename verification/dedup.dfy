/** Repeat suppression: a decoded pattern is reported unless it equals the
    previous report and arrives within the suppression window. Times are in
    seconds, as returned by the wall clock; the window is in milliseconds. */
module Dedup {
  import opened Config

  /** The last reported pattern and the time it was reported. */
  datatype DedupState = DedupState(lastBits: string, lastTime: real)

  /** Nothing reported yet: the empty pattern at time zero. */
  const Initial := DedupState("", 0.0)

  /** The suppression window in seconds. */
  const WINDOW_SECONDS: real := REPEAT_SUPPRESSION_MS as real / 1000.0

  /** Decides whether `bits`, decoded at time `now`, is reported, and gives
      the state after the decision. */
  function Admit(st: DedupState, bits: string, now: real): (r: (DedupState, bool))
    ensures r.1 <==> bits != st.lastBits || now - st.lastTime > WINDOW_SECONDS
    ensures r.1 ==> r.0 == DedupState(bits, now)
    ensures !r.1 ==> r.0 == st
  {
    if bits != st.lastBits || (now - st.lastTime) * 1000.0 > REPEAT_SUPPRESSION_MS as real
    then (DedupState(bits, now), true)
    else (st, false)
  }

  /** A pattern different from the last report is always reported. */
  lemma NewPatternReported(st: DedupState, bits: string, now: real)
    requires bits != st.lastBits
    ensures Admit(st, bits, now) == (DedupState(bits, now), true)
  {
  }

  /** A repeat is suppressed exactly when it arrives no later than the
      window after the last report, and suppression changes nothing. */
  lemma RepeatSuppressed(st: DedupState, now: real)
    ensures !Admit(st, st.lastBits, now).1 <==> now <= st.lastTime + WINDOW_SECONDS
    ensures !Admit(st, st.lastBits, now).1 ==> Admit(st, st.lastBits, now).0 == st
  {
  }

  /** Reporting the same pattern twice at the same instant reports it once:
      the second decision is a suppression and leaves the state as the
      first one left it. */
  lemma AdmitIdempotent(st: DedupState, bits: string, now: real)
    ensures Admit(Admit(st, bits, now).0, bits, now) == (Admit(st, bits, now).0, false)
  {
  }
}
