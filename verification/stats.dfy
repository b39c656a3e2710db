/** Run statistics (crates/cache_builder/src/stats.rs). The counters are
    unbounded; `total_processing_time` is a u64 and is kept modulo 2^64, as
    the `as u64` cast and the wrapping `fetch_add` make it. Floating-point
    rates and elapsed time are not modelled; the summaries are reduced to the
    integer quantities and guards they compute. */
module RunStats {

  const U64: nat := 0x1_0000_0000_0000_0000

  /** `Stats`; `startTime` is the opaque instant taken by `new`. */
  datatype Stats = Stats(
    startTime: int,
    totalContracts: nat,
    processed: nat,
    cached: nat,
    successes: nat,
    errors: nat,
    timeouts: nat,
    totalProcessingMicros: nat)

  /** Every item is counted in exactly one of cached, successes or errors;
      timeouts are a part of errors; the time total fits its u64. */
  ghost predicate Consistent(s: Stats) {
    && s.cached + s.successes + s.errors == s.processed
    && s.timeouts <= s.errors
    && s.totalProcessingMicros < U64
  }

  /** `Stats::new`. */
  function New(now: int): (s: Stats)
    ensures s.startTime == now && s.totalContracts == 0 && s.processed == 0
    ensures Consistent(s)
  {
    Stats(now, 0, 0, 0, 0, 0, 0, 0)
  }

  /** `Stats::record_result`: `cached` wins over `success`, and `isTimeout` is
      counted only for an uncached failure. */
  function RecordResult(s: Stats, cached: bool, success: bool, isTimeout: bool, durationMicros: nat): (r: Stats)
    ensures r.processed == s.processed + 1
    ensures r.startTime == s.startTime && r.totalContracts == s.totalContracts
    ensures cached ==> r.cached == s.cached + 1 && r.successes == s.successes && r.errors == s.errors
    ensures !cached && success ==> r.successes == s.successes + 1 && r.cached == s.cached && r.errors == s.errors
    ensures !cached && !success ==> r.errors == s.errors + 1 && r.cached == s.cached && r.successes == s.successes
    ensures r.timeouts == s.timeouts + (if !cached && !success && isTimeout then 1 else 0)
    ensures s.totalProcessingMicros + durationMicros < U64 ==>
      r.totalProcessingMicros == s.totalProcessingMicros + durationMicros
    ensures r.totalProcessingMicros == (s.totalProcessingMicros + durationMicros) % U64
    ensures Consistent(s) ==> Consistent(r)
  {
    var micros := (s.totalProcessingMicros + durationMicros % U64) % U64;
    if cached then
      s.(processed := s.processed + 1, cached := s.cached + 1, totalProcessingMicros := micros)
    else if success then
      s.(processed := s.processed + 1, successes := s.successes + 1, totalProcessingMicros := micros)
    else
      s.(processed := s.processed + 1, errors := s.errors + 1,
         timeouts := if isTimeout then s.timeouts + 1 else s.timeouts,
         totalProcessingMicros := micros)
  }

  /** The arguments of one `record_result` call. */
  datatype Record = Record(cached: bool, success: bool, isTimeout: bool, durationMicros: nat)

  /** The statistics after the given calls, in order. */
  function Replay(s: Stats, records: seq<Record>): Stats
    decreases |records|
  {
    if |records| == 0 then s
    else
      var rec := records[0];
      Replay(RecordResult(s, rec.cached, rec.success, rec.isTimeout, rec.durationMicros), records[1..])
  }

  /** From `new()` onward, every call counts once and the counters stay consistent. */
  lemma {:induction false} ReplayKeepsConsistent(s: Stats, records: seq<Record>)
    requires Consistent(s)
    ensures Consistent(Replay(s, records))
    decreases |records|
  {
    if |records| > 0 {
      var rec := records[0];
      ReplayKeepsConsistent(RecordResult(s, rec.cached, rec.success, rec.isTimeout, rec.durationMicros), records[1..]);
    }
  }

  /** Each call raises `processed` by one, whatever the counters held. */
  lemma {:induction false} ReplayCountsEachRecord(s: Stats, records: seq<Record>)
    ensures Replay(s, records).processed == s.processed + |records|
    ensures Replay(s, records).startTime == s.startTime
    ensures Replay(s, records).totalContracts == s.totalContracts
    decreases |records|
  {
    if |records| > 0 {
      var rec := records[0];
      ReplayCountsEachRecord(RecordResult(s, rec.cached, rec.success, rec.isTimeout, rec.durationMicros), records[1..]);
    }
  }

  /** `avg_time.as_millis()` of `get_summary`: the integer average in
      microseconds, taken only when something was processed, then truncated
      to milliseconds. */
  function AverageMillis(s: Stats): (ms: nat)
    ensures s.processed == 0 ==> ms == 0
    ensures s.processed > 0 ==>
      ms * 1000 * s.processed <= s.totalProcessingMicros < (ms + 1) * 1000 * s.processed
  {
    if s.processed > 0 then
      var avgMicros := s.totalProcessingMicros / s.processed;
      var ms := avgMicros / 1000;
      AverageBounds(s.totalProcessingMicros, s.processed, ms);
      ms
    else 0
  }

  /** Truncating twice, by p then by 1000, truncates by 1000 * p. */
  lemma AverageBounds(t: nat, p: nat, ms: nat)
    requires p > 0 && ms == (t / p) / 1000
    ensures ms * 1000 * p <= t < (ms + 1) * 1000 * p
  {
    var a := t / p;
    assert a * p <= t < (a + 1) * p;
    assert ms * 1000 <= a < (ms + 1) * 1000;
    assert ms * 1000 * p <= a * p by {
      MulMono(ms * 1000, a, p);
    }
    assert (a + 1) * p <= (ms + 1) * 1000 * p by {
      MulMono(a + 1, (ms + 1) * 1000, p);
    }
  }

  lemma MulMono(x: nat, y: nat, p: nat)
    requires x <= y
    ensures x * p <= y * p
  {
  }

  /** A success rate: 100% or `successes / denominator`. */
  datatype SuccessRate = Full | Ratio(successes: nat, denominator: nat)

  /** The success rate of both summaries: cache hits are left out of the
      denominator, which is used only when positive. */
  function SuccessRateOf(s: Stats): (r: SuccessRate)
    ensures r.Ratio? <==> s.processed > s.cached
    ensures r.Ratio? ==> r.denominator > 0 && r.denominator == s.processed - s.cached
    ensures r.Ratio? ==> r.successes == s.successes
    ensures r.Ratio? && Consistent(s) ==> r.successes <= r.denominator
  {
    if s.processed > s.cached then
      var actual := s.processed - s.cached;
      if actual > 0 then Ratio(s.successes, actual) else Full
    else Full
  }

  /** The "Other" line of `get_final_summary`: errors that were not timeouts. */
  function OtherErrors(s: Stats): (n: nat)
    requires s.timeouts <= s.errors
    ensures n + s.timeouts == s.errors
  {
    s.errors - s.timeouts
  }

  /** The integer content of `get_final_summary`. */
  datatype FinalSummary = FinalSummary(
    total: nat, processed: nat, cached: nat, successes: nat,
    errors: nat, timeouts: nat, other: nat, successRate: SuccessRate)

  /** `get_final_summary` for statistics reached from `new()`: the
      subtraction never underflows, and the categories add up. */
  function FinalSummaryOf(s: Stats): (f: FinalSummary)
    requires Consistent(s)
    ensures f.cached + f.successes + f.timeouts + f.other == f.processed
    ensures f.total == s.totalContracts && f.processed == s.processed && f.cached == s.cached
    ensures f.successes == s.successes && f.errors == s.errors && f.timeouts == s.timeouts
    ensures f.other + s.timeouts == s.errors
    ensures f.successRate == SuccessRateOf(s)
  {
    FinalSummary(s.totalContracts, s.processed, s.cached, s.successes,
                 s.errors, s.timeouts, OtherErrors(s), SuccessRateOf(s))
  }
}
