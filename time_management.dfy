/**
 * The cycle timer: it measures how long the current 60 Hz cycle has taken,
 * tells the main loop how long to wait for the rest of the period, and
 * keeps a running sum, minimum, maximum and count of cycle durations that
 * it reports and resets once the count passes the benchmark window.
 *
 * The microsecond clock `micros()` is the parameter `now`; the serial
 * benchmark report is returned as a value instead of printed.
 */
module Timing {
  import opened IntTypes
  import opened Wrappers

  const UINT32_MAX: uint32 := 0xFFFF_FFFF
  /** 60 Hz, in microseconds. */
  const CYCLE_PERIOD_US: uint32 := 16666
  /** The report fires when the sample count exceeds this. */
  const BENCHMARK_WINDOW: nat := 500

  /**
   * `findCycleDuration`: microseconds since `start`. Without a wrap of the
   * clock this is the plain difference; after a wrap the firmware computes
   * `4294967295 - start + now`, which is one less than the true modular
   * difference.
   */
  function CycleDuration(start: uint32, now: uint32): (d: uint32)
    ensures d == (now - start) % WORD_MODULUS - (if now < start then 1 else 0)
  {
    if now < start then UINT32_MAX - start + now else now - start
  }

  /** The benchmark accumulator: `m_accumulatedDuration`, `m_maxDuration`, `m_minDuration`, `m_benchmarkCount`. */
  datatype Benchmark = Benchmark(accumulated: uint32, maxDuration: uint32, minDuration: uint32, count: uint32)

  /** The figures printed by the benchmark report. */
  datatype Report = Report(average: uint32, minDuration: uint32, maxDuration: uint32)

  /** The accumulator as `resetBenchmarking` leaves it. */
  const ResetBenchmark: Benchmark := Benchmark(0, 0, UINT32_MAX, 0)

  /** The accumulator between two samples: at most a window of samples, and a reset state when empty. */
  ghost predicate InWindow(b: Benchmark) {
    && b.count <= BENCHMARK_WINDOW
    && (b.count == 0 ==> b == ResetBenchmark)
    && (b.count > 0 ==> b.minDuration <= b.maxDuration)
  }

  /** The accumulator after one sample is added, before the window is checked (unsigned arithmetic wraps). */
  function Tally(b: Benchmark, d: uint32): Benchmark {
    Benchmark(
      (b.accumulated + d) % WORD_MODULUS,
      if d > b.maxDuration then d else b.maxDuration,
      if d < b.minDuration then d else b.minDuration,
      (b.count + 1) % WORD_MODULUS)
  }

  /** `benchmarkHandleDuration(d)`: the accumulator after the sample, reset once the count exceeds the window. */
  function Record(b: Benchmark, d: uint32): (r: Benchmark)
    ensures InWindow(b) ==> InWindow(r)
    ensures InWindow(b) && r.count > 0 ==> r.minDuration <= d <= r.maxDuration
    ensures InWindow(b) ==> (r.count == 0 <==> b.count == BENCHMARK_WINDOW)
    ensures InWindow(b) && b.count < BENCHMARK_WINDOW ==>
      && r.count == b.count + 1
      && r.accumulated == (b.accumulated + d) % WORD_MODULUS
      && r.maxDuration >= b.maxDuration
      && r.minDuration <= b.minDuration
  {
    var t := Tally(b, d);
    assert b.count <= BENCHMARK_WINDOW ==> t.count == b.count + 1;
    if t.count > BENCHMARK_WINDOW then ResetBenchmark else t
  }

  /** The report `benchmarkHandleDuration(d)` prints, if any: average, minimum and maximum of the window. */
  function ReportOf(b: Benchmark, d: uint32): (r: Option<Report>)
    ensures InWindow(b) ==> (r.Some? <==> b.count == BENCHMARK_WINDOW)
  {
    var t := Tally(b, d);
    assert b.count <= BENCHMARK_WINDOW ==> t.count == b.count + 1;
    if t.count > BENCHMARK_WINDOW then Some(Report(Average(t.accumulated, t.count), t.minDuration, t.maxDuration)) else None
  }

  /** `sum / count` in unsigned arithmetic; the quotient never exceeds the sum, so it is a word. */
  function Average(sum: uint32, count: uint32): uint32
    requires count > 0
  {
    QuotientBound(sum, count);
    sum / count
  }

  lemma QuotientBound(a: nat, c: nat)
    requires c >= 1
    ensures a / c <= a
  {
    var q, m := a / c, a % c;
    assert a == q * c + m && 0 <= m && 0 <= q;
    assert q * c == q * (c - 1) + q;
    assert q * (c - 1) >= 0;
  }

  /** The accumulator after recording every sample of `ds`, oldest first. */
  function RecordAll(b: Benchmark, ds: seq<uint32>): Benchmark {
    if ds == [] then b else Record(RecordAll(b, ds[..|ds| - 1]), ds[|ds| - 1])
  }

  function Sum(ds: seq<uint32>): nat {
    if ds == [] then 0 else Sum(ds[..|ds| - 1]) + ds[|ds| - 1]
  }

  /** `m` is the smallest and `n` the largest element of `ds`. */
  ghost predicate Extremes(ds: seq<uint32>, m: uint32, n: uint32) {
    && (forall k :: 0 <= k < |ds| ==> m <= ds[k] <= n)
    && m in ds && n in ds
  }

  /** Adding to a sum kept modulo 2^32 is adding to the true sum. */
  lemma ModuloSum(a: nat, d: nat)
    ensures (a % WORD_MODULUS + d) % WORD_MODULUS == (a + d) % WORD_MODULUS
  {
    var q := a / WORD_MODULUS;
    assert a == q * WORD_MODULUS + a % WORD_MODULUS;
    assert (a + d) == (a % WORD_MODULUS + d) + q * WORD_MODULUS;
  }

  /**
   * Up to a full window of samples after a reset, the accumulator holds the
   * number of samples and their sum modulo 2^32.
   */
  lemma {:induction false} WindowSummary(ds: seq<uint32>)
    requires |ds| <= BENCHMARK_WINDOW
    ensures InWindow(RecordAll(ResetBenchmark, ds))
    ensures RecordAll(ResetBenchmark, ds).count == |ds|
    ensures RecordAll(ResetBenchmark, ds).accumulated == Sum(ds) % WORD_MODULUS
  {
    if ds != [] {
      var init := ds[..|ds| - 1];
      WindowSummary(init);
      ModuloSum(Sum(init), ds[|ds| - 1]);
    }
  }

  /** Up to a full window of samples after a reset, the accumulator holds their smallest and largest. */
  lemma {:induction false} WindowExtremes(ds: seq<uint32>)
    requires 0 < |ds| <= BENCHMARK_WINDOW
    ensures Extremes(ds, RecordAll(ResetBenchmark, ds).minDuration, RecordAll(ResetBenchmark, ds).maxDuration)
  {
    var init := ds[..|ds| - 1];
    var d := ds[|ds| - 1];
    WindowSummary(init);
    var b0 := RecordAll(ResetBenchmark, init);
    assert RecordAll(ResetBenchmark, ds) == Tally(b0, d);
    if |init| > 0 {
      WindowExtremes(init);
      ExtremesStep(init, d, b0.minDuration, b0.maxDuration);
      assert ds == init + [d];
    } else {
      assert ds == [d];
    }
  }

  /** Extending a sequence by one element moves its extremes as `Tally` moves them. */
  lemma ExtremesStep(ds: seq<uint32>, d: uint32, m: uint32, n: uint32)
    requires Extremes(ds, m, n)
    ensures Extremes(ds + [d], if d < m then d else m, if d > n then d else n)
  {
    var ext := ds + [d];
    forall k | 0 <= k < |ext|
      ensures (if d < m then d else m) <= ext[k] <= (if d > n then d else n)
    {
      if k < |ds| {
        assert ext[k] == ds[k];
      }
    }
    var k :| 0 <= k < |ds| && ds[k] == m;
    assert ext[k] == m;
    var k' :| 0 <= k' < |ds| && ds[k'] == n;
    assert ext[k'] == n;
  }

  /** No sample of the first full window after a reset fires the report. */
  lemma NoReportWithinWindow(ds: seq<uint32>)
    requires |ds| <= BENCHMARK_WINDOW
    ensures forall k :: 0 <= k < |ds| ==> ReportOf(RecordAll(ResetBenchmark, ds[..k]), ds[k]) == None
  {
    forall k | 0 <= k < |ds|
      ensures ReportOf(RecordAll(ResetBenchmark, ds[..k]), ds[k]) == None
    {
      WindowSummary(ds[..k]);
    }
  }

  /**
   * The sample after a full window of 500 is the 501st: it fires the report
   * with the average, minimum and maximum of all 501 samples and leaves the
   * accumulator reset.
   */
  lemma WindowReport(ds: seq<uint32>, d: uint32)
    requires |ds| == BENCHMARK_WINDOW
    ensures var b := RecordAll(ResetBenchmark, ds);
      && Record(b, d) == ResetBenchmark
      && ReportOf(b, d).Some?
      && ReportOf(b, d).value.average == (Sum(ds + [d]) % WORD_MODULUS) / (BENCHMARK_WINDOW + 1)
      && Extremes(ds + [d], ReportOf(b, d).value.minDuration, ReportOf(b, d).value.maxDuration)
  {
    WindowSummary(ds);
    WindowExtremes(ds);
    var b := RecordAll(ResetBenchmark, ds);
    assert Sum(ds + [d]) == Sum(ds) + d by {
      assert (ds + [d])[..|ds|] == ds;
    }
    ModuloSum(Sum(ds), d);
    ExtremesStep(ds, d, b.minDuration, b.maxDuration);
    var t := Tally(b, d);
    assert t.count == BENCHMARK_WINDOW + 1;
    assert t.accumulated == Sum(ds + [d]) % WORD_MODULUS;
    assert ReportOf(b, d) == Some(Report(Average(t.accumulated, t.count), t.minDuration, t.maxDuration));
  }

  class TimeManagement {
    var startTime: uint32
    var cyclePeriod: uint32
    var accumulatedDuration: uint32
    var maxDuration: uint32
    var minDuration: uint32
    var benchmarkCount: uint32

    function Benchmarking(): Benchmark
      reads this
    {
      Benchmark(accumulatedDuration, maxDuration, minDuration, benchmarkCount)
    }

    ghost predicate Valid()
      reads this
    {
      cyclePeriod == CYCLE_PERIOD_US && InWindow(Benchmarking())
    }

    constructor ()
      ensures Valid()
      ensures startTime == 0 && cyclePeriod == CYCLE_PERIOD_US && Benchmarking() == ResetBenchmark
    {
      startTime := 0;
      cyclePeriod := CYCLE_PERIOD_US;
      accumulatedDuration := 0;
      maxDuration := 0;
      minDuration := 0;
      benchmarkCount := 0;
      new;
      ResetBenchmarking();
    }

    /** Marks the start of a cycle at clock reading `now`. */
    method SampleTime(now: uint32)
      modifies this`startTime
      ensures startTime == now
    {
      startTime := now;
    }

    /** The branching computation of `findCycleDuration`, proved equal to `CycleDuration`. */
    method FindCycleDuration(now: uint32) returns (duration: uint32)
      ensures duration == CycleDuration(startTime, now)
    {
      if now < startTime {
        // the clock wrapped since the cycle started
        duration := UINT32_MAX - startTime + now;
      } else {
        duration := now - startTime;
      }
    }

    /**
     * Feeds the cycle's duration to the benchmark and returns how long to
     * wait for the rest of the period: nothing once the period is used up.
     */
    method GetDelay(now: uint32) returns (delay: uint32, report: Option<Report>)
      requires Valid()
      modifies this`accumulatedDuration, this`maxDuration, this`minDuration, this`benchmarkCount
      ensures Valid()
      ensures var d := CycleDuration(startTime, now);
        && delay <= cyclePeriod
        && (d <= cyclePeriod ==> delay + d == cyclePeriod)
        && (d >= cyclePeriod ==> delay == 0)
        && Benchmarking() == Record(old(Benchmarking()), d)
        && report == ReportOf(old(Benchmarking()), d)
    {
      var duration := FindCycleDuration(now);
      report := BenchmarkHandleDuration(duration);
      if duration > cyclePeriod {
        delay := 0;
      } else {
        delay := cyclePeriod - duration;
      }
    }

    /** The wait the main loop blocks for at the end of a cycle. */
    method DoPeriodDelay(now: uint32) returns (delay: uint32, report: Option<Report>)
      requires Valid()
      modifies this`accumulatedDuration, this`maxDuration, this`minDuration, this`benchmarkCount
      ensures Valid()
      ensures var d := CycleDuration(startTime, now);
        && delay <= cyclePeriod
        && (d <= cyclePeriod ==> delay + d == cyclePeriod)
        && (d >= cyclePeriod ==> delay == 0)
        && Benchmarking() == Record(old(Benchmarking()), d)
        && report == ReportOf(old(Benchmarking()), d)
    {
      delay, report := GetDelay(now);
    }

    method ResetBenchmarking()
      modifies this`accumulatedDuration, this`maxDuration, this`minDuration, this`benchmarkCount
      ensures Benchmarking() == ResetBenchmark
    {
      accumulatedDuration := 0;
      maxDuration := 0;
      minDuration := UINT32_MAX;
      benchmarkCount := 0;
    }

    /** The field updates of `benchmarkHandleDuration`, proved to follow `Record` and `ReportOf`. */
    method BenchmarkHandleDuration(duration: uint32) returns (report: Option<Report>)
      requires Valid()
      modifies this`accumulatedDuration, this`maxDuration, this`minDuration, this`benchmarkCount
      ensures Valid()
      ensures Benchmarking() == Record(old(Benchmarking()), duration)
      ensures report == ReportOf(old(Benchmarking()), duration)
    {
      ghost var before := Benchmarking();
      accumulatedDuration := (accumulatedDuration + duration) % WORD_MODULUS;
      if duration > maxDuration {
        maxDuration := duration;
      }
      if duration < minDuration {
        minDuration := duration;
      }
      benchmarkCount := (benchmarkCount + 1) % WORD_MODULUS;
      assert Benchmarking() == Tally(before, duration);
      if benchmarkCount > BENCHMARK_WINDOW {
        report := Some(Report(Average(accumulatedDuration, benchmarkCount), minDuration, maxDuration));
        ResetBenchmarking();
      } else {
        report := None;
      }
    }
  }
}
