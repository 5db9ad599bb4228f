/**
 * The metrics analyzer: every report received is counted and kept in a
 * bounded history, and once the history holds ten reports the running
 * BER and packet-error-rate statistics are derived from it.
 */
module Analyzer {
  import opened Wrappers
  import opened BoundedDeque
  import opened Statistics

  /** The keys of a metrics report the statistics read; either may be absent. */
  datatype Report = Report(ber: Option<real>, byteErrors: Option<int>)

  /** A report with a positive byte-error count (an absent count reads as 0). */
  predicate HasByteErrors(m: Report)
  {
    m.byteErrors.Some? && m.byteErrors.value > 0
  }

  /** How many reports in h have byte errors. */
  function ErroredReports(h: seq<Report>): (n: nat)
    ensures n <= |h|
    ensures n == 0 <==> forall i :: 0 <= i < |h| ==> !HasByteErrors(h[i])
  {
    if |h| == 0 then 0
    else
      var init := h[..|h| - 1];
      assert forall i :: 0 <= i < |init| ==> init[i] == h[i];
      ErroredReports(init) + (if HasByteErrors(h[|h| - 1]) then 1 else 0)
  }

  function Bers(h: seq<Report>): (r: seq<Option<real>>)
    ensures |r| == |h| && forall i :: 0 <= i < |h| ==> r[i] == h[i].ber
  {
    seq(|h|, i requires 0 <= i < |h| => h[i].ber)
  }

  /** The share of reports in a non-empty history that have byte errors. */
  function PacketErrorRate(h: seq<Report>): (per: real)
    requires |h| > 0
    ensures 0.0 <= per <= 1.0
    ensures per * |h| as real == ErroredReports(h) as real
  {
    FractionBounds(ErroredReports(h), |h|);
    Quotient(ErroredReports(h) as real, |h| as real)
  }

  /** The running statistics: BER average, minimum and maximum, and the PER. */
  datatype RunningStats = RunningStats(
    avgBer: real, minBer: real, maxBer: real, per: real, errored: nat, window: nat)

  /**
   * The statistics over a history: present only when some report carries a
   * BER. The BER figures range over exactly those reports; the PER is the
   * share of all reports in the history that have byte errors.
   */
  function RunningStatistics(h: seq<Report>): (r: Option<RunningStats>)
    ensures r.Some? <==> exists i :: 0 <= i < |h| && h[i].ber.Some?
    ensures r.Some? ==> r.value.minBer <= r.value.avgBer <= r.value.maxBer
    ensures r.Some? ==>
      (exists i :: 0 <= i < |h| && h[i].ber == Some(r.value.minBer))
      && (exists i :: 0 <= i < |h| && h[i].ber == Some(r.value.maxBer))
    ensures r.Some? ==> IsMean(r.value.avgBer, Present(Bers(h)))
    ensures r.Some? ==>
      forall i :: 0 <= i < |h| && h[i].ber.Some? ==>
        r.value.minBer <= h[i].ber.value <= r.value.maxBer
    ensures r.Some? ==>
      r.value.window == |h| && r.value.errored == ErroredReports(h)
      && r.value.per == PacketErrorRate(h)
  {
    var bers := Present(Bers(h));
    PresentNonEmpty(Bers(h));
    match Describe(bers)
    case None => None
    case Some(agg) =>
      assert forall i :: 0 <= i < |h| && h[i].ber.Some? ==> agg.min <= h[i].ber.value <= agg.max by {
        forall i | 0 <= i < |h| && h[i].ber.Some?
          ensures agg.min <= h[i].ber.value <= agg.max
        {
          assert Bers(h)[i] == Some(h[i].ber.value);
          assert h[i].ber.value in bers;
        }
      }
      assert exists i :: 0 <= i < |h| && h[i].ber == Some(agg.min) by {
        var i :| 0 <= i < |h| && Bers(h)[i] == Some(agg.min);
      }
      assert exists i :: 0 <= i < |h| && h[i].ber == Some(agg.max) by {
        var i :| 0 <= i < |h| && Bers(h)[i] == Some(agg.max);
      }
      Some(RunningStats(agg.mean, agg.min, agg.max, PacketErrorRate(h), ErroredReports(h), |h|))
  }

  /** Reports received before the statistics are first computed. */
  const MinHistory: nat := 10

  /** The statistics `process_metrics` reports: none until the history holds ten reports. */
  function WindowStatistics(h: seq<Report>): (r: Option<RunningStats>)
    ensures r.Some? <==> |h| >= MinHistory && exists i :: 0 <= i < |h| && h[i].ber.Some?
    ensures r.Some? ==> r == RunningStatistics(h)
  {
    if |h| >= MinHistory then RunningStatistics(h) else None
  }

  class MetricsAnalyzer {
    const windowSize: nat
    var history: seq<Report>
    var packetCount: nat
    /** Every report processed so far. */
    ghost var received: seq<Report>

    ghost predicate Valid()
      reads this
    {
      history == LastN(received, windowSize) && packetCount == |received|
    }

    constructor(windowSize: nat)
      ensures Valid() && received == [] && this.windowSize == windowSize
    {
      this.windowSize := windowSize;
      history := [];
      packetCount := 0;
      received := [];
    }

    /**
     * `process_metrics`: count the report and append it to the history, then
     * compute the running statistics once the history holds ten reports.
     */
    method ProcessMetrics(m: Report) returns (stats: Option<RunningStats>)
      requires Valid()
      modifies this
      ensures Valid() && received == old(received) + [m]
      ensures packetCount == old(packetCount) + 1
      ensures history == Push(old(history), m, windowSize)
      ensures |history| == if packetCount <= windowSize then packetCount else windowSize
      ensures stats.Some? <==>
        |history| >= MinHistory && exists i :: 0 <= i < |history| && history[i].ber.Some?
      ensures stats.Some? ==> stats == RunningStatistics(history)
    {
      var h := Push(history, m, windowSize);
      PushLastN(received, m, windowSize);
      packetCount := packetCount + 1;
      history := h;
      received := received + [m];
      stats := WindowStatistics(h);
    }
  }
}
