/**
 * Packet metrics collection: a collector keeps the most recent packets in a
 * bounded window plus running totals, and a performance monitor reports
 * packet and bit rates once per update interval. Wall-clock readings are
 * parameters.
 */
module Metrics {
  import opened Wrappers
  import opened Exceptions
  import opened BoundedDeque
  import opened Statistics

  /** One packet's measurements; each optional field may be absent. */
  datatype PacketMetrics = PacketMetrics(
    seqNum: int, timestampNs: int, sizeBytes: int,
    snrDb: Option<real>, ber: Option<real>, bitErrors: Option<int>,
    latencyMs: Option<real>, fecCorrections: Option<int>)

  /** A packet counts as errored when it reports a positive bit-error count. */
  predicate HasBitErrors(m: PacketMetrics)
  {
    m.bitErrors.Some? && m.bitErrors.value > 0
  }

  /** How many of the packets in h count as errored. */
  function ErrorCount(h: seq<PacketMetrics>): (n: nat)
    ensures n <= |h|
    ensures n == 0 <==> forall i :: 0 <= i < |h| ==> !HasBitErrors(h[i])
  {
    if |h| == 0 then 0
    else
      var init := h[..|h| - 1];
      assert forall i :: 0 <= i < |init| ==> init[i] == h[i];
      ErrorCount(init) + (if HasBitErrors(h[|h| - 1]) then 1 else 0)
  }

  function Bers(ps: seq<PacketMetrics>): seq<Option<real>>
  {
    seq(|ps|, i requires 0 <= i < |ps| => ps[i].ber)
  }

  function Latencies(ps: seq<PacketMetrics>): seq<Option<real>>
  {
    seq(|ps|, i requires 0 <= i < |ps| => ps[i].latencyMs)
  }

  function Snrs(ps: seq<PacketMetrics>): seq<Option<real>>
  {
    seq(|ps|, i requires 0 <= i < |ps| => ps[i].snrDb)
  }

  /** What `get_summary` reports, without the run time. */
  datatype Summary = Summary(
    totalPackets: nat, windowPackets: nat, errorRate: real,
    ber: Option<Aggregate>, latencyMs: Option<Aggregate>,
    snrDb: Option<Aggregate>)

  class MetricsCollector {
    const windowSize: nat
    var packets: seq<PacketMetrics>
    var totalPackets: nat
    var totalErrors: nat
    /** Every packet added since construction or the last reset. */
    ghost var added: seq<PacketMetrics>

    /** The window is the tail of what was added; the totals count all of it. */
    ghost predicate Valid()
      reads this
    {
      packets == LastN(added, windowSize)
      && totalPackets == |added|
      && totalErrors == ErrorCount(added)
    }

    constructor(windowSize: nat)
      ensures Valid() && added == []
      ensures this.windowSize == windowSize
    {
      this.windowSize := windowSize;
      packets := [];
      totalPackets := 0;
      totalErrors := 0;
      added := [];
    }

    /** `add_packet`: append to the window and count the packet, and its errors. */
    method AddPacket(m: PacketMetrics)
      requires Valid()
      modifies this
      ensures Valid() && added == old(added) + [m]
      ensures packets == Push(old(packets), m, windowSize)
      ensures totalPackets == old(totalPackets) + 1
      ensures totalErrors == old(totalErrors) + (if HasBitErrors(m) then 1 else 0)
    {
      PushLastN(added, m, windowSize);
      packets := Push(packets, m, windowSize);
      totalPackets := totalPackets + 1;
      if HasBitErrors(m) {
        totalErrors := totalErrors + 1;
      }
      var h := added + [m];
      assert h[..|h| - 1] == added;
      added := h;
    }

    /**
     * `get_summary`: an empty window reports nothing but zeros; otherwise the
     * totals, the error rate over all packets ever added, and mean, minimum
     * and maximum of each reading present in the window.
     */
    function GetSummary(): (s: Summary)
      requires Valid()
      reads this
      ensures |packets| == 0 ==> s == Summary(0, 0, 0.0, None, None, None)
      ensures |packets| > 0 ==>
        s.totalPackets == |added|
        && s.windowPackets == |packets| <= windowSize
        && s.windowPackets == (if |added| <= windowSize then |added| else windowSize)
      ensures |packets| > 0 ==> IsQuotient(s.errorRate, totalErrors as real, totalPackets as real)
      ensures 0.0 <= s.errorRate <= 1.0
      ensures s.errorRate == 0.0 <==> |packets| == 0 || totalErrors == 0
      ensures s.ber.Some? <==> |packets| > 0 && exists i :: 0 <= i < |packets| && packets[i].ber.Some?
      ensures |packets| > 0 ==>
        s.ber == Describe(Present(Bers(packets)))
        && s.latencyMs == Describe(Present(Latencies(packets)))
        && s.snrDb == Describe(Present(Snrs(packets)))
    {
      if |packets| == 0 then Summary(0, 0, 0.0, None, None, None)
      else
        var rate := totalErrors as real / totalPackets as real;
        assert 0.0 <= rate <= 1.0 && (rate == 0.0 <==> totalErrors == 0)
          && IsQuotient(rate, totalErrors as real, totalPackets as real) by {
          FractionBounds(totalErrors, totalPackets);
        }
        var bers := Present(Bers(packets));
        assert |bers| > 0 <==> exists i :: 0 <= i < |packets| && packets[i].ber.Some? by {
          PresentNonEmpty(Bers(packets));
          assert forall i :: 0 <= i < |packets| ==> Bers(packets)[i] == packets[i].ber;
        }
        Summary(totalPackets, |packets|, rate,
                Describe(bers), Describe(Present(Latencies(packets))), Describe(Present(Snrs(packets))))
    }

    /** `get_throughput`: packets per second over the given run time. */
    function GetThroughput(runtime: real): (pps: real)
      reads this
      ensures runtime <= 0.0 ==> pps == 0.0
      ensures runtime > 0.0 ==> pps * runtime == totalPackets as real
    {
      if runtime > 0.0 then Quotient(totalPackets as real, runtime) else 0.0
    }

    /** `reset`: an empty window and zero totals. */
    method Reset()
      modifies this
      ensures Valid() && added == []
      ensures packets == [] && totalPackets == 0 && totalErrors == 0
    {
      packets := [];
      totalPackets := 0;
      totalErrors := 0;
      added := [];
    }
  }

  /**
   * n packets added to a fresh collector with window w: the summary reports
   * all n in the total and the last min(n, w) in the window.
   */
  method FillCollector(n: nat, w: nat, m: PacketMetrics) returns (s: Summary)
    requires n > 0 && w > 0
    ensures s.totalPackets == n
    ensures s.windowPackets == if n <= w then n else w
  {
    var c := new MetricsCollector(w);
    var i := 0;
    while i < n
      invariant 0 <= i <= n
      invariant c.Valid() && |c.added| == i && c.windowSize == w
    {
      c.AddPacket(m);
      i := i + 1;
    }
    s := c.GetSummary();
  }

  /** The rates `PerformanceMonitor.update` reports. */
  datatype Rates = Rates(pps: real, bps: real, kbps: real, mbps: real)

  function Total(sizes: seq<int>): int
  {
    if |sizes| == 0 then 0 else Total(sizes[..|sizes| - 1]) + sizes[|sizes| - 1]
  }

  class PerformanceMonitor {
    const updateInterval: real
    var lastUpdate: real
    var packetCount: nat
    var byteCount: int
    /** The sizes of the packets counted since the last report. */
    ghost var sizes: seq<int>

    ghost predicate Valid()
      reads this
    {
      packetCount == |sizes| && byteCount == Total(sizes)
    }

    constructor(updateInterval: real, now: real)
      ensures Valid() && sizes == []
      ensures this.updateInterval == updateInterval && lastUpdate == now
    {
      this.updateInterval := updateInterval;
      lastUpdate := now;
      packetCount := 0;
      byteCount := 0;
      sizes := [];
    }

    /**
     * `update`: count the packet; once the interval has elapsed, report the
     * rates over every packet since the last report and start a new interval.
     * With a non-positive interval, a reading equal to the last one divides
     * by zero.
     */
    method Update(packetSize: int, now: real) returns (r: Result<Option<Rates>, Exception>)
      requires Valid()
      modifies this
      ensures Valid()
      ensures now - old(lastUpdate) < updateInterval ==>
        r == Ok(None) && sizes == old(sizes) + [packetSize] && lastUpdate == old(lastUpdate)
      ensures now - old(lastUpdate) >= updateInterval && now == old(lastUpdate) ==>
        r == Err(ZeroDivisionError) && sizes == old(sizes) + [packetSize] && lastUpdate == old(lastUpdate)
      ensures now - old(lastUpdate) >= updateInterval && now != old(lastUpdate) ==>
        r.Ok? && r.value.Some?
        && var elapsed, rates := now - old(lastUpdate), r.value.value;
        rates.pps * elapsed == (|old(sizes)| + 1) as real
        && rates.bps * elapsed == (8 * Total(old(sizes) + [packetSize])) as real
        && rates.kbps * 1000.0 == rates.bps
        && rates.mbps * 1000000.0 == rates.bps
        && sizes == [] && lastUpdate == now
    {
      packetCount := packetCount + 1;
      byteCount := byteCount + packetSize;
      var s := sizes + [packetSize];
      assert s[..|s| - 1] == sizes;
      sizes := s;
      var elapsed := now - lastUpdate;
      if elapsed >= updateInterval {
        if elapsed == 0.0 {
          return Err(ZeroDivisionError);
        }
        var bits := (byteCount * 8) as real;
        var rates := Rates(packetCount as real / elapsed, bits / elapsed,
                           bits / (elapsed * 1000.0), bits / (elapsed * 1000000.0));
        assert rates.pps * elapsed == packetCount as real;
        assert rates.bps * elapsed == bits;
        ScaledRate(bits, elapsed, 1000.0);
        ScaledRate(bits, elapsed, 1000000.0);
        packetCount := 0;
        byteCount := 0;
        sizes := [];
        lastUpdate := now;
        r := Ok(Some(rates));
      } else {
        r := Ok(None);
      }
    }
  }

  lemma ScaledRate(bits: real, elapsed: real, scale: real)
    requires elapsed != 0.0 && scale != 0.0
    ensures bits / (elapsed * scale) * scale == bits / elapsed
  {
  }
}
