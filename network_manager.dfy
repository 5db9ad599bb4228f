/**
 * The network manager's return path: interleaved samples are paired back
 * into complex samples, each sample is decided to the nearest point of the
 * emulator's constellation, indices become bit pairs and complete groups of
 * 8 bits become bytes. Capture, sockets and the sample files are not
 * modelled.
 */
module NetworkManager {
  import opened Wrappers
  import opened Digits
  import opened BitCodec
  import opened Signal
  import RfEmulator

  /** `np.argmin` over the first n distances: the first nearest constellation index. */
  function ArgMinUpTo(s: Complex, n: nat): (j: nat)
    requires 1 <= n <= 4
    ensures j < n
  {
    if n == 1 then 0
    else
      var j := ArgMinUpTo(s, n - 1);
      if SqDist(RfEmulator.Constellation[n - 1], s) < SqDist(RfEmulator.Constellation[j], s) then n - 1 else j
  }

  /** The nearest index is at least as near as every point and strictly nearer than every earlier one. */
  lemma {:induction false} ArgMinUpToSpec(s: Complex, n: nat)
    requires 1 <= n <= 4
    ensures var j := ArgMinUpTo(s, n);
      (forall k :: 0 <= k < n ==>
        SqDist(RfEmulator.Constellation[j], s) <= SqDist(RfEmulator.Constellation[k], s))
      && (forall k :: 0 <= k < j ==>
        SqDist(RfEmulator.Constellation[j], s) < SqDist(RfEmulator.Constellation[k], s))
  {
    if n > 1 {
      ArgMinUpToSpec(s, n - 1);
    }
  }

  function NearestIndex(s: Complex): (j: nat)
    ensures j < 4
  {
    ArgMinUpTo(s, 4)
  }

  /** A sample equally far from all four points, such as 0, goes to index 0. */
  lemma TiesGoToLowestIndex()
    ensures NearestIndex(Complex(0.0, 0.0)) == 0
    ensures NearestIndex(Complex(0.0, 1.0)) == 0
    ensures NearestIndex(Complex(-1.0, 0.0)) == 1
  {
  }

  /** Every constellation point is decided to its own index. */
  lemma NearestOfPoint(k: nat)
    requires k < 4
    ensures NearestIndex(RfEmulator.Constellation[k]) == k
  {
    var c := RfEmulator.Constellation;
    if k == 0 {
      assert SqDist(c[1], c[0]) == 4.0 && SqDist(c[2], c[0]) == 8.0 && SqDist(c[3], c[0]) == 4.0;
    } else if k == 1 {
      assert SqDist(c[0], c[1]) == 4.0 && SqDist(c[2], c[1]) == 4.0 && SqDist(c[3], c[1]) == 8.0;
    } else if k == 2 {
      assert SqDist(c[0], c[2]) == 8.0 && SqDist(c[1], c[2]) == 4.0 && SqDist(c[3], c[2]) == 4.0;
    } else {
      assert SqDist(c[0], c[3]) == 4.0 && SqDist(c[1], c[3]) == 8.0 && SqDist(c[2], c[3]) == 4.0;
    }
  }

  /** The bit pair of an index: 0→00, 1→01, 2→11, 3→10. */
  function PairFor(i: nat): (bits: seq<Bit>)
    requires i < 4
    ensures |bits| == 2
  {
    if i == 0 then [0, 0]
    else if i == 1 then [0, 1]
    else if i == 2 then [1, 1]
    else [1, 0]
  }

  /** The table inverts the emulator's: the pair sent as index i is read back from i. */
  lemma PairForInverts(b0: Bit, b1: Bit)
    ensures PairFor(RfEmulator.IndexFor(b0, b1)) == [b0, b1]
  {
  }

  /** The bit pair one sample is decided to. */
  function Decided(sample: Complex): (bits: seq<Bit>)
    ensures |bits| == 2
  {
    PairFor(NearestIndex(sample))
  }

  /** A noiseless sample is decided to the pair it was sent for. */
  lemma DecidedPoint(b0: Bit, b1: Bit)
    ensures Decided(RfEmulator.Constellation[RfEmulator.IndexFor(b0, b1)]) == [b0, b1]
  {
    NearestOfPoint(RfEmulator.IndexFor(b0, b1));
    PairForInverts(b0, b1);
  }

  /** The bits `simple_demodulate` returns for a run of samples. */
  function DemodulatedBits(samples: seq<Complex>): (bits: seq<Bit>)
    ensures |bits| == 2 * |samples|
  {
    if |samples| == 0 then []
    else DemodulatedBits(samples[..|samples| - 1]) + Decided(samples[|samples| - 1])
  }

  /** `np.argmin(np.abs(constellation - sample))`, as a scan over the four distances. */
  method Nearest(sample: Complex) returns (idx: nat)
    ensures idx == NearestIndex(sample)
  {
    idx := 0;
    for k := 1 to 4
      invariant idx == ArgMinUpTo(sample, k)
    {
      if SqDist(RfEmulator.Constellation[k], sample) < SqDist(RfEmulator.Constellation[idx], sample) {
        idx := k;
      }
    }
  }

  /** `simple_demodulate`: the nearest index of every sample, then its bit pair. */
  method SimpleDemodulate(samples: seq<Complex>) returns (bits: seq<Bit>)
    ensures bits == DemodulatedBits(samples)
  {
    var symbols: seq<nat> := [];
    for n := 0 to |samples|
      invariant |symbols| == n
      invariant forall k :: 0 <= k < n ==> symbols[k] == NearestIndex(samples[k])
    {
      var idx := Nearest(samples[n]);
      symbols := symbols + [idx];
    }
    bits := [];
    for n := 0 to |symbols|
      invariant bits == DemodulatedBits(samples[..n])
    {
      assert samples[..n + 1][..n] == samples[..n];
      bits := bits + PairFor(symbols[n]);
      assert PairFor(symbols[n]) == Decided(samples[n]);
    }
    assert samples[..|symbols|] == samples;
  }

  /** Bits whose every pair is what the matching sample is decided to are the demodulated bits. */
  lemma {:induction false} DemodulatedFromPairs(samples: seq<Complex>, p: seq<Bit>)
    requires |p| == 2 * |samples|
    requires forall j :: 0 <= j < |samples| ==> Decided(samples[j]) == p[2 * j..2 * j + 2]
    ensures DemodulatedBits(samples) == p
  {
    if |samples| > 0 {
      var n := |samples| - 1;
      var init, q := samples[..n], p[..2 * n];
      forall j | 0 <= j < n
        ensures Decided(init[j]) == q[2 * j..2 * j + 2]
      {
        assert q[2 * j..2 * j + 2] == p[2 * j..2 * j + 2];
      }
      DemodulatedFromPairs(init, q);
      assert p == q + p[2 * n..2 * n + 2];
    }
  }

  /** On noiseless samples the demodulator returns the bits the emulator modulated. */
  lemma DemodulateInverts(p: seq<Bit>)
    requires |p| % 2 == 0
    ensures DemodulatedBits(RfEmulator.EmulatorSymbols(p)) == p
  {
    var s := RfEmulator.EmulatorSymbols(p);
    forall j | 0 <= j < |s|
      ensures Decided(s[j]) == p[2 * j..2 * j + 2]
    {
      DecidedPoint(p[2 * j], p[2 * j + 1]);
      assert p[2 * j..2 * j + 2] == [p[2 * j], p[2 * j + 1]];
    }
    DemodulatedFromPairs(s, p);
  }

  /** `bits_to_bytes`: keep the complete groups of 8 bits and pack them MSB first. */
  function BitsToBytes(bits: seq<Bit>): (data: seq<Byte>)
    ensures |data| == |bits| / 8
    ensures data == BitCodec.BitsToBytes(bits)
    ensures BytesToBits(data) == bits[..|bits| / 8 * 8]
  {
    BitsToBytesTruncates(bits);
    BitsBytesRoundTrip(bits);
    BitCodec.BitsToBytes(bits[..|bits| / 8 * 8])
  }

  /** The de-interleave step: an odd float count skips the file; else sample k is data[2k] + j·data[2k+1]. */
  function Deinterleave(data: seq<real>): (r: Option<seq<Complex>>)
    ensures r.None? <==> |data| % 2 != 0
    ensures r.Some? ==>
      |r.value| == |data| / 2
      && forall k :: 0 <= k < |r.value| ==> r.value[k] == Complex(data[2 * k], data[2 * k + 1])
  {
    if |data| % 2 != 0 then None
    else Some(seq(|data| / 2, k requires 0 <= k < |data| / 2 => Complex(data[2 * k], data[2 * k + 1])))
  }

  /** De-interleaving inverts the emulator's interleaving. */
  lemma DeinterleaveInterleaved(samples: seq<Complex>)
    ensures Deinterleave(RfEmulator.Interleaved(samples)) == Some(samples)
  {
    var r := RfEmulator.Interleaved(samples);
    var s := Deinterleave(r).value;
    forall k | 0 <= k < |samples|
      ensures s[k] == samples[k]
    {
      assert r[2 * k] == samples[k].re && r[2 * k + 1] == samples[k].im;
    }
    assert s == samples;
  }

  /** Interleaving inverts de-interleaving on every even-length float stream. */
  lemma InterleavedDeinterleave(data: seq<real>)
    requires |data| % 2 == 0
    ensures RfEmulator.Interleaved(Deinterleave(data).value) == data
  {
    var s := Deinterleave(data).value;
    var back := RfEmulator.Interleaved(s);
    forall i | 0 <= i < |data|
      ensures back[i] == data[i]
    {
      if i % 2 == 0 {
        assert data[i] == data[2 * (i / 2)];
      } else {
        assert data[i] == data[2 * (i / 2) + 1];
      }
    }
  }

  /**
   * One sample file of `process_complex_samples`: skipped when the float
   * count is odd; otherwise demodulated and packed, and forwarded only
   * when that gives at least one byte.
   */
  method ProcessSampleFile(data: seq<real>) returns (forwarded: Option<seq<Byte>>)
    ensures Deinterleave(data).None? ==> forwarded.None?
    ensures Deinterleave(data).Some? ==>
      var bytes := BitsToBytes(DemodulatedBits(Deinterleave(data).value));
      forwarded == (if |bytes| > 0 then Some(bytes) else None)
  {
    var samples := Deinterleave(data);
    if samples.None? {
      return None;
    }
    var bits := SimpleDemodulate(samples.value);
    var reconstructed := BitsToBytes(bits);
    forwarded := if |reconstructed| > 0 then Some(reconstructed) else None;
  }

  /** A packet through the emulator and back, with noiseless samples, is forwarded unchanged. */
  lemma PacketRoundTrip(packet: seq<Byte>)
    requires |packet| > 0
    ensures var data := RfEmulator.Interleaved(RfEmulator.EmulatorSymbols(BytesToBits(packet)));
      Deinterleave(data) == Some(RfEmulator.EmulatorSymbols(BytesToBits(packet)))
      && BitsToBytes(DemodulatedBits(Deinterleave(data).value)) == packet
    ensures var bytes := BitsToBytes(DemodulatedBits(RfEmulator.EmulatorSymbols(BytesToBits(packet))));
      (if |bytes| > 0 then Some(bytes) else None) == Some(packet)
  {
    var bits := BytesToBits(packet);
    OctetsDivisible(|packet|);
    var symbols := RfEmulator.EmulatorSymbols(bits);
    DeinterleaveInterleaved(symbols);
    assert DemodulatedBits(symbols) == bits by {
      DemodulateInverts(bits);
    }
    assert BitsToBytes(bits) == packet by {
      BytesBitsRoundTrip(packet);
    }
  }
}
