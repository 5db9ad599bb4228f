/**
 * The bit-level side of the SimURF wireless receiver: hard-decision
 * demodulation by the configured scheme, frame synchronisation by bipolar
 * correlation against the start pattern, extraction of the length-prefixed
 * payload with a stop-pattern check, a bit error estimate, and the
 * receiver's counters. Matched filtering and timing recovery are not
 * modelled: a reception starts from the recovered symbol estimates.
 */
module SimurfReceiver {
  import opened Wrappers
  import opened Digits
  import opened BitCodec
  import opened Signal
  import Modulation
  import Qam16
  import opened SimurfTransmitter
  import Statistics

  /** `2 * b - 1`: bit 0 becomes -1, bit 1 becomes +1. */
  function Bipolar(b: Bit): int
  {
    2 * b - 1
  }

  /** The product of two bipolar values: +1 where the bits agree, -1 where they differ. */
  function Agreement(a: Bit, b: Bit): (t: int)
    ensures t == (if a == b then 1 else -1)
  {
    Bipolar(a) * Bipolar(b)
  }

  /** Σ (2w[i] - 1)(2pattern[i] - 1): one term of `np.correlate(..., mode='valid')`. */
  function Corr(window: seq<Bit>, pattern: seq<Bit>): int
    requires |window| == |pattern|
  {
    if |pattern| == 0 then 0
    else
      var n := |pattern| - 1;
      Corr(window[..n], pattern[..n]) + Agreement(window[n], pattern[n])
  }

  /** The bitwise complement of a pattern. */
  function Complement(pattern: seq<Bit>): (c: seq<Bit>)
    ensures |c| == |pattern|
    ensures forall i :: 0 <= i < |pattern| ==> c[i] == 1 - pattern[i]
  {
    seq(|pattern|, i requires 0 <= i < |pattern| => 1 - pattern[i])
  }

  /**
   * The correlation lies in [-|pattern|, |pattern|]; it is |pattern| exactly
   * on the pattern and -|pattern| exactly on its complement.
   */
  lemma {:induction false} CorrBound(window: seq<Bit>, pattern: seq<Bit>)
    requires |window| == |pattern|
    ensures -|pattern| <= Corr(window, pattern) <= |pattern|
    ensures Corr(window, pattern) == |pattern| <==> window == pattern
    ensures Corr(window, pattern) == -|pattern| <==> window == Complement(pattern)
  {
    if |pattern| > 0 {
      var n := |pattern| - 1;
      var w, p := window[..n], pattern[..n];
      CorrBound(w, p);
      assert window == w + [window[n]] && pattern == p + [pattern[n]];
      assert Complement(pattern) == Complement(p) + [1 - pattern[n]];
      if window == Complement(pattern) {
        assert w == Complement(p);
      }
    }
  }

  function Abs(x: int): nat
  {
    if x < 0 then -x else x
  }

  /** The correlation of the pattern with the bits at offset k. */
  function CorrAt(bits: seq<Bit>, pattern: seq<Bit>, k: nat): int
    requires k + |pattern| <= |bits|
  {
    Corr(bits[k..k + |pattern|], pattern)
  }

  /** `np.argmax(np.abs(correlation))` over the first n offsets: the first largest magnitude. */
  function ArgMaxAbs(bits: seq<Bit>, pattern: seq<Bit>, n: nat): (j: nat)
    requires 1 <= n && n - 1 + |pattern| <= |bits|
    ensures j < n
  {
    if n == 1 then 0
    else
      var j := ArgMaxAbs(bits, pattern, n - 1);
      if Abs(CorrAt(bits, pattern, n - 1)) > Abs(CorrAt(bits, pattern, j)) then n - 1 else j
  }

  /** ArgMaxAbs has the largest magnitude, and every earlier offset a strictly smaller one. */
  lemma {:induction false} ArgMaxAbsSpec(bits: seq<Bit>, pattern: seq<Bit>, n: nat)
    requires 1 <= n && n - 1 + |pattern| <= |bits|
    ensures var j := ArgMaxAbs(bits, pattern, n);
      (forall k :: 0 <= k < n ==> Abs(CorrAt(bits, pattern, k)) <= Abs(CorrAt(bits, pattern, j)))
      && (forall k :: 0 <= k < j ==> Abs(CorrAt(bits, pattern, k)) < Abs(CorrAt(bits, pattern, j)))
  {
    if n > 1 {
      ArgMaxAbsSpec(bits, pattern, n - 1);
    }
  }

  /**
   * `_find_sync_pattern`: the offset of the strongest correlation, if its
   * magnitude per pattern bit is strictly above the threshold; else -1.
   */
  function FindSyncPattern(bits: seq<Bit>, pattern: seq<Bit>, threshold: real): (r: int)
    requires |pattern| > 0
    ensures r == -1 || (0 <= r && r + |pattern| <= |bits|)
    ensures |bits| < |pattern| ==> r == -1
    ensures r >= 0 ==> (Abs(CorrAt(bits, pattern, r)) as real) / (|pattern| as real) > threshold
  {
    if |bits| < |pattern| then -1
    else
      var j := ArgMaxAbs(bits, pattern, |bits| - |pattern| + 1);
      if (Abs(CorrAt(bits, pattern, j)) as real) / (|pattern| as real) > threshold then j else -1
  }

  /**
   * A found offset correlates at least as strongly as every other offset and
   * strictly more than every earlier one; -1 on a long enough stream means no
   * offset got above the threshold.
   */
  lemma FindSyncSpec(bits: seq<Bit>, pattern: seq<Bit>, threshold: real)
    requires |pattern| > 0
    ensures var r := FindSyncPattern(bits, pattern, threshold);
      r >= 0 ==>
        (forall k :: 0 <= k && k + |pattern| <= |bits| ==>
          Abs(CorrAt(bits, pattern, k)) <= Abs(CorrAt(bits, pattern, r)))
        && (forall k :: 0 <= k < r ==> Abs(CorrAt(bits, pattern, k)) < Abs(CorrAt(bits, pattern, r)))
    ensures var r := FindSyncPattern(bits, pattern, threshold);
      r == -1 && |bits| >= |pattern| ==>
        forall k :: 0 <= k && k + |pattern| <= |bits| ==>
          (Abs(CorrAt(bits, pattern, k)) as real) / (|pattern| as real) <= threshold
  {
    if |bits| >= |pattern| {
      var n := |bits| - |pattern| + 1;
      ArgMaxAbsSpec(bits, pattern, n);
      var j := ArgMaxAbs(bits, pattern, n);
      var len := |pattern| as real;
      forall k | 0 <= k && k + |pattern| <= |bits|
        ensures (Abs(CorrAt(bits, pattern, k)) as real) / len <= (Abs(CorrAt(bits, pattern, j)) as real) / len
      {
        DivMonotone(Abs(CorrAt(bits, pattern, k)) as real, Abs(CorrAt(bits, pattern, j)) as real, len);
      }
    }
  }

  lemma DivMonotone(a: real, b: real, d: real)
    requires a <= b && d > 0.0
    ensures a / d <= b / d
  {
  }

  /** The pattern and its complement correlate with full magnitude. */
  lemma FullCorrelation(window: seq<Bit>, pattern: seq<Bit>)
    requires |window| == |pattern|
    requires window == pattern || window == Complement(pattern)
    ensures Abs(Corr(window, pattern)) == |pattern|
  {
    CorrBound(window, pattern);
  }

  lemma SelfRatio(n: nat)
    requires n > 0
    ensures (n as real) / (n as real) == 1.0
  {
  }

  /** A full-magnitude correlation at offset 0 keeps ArgMaxAbs at 0. */
  lemma {:induction false} ArgMaxAtZero(bits: seq<Bit>, pattern: seq<Bit>, n: nat)
    requires 1 <= n && n - 1 + |pattern| <= |bits|
    requires Abs(CorrAt(bits, pattern, 0)) == |pattern|
    ensures ArgMaxAbs(bits, pattern, n) == 0
  {
    if n > 1 {
      ArgMaxAtZero(bits, pattern, n - 1);
      CorrBound(bits[n - 1..n - 1 + |pattern|], pattern);
    }
  }

  /**
   * A stream that opens with the pattern, or with its complement, is
   * synchronised at offset 0 whenever the threshold is below 1.
   */
  lemma SyncAtStart(bits: seq<Bit>, pattern: seq<Bit>, threshold: real)
    requires 0 < |pattern| <= |bits| && threshold < 1.0
    requires bits[..|pattern|] == pattern || bits[..|pattern|] == Complement(pattern)
    ensures FindSyncPattern(bits, pattern, threshold) == 0
  {
    assert bits[0..|pattern|] == bits[..|pattern|];
    FullCorrelation(bits[0..|pattern|], pattern);
    ArgMaxAtZero(bits, pattern, |bits| - |pattern| + 1);
    SelfRatio(|pattern|);
  }

  /**
   * `bits_to_packet`: find the start pattern, read the 16-bit length L,
   * take 8·L data bits, check the stop pattern and pack the data bits.
   */
  function BitsToPacket(bits: seq<Bit>, threshold: real): (r: Option<seq<Byte>>)
    ensures var s := FindSyncPattern(bits, StartSeq, threshold);
      r.Some? ==>
        0 <= s && s + 24 <= |bits|
        && var len := FromDigits(bits[s + 8..s + 24], 2);
        |r.value| == len
        && s + 24 + 8 * len + 8 <= |bits|
        && bits[s + 24 + 8 * len..s + 32 + 8 * len] == StopSeq
        && BytesToBits(r.value) == bits[s + 24..s + 24 + 8 * len]
    ensures FindSyncPattern(bits, StartSeq, threshold) == -1 ==> r.None?
  {
    var start := FindSyncPattern(bits, StartSeq, threshold);
    if start == -1 then None
    else
      var lengthStart := start + |StartSeq|;
      if lengthStart + 16 > |bits| then None
      else
        var len := FromDigits(bits[lengthStart..lengthStart + 16], 2);
        var dataStart := lengthStart + 16;
        var dataEnd := dataStart + len * 8;
        if dataEnd > |bits| then None
        else if dataEnd + |StopSeq| > |bits| then None
        else if bits[dataEnd..dataEnd + |StopSeq|] != StopSeq then None
        else
          var data := bits[dataStart..dataEnd];
          PackAligned(data, len);
          Some(BitsToBytes(data))
  }

  /** The framing round trip: a clean frame, followed by anything, gives back the packet. */
  lemma FramingRoundTrip(packet: seq<Byte>, extra: seq<Bit>, threshold: real)
    requires |packet| < MaxFrameBytes && threshold < 1.0
    ensures BitsToPacket(PacketToBits(packet) + extra, threshold) == Some(packet)
  {
    var bits := PacketToBits(packet) + extra;
    var n := |packet|;
    FrameFields(packet, extra);
    SyncAtStart(bits, StartSeq, threshold);
    DeframeAt(bits, threshold, 0, n);
    assert bits[0 + 24..0 + 24 + n * 8] == bits[24..24 + n * 8];
  }

  /** Where the fields of a clean frame sit once anything is appended to it. */
  lemma FrameFields(packet: seq<Byte>, extra: seq<Bit>)
    requires |packet| < MaxFrameBytes
    ensures var bits, n := PacketToBits(packet) + extra, |packet|;
      32 + n * 8 <= |bits|
      && bits[..8] == StartSeq
      && FromDigits(bits[8..24], 2) == n
      && bits[24 + n * 8..32 + n * 8] == StopSeq
      && BitsToBytes(bits[24..24 + n * 8]) == packet
  {
    var frame := PacketToBits(packet);
    var bits := frame + extra;
    var n := |packet|;
    assert 24 + n * 8 == 24 + 8 * n == |frame| - 8;
    assert bits[..8] == frame[..8];
    assert bits[8..24] == frame[8..24];
    assert bits[24 + n * 8..32 + n * 8] == frame[|frame| - 8..];
    assert bits[24..24 + n * 8] == frame[24..24 + 8 * n];
  }

  /** A stream synchronised at `s` whose length field, data and stop pattern all fit is deframed to its data bytes. */
  lemma DeframeAt(bits: seq<Bit>, threshold: real, s: nat, len: nat)
    requires FindSyncPattern(bits, StartSeq, threshold) == s
    requires s + 32 + len * 8 <= |bits|
    requires FromDigits(bits[s + 8..s + 24], 2) == len
    requires bits[s + 24 + len * 8..s + 32 + len * 8] == StopSeq
    ensures BitsToPacket(bits, threshold) == Some(BitsToBytes(bits[s + 24..s + 24 + len * 8]))
  {
  }

  /**
   * `bits_to_packet` as written: the length field is a NumPy `uint16`
   * scalar, so `length_bytes * 8` is computed modulo 2^16 and frames of
   * 8192 bytes or more are cut short.
   */
  function BitsToPacketAsWritten(bits: seq<Bit>, threshold: real): (r: Option<seq<Byte>>)
    ensures var s := FindSyncPattern(bits, StartSeq, threshold);
      r.Some? ==>
        0 <= s && s + 24 <= |bits|
        && 8 * |r.value| == (8 * FromDigits(bits[s + 8..s + 24], 2)) % 65536
  {
    var start := FindSyncPattern(bits, StartSeq, threshold);
    if start == -1 then None
    else
      var lengthStart := start + |StartSeq|;
      if lengthStart + 16 > |bits| then None
      else
        var len := FromDigits(bits[lengthStart..lengthStart + 16], 2);
        WrapLength(len);
        var dataStart := lengthStart + 16;
        var dataEnd := dataStart + (len * 8) % 65536;
        if dataEnd > |bits| then None
        else if dataEnd + |StopSeq| > |bits| then None
        else if bits[dataEnd..dataEnd + |StopSeq|] != StopSeq then None
        else
          var data := bits[dataStart..dataEnd];
          PackAligned(data, len % 8192);
          Some(BitsToBytes(data))
  }

  /** A byte count times 8, taken modulo 2^16, is 8 times the count modulo 8192. */
  lemma WrapLength(len: nat)
    ensures (len * 8) % 65536 == 8 * (len % 8192) == (8 * len) % 65536
  {
    var q, r := len / 8192, len % 8192;
    assert len * 8 == q * 65536 + 8 * r;
    DivModOfSum(q, 8 * r, 65536);
  }

  /** Packing 8k bits gives k bytes, which unpack to the same bits. */
  lemma PackAligned(data: seq<Bit>, k: nat)
    requires |data| == 8 * k
    ensures |BitsToBytes(data)| == k && BytesToBits(BitsToBytes(data)) == data
  {
    DivModOfSum(k, 0, 8);
    BitsBytesRoundTrip(data);
    assert data[..|data| / 8 * 8] == data;
  }

  /** Whenever the length field is below 8192 the as-written deframer agrees with the corrected one. */
  lemma AsWrittenAgreesBelow8192(bits: seq<Bit>, threshold: real)
    ensures var s := FindSyncPattern(bits, StartSeq, threshold);
      s >= 0 && s + 24 <= |bits| && FromDigits(bits[s + 8..s + 24], 2) < 8192 ==>
        BitsToPacketAsWritten(bits, threshold) == BitsToPacket(bits, threshold)
  {
    var s := FindSyncPattern(bits, StartSeq, threshold);
    if s >= 0 && s + 24 <= |bits| {
      var len := FromDigits(bits[s + 8..s + 24], 2);
      if len < 8192 {
        assert (len * 8) % 65536 == len * 8 by {
          DivModOfSum(0, len * 8, 65536);
        }
      }
    }
  }

  /** Below 8192 bytes the wrap-around never happens and the frame is read back intact. */
  lemma AsWrittenReadsSmallFrames(packet: seq<Byte>, extra: seq<Bit>, threshold: real)
    requires |packet| < 8192 && threshold < 1.0
    ensures BitsToPacketAsWritten(PacketToBits(packet) + extra, threshold) == Some(packet)
  {
    var bits := PacketToBits(packet) + extra;
    assert BitsToPacket(bits, threshold) == Some(packet) by {
      FramingRoundTrip(packet, extra, threshold);
    }
    assert FindSyncPattern(bits, StartSeq, threshold) == 0 && FromDigits(bits[8..24], 2) < 8192 by {
      FrameFields(packet, extra);
      SyncAtStart(bits, StartSeq, threshold);
    }
    AsWrittenAgreesBelow8192(bits, threshold);
  }

  /** From 8192 bytes up, the frame as written never yields the packet that was sent. */
  lemma AsWrittenLosesLargeFrames(packet: seq<Byte>, threshold: real)
    requires 8192 <= |packet| < MaxFrameBytes && threshold < 1.0
    ensures BitsToPacketAsWritten(PacketToBits(packet), threshold) != Some(packet)
  {
    var bits := PacketToBits(packet);
    SyncAtStart(bits, StartSeq, threshold);
    var n := |packet|;
    assert (8 * n) % 65536 < 8 * n;
  }

  /** 0x35 is the stop pattern's byte. */
  lemma StopByte()
    ensures ByteToBits(0x35) == StopSeq
  {
    var d: seq<nat> := StopSeq;
    assert FromDigits(d[..1], 2) == 0 by { assert d[..1][..0] == []; }
    assert FromDigits(d[..2], 2) == 0 by { assert d[..2][..1] == d[..1]; }
    assert FromDigits(d[..3], 2) == 1 by { assert d[..3][..2] == d[..2]; }
    assert FromDigits(d[..4], 2) == 3 by { assert d[..4][..3] == d[..3]; }
    assert FromDigits(d[..5], 2) == 6 by { assert d[..5][..4] == d[..4]; }
    assert FromDigits(d[..6], 2) == 13 by { assert d[..6][..5] == d[..5]; }
    assert FromDigits(d[..7], 2) == 26 by { assert d[..7][..6] == d[..6]; }
    assert FromDigits(d, 2) == 53 by { assert d[..7] == d[..|d| - 1]; }
    BitsByteRoundTrip(StopSeq);
  }

  /**
   * A concrete case: an 8192-byte packet whose first byte is 0x35. As
   * written the receiver reads a length of 0, mistakes that first byte for
   * the stop pattern and delivers an empty packet; the corrected deframer
   * delivers the packet.
   */
  lemma LargeFrameMisread(packet: seq<Byte>, threshold: real)
    requires |packet| == 8192 && packet[0] == 0x35 && threshold < 1.0
    ensures BitsToPacketAsWritten(PacketToBits(packet), threshold) == Some([])
    ensures BitsToPacket(PacketToBits(packet), threshold) == Some(packet)
  {
    var bits := PacketToBits(packet);
    FramingRoundTrip(packet, [], threshold);
    assert bits + [] == bits;
    FrameFields(packet, []);
    SyncAtStart(bits, StartSeq, threshold);
    FirstDataByte(packet);
    StopByte();
    WrappedLengthReadsEmpty(bits, threshold);
  }

  /** The first data byte of a frame follows the 24 bits of start pattern and length field. */
  lemma FirstDataByte(packet: seq<Byte>)
    requires 1 <= |packet| < MaxFrameBytes
    ensures PacketToBits(packet)[24..32] == ByteToBits(packet[0])
  {
    var bits := PacketToBits(packet);
    assert bits[24..32] == bits[24..24 + 8 * |packet|][..8];
    assert BitsToBytes(bits[24..24 + 8 * |packet|]) == packet;
    PackAligned(bits[24..24 + 8 * |packet|], |packet|);
    assert BytesToBits(packet)[..8] == ByteToBits(packet[0]);
  }

  /** A frame at offset 0 whose length field wraps to 0 and whose next byte looks like the stop pattern. */
  lemma WrappedLengthReadsEmpty(bits: seq<Bit>, threshold: real)
    requires FindSyncPattern(bits, StartSeq, threshold) == 0 && 32 <= |bits|
    requires FromDigits(bits[8..24], 2) == 8192 && bits[24..32] == StopSeq
    ensures BitsToPacketAsWritten(bits, threshold) == Some([])
  {
    assert (8192 * 8) % 65536 == 0;
    assert bits[24..24] == [];
  }

  /** A threshold of 1 or more can never be exceeded, so no frame is ever found. */
  lemma HighThresholdFindsNothing(bits: seq<Bit>, threshold: real)
    requires threshold >= 1.0
    ensures BitsToPacket(bits, threshold) == None
  {
    var s := FindSyncPattern(bits, StartSeq, threshold);
    if s >= 0 {
      CorrBound(bits[s..s + 8], StartSeq);
      assert false;
    }
  }

  /** `symbols_to_bits`: dispatch on the scheme name; an unknown one yields None. */
  function SymbolsToBits(modulation: string, symbols: seq<Complex>): (r: Option<seq<Bit>>)
    ensures r.None? <==> Modulation.GetModulationInfo(modulation).None?
    ensures r.Some? ==> |r.value| == Modulation.GetModulationInfo(modulation).value.bitsPerSymbol * |symbols|
  {
    if modulation == "bpsk" then Some(Modulation.BpskDemodulate(symbols))
    else if modulation == "qpsk" then Some(Modulation.QpskDemodulate(symbols))
    else if modulation == "16qam" then Some(Qam16.Bits(symbols))
    else None
  }

  /** For a bit count divisible by 4, every scheme's noiseless demodulation inverts its modulation. */
  lemma LinkRoundTrip(modulation: string, bits: seq<Bit>)
    requires Modulation.GetModulationInfo(modulation).Some? && |bits| % 4 == 0
    ensures SymbolsToBits(modulation, BitsToSymbols(modulation, bits).value) == Some(bits)
  {
    if modulation == "bpsk" {
      BpskLink(bits);
    } else if modulation == "qpsk" {
      QpskLink(bits);
    } else {
      Qam16Link(bits);
    }
  }

  lemma BpskLink(bits: seq<Bit>)
    ensures SymbolsToBits("bpsk", BitsToSymbols("bpsk", bits).value) == Some(bits)
  {
    Modulation.BpskRoundTrip(bits);
  }

  lemma QpskLink(bits: seq<Bit>)
    requires |bits| % 2 == 0
    ensures SymbolsToBits("qpsk", BitsToSymbols("qpsk", bits).value) == Some(bits)
  {
    Modulation.QpskRoundTrip(bits);
    assert Modulation.QpskPad(bits) == bits;
  }

  lemma Qam16Link(bits: seq<Bit>)
    requires |bits| % 4 == 0
    ensures SymbolsToBits("16qam", BitsToSymbols("16qam", bits).value) == Some(bits)
  {
    Qam16.RoundTrip(bits);
    assert Qam16.Pad4(bits) == bits;
  }

  /**
   * End to end over a noiseless channel: for every scheme and every packet
   * the length field can carry, the receiver recovers the packet.
   */
  lemma PacketOverLink(modulation: string, packet: seq<Byte>, threshold: real)
    requires Modulation.GetModulationInfo(modulation).Some?
    requires |packet| < MaxFrameBytes && threshold < 1.0
    ensures var symbols := BitsToSymbols(modulation, PacketToBits(packet)).value;
      BitsToPacket(SymbolsToBits(modulation, symbols).value, threshold) == Some(packet)
  {
    var frame := PacketToBits(packet);
    assert |frame| == (2 * |packet| + 8) * 4;
    DivModOfSum(2 * |packet| + 8, 0, 4);
    LinkRoundTrip(modulation, frame);
    FramingRoundTrip(packet, [], threshold);
    assert frame + [] == frame;
  }

  /**
   * An all-zero stream holds no frame, whatever the threshold: wherever a
   * start is found, the eight bits after the data are zeros, never the stop
   * pattern, and both deframers give None.
   */
  lemma ZerosCarryNoFrame(n: nat, threshold: real)
    ensures BitsToPacket(Qam16.Zeros(n), threshold) == None
    ensures BitsToPacketAsWritten(Qam16.Zeros(n), threshold) == None
  {
    var bits := Qam16.Zeros(n);
    forall a, b | 0 <= a <= b <= n
      ensures bits[a..b] != StopSeq
    {
      if b == a + 8 {
        NoStopInZeros(n, a);
      }
    }
  }

  lemma NoStopInZeros(n: nat, a: nat)
    requires a + 8 <= n
    ensures Qam16.Zeros(n)[a..a + 8] != StopSeq
  {
    assert Qam16.Zeros(n)[a..a + 8][2] == 0;
  }

  /**
   * As written, QPSK delivers no packet: the frame of `packet_to_bits` is an
   * even-length `uint8` array, so every symbol lies in the first quadrant,
   * the receiver demodulates zeros only, and neither deframer finds a frame.
   */
  lemma QpskFrameLostAsWritten(packet: seq<Byte>, threshold: real)
    requires |packet| < MaxFrameBytes
    ensures var bits := SymbolsToBits("qpsk", Modulation.QpskModulateAsWritten(PacketToBits(packet)));
      bits == Some(Qam16.Zeros(8 * |packet| + 32))
      && BitsToPacket(bits.value, threshold) == None
      && BitsToPacketAsWritten(bits.value, threshold) == None
  {
    FrameLength(packet);
    QpskStreamLost(PacketToBits(packet), threshold);
    QpskDispatch(Modulation.QpskModulateAsWritten(PacketToBits(packet)));
  }

  lemma FrameLength(packet: seq<Byte>)
    requires |packet| < MaxFrameBytes
    ensures |PacketToBits(packet)| % 2 == 0 && |PacketToBits(packet)| == 8 * |packet| + 32
  {
    EvenLength(|PacketToBits(packet)|, 4 * |packet| + 16);
  }

  lemma EvenLength(m: nat, h: nat)
    requires m == 2 * h
    ensures m % 2 == 0
  {
  }

  /** An even-length `uint8` stream sent by the as-written QPSK mapper is read as zeros and carries no frame. */
  lemma QpskStreamLost(frame: seq<Bit>, threshold: real)
    requires |frame| % 2 == 0
    ensures var bits := Modulation.QpskDemodulate(Modulation.QpskModulateAsWritten(frame));
      bits == Qam16.Zeros(|frame|)
      && BitsToPacket(bits, threshold) == None
      && BitsToPacketAsWritten(bits, threshold) == None
  {
    var bits := Modulation.QpskDemodulate(Modulation.QpskModulateAsWritten(frame));
    assert bits == Qam16.Zeros(|frame|) by {
      Modulation.QpskAsWrittenReadsZeros(frame);
    }
    ZerosCarryNoFrame(|frame|, threshold);
  }

  /**
   * As written, a QPSK receiver handed the transmitter's noiseless symbols
   * decodes nothing, so `receive` returns None and counts no packet.
   */
  lemma QpskReceiverGetsNothing(rx: Receiver, packet: seq<Byte>)
    requires rx.modulation == "qpsk" && |packet| < MaxFrameBytes
    ensures rx.Decode(Some(Modulation.QpskModulateAsWritten(PacketToBits(packet)))) == None
  {
    QpskFrameLostAsWritten(packet, rx.syncThreshold);
  }

  lemma QpskDispatch(symbols: seq<Complex>)
    ensures SymbolsToBits("qpsk", symbols) == Some(Modulation.QpskDemodulate(symbols))
  {
  }

  /** Bit positions where two equally long bit strings differ (`np.sum(a != b)`). */
  function Mismatches(a: seq<Bit>, b: seq<Bit>): (n: nat)
    requires |a| == |b|
    ensures n <= |a|
    ensures n == 0 <==> a == b
  {
    var x := XorBits(a, b);
    CountOnesZero(x);
    assert CountOnes(x) == 0 ==> a == b by {
      if CountOnes(x) == 0 {
        assert forall i :: 0 <= i < |a| ==> a[i] == b[i];
      }
    }
    CountOnes(x)
  }

  function Min(a: nat, b: nat): nat
  {
    if a <= b then a else b
  }

  /** `estimate_ber`'s result: errors over the common prefix, or 1.0 when it is empty. */
  function Ber(known: seq<Bit>, received: seq<Bit>): (ber: real)
    ensures var n := Min(|known|, |received|);
      n > 0 ==> ber * n as real == Mismatches(known[..n], received[..n]) as real
    ensures 0.0 <= ber <= 1.0
    ensures ber == 0.0 <==>
      |known| > 0 && |received| > 0
      && known[..Min(|known|, |received|)] == received[..Min(|known|, |received|)]
    ensures |known| == 0 || |received| == 0 ==> ber == 1.0
  {
    var n := Min(|known|, |received|);
    if n > 0 then
      var e := Mismatches(known[..n], received[..n]);
      assert (e as real) / (n as real) <= 1.0;
      Statistics.Quotient(e as real, n as real)
    else 1.0
  }

  /** The counters `get_stats` reports, with the two rates it derives from them. */
  datatype RxStats = RxStats(
    packetsReceived: nat, packetsDecoded: nat, bytesReceived: nat,
    packetErrorRate: real, bitErrorRate: real, bitErrors: nat, modulation: string)

  class Receiver {
    const modulation: string
    const syncThreshold: real
    var packetsReceived: nat
    var packetsDecoded: nat
    var bytesReceived: nat
    var bitErrors: nat

    /** Received and decoded packets are always counted together. */
    predicate Valid()
      reads this
    {
      packetsReceived == packetsDecoded
    }

    constructor(modulation: string, syncThreshold: real)
      ensures Valid()
      ensures this.modulation == modulation && this.syncThreshold == syncThreshold
      ensures packetsReceived == 0 && bytesReceived == 0 && bitErrors == 0
    {
      this.modulation := modulation;
      this.syncThreshold := syncThreshold;
      packetsReceived := 0;
      packetsDecoded := 0;
      bytesReceived := 0;
      bitErrors := 0;
    }

    /** What `receive` returns for the recovered symbols (None: none were recovered). */
    function Decode(symbols: Option<seq<Complex>>): (r: Option<seq<Byte>>)
      reads this
      ensures symbols.None? ==> r.None?
      ensures r.Some? ==>
        SymbolsToBits(modulation, symbols.value).Some?
        && BitsToPacket(SymbolsToBits(modulation, symbols.value).value, syncThreshold) == r
    {
      if symbols.None? then None
      else
        match SymbolsToBits(modulation, symbols.value)
        case None => None
        case Some(bits) => BitsToPacket(bits, syncThreshold)
    }

    /**
     * `receive`: demodulate and deframe; a recovered packet counts once as
     * received and once as decoded, and adds its length to the byte count.
     */
    method Receive(symbols: Option<seq<Complex>>) returns (r: Option<seq<Byte>>)
      requires Valid()
      modifies this
      ensures Valid()
      ensures r == old(Decode(symbols))
      ensures r.Some? ==>
        packetsReceived == old(packetsReceived) + 1
        && bytesReceived == old(bytesReceived) + |r.value|
      ensures r.None? ==> packetsReceived == old(packetsReceived) && bytesReceived == old(bytesReceived)
      ensures bitErrors == old(bitErrors)
    {
      r := Decode(symbols);
      if r.Some? {
        packetsReceived := packetsReceived + 1;
        packetsDecoded := packetsDecoded + 1;
        bytesReceived := bytesReceived + |r.value|;
      }
    }

    /** `estimate_ber`: also adds the errors found to the running bit error count. */
    method EstimateBer(known: seq<Bit>, received: seq<Bit>) returns (ber: real)
      requires Valid()
      modifies this
      ensures Valid()
      ensures ber == Ber(known, received)
      ensures var n := Min(|known|, |received|);
        bitErrors == old(bitErrors) + Mismatches(known[..n], received[..n])
      ensures packetsReceived == old(packetsReceived) && bytesReceived == old(bytesReceived)
    {
      var n := Min(|known|, |received|);
      var errors := Mismatches(known[..n], received[..n]);
      ber := if n > 0 then (errors as real) / (n as real) else 1.0;
      bitErrors := bitErrors + errors;
    }

    /** `get_stats`: with both counters always equal, the packet error rate is 0. */
    function GetStats(): (s: RxStats)
      requires Valid()
      reads this
      ensures s.packetErrorRate == 0.0
      ensures s.packetsReceived == s.packetsDecoded == packetsReceived
      ensures s.bytesReceived == bytesReceived && s.bitErrors == bitErrors
      ensures bytesReceived == 0 ==> s.bitErrorRate == 0.0
      ensures bytesReceived > 0 ==> s.bitErrorRate * ((8 * bytesReceived) as real) == bitErrors as real
    {
      assert packetsReceived > 0 ==> (packetsDecoded as real) / (packetsReceived as real) == 1.0 by {
        if packetsReceived > 0 {
          SelfRatio(packetsReceived);
        }
      }
      var per := if packetsReceived > 0 then 1.0 - (packetsDecoded as real) / (packetsReceived as real) else 0.0;
      var totalBits := bytesReceived * 8;
      var ber := if totalBits > 0 then (bitErrors as real) / (totalBits as real) else 0.0;
      RxStats(packetsReceived, packetsDecoded, bytesReceived, per, ber, bitErrors, modulation)
    }

    /** `reset_stats` */
    method ResetStats()
      modifies this
      ensures Valid()
      ensures packetsReceived == 0 && packetsDecoded == 0 && bytesReceived == 0 && bitErrors == 0
    {
      packetsReceived := 0;
      packetsDecoded := 0;
      bytesReceived := 0;
      bitErrors := 0;
    }
  }
}
