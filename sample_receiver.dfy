/**
 * The bit-level side of the Sample modem's receiver: quadrant decisions
 * turn symbols into bit pairs and complete groups of 8 bits are packed MSB
 * first. Matched filtering and timing recovery are not modelled: a
 * reception starts from the recovered symbols.
 */
module SampleReceiver {
  import opened Digits
  import opened BitCodec
  import opened Signal
  import SampleTransmitter

  /** The quadrant decision for one symbol; a zero component counts as non-negative. */
  function Quadrant(c: Complex): (bits: seq<Bit>)
    ensures |bits| == 2
    ensures (bits[0] == 1 <==> c.re < 0.0) && (bits[1] == 1 <==> c.im < 0.0)
  {
    if c.re >= 0.0 && c.im >= 0.0 then [0, 0]
    else if c.re >= 0.0 && c.im < 0.0 then [0, 1]
    else if c.re < 0.0 && c.im >= 0.0 then [1, 0]
    else [1, 1]
  }

  /** The decisions for a run of symbols, two bits each. */
  function QuadrantBits(symbols: seq<Complex>): (bits: seq<Bit>)
    ensures |bits| == 2 * |symbols|
  {
    if |symbols| == 0 then []
    else QuadrantBits(symbols[..|symbols| - 1]) + Quadrant(symbols[|symbols| - 1])
  }

  /** `symbols_to_bits` */
  method SymbolsToBits(symbols: seq<Complex>) returns (bits: seq<Bit>)
    ensures bits == QuadrantBits(symbols)
  {
    bits := [];
    var n := 0;
    while n < |symbols|
      invariant 0 <= n <= |symbols|
      invariant bits == QuadrantBits(symbols[..n])
    {
      assert symbols[..n + 1][..n] == symbols[..n];
      bits := bits + Quadrant(symbols[n]);
      n := n + 1;
    }
    assert symbols[..n] == symbols;
  }

  /** The quadrant decision inverts the transmitter's table for every bit pair. */
  lemma QuadrantInvertsTable(bit1: Bit, bit2: Bit)
    ensures Quadrant(SampleTransmitter.SymbolFor(bit1, bit2)) == [bit1, bit2]
  {
  }

  /** Noiseless symbols of an even-length bit string decide back to that string. */
  lemma {:induction false} DecideSymbols(p: seq<Bit>)
    requires |p| % 2 == 0
    ensures QuadrantBits(SampleTransmitter.PairSymbols(p)) == p
  {
    var s := SampleTransmitter.PairSymbols(p);
    if |p| > 0 {
      var n := |p| - 2;
      var q := p[..n];
      DecideSymbols(q);
      assert s[..|s| - 1] == SampleTransmitter.PairSymbols(q);
      QuadrantInvertsTable(p[n], p[n + 1]);
      assert p == q + [p[n], p[n + 1]];
    }
  }

  /** `bits_to_bytes`: drops the trailing len mod 8 bits, then packs each group with shift and or. */
  method BitsToBytes(bits: seq<Bit>) returns (data: seq<Byte>)
    ensures data == BitCodec.BitsToBytes(bits)
    ensures |data| == |bits| / 8
  {
    var whole := bits[..|bits| - |bits| % 8];
    data := [];
    var i := 0;
    while i < |whole|
      invariant i % 8 == 0 && 0 <= i <= |whole| && |whole| % 8 == 0
      invariant |data| == i / 8
      invariant forall k :: 0 <= k < |data| ==> data[k] == BitsToByte(whole[8 * k..8 * k + 8])
    {
      var byte: nat := 0;
      var j := 0;
      while j < 8
        invariant 0 <= j <= 8
        invariant byte == FromDigits(whole[i..i + j], 2)
      {
        assert whole[i..i + j + 1][..j] == whole[i..i + j];
        // (byte << 1) | bit: the low bit of byte << 1 is 0, so the or adds the bit
        byte := byte * 2 + whole[i + j];
        j := j + 1;
      }
      assert whole[i..i + 8] == whole[8 * (i / 8)..8 * (i / 8) + 8];
      data := data + [BitsToByte(whole[i..i + 8])];
      i := i + 8;
    }
    assert |whole| == |bits| / 8 * 8;
    BitsToBytesTruncates(bits);
    forall k | 0 <= k < |data|
      ensures data[k] == BitCodec.BitsToBytes(whole)[k]
    {
      BitsToBytesAt(whole, k);
    }
  }

  /** `receive`, from the recovered symbols: nothing recovered gives b"". */
  method Receive(symbols: seq<Complex>) returns (data: seq<Byte>)
    ensures |symbols| == 0 ==> data == []
    ensures data == BitCodec.BitsToBytes(QuadrantBits(symbols))
    ensures |data| == |symbols| / 4
  {
    if |symbols| == 0 {
      return [];
    }
    var bits := SymbolsToBits(symbols);
    data := BitsToBytes(bits);
  }

  /** Over a noiseless link the receiver gets back the bytes the transmitter sent. */
  lemma ModemRoundTrip(data: seq<Byte>)
    ensures BitCodec.BitsToBytes(QuadrantBits(SampleTransmitter.PayloadSymbols(data))) == data
  {
    var bits := BitCodec.BytesToBits(data);
    SampleTransmitter.EvenBitCount(data);
    DecideSymbols(bits);
    BytesBitsRoundTrip(data);
  }
}
