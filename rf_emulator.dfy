/**
 * The RF emulator's bit-level stages: an IP packet becomes bits MSB first,
 * bit pairs become QPSK symbols by the emulator's own table, and symbols
 * are written out as interleaved real and imaginary parts. The channel
 * effects (noise, multipath, frequency offset) and the file itself are not
 * modelled.
 */
module RfEmulator {
  import opened BitCodec
  import opened Signal
  import Modulation

  /** `constellation` before the 1/√2 scale: 1+j, −1+j, −1−j, 1−j. */
  const Constellation: seq<Complex> :=
    [Complex(1.0, 1.0), Complex(-1.0, 1.0), Complex(-1.0, -1.0), Complex(1.0, -1.0)]

  /** `ip_to_binary`: `format(byte, '08b')` for every byte, in order. */
  method IpToBinary(packet: seq<Byte>) returns (bits: seq<Bit>)
    ensures bits == BytesToBits(packet)
    ensures |bits| == 8 * |packet|
  {
    bits := [];
    var n := 0;
    while n < |packet|
      invariant 0 <= n <= |packet|
      invariant bits == BytesToBits(packet[..n])
    {
      BytesToBitsAppend(packet[..n], [packet[n]]);
      assert packet[..n + 1] == packet[..n] + [packet[n]];
      bits := bits + ByteToBits(packet[n]);
      n := n + 1;
    }
    assert packet[..n] == packet;
  }

  /**
   * The constellation index of a bit pair: 00→0, 01→1, 11→2, 10→3. The
   * second bit picks the sign of the real part and the first bit the sign
   * of the imaginary part.
   */
  function IndexFor(b0: Bit, b1: Bit): (i: nat)
    ensures i < 4
    ensures (Constellation[i].re < 0.0 <==> b1 == 1) && (Constellation[i].im < 0.0 <==> b0 == 1)
  {
    if b0 == 0 && b1 == 0 then 0
    else if b0 == 0 && b1 == 1 then 1
    else if b0 == 1 && b1 == 1 then 2
    else 3
  }

  /** The emulator's symbols for a bit string, one per complete pair. */
  function EmulatorSymbols(p: seq<Bit>): (s: seq<Complex>)
    ensures |s| == |p| / 2
    ensures forall k :: 0 <= k < |s| ==> s[k] == Constellation[IndexFor(p[2 * k], p[2 * k + 1])]
  {
    seq(|p| / 2, k requires 0 <= k < |p| / 2 => Constellation[IndexFor(p[2 * k], p[2 * k + 1])])
  }

  /**
   * `qpsk_modulation`: pad to an even length with one 0, then fill a
   * zeroed array with the constellation point of every pair.
   */
  method QpskModulation(bits: seq<Bit>) returns (symbols: seq<Complex>)
    ensures |symbols| == (|bits| + 1) / 2
    ensures symbols == EmulatorSymbols(Modulation.QpskPad(bits))
  {
    var p := if |bits| % 2 != 0 then bits + [0] else bits;
    var modulated := new Complex[|p| / 2](_ => Complex(0.0, 0.0));
    for i := 0 to modulated.Length
      invariant forall k :: 0 <= k < i ==> modulated[k] == Constellation[IndexFor(p[2 * k], p[2 * k + 1])]
    {
      modulated[i] := Constellation[IndexFor(p[2 * i], p[2 * i + 1])];
    }
    symbols := modulated[..];
  }

  /** Even positions carry the real parts and odd positions the imaginary parts. */
  function Interleaved(samples: seq<Complex>): (r: seq<real>)
    ensures |r| == 2 * |samples|
  {
    seq(2 * |samples|, i requires 0 <= i < 2 * |samples| =>
      if i % 2 == 0 then samples[i / 2].re else samples[i / 2].im)
  }

  /** The interleaving in `save_complex_samples`: a zeroed array of 2n floats, then [0::2] and [1::2]. */
  method Interleave(samples: seq<Complex>) returns (r: seq<real>)
    ensures |r| == 2 * |samples|
    ensures forall k :: 0 <= k < |samples| ==> r[2 * k] == samples[k].re && r[2 * k + 1] == samples[k].im
    ensures r == Interleaved(samples)
  {
    var interleaved := new real[2 * |samples|](_ => 0.0);
    for k := 0 to |samples|
      invariant forall j :: 0 <= j < 2 * k ==>
        interleaved[j] == (if j % 2 == 0 then samples[j / 2].re else samples[j / 2].im)
    {
      interleaved[2 * k] := samples[k].re;
      interleaved[2 * k + 1] := samples[k].im;
    }
    r := interleaved[..];
  }

  /** `process_packet` up to the channel stage: four symbols per byte. */
  method ProcessPacket(packet: seq<Byte>) returns (symbols: seq<Complex>)
    ensures |symbols| == 4 * |packet|
    ensures symbols == EmulatorSymbols(BytesToBits(packet))
  {
    var bits := IpToBinary(packet);
    symbols := QpskModulation(bits);
  }
}
