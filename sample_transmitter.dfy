/**
 * The bit-level side of the Sample modem's transmitter: bytes become bits
 * MSB first, bit pairs become QPSK symbols, and a fixed preamble and start
 * frame delimiter are put in front. Pulse shaping and the carrier are not
 * modelled: a transmission yields the symbols before them.
 */
module SampleTransmitter {
  import opened Wrappers
  import opened Exceptions
  import opened Digits
  import opened BitCodec
  import opened Signal
  import Modulation
  import Utf8

  /** A Python list of bits, which a callee may extend in place. */
  class BitList {
    var items: seq<Bit>

    constructor(items: seq<Bit>)
      ensures this.items == items
    {
      this.items := items;
    }
  }

  /** `(byte >> i) & 1` */
  function BitOf(b: Byte, i: nat): Bit
  {
    (b / Pow(2, i)) % 2
  }

  /** The eight shifted-and-masked bits of a byte, i = 7 down to 0, are its MSB-first bits. */
  lemma ShiftedBits(b: Byte)
    ensures seq(8, j requires 0 <= j < 8 => BitOf(b, 7 - j)) == ByteToBits(b)
  {
    forall j | 0 <= j < 8
      ensures BitOf(b, 7 - j) == ByteToBits(b)[j]
    {
      ByteToBitsAt(b, j);
    }
  }

  /** `bytes_to_bits`: each byte contributes its 8 bits, most significant first. */
  method BytesToBits(data: seq<Byte>) returns (bits: seq<Bit>)
    ensures bits == BitCodec.BytesToBits(data)
    ensures |bits| == 8 * |data|
  {
    bits := [];
    var n := 0;
    while n < |data|
      invariant 0 <= n <= |data|
      invariant bits == BitCodec.BytesToBits(data[..n])
    {
      var chunk := seq(8, j requires 0 <= j < 8 => BitOf(data[n], 7 - j));
      ShiftedBits(data[n]);
      BytesToBitsAppend(data[..n], [data[n]]);
      assert data[..n + 1] == data[..n] + [data[n]];
      bits := bits + chunk;
      n := n + 1;
    }
    assert data[..n] == data;
  }

  /** The QPSK point of a bit pair before the 1/√2 scale: 00→1+j, 01→1−j, 10→−1+j, 11→−1−j. */
  function SymbolFor(bit1: Bit, bit2: Bit): (c: Complex)
    ensures (c.re < 0.0 <==> bit1 == 1) && (c.im < 0.0 <==> bit2 == 1)
    ensures (c.re == 1.0 || c.re == -1.0) && (c.im == 1.0 || c.im == -1.0)
  {
    if bit1 == 0 && bit2 == 0 then Complex(1.0, 1.0)
    else if bit1 == 0 && bit2 == 1 then Complex(1.0, -1.0)
    else if bit1 == 1 && bit2 == 0 then Complex(-1.0, 1.0)
    else Complex(-1.0, -1.0)
  }

  /** The Sample modem's table is the corrected, signed mapping of `qpsk_modulate` in simurf/utils. */
  lemma SameTableAsQpskModulate(bit1: Bit, bit2: Bit)
    ensures SymbolFor(bit1, bit2) == Modulation.QpskPoint(bit1, bit2)
  {
  }

  /** The symbols of an even-length bit string, one per consecutive pair. */
  function PairSymbols(p: seq<Bit>): (s: seq<Complex>)
    requires |p| % 2 == 0
    ensures |s| == |p| / 2
    ensures forall k :: 0 <= k < |s| ==> s[k] == SymbolFor(p[2 * k], p[2 * k + 1])
  {
    seq(|p| / 2, k requires 0 <= k < |p| / 2 => SymbolFor(p[2 * k], p[2 * k + 1]))
  }

  /**
   * `bits_to_symbols`: pads the caller's list in place to an even length,
   * then maps each pair to its symbol.
   */
  method BitsToSymbols(bits: BitList) returns (symbols: seq<Complex>)
    modifies bits
    ensures bits.items == Modulation.QpskPad(old(bits.items))
    ensures |symbols| == (|old(bits.items)| + 1) / 2
    ensures symbols == PairSymbols(bits.items)
  {
    if |bits.items| % 2 != 0 {
      bits.items := bits.items + [0];
    }
    symbols := [];
    var i := 0;
    while i < |bits.items|
      invariant i % 2 == 0 && 0 <= i <= |bits.items|
      invariant bits.items == Modulation.QpskPad(old(bits.items))
      invariant |symbols| == i / 2
      invariant forall k :: 0 <= k < |symbols| ==> symbols[k] == SymbolFor(bits.items[2 * k], bits.items[2 * k + 1])
    {
      var bit1, bit2 := bits.items[i], bits.items[i + 1];
      symbols := symbols + [SymbolFor(bit1, bit2)];
      i := i + 2;
    }
  }

  /** 16 alternating symbols ±(1+j), starting with +(1+j). */
  const Preamble: seq<Complex> := [
    Complex(1.0, 1.0), Complex(-1.0, -1.0), Complex(1.0, 1.0), Complex(-1.0, -1.0),
    Complex(1.0, 1.0), Complex(-1.0, -1.0), Complex(1.0, 1.0), Complex(-1.0, -1.0),
    Complex(1.0, 1.0), Complex(-1.0, -1.0), Complex(1.0, 1.0), Complex(-1.0, -1.0),
    Complex(1.0, 1.0), Complex(-1.0, -1.0), Complex(1.0, 1.0), Complex(-1.0, -1.0)]

  /** The start frame delimiter: (1, 1, -1, -1, 1, 1, -1, -1) times (1+j). */
  const Sfd: seq<Complex> := [
    Complex(1.0, 1.0), Complex(1.0, 1.0), Complex(-1.0, -1.0), Complex(-1.0, -1.0),
    Complex(1.0, 1.0), Complex(1.0, 1.0), Complex(-1.0, -1.0), Complex(-1.0, -1.0)]

  /** `add_preamble`: 24 synchronisation symbols, then the payload symbols unchanged. */
  function AddPreamble(symbols: seq<Complex>): (r: seq<Complex>)
    ensures |r| == 24 + |symbols| && r[24..] == symbols
    ensures forall k :: 0 <= k < 16 ==> r[k] == (if k % 2 == 0 then Complex(1.0, 1.0) else Complex(-1.0, -1.0))
    ensures r[16..24] == Sfd
    ensures forall k :: 0 <= k < 24 ==> r[k].re == r[k].im
  {
    Preamble + Sfd + symbols
  }

  lemma EvenBitCount(data: seq<Byte>)
    ensures |BitCodec.BytesToBits(data)| == 2 * (4 * |data|)
    ensures |BitCodec.BytesToBits(data)| % 2 == 0
  {
    DivModOfSum(4 * |data|, 0, 2);
  }

  /** The payload symbols of `data`: one symbol per pair of its MSB-first bits. */
  function PayloadSymbols(data: seq<Byte>): (s: seq<Complex>)
    ensures |s| == 4 * |data|
  {
    EvenBitCount(data);
    PairSymbols(BitCodec.BytesToBits(data))
  }

  /** What `transmit` hands to pulse shaping, and the payload symbol count it returns. */
  datatype Transmission = Transmission(symbols: seq<Complex>, symbolCount: nat)

  /**
   * `transmit`: the log line decodes the payload as UTF-8 first, so a
   * payload that is not UTF-8 raises; otherwise 4 symbols per byte follow
   * the preamble.
   */
  method Transmit(data: seq<Byte>) returns (r: Result<Transmission, Exception>)
    ensures r.Err? <==> !Utf8.Valid(data)
    ensures r.Err? ==> r.error == UnicodeDecodeError
    ensures r.Ok? ==>
      r.value.symbolCount == 4 * |data|
      && r.value.symbols == AddPreamble(PayloadSymbols(data))
  {
    if !Utf8.Valid(data) {
      return Err(UnicodeDecodeError);
    }
    var bits := BytesToBits(data);
    EvenBitCount(data);
    var list := new BitList(bits);
    var symbols := BitsToSymbols(list);
    var withPreamble := AddPreamble(symbols);
    r := Ok(Transmission(withPreamble, |symbols|));
  }
}
