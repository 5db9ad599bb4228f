/**
 * The BPSK and QPSK mappers of the modulation schemes, their hard-decision
 * demodulators, the per-scheme information table and the labelled
 * constellations offered for plotting. 16-QAM lives in module Qam16.
 */
module Modulation {
  import opened Wrappers
  import opened Exceptions
  import opened Digits
  import opened BitCodec
  import opened Signal
  import Qam16

  /** `bpsk_modulate`: 1 - 2b on the real axis. */
  function BpskModulate(bits: seq<Bit>): (symbols: seq<Complex>)
    ensures |symbols| == |bits|
    ensures forall i :: 0 <= i < |bits| ==>
      symbols[i].im == 0.0 && (symbols[i].re == 1.0 || symbols[i].re == -1.0)
      && (symbols[i].re < 0.0 <==> bits[i] == 1)
  {
    seq(|bits|, i requires 0 <= i < |bits| => Complex(Antipodal(bits[i]), 0.0))
  }

  /** `bpsk_demodulate`: 1 exactly where the real part is negative. */
  function BpskDemodulate(symbols: seq<Complex>): (bits: seq<Bit>)
    ensures |bits| == |symbols|
    ensures forall i :: 0 <= i < |symbols| ==> (bits[i] == 1 <==> symbols[i].re < 0.0)
  {
    seq(|symbols|, i requires 0 <= i < |symbols| => HardBit(symbols[i].re))
  }

  /** Demodulating a noiseless BPSK signal gives back the bits. */
  lemma BpskRoundTrip(bits: seq<Bit>)
    ensures BpskDemodulate(BpskModulate(bits)) == bits
  {
    var back := BpskDemodulate(BpskModulate(bits));
    forall i | 0 <= i < |bits|
      ensures back[i] == bits[i]
    {
      HardBitAntipodal(bits[i]);
    }
  }

  /** Any real-axis disturbance of magnitude below 1 leaves every BPSK decision intact. */
  lemma BpskToleratesNoise(bits: seq<Bit>, received: seq<Complex>)
    requires |received| == |bits|
    requires forall i :: 0 <= i < |bits| ==>
      -1.0 < received[i].re - BpskModulate(bits)[i].re < 1.0
    ensures BpskDemodulate(received) == bits
  {
    var back := BpskDemodulate(received);
    forall i | 0 <= i < |bits|
      ensures back[i] == bits[i]
    {
      var sent := BpskModulate(bits)[i].re;
      assert sent == Antipodal(bits[i]);
    }
  }

  /** An odd-length input gets one 0 appended (`np.append(bits, 0)`). */
  function QpskPad(bits: seq<Bit>): (p: seq<Bit>)
    ensures |p| % 2 == 0 && |p| == (|bits| + 1) / 2 * 2
    ensures p[..|bits|] == bits && (|p| > |bits| ==> p[|bits|] == 0)
  {
    if |bits| % 2 != 0 then bits + [0] else bits
  }

  /**
   * The QPSK point of one bit pair, (1 - 2b0) + j(1 - 2b1), in signed
   * arithmetic: the mapping `qpsk_modulate` intends. On a `uint8` input NumPy
   * wraps it instead (QpskModulateAsWritten).
   */
  function QpskPoint(b0: Bit, b1: Bit): (c: Complex)
    ensures (c.re < 0.0 <==> b0 == 1) && (c.im < 0.0 <==> b1 == 1)
    ensures (c.re == 1.0 || c.re == -1.0) && (c.im == 1.0 || c.im == -1.0)
  {
    Complex(Antipodal(b0), Antipodal(b1))
  }

  /**
   * `qpsk_modulate` with the corrected, signed mapping: the pair
   * (b[2k], b[2k+1]) is sent as (1 - 2b[2k]) + j(1 - 2b[2k+1]). This is what
   * the source computes on int64 input or an odd length.
   */
  function QpskModulate(bits: seq<Bit>): (symbols: seq<Complex>)
    ensures |symbols| == (|bits| + 1) / 2
    ensures forall k :: 0 <= k < |symbols| ==>
      2 * k + 1 < |QpskPad(bits)|
      && (symbols[k].re < 0.0 <==> QpskPad(bits)[2 * k] == 1)
      && (symbols[k].im < 0.0 <==> QpskPad(bits)[2 * k + 1] == 1)
      && (symbols[k].re == 1.0 || symbols[k].re == -1.0)
      && (symbols[k].im == 1.0 || symbols[k].im == -1.0)
  {
    var p := QpskPad(bits);
    var h := (|bits| + 1) / 2;
    HalfOf(|p|, h);
    seq(h, k requires 0 <= k < h => QpskPoint(p[2 * k], p[2 * k + 1]))
  }

  /** `qpsk_demodulate`: bit 2k from the sign of the real part, bit 2k+1 from the imaginary part. */
  function QpskDemodulate(symbols: seq<Complex>): (bits: seq<Bit>)
    ensures |bits| == 2 * |symbols|
    ensures forall k :: 0 <= k < |symbols| ==>
      (bits[2 * k] == 1 <==> symbols[k].re < 0.0) && (bits[2 * k + 1] == 1 <==> symbols[k].im < 0.0)
  {
    seq(2 * |symbols|, i requires 0 <= i < 2 * |symbols| =>
      if i % 2 == 0 then HardBit(symbols[i / 2].re) else HardBit(symbols[i / 2].im))
  }

  /** Demodulating a noiseless QPSK signal gives back the zero-padded bits. */
  lemma QpskRoundTrip(bits: seq<Bit>)
    ensures QpskDemodulate(QpskModulate(bits)) == QpskPad(bits)
  {
    var p, symbols := QpskPad(bits), QpskModulate(bits);
    var back := QpskDemodulate(symbols);
    HalfOfEven(|p|);
    forall k | 0 <= k < |p| / 2
      ensures back[2 * k] == p[2 * k] && back[2 * k + 1] == p[2 * k + 1]
    {
      assert k < |symbols|;
    }
    PairwiseEqual(back, p);
  }

  /** Two even-length strings that agree pair by pair are equal. */
  lemma PairwiseEqual(a: seq<Bit>, b: seq<Bit>)
    requires |a| == |b| && |a| % 2 == 0
    requires forall k :: 0 <= k < |a| / 2 ==> a[2 * k] == b[2 * k] && a[2 * k + 1] == b[2 * k + 1]
    ensures a == b
  {
    forall i | 0 <= i < |a|
      ensures a[i] == b[i]
    {
      var k := i / 2;
      if i % 2 == 0 {
        assert i == 2 * k;
      } else {
        assert i == 2 * k + 1;
      }
    }
  }

  /** A bit pair is sent at (1 - 2b0) + j(1 - 2b1): 00 → 1+j, 01 → 1-j, 10 → -1+j, 11 → -1-j. */
  lemma QpskPairs()
    ensures QpskModulate([0, 0]) == [Complex(1.0, 1.0)]
    ensures QpskModulate([0, 1]) == [Complex(1.0, -1.0)]
    ensures QpskModulate([1, 0]) == [Complex(-1.0, 1.0)]
    ensures QpskModulate([1, 1]) == [Complex(-1.0, -1.0)]
  {
  }

  /**
   * `1 - 2 * b` evaluated in `uint8`, as NumPy evaluates it on a `uint8` bit
   * array: bit 0 gives 1 and bit 1 wraps to 255. Both are positive.
   */
  function WrappedCoordinate(b: Bit): (x: real)
    ensures x > 0.0
    ensures x == 255.0 <==> b == 1
    ensures x == 1.0 <==> b == 0
  {
    ((1 - 2 * b) % 256) as real
  }

  /**
   * `qpsk_modulate` as written on a `uint8` bit array, the type every frame
   * of `packet_to_bits` has. An odd length is padded by `np.append`, which
   * promotes to int64, so the coordinates stay ±1; an even length stays
   * `uint8`, and every coordinate is 1 or 255.
   */
  function QpskModulateAsWritten(bits: seq<Bit>): (symbols: seq<Complex>)
    ensures |symbols| == (|bits| + 1) / 2
    ensures |bits| % 2 != 0 ==> symbols == QpskModulate(bits)
    ensures |bits| % 2 == 0 ==> forall k :: 0 <= k < |symbols| ==>
      symbols[k].re > 0.0 && symbols[k].im > 0.0
      && (symbols[k].re == 255.0 <==> bits[2 * k] == 1)
      && (symbols[k].im == 255.0 <==> bits[2 * k + 1] == 1)
  {
    if |bits| % 2 != 0 then QpskModulate(bits)
    else
      HalfOfEven(|bits|);
      seq(|bits| / 2, k requires 0 <= k < |bits| / 2 =>
        PairInside(|bits|, k);
        Complex(WrappedCoordinate(bits[2 * k]), WrappedCoordinate(bits[2 * k + 1])))
  }

  lemma HalfOf(n: nat, h: nat)
    requires n == h * 2
    ensures n / 2 == h && forall k :: 0 <= k < h ==> 2 * k + 1 < n
  {
  }

  lemma HalfOfEven(n: nat)
    requires n % 2 == 0
    ensures (n + 1) / 2 == n / 2 && 2 * (n / 2) == n
  {
  }

  lemma PairInside(n: nat, k: nat)
    requires n % 2 == 0 && k < n / 2
    ensures 2 * k + 1 < n
  {
  }

  /**
   * As written, an even-length `uint8` input lands wholly in the first
   * quadrant: a noiseless signal demodulates to zeros, so the round trip
   * holds only for the all-zero input.
   */
  lemma QpskAsWrittenReadsZeros(bits: seq<Bit>)
    requires |bits| % 2 == 0
    ensures QpskDemodulate(QpskModulateAsWritten(bits)) == Qam16.Zeros(|bits|)
    ensures QpskDemodulate(QpskModulateAsWritten(bits)) == bits <==>
      forall i :: 0 <= i < |bits| ==> bits[i] == 0
  {
    var symbols := QpskModulateAsWritten(bits);
    var back := QpskDemodulate(symbols);
    var zeros := Qam16.Zeros(|bits|);
    assert back == zeros by {
      HalfOfEven(|bits|);
      forall k | 0 <= k < |back| / 2
        ensures back[2 * k] == zeros[2 * k] && back[2 * k + 1] == zeros[2 * k + 1]
      {
        assert k < |symbols|;
      }
      PairwiseEqual(back, zeros);
    }
    ZerosExactly(bits);
  }

  /** A bit string equals the zeros of its length exactly when every bit is 0. */
  lemma ZerosExactly(bits: seq<Bit>)
    ensures Qam16.Zeros(|bits|) == bits <==> forall i :: 0 <= i < |bits| ==> bits[i] == 0
  {
    if forall i :: 0 <= i < |bits| ==> bits[i] == 0 {
      assert Qam16.Zeros(|bits|) == bits;
    }
  }

  /** The self-test's QPSK check on `uint8` bits 10110010 reads back eight zeros, so it fails. */
  lemma QpskSelfTestFails()
    ensures QpskDemodulate(QpskModulateAsWritten([1, 0, 1, 1, 0, 0, 1, 0])) == [0, 0, 0, 0, 0, 0, 0, 0]
    ensures QpskDemodulate(QpskModulateAsWritten([1, 0, 1, 1, 0, 0, 1, 0])) != [1, 0, 1, 1, 0, 0, 1, 0]
  {
    var bits: seq<Bit> := [1, 0, 1, 1, 0, 0, 1, 0];
    QpskAsWrittenReadsZeros(bits);
    assert Qam16.Zeros(8) == [0, 0, 0, 0, 0, 0, 0, 0];
  }

  /** One log-likelihood ratio 4x / σ²; for σ² > 0 it is negative exactly when x is. */
  function Llr(x: real, noiseVar: real): (l: real)
    requires noiseVar != 0.0
    ensures l * noiseVar == 4.0 * x
    ensures noiseVar > 0.0 ==> (l < 0.0 <==> x < 0.0)
  {
    var l := 4.0 * x / noiseVar;
    if noiseVar > 0.0 then SignOfQuotient(l, x, noiseVar); l else l
  }

  /** When l·σ² == 4x with σ² > 0, l and x have the same sign. */
  lemma SignOfQuotient(l: real, x: real, noiseVar: real)
    requires noiseVar > 0.0 && l * noiseVar == 4.0 * x
    ensures l < 0.0 <==> x < 0.0
  {
    if l < 0.0 {
      assert l * noiseVar < 0.0;
    } else {
      assert l * noiseVar >= 0.0;
    }
  }

  /** `soft_qpsk_demodulate`: the ratios of the real and imaginary parts, interleaved. */
  function SoftQpskDemodulate(symbols: seq<Complex>, noiseVar: real): (llrs: seq<real>)
    requires noiseVar != 0.0
    ensures |llrs| == 2 * |symbols|
    ensures forall k :: 0 <= k < |symbols| ==>
      llrs[2 * k] == Llr(symbols[k].re, noiseVar) && llrs[2 * k + 1] == Llr(symbols[k].im, noiseVar)
  {
    seq(2 * |symbols|, i requires 0 <= i < 2 * |symbols| =>
      if i % 2 == 0 then Llr(symbols[i / 2].re, noiseVar) else Llr(symbols[i / 2].im, noiseVar))
  }

  /** With a positive noise variance, the sign of every ratio is the hard decision of `qpsk_demodulate`. */
  lemma SoftAgreesWithHard(symbols: seq<Complex>, noiseVar: real)
    requires noiseVar > 0.0
    ensures forall i :: 0 <= i < 2 * |symbols| ==>
      (SoftQpskDemodulate(symbols, noiseVar)[i] < 0.0 <==> QpskDemodulate(symbols)[i] == 1)
  {
    var llrs, bits := SoftQpskDemodulate(symbols, noiseVar), QpskDemodulate(symbols);
    forall i | 0 <= i < 2 * |symbols|
      ensures llrs[i] < 0.0 <==> bits[i] == 1
    {
      var k := i / 2;
      if i % 2 == 0 {
        assert i == 2 * k;
      } else {
        assert i == 2 * k + 1;
      }
    }
  }

  /** What `get_modulation_info` reports for a scheme. */
  datatype ModulationInfo = ModulationInfo(
    name: string, bitsPerSymbol: nat, constellationSize: nat,
    peakToAvgPower: real, spectralEfficiency: real)

  /** `get_modulation_info`: the entry for a known scheme; None stands for the empty dict. */
  function GetModulationInfo(modulation: string): (r: Option<ModulationInfo>)
    ensures r.Some? <==> modulation in {"bpsk", "qpsk", "16qam"}
    ensures modulation == "bpsk" ==> r.Some? && r.value.bitsPerSymbol == 1
    ensures modulation == "qpsk" ==> r.Some? && r.value.bitsPerSymbol == 2
    ensures modulation == "16qam" ==> r.Some? && r.value.bitsPerSymbol == 4
    ensures r.Some? ==>
      r.value.constellationSize == Pow(2, r.value.bitsPerSymbol)
      && r.value.spectralEfficiency == r.value.bitsPerSymbol as real
  {
    if modulation == "bpsk" then
      Some(ModulationInfo("Binary Phase Shift Keying", 1, 2, 1.0, 1.0))
    else if modulation == "qpsk" then
      Some(ModulationInfo("Quadrature Phase Shift Keying", 2, 4, 1.0, 2.0))
    else if modulation == "16qam" then
      Some(ModulationInfo("16-ary Quadrature Amplitude Modulation", 4, 16, 1.8, 4.0))
    else None
  }

  /** Each mapper emits ceil(n / bits_per_symbol) symbols for n bits, as the table says. */
  lemma InfoMatchesMappers(bits: seq<Bit>)
    ensures |BpskModulate(bits)| * GetModulationInfo("bpsk").value.bitsPerSymbol == |bits|
    ensures var b := GetModulationInfo("qpsk").value.bitsPerSymbol;
      |QpskModulate(bits)| == (|bits| + b - 1) / b
    ensures var b := GetModulationInfo("16qam").value.bitsPerSymbol;
      |Qam16.Symbols(bits)| == (|bits| + b - 1) / b
  {
    var p := Qam16.Pad4(bits);
    var n := |bits|;
    var q := (n + 3) / 4;
    assert |p| == 4 * (|p| / 4);
    DivModRecompose(n + 3, 4);
    assert 4 * q <= n + 3 < 4 * q + 4;
    assert |p| / 4 == q;
  }

  /** A bit written as `'0'` or `'1'`. */
  function BitChar(b: Bit): char
  {
    if b == 1 then '1' else '0'
  }

  /** The characters of a bit string, most significant first. */
  function BitString(bits: seq<Bit>): (s: string)
    ensures |s| == |bits|
    ensures forall i :: 0 <= i < |bits| ==> (s[i] == '1' <==> bits[i] == 1) && s[i] in {'0', '1'}
  {
    seq(|bits|, i requires 0 <= i < |bits| => BitChar(bits[i]))
  }

  /** The bits a label string of `'0'`s and `'1'`s spells. */
  function LabelBits(s: string): (bits: seq<Bit>)
    ensures |bits| == |s|
  {
    seq(|s|, i requires 0 <= i < |s| => if s[i] == '1' then 1 else 0)
  }

  lemma LabelBitsString(bits: seq<Bit>)
    ensures LabelBits(BitString(bits)) == bits
  {
  }

  /** The real parts, imaginary parts and labels `constellation_plot_data` returns. */
  datatype PlotData = PlotData(re: seq<real>, im: seq<real>, labels: seq<string>)

  /** `constellation_plot_data`; an unknown name raises ValueError. */
  function ConstellationPlotData(modulation: string): (r: Result<PlotData, Exception>)
    ensures r.Ok? <==> modulation in {"bpsk", "qpsk", "16qam"}
    ensures r.Err? ==> r.error == ValueError
    ensures r.Ok? ==>
      |r.value.re| == |r.value.im| == |r.value.labels|
      == Pow(2, GetModulationInfo(modulation).value.bitsPerSymbol)
  {
    if modulation == "bpsk" then
      Ok(PlotData([-1.0, 1.0], [0.0, 0.0], ["1", "0"]))
    else if modulation == "qpsk" then
      Ok(PlotData([1.0, -1.0, -1.0, 1.0], [1.0, 1.0, -1.0, -1.0], ["00", "01", "11", "10"]))
    else if modulation == "16qam" then
      Ok(PlotData(
        seq(16, k requires 0 <= k < 16 => Qam16.Point(k).re),
        seq(16, k requires 0 <= k < 16 => Qam16.Point(k).im),
        seq(16, k requires 0 <= k < 16 => BitString(Qam16.NibbleBits(Qam16.GrayMap[k])))))
    else Err(ValueError)
  }

  /** The point drawn at index k of the plot data. */
  function PlotPoint(d: PlotData, k: nat): Complex
    requires k < |d.re| && k < |d.im|
  {
    Complex(d.re[k], d.im[k])
  }

  /** Every BPSK plot point is labelled with the bit its demodulation yields. */
  lemma BpskPlotLabelsAgree(k: nat)
    requires k < 2
    ensures var d := ConstellationPlotData("bpsk").value;
      BpskDemodulate([PlotPoint(d, k)]) == LabelBits(d.labels[k])
  {
  }

  /** Every 16-QAM plot point is labelled with the four bits its demodulation yields. */
  lemma Qam16PlotLabelsAgree(k: nat)
    requires k < 16
    ensures var d := ConstellationPlotData("16qam").value;
      Qam16.Bits([PlotPoint(d, k)]) == LabelBits(d.labels[k])
  {
    var d := ConstellationPlotData("16qam").value;
    assert PlotPoint(d, k) == Qam16.Point(k);
    Qam16.NearestOfPoint(k);
    Qam16.GrayInvolution(k);
    var s := [Qam16.Point(k)];
    assert s[..0] == [];
    assert Qam16.Bits(s) == Qam16.Label(Qam16.Point(k));
    LabelBitsString(Qam16.NibbleBits(Qam16.GrayMap[k]));
  }

  /**
   * The QPSK plot labels match the demodulator at 1+j (00) and -1-j (11)
   * but not at the other two points: the code sends 01 as 1-j and 10 as
   * -1+j, while the plot labels -1+j as 01 and 1-j as 10.
   */
  lemma QpskPlotLabelsDisagree()
    ensures var d := ConstellationPlotData("qpsk").value;
      QpskDemodulate([PlotPoint(d, 0)]) == LabelBits(d.labels[0])
      && QpskDemodulate([PlotPoint(d, 2)]) == LabelBits(d.labels[2])
      && QpskDemodulate([PlotPoint(d, 1)]) != LabelBits(d.labels[1])
      && QpskDemodulate([PlotPoint(d, 3)]) != LabelBits(d.labels[3])
  {
    var d := ConstellationPlotData("qpsk").value;
    assert d == PlotData([1.0, -1.0, -1.0, 1.0], [1.0, 1.0, -1.0, -1.0], ["00", "01", "11", "10"]);
    assert PlotPoint(d, 0) == Complex(1.0, 1.0) && PlotPoint(d, 2) == Complex(-1.0, -1.0);
    assert PlotPoint(d, 1) == Complex(-1.0, 1.0) && PlotPoint(d, 3) == Complex(1.0, -1.0);
    assert QpskDemodulate([PlotPoint(d, 1)])[0] == 1;
    assert LabelBits(d.labels[1])[0] == 0;
    assert QpskDemodulate([PlotPoint(d, 3)])[0] == 0;
    assert LabelBits(d.labels[3])[0] == 1;
  }
}
