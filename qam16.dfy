/**
 * 16-QAM with Gray labels: four bits per symbol, read MSB-first, are looked
 * up in the inverse Gray table to pick one of 16 grid points; demodulation
 * takes the nearest grid point (the first one among equally near points) and
 * emits its Gray label MSB-first.
 */
module Qam16 {
  import opened Digits
  import opened BitCodec
  import opened Signal

  /** The coordinate of row or column i of the 4 × 4 grid: -3, -1, 1, 3. */
  function Level(i: nat): (x: real)
    requires i < 4
    ensures x == -3.0 || x == -1.0 || x == 1.0 || x == 3.0
  {
    (2 * i - 3) as real
  }

  /** Constellation point k: real part from k div 4, imaginary part from k mod 4. */
  function Point(k: nat): Complex
    requires k < 16
  {
    Complex(Level(k / 4), Level(k % 4))
  }

  /** The label of constellation point k (`qam16_gray_map`). */
  const GrayMap: seq<nat> := [0, 1, 3, 2, 4, 5, 7, 6, 12, 13, 15, 14, 8, 9, 11, 10]

  /**
   * The table is its own inverse: relabelling a label gives back the point.
   * Both bijection facts below follow from this.
   */
  lemma GrayInvolution(v: nat)
    requires v < 16
    ensures GrayMap[v] < 16 && GrayMap[GrayMap[v]] == v
  {
    assert v == 0 || v == 1 || v == 2 || v == 3 || v == 4 || v == 5 || v == 6 || v == 7
      || v == 8 || v == 9 || v == 10 || v == 11 || v == 12 || v == 13 || v == 14 || v == 15;
  }

  /** The last position below n holding v, as `{v: k for k, v in ...}` keeps the last key. */
  function LastIndex(table: seq<nat>, v: nat, n: nat): (k: nat)
    requires n <= |table|
    requires exists k :: 0 <= k < n && table[k] == v
    ensures k < n && table[k] == v
    ensures forall k' :: k < k' < n ==> table[k'] != v
  {
    if table[n - 1] == v then n - 1 else LastIndex(table, v, n - 1)
  }

  /** `qam16_gray_demap`: the constellation index carrying label v. */
  function GrayDemap(v: nat): (k: nat)
    requires v < 16
    ensures k < 16 && GrayMap[k] == v
  {
    GrayInvolution(v);
    LastIndex(GrayMap, v, 16)
  }

  /** GrayMap is a bijection on 0..15 and GrayDemap is its inverse, in both directions. */
  lemma GrayBijection(k: nat, v: nat)
    requires k < 16 && v < 16
    ensures GrayMap[k] < 16 && GrayDemap(GrayMap[k]) == k
    ensures GrayMap[GrayDemap(v)] == v
    ensures GrayMap[k] == v <==> GrayDemap(v) == k
  {
    GrayInvolution(k);
    var j := GrayDemap(GrayMap[k]);
    GrayInvolution(j);
  }

  /** The four bits of a label, MSB-first: `(v >> 3) & 1`, ..., `v & 1`. */
  function NibbleBits(v: nat): (bits: seq<Bit>)
    requires v < 16
    ensures |bits| == 4
  {
    [(v / 8) % 2, (v / 4) % 2, (v / 2) % 2, v % 2]
  }

  /** `(b[0] << 3) + (b[1] << 2) + (b[2] << 1) + b[3]` */
  function NibbleValue(g: seq<Bit>): (v: nat)
    requires |g| == 4
    ensures v < 16
  {
    (g[0] as int) * 8 + (g[1] as int) * 4 + (g[2] as int) * 2 + g[3]
  }

  /** The shifts agree with the big-endian digit codec. */
  lemma NibbleDigits(v: nat)
    requires v < 16
    ensures NibbleBits(v) == ToDigits(v, 4, 2)
  {
    ToDigitsAt(v, 4, 2, 0);
    ToDigitsAt(v, 4, 2, 1);
    ToDigitsAt(v, 4, 2, 2);
    ToDigitsAt(v, 4, 2, 3);
    assert Pow(2, 3) == 8;
  }

  /** Packing four bits and unpacking them again are inverse. */
  lemma NibbleRoundTrip(g: seq<Bit>, v: nat)
    requires |g| == 4 && v < 16
    ensures NibbleBits(NibbleValue(g)) == g
    ensures NibbleValue(NibbleBits(v)) == v
  {
    NibbleValueOfBits(v);
    BitsOfNibbleValue(g);
  }

  /** Unpacking a value below 16 and packing it again gives the value back. */
  lemma NibbleValueOfBits(v: nat)
    requires v < 16
    ensures NibbleValue(NibbleBits(v)) == v
  {
    assert v == 0 || v == 1 || v == 2 || v == 3 || v == 4 || v == 5 || v == 6 || v == 7
      || v == 8 || v == 9 || v == 10 || v == 11 || v == 12 || v == 13 || v == 14 || v == 15;
  }

  /** Packing four bits and unpacking the value gives the bits back. */
  lemma BitsOfNibbleValue(g: seq<Bit>)
    requires |g| == 4
    ensures NibbleBits(NibbleValue(g)) == g
  {
    var b0, b1, b2, b3: int := g[0], g[1], g[2], g[3];
    var n := NibbleValue(g);
    DivModOfSum(b0 * 4 + b1 * 2 + b2, b3, 2);
    DivModOfSum(b0 * 2 + b1, b2 * 2 + b3, 4);
    DivModOfSum(b0, b1 * 4 + b2 * 2 + b3, 8);
    assert (n / 2) % 2 == b2 by {
      DivModOfSum(b0 * 2 + b1, b2, 2);
    }
    assert (n / 4) % 2 == b1 by {
      DivModOfSum(b0, b1, 2);
    }
    assert (n / 8) % 2 == b0;
    assert NibbleBits(n) == [b0, b1, b2, b3];
  }

  /** Bits differing between two labels. */
  function LabelDistance(a: nat, b: nat): nat
    requires a < 16 && b < 16
  {
    var x, y := NibbleBits(a), NibbleBits(b);
    (if x[0] != y[0] then 1 else 0) + (if x[1] != y[1] then 1 else 0)
      + (if x[2] != y[2] then 1 else 0) + (if x[3] != y[3] then 1 else 0)
  }

  /** The Gray property: neighbouring grid points carry labels that differ in exactly one bit. */
  lemma GrayNeighbours(k: nat)
    requires k < 16
    ensures k % 4 < 3 ==> LabelDistance(GrayMap[k], GrayMap[k + 1]) == 1
    ensures k < 12 ==> LabelDistance(GrayMap[k], GrayMap[k + 4]) == 1
  {
    assert k == 0 || k == 1 || k == 2 || k == 3 || k == 4 || k == 5 || k == 6 || k == 7
      || k == 8 || k == 9 || k == 10 || k == 11 || k == 12 || k == 13 || k == 14 || k == 15;
  }

  /** The bits padded with zeros to a multiple of 4. */
  function Pad4(bits: seq<Bit>): (p: seq<Bit>)
    ensures |p| % 4 == 0 && |bits| <= |p| < |bits| + 4
    ensures p[..|bits|] == bits
    ensures forall i :: |bits| <= i < |p| ==> p[i] == 0
  {
    var remainder := |bits| % 4;
    if remainder != 0 then bits + Zeros(4 - remainder) else bits
  }

  /** n zero bits (`np.zeros(n, dtype=np.uint8)`). */
  function Zeros(n: nat): (z: seq<Bit>)
    ensures |z| == n && forall i :: 0 <= i < n ==> z[i] == 0
  {
    if n == 0 then [] else [0] + Zeros(n - 1)
  }

  /** The symbols `qam16_modulate` produces: one grid point per 4-bit group of the padded bits. */
  function Symbols(bits: seq<Bit>): (s: seq<Complex>)
    ensures |s| == |Pad4(bits)| / 4
  {
    var p := Pad4(bits);
    seq(|p| / 4, i requires 0 <= i < |p| / 4 => Point(GrayDemap(NibbleValue(p[4 * i..4 * i + 4]))))
  }

  /** `qam16_modulate`: fill a symbol array group by group. */
  method Modulate(bits: seq<Bit>) returns (symbols: array<Complex>)
    ensures symbols[..] == Symbols(bits)
  {
    var padded := Pad4(bits);
    var n := |padded| / 4;
    ghost var spec := Symbols(bits);
    assert 4 * n == |padded| && |spec| == n;
    symbols := new Complex[n](_ => Complex(0.0, 0.0));
    for i := 0 to n
      invariant forall k :: 0 <= k < i ==> symbols[k] == spec[k]
    {
      var group := padded[4 * i..4 * i + 4];
      var value := (group[0] as int) * 8 + (group[1] as int) * 4 + (group[2] as int) * 2 + group[3];
      SymbolAt(bits, i);
      assert value == NibbleValue(group);
      symbols[i] := Point(GrayDemap(value));
    }
  }

  /** The first index below n whose point is nearest to s (`np.argmin`). */
  function ArgMin(s: Complex, n: nat): (j: nat)
    requires 1 <= n <= 16
    ensures j < n
  {
    if n == 1 then 0
    else
      var j := ArgMin(s, n - 1);
      if SqDist(s, Point(n - 1)) < SqDist(s, Point(j)) then n - 1 else j
  }

  /** ArgMin is nearest, and every earlier point is strictly farther. */
  lemma {:induction false} ArgMinSpec(s: Complex, n: nat)
    requires 1 <= n <= 16
    ensures forall k :: 0 <= k < n ==> SqDist(s, Point(ArgMin(s, n))) <= SqDist(s, Point(k))
    ensures forall k :: 0 <= k < ArgMin(s, n) ==> SqDist(s, Point(ArgMin(s, n))) < SqDist(s, Point(k))
  {
    if n > 1 {
      ArgMinSpec(s, n - 1);
      var j := ArgMin(s, n - 1);
      var dj, dl := SqDist(s, Point(j)), SqDist(s, Point(n - 1));
      var m := ArgMin(s, n);
      assert m == (if dl < dj then n - 1 else j);
      forall k | 0 <= k < n
        ensures SqDist(s, Point(m)) <= SqDist(s, Point(k))
        ensures k < m ==> SqDist(s, Point(m)) < SqDist(s, Point(k))
      {
        if k < n - 1 {
          assert dj <= SqDist(s, Point(k));
          assert k < j ==> dj < SqDist(s, Point(k));
        }
      }
    }
  }

  /** The nearest constellation index. */
  function Nearest(s: Complex): (k: nat)
    ensures k < 16
  {
    ArgMin(s, 16)
  }

  /** Squares of differences of two grid levels: 0 for the same level, at least 4 otherwise. */
  lemma LevelGap(a: nat, c: nat)
    requires a < 4 && c < 4
    ensures var d := Level(a) - Level(c); d * d >= 0.0 && (a != c ==> d * d >= 4.0)
  {
    assert a == 0 || a == 1 || a == 2 || a == 3;
    assert c == 0 || c == 1 || c == 2 || c == 3;
  }

  /** Distinct grid points are at squared distance at least 4. */
  lemma GridSeparation(m: nat, k: nat)
    requires m < 16 && k < 16 && m != k
    ensures SqDist(Point(m), Point(k)) >= 4.0
  {
    var a, b, c, d := m / 4, m % 4, k / 4, k % 4;
    DivModRecompose(m, 4);
    DivModRecompose(k, 4);
    assert a != c || b != d;
    LevelGap(a, c);
    LevelGap(b, d);
    var p, q := Point(m), Point(k);
    SqDistParts(p, q);
    assert p.re - q.re == Level(a) - Level(c) && p.im - q.im == Level(b) - Level(d);
  }

  /** A noiseless symbol demodulates to its own constellation index. */
  lemma NearestOfPoint(m: nat)
    requires m < 16
    ensures Nearest(Point(m)) == m
  {
    var p := Point(m);
    var j := Nearest(p);
    ArgMinSpec(p, 16);
    assert SqDist(p, p) == 0.0;
    if j != m {
      GridSeparation(m, j);
      assert false;
    }
  }

  /** The Gray label of the grid point nearest to s, MSB-first. */
  function Label(s: Complex): (g: seq<Bit>)
    ensures |g| == 4
  {
    NibbleBits(GrayMap[Nearest(s)])
  }

  /** The bits `qam16_demodulate` produces: the nearest point's label per symbol, MSB-first. */
  function Bits(symbols: seq<Complex>): (bits: seq<Bit>)
    ensures |bits| == 4 * |symbols|
  {
    if |symbols| == 0 then []
    else Bits(symbols[..|symbols| - 1]) + Label(symbols[|symbols| - 1])
  }

  /** Write the four bits of a label, MSB-first, at `at`, leaving the bits before it alone. */
  method WriteNibble(bits: array<Bit>, at: nat, value: nat)
    requires value < 16 && at + 4 <= bits.Length
    modifies bits
    ensures bits[..at] == old(bits[..at])
    ensures bits[at..at + 4] == NibbleBits(value)
  {
    bits[at] := (value / 8) % 2;
    bits[at + 1] := (value / 4) % 2;
    bits[at + 2] := (value / 2) % 2;
    bits[at + 3] := value % 2;
  }

  /** `qam16_demodulate`: fill a bit array, four entries per symbol. */
  method Demodulate(symbols: seq<Complex>) returns (bits: array<Bit>)
    ensures bits[..] == Bits(symbols)
  {
    bits := new Bit[4 * |symbols|](_ => 0);
    for i := 0 to |symbols|
      invariant bits[..4 * i] == Bits(symbols[..i])
    {
      var closest := Nearest(symbols[i]);
      GrayInvolution(closest);
      var value := GrayMap[closest];
      assert NibbleBits(value) == Label(symbols[i]);
      WriteNibble(bits, 4 * i, value);
      ExtendBits(bits[..], symbols, i);
    }
    assert symbols[..|symbols|] == symbols;
    assert bits[..] == bits[..4 * |symbols|];
  }

  /** The i-th symbol is the grid point of the i-th group of the padded bits. */
  lemma SymbolAt(bits: seq<Bit>, i: nat)
    requires i < |Symbols(bits)|
    ensures var p := Pad4(bits);
      4 * i + 4 <= |p| && Symbols(bits)[i] == Point(GrayDemap(NibbleValue(p[4 * i..4 * i + 4])))
  {
  }

  /** Symbol i of the modulation is demodulated to the point it was sent as. */
  lemma SymbolNearest(bits: seq<Bit>, i: nat)
    requires i < |Symbols(bits)|
    ensures 4 * i + 4 <= |Pad4(bits)|
    ensures Nearest(Symbols(bits)[i]) == GrayDemap(NibbleValue(Pad4(bits)[4 * i..4 * i + 4]))
  {
    SymbolAt(bits, i);
    NearestOfPoint(GrayDemap(NibbleValue(Pad4(bits)[4 * i..4 * i + 4])));
  }

  /** Relabelling a group's point gives back the group. */
  lemma GroupLabel(group: seq<Bit>)
    requires |group| == 4
    ensures NibbleBits(GrayMap[GrayDemap(NibbleValue(group))]) == group
  {
    NibbleRoundTrip(group, 0);
  }

  /**
   * Demodulating one more symbol appends its four bits: a prefix holding the
   * labels of symbols[..i], then the label of symbol i, holds those of symbols[..i + 1].
   */
  lemma ExtendBits(cur: seq<Bit>, symbols: seq<Complex>, i: nat)
    requires i < |symbols| && 4 * i + 4 <= |cur|
    requires cur[..4 * i] == Bits(symbols[..i]) && cur[4 * i..4 * i + 4] == Label(symbols[i])
    ensures cur[..4 * i + 4] == Bits(symbols[..i + 1])
  {
    assert cur[..4 * i + 4] == cur[..4 * i] + cur[4 * i..4 * i + 4];
    BitsSnoc(symbols, i);
  }

  lemma BitsSnoc(symbols: seq<Complex>, i: nat)
    requires i < |symbols|
    ensures Bits(symbols[..i + 1]) == Bits(symbols[..i]) + Label(symbols[i])
  {
    assert symbols[..i + 1][..i] == symbols[..i];
  }

  /** A symbol nearest to the point carrying group g demodulates to g. */
  lemma Relabel(s: Complex, g: seq<Bit>)
    requires |g| == 4 && Nearest(s) == GrayDemap(NibbleValue(g))
    ensures Label(s) == g
  {
    GroupLabel(g);
  }

  /** Bits(symbols) is p when each symbol's label is the matching 4-bit group of p. */
  lemma {:induction false} BitsFromGroups(symbols: seq<Complex>, p: seq<Bit>)
    requires |p| == 4 * |symbols|
    requires forall j :: 0 <= j < |symbols| ==> Label(symbols[j]) == p[4 * j..4 * j + 4]
    ensures Bits(symbols) == p
  {
    if |symbols| > 0 {
      var n := |symbols| - 1;
      var init, front := symbols[..n], p[..4 * n];
      forall j | 0 <= j < n
        ensures Label(init[j]) == front[4 * j..4 * j + 4]
      {
        assert init[j] == symbols[j];
        assert front[4 * j..4 * j + 4] == p[4 * j..4 * j + 4];
      }
      BitsFromGroups(init, front);
      assert p == front + p[4 * n..4 * n + 4];
    }
  }

  /** On noiseless symbols, demodulation recovers the bits, padded to a multiple of 4. */
  lemma RoundTrip(bits: seq<Bit>)
    ensures Bits(Symbols(bits)) == Pad4(bits)
  {
    var s, p := Symbols(bits), Pad4(bits);
    assert |p| == 4 * |s|;
    forall j | 0 <= j < |s|
      ensures Label(s[j]) == p[4 * j..4 * j + 4]
    {
      SymbolNearest(bits, j);
      Relabel(s[j], p[4 * j..4 * j + 4]);
    }
    BitsFromGroups(s, p);
  }
}
