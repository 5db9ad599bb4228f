/**
 * Big-endian positional encoding of natural numbers, shared by the bit codec
 * (base 2: MSB-first bits of a byte, the 16-bit frame length field) and the
 * packet headers (base 256: the big-endian u16/u32/u64 fields).
 */
module Digits {

  /** base^n */
  function Pow(base: nat, n: nat): (r: nat)
    ensures base >= 1 ==> r >= 1
    ensures base >= 2 && n >= 1 ==> r >= base
  {
    if n == 0 then 1 else base * Pow(base, n - 1)
  }

  /** Every digit is below the base. */
  predicate AllBelow(ds: seq<nat>, base: nat) {
    forall i :: 0 <= i < |ds| ==> ds[i] < base
  }

  /** The value of a big-endian digit string: ds[0] is the most significant digit. */
  function FromDigits(ds: seq<nat>, base: nat): nat
  {
    if |ds| == 0 then 0 else FromDigits(ds[..|ds| - 1], base) * base + ds[|ds| - 1]
  }

  /** The n least significant base-`base` digits of x, most significant first. */
  function ToDigits(x: nat, n: nat, base: nat): (ds: seq<nat>)
    requires base >= 2
    ensures |ds| == n && AllBelow(ds, base)
  {
    if n == 0 then [] else ToDigits(x / base, n - 1, base) + [x % base]
  }

  lemma DivBelow(x: nat, base: nat, p: nat)
    requires base >= 1 && x < base * p
    ensures x / base < p
  {
  }

  lemma MulAtLeast(b: nat, k: int)
    requires b >= 1
    ensures k >= 1 ==> b * k >= b
    ensures k <= -1 ==> b * k + b <= 0
  {
    if k >= 1 {
      assert b * k == b * (k - 1) + b;
    } else if k <= -1 {
      assert b * k == b * (k + 1) - b;
    }
  }

  lemma DivModRecompose(x: nat, base: nat)
    requires base >= 1
    ensures (x / base) * base + x % base == x
  {
  }

  lemma MulLeq(a: nat, c: nat, m: nat)
    requires a <= c
    ensures a * m <= c * m
  {
    assert c * m == a * m + (c - a) * m;
  }

  lemma DivModOfSum(q: nat, r: nat, base: nat)
    requires 0 <= r < base
    ensures (q * base + r) / base == q && (q * base + r) % base == r
  {
    var y := q * base + r;
    var k := y / base - q;
    assert base * k == r - y % base;
    MulAtLeast(base, k);
  }

  /** A digit string is worth less than base^|ds|. */
  lemma {:induction false} FromDigitsBound(ds: seq<nat>, base: nat)
    requires base >= 1 && AllBelow(ds, base)
    ensures FromDigits(ds, base) < Pow(base, |ds|)
  {
    if |ds| > 0 {
      var init := ds[..|ds| - 1];
      FromDigitsBound(init, base);
      var v := FromDigits(init, base);
      var p := Pow(base, |init|);
      FromDigitsSnoc(init, ds[|ds| - 1], base);
      assert ds == init + [ds[|ds| - 1]];
      BelowNextPower(v, ds[|ds| - 1], p, base);
    }
  }

  /** v < p and d < base give v * base + d < base * p. */
  lemma BelowNextPower(v: nat, d: nat, p: nat, base: nat)
    requires v < p && d < base
    ensures v * base + d < base * p
  {
    MulLeq(v, p - 1, base);
    assert (p - 1) * base + base == base * p;
  }

  /** Appending a least significant digit shifts the value up one place. */
  lemma FromDigitsSnoc(init: seq<nat>, d: nat, base: nat)
    ensures FromDigits(init + [d], base) == FromDigits(init, base) * base + d
  {
    assert (init + [d])[..|init|] == init;
  }

  /** One step of the encoding: the last digit is x % base, the rest encode x / base. */
  lemma ToDigitsStep(x: nat, n: nat, base: nat) returns (q: nat, r: nat)
    requires base >= 2 && 0 < n && x < Pow(base, n)
    ensures ToDigits(x, n, base) == ToDigits(q, n - 1, base) + [r]
    ensures q * base + r == x && q < Pow(base, n - 1)
  {
    q, r := x / base, x % base;
    DivModRecompose(x, base);
    DivBelow(x, base, Pow(base, n - 1));
  }

  /** Recombining a decoded prefix with its last digit. */
  lemma FromDigitsStep(init: seq<nat>, q: nat, r: nat, base: nat, x: nat)
    requires FromDigits(init, base) == q && q * base + r == x
    ensures FromDigits(init + [r], base) == x
  {
    FromDigitsSnoc(init, r, base);
  }

  /** Decoding inverts encoding for every value that fits in n digits. */
  lemma {:induction false} FromToDigits(x: nat, n: nat, base: nat)
    requires base >= 2 && x < Pow(base, n)
    decreases n
    ensures FromDigits(ToDigits(x, n, base), base) == x
  {
    if n > 0 {
      var q, r := ToDigitsStep(x, n, base);
      FromToDigits(q, n - 1, base);
      FromDigitsStep(ToDigits(q, n - 1, base), q, r, base, x);
    }
  }

  /** Encoding inverts decoding for every digit string. */
  lemma {:induction false} ToFromDigits(ds: seq<nat>, base: nat)
    requires base >= 2 && AllBelow(ds, base)
    ensures ToDigits(FromDigits(ds, base), |ds|, base) == ds
  {
    if |ds| > 0 {
      var init := ds[..|ds| - 1];
      ToFromDigits(init, base);
      DivModOfSum(FromDigits(init, base), ds[|ds| - 1], base);
      assert ds == init + [ds[|ds| - 1]];
    }
  }

  /** Quotient and remainder, with the identity that relates them to x. */
  lemma QuotRem(x: nat, d: nat) returns (q: nat, r: nat)
    requires d >= 1
    ensures q == x / d && r == x % d && q * d + r == x && r < d
  {
    q, r := x / d, x % d;
    DivModRecompose(x, d);
  }

  /** Two rounds of quotient and remainder, regrouped. */
  lemma Regroup(x: nat, q: nat, r: nat, q2: nat, r2: nat, a: nat, b: nat)
    requires q * a + r == x && q2 * b + r2 == q
    ensures q2 * (a * b) + (r2 * a + r) == x
  {
    assert q * a == (q2 * b + r2) * a;
  }

  /** (x / a) / b == x / (a * b) */
  lemma DivDiv(x: nat, a: nat, b: nat)
    requires a >= 1 && b >= 1
    ensures (x / a) / b == x / (a * b)
  {
    var q, r := QuotRem(x, a);
    var q2, r2 := QuotRem(q, b);
    Regroup(x, q, r, q2, r2, a, b);
    BelowNextPower(r2, r, b, a);
    DivModOfSum(q2, r2 * a + r, a * b);
  }

  /** The digit k places from the end of ToDigits(x, n, base) is (x / base^k) % base. */
  lemma {:induction false} ToDigitsAt(x: nat, n: nat, base: nat, k: nat)
    requires base >= 2 && k < n
    decreases n
    ensures ToDigits(x, n, base)[n - 1 - k] == (x / Pow(base, k)) % base
  {
    var ds := ToDigits(x, n, base);
    if k == 0 {
      assert ds[n - 1] == x % base;
    } else {
      var init := ToDigits(x / base, n - 1, base);
      assert ds == init + [x % base];
      assert ds[n - 1 - k] == init[n - 2 - (k - 1)];
      var p := Pow(base, k - 1);
      ToDigitsAt(x / base, n - 1, base, k - 1);
      assert init[n - 2 - (k - 1)] == ((x / base) / p) % base;
      DivDiv(x, base, p);
      assert Pow(base, k) == base * p;
    }
  }

  /** Two strings of the same length with the same value are equal. */
  lemma FromDigitsInjective(a: seq<nat>, b: seq<nat>, base: nat)
    requires base >= 2 && AllBelow(a, base) && AllBelow(b, base) && |a| == |b|
    requires FromDigits(a, base) == FromDigits(b, base)
    ensures a == b
  {
    ToFromDigits(a, base);
    ToFromDigits(b, base);
  }
}
