/**
 * The aggregate statistics the metrics and analyzer components report over
 * a window of values: sum, mean, minimum and maximum (Python's `sum`,
 * `statistics.mean`, `min` and `max` on a non-empty list of floats, taken
 * here over exact reals).
 */
module Statistics {
  import opened Wrappers

  function Sum(xs: seq<real>): real
  {
    if |xs| == 0 then 0.0 else Sum(xs[..|xs| - 1]) + xs[|xs| - 1]
  }

  /** `min(xs)`: a member of xs no larger than any other. */
  function Min(xs: seq<real>): (m: real)
    requires |xs| > 0
    ensures m in xs
    ensures forall i :: 0 <= i < |xs| ==> m <= xs[i]
  {
    if |xs| == 1 then xs[0]
    else
      var rest := Min(xs[..|xs| - 1]);
      assert forall i :: 0 <= i < |xs| - 1 ==> xs[..|xs| - 1][i] == xs[i];
      if xs[|xs| - 1] < rest then xs[|xs| - 1] else rest
  }

  /** `max(xs)`: a member of xs no smaller than any other. */
  function Max(xs: seq<real>): (m: real)
    requires |xs| > 0
    ensures m in xs
    ensures forall i :: 0 <= i < |xs| ==> xs[i] <= m
  {
    if |xs| == 1 then xs[0]
    else
      var rest := Max(xs[..|xs| - 1]);
      assert forall i :: 0 <= i < |xs| - 1 ==> xs[..|xs| - 1][i] == xs[i];
      if xs[|xs| - 1] > rest then xs[|xs| - 1] else rest
  }

  /** Bounds on every element bound the sum by the count times the bound. */
  lemma {:induction false} SumBetween(xs: seq<real>, lo: real, hi: real)
    requires forall i :: 0 <= i < |xs| ==> lo <= xs[i] <= hi
    ensures |xs| as real * lo <= Sum(xs) <= |xs| as real * hi
  {
    if |xs| > 0 {
      var init := xs[..|xs| - 1];
      assert forall i :: 0 <= i < |init| ==> init[i] == xs[i];
      SumBetween(init, lo, hi);
      assert |xs| as real * lo == |init| as real * lo + lo;
      assert |xs| as real * hi == |init| as real * hi + hi;
    }
  }

  /** m is the mean of xs: taken once per element, it adds up to the sum. */
  predicate IsMean(m: real, xs: seq<real>)
  {
    |xs| > 0 && m * |xs| as real == Sum(xs)
  }

  /** `statistics.mean`: the sum over the count. */
  function Mean(xs: seq<real>): (m: real)
    requires |xs| > 0
    ensures IsMean(m, xs)
  {
    Quotient(Sum(xs), |xs| as real)
  }

  /** The mean lies within any bounds on the elements. */
  lemma MeanWithin(xs: seq<real>, lo: real, hi: real)
    requires |xs| > 0
    requires forall i :: 0 <= i < |xs| ==> lo <= xs[i] <= hi
    ensures lo <= Mean(xs) <= hi
  {
    assert IsMean(Mean(xs), xs);
    SumBetween(xs, lo, hi);
    ScaleBetween(Mean(xs), |xs| as real, Sum(xs), lo, hi);
  }

  /** A positive multiple of q between the same multiples of lo and hi puts q between them. */
  lemma ScaleBetween(q: real, n: real, s: real, lo: real, hi: real)
    requires n > 0.0 && q * n == s && n * lo <= s <= n * hi
    ensures lo <= q <= hi
  {
    assert (q - lo) * n >= 0.0 && (hi - q) * n >= 0.0;
  }

  lemma DivBetween(s: real, n: real, lo: real, hi: real)
    requires n > 0.0 && n * lo <= s <= n * hi
    ensures lo <= s / n <= hi
  {
    assert s / n * n == s;
  }

  /** The values a list of optional readings holds (`[x for x in xs if x is not None]`). */
  function Present(xs: seq<Option<real>>): (r: seq<real>)
    ensures |r| <= |xs|
    ensures forall v :: v in r <==> Some(v) in xs
    ensures (forall i :: 0 <= i < |xs| ==> xs[i].Some?) ==>
      |r| == |xs| && forall i :: 0 <= i < |xs| ==> r[i] == xs[i].value
  {
    if |xs| == 0 then []
    else
      var init := Present(xs[..|xs| - 1]);
      assert xs == xs[..|xs| - 1] + [xs[|xs| - 1]];
      if xs[|xs| - 1].Some? then init + [xs[|xs| - 1].value] else init
  }

  /** The positions of the entries that hold a reading. */
  function SomeIndices(xs: seq<Option<real>>): set<int>
  {
    set i | 0 <= i < |xs| && xs[i].Some?
  }

  /** Present keeps one value per entry that holds one. */
  lemma {:induction false} PresentCount(xs: seq<Option<real>>)
    ensures |Present(xs)| == |SomeIndices(xs)|
  {
    if |xs| == 0 {
      assert SomeIndices(xs) == {};
    } else {
      PresentCount(xs[..|xs| - 1]);
      PresentStep(xs);
      SomeIndicesStep(xs);
    }
  }

  lemma PresentStep(xs: seq<Option<real>>)
    requires |xs| > 0
    ensures |Present(xs)| == |Present(xs[..|xs| - 1])| + (if xs[|xs| - 1].Some? then 1 else 0)
  {
  }

  lemma SomeIndicesStep(xs: seq<Option<real>>)
    requires |xs| > 0
    ensures |SomeIndices(xs)| == |SomeIndices(xs[..|xs| - 1])| + (if xs[|xs| - 1].Some? then 1 else 0)
  {
    var n := |xs| - 1;
    var init := SomeIndices(xs[..n]);
    assert init == set i | 0 <= i < n && xs[i].Some?;
    assert n !in init;
    if xs[n].Some? {
      assert SomeIndices(xs) == init + {n};
    } else {
      assert SomeIndices(xs) == init;
    }
  }

  /** Some reading is present exactly when some entry holds one. */
  lemma PresentNonEmpty(xs: seq<Option<real>>)
    ensures |Present(xs)| > 0 <==> exists i :: 0 <= i < |xs| && xs[i].Some?
  {
    if |Present(xs)| > 0 {
      assert Some(Present(xs)[0]) in xs;
    }
    if i :| 0 <= i < |xs| && xs[i].Some? {
      assert xs[i].value in Present(xs);
    }
  }

  /** Dividing by a non-zero quantity and multiplying back gives the original. */
  lemma DivTimes(a: real, n: real)
    requires n != 0.0
    ensures a / n * n == a
  {
  }

  /** q is part over whole: multiplying q back by whole gives part. */
  predicate IsQuotient(q: real, part: real, whole: real)
  {
    q * whole == part
  }

  /** a / n, characterised by multiplying back. */
  function Quotient(a: real, n: real): (q: real)
    requires n != 0.0
    ensures q * n == a
  {
    DivTimes(a, n);
    a / n
  }

  /** A count over a larger positive count is a fraction in [0, 1], zero only for a zero count. */
  lemma FractionBounds(part: nat, whole: nat)
    requires part <= whole && whole > 0
    ensures 0.0 <= part as real / whole as real <= 1.0
    ensures part as real / whole as real == 0.0 <==> part == 0
    ensures IsQuotient(part as real / whole as real, part as real, whole as real)
  {
    DivTimes(part as real, whole as real);
    DivBetween(part as real, whole as real, 0.0, 1.0);
  }

  /** A count over a strictly larger count is below 1. */
  lemma FractionBelowOne(part: nat, whole: nat)
    requires part < whole
    ensures part as real / whole as real < 1.0
  {
    DivTimes(part as real, whole as real);
  }

  /** Mean, minimum and maximum of a non-empty window. */
  datatype Aggregate = Aggregate(mean: real, min: real, max: real)

  /** The summary of xs, present exactly when xs is non-empty (`if xs:`). */
  function Describe(xs: seq<real>): (r: Option<Aggregate>)
    ensures r.None? <==> |xs| == 0
    ensures r.Some? ==> IsMean(r.value.mean, xs)
    ensures r.Some? ==> r.value.min <= r.value.mean <= r.value.max
    ensures r.Some? ==> r.value.min in xs && r.value.max in xs
    ensures r.Some? ==> forall i :: 0 <= i < |xs| ==> r.value.min <= xs[i] <= r.value.max
  {
    if |xs| == 0 then None
    else
      MeanWithin(xs, Min(xs), Max(xs));
      Some(Aggregate(Mean(xs), Min(xs), Max(xs)))
  }

  /** A constant window has that constant as its mean, minimum and maximum. */
  lemma ConstantWindow(xs: seq<real>, c: real)
    requires |xs| > 0 && forall i :: 0 <= i < |xs| ==> xs[i] == c
    ensures Describe(xs) == Some(Aggregate(c, c, c))
  {
    assert Min(xs) == c && Max(xs) == c;
  }
}
