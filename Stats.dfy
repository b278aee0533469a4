/** Elementary statistics over a sample of glucose values, the way pandas
    computes them on a column of numbers: sum, mean, minimum, maximum and the
    sample variance (divisor n - 1, pandas' default for `std`). */
module Stats {

  datatype Option<T> = None | Some(value: T)

  /** Sum of the sample, first element first. */
  function Sum(gs: seq<real>): real
  {
    if gs == [] then 0.0 else gs[0] + Sum(gs[1..])
  }

  /** Arithmetic mean; pandas' `mean` on a non-empty column. */
  function Mean(gs: seq<real>): real
    requires |gs| > 0
  {
    Sum(gs) / (|gs| as real)
  }

  /** Smallest value of a non-empty sample. */
  function Min(gs: seq<real>): (m: real)
    requires |gs| > 0
    ensures m in gs
    ensures forall x :: x in gs ==> m <= x
  {
    if |gs| == 1 then gs[0]
    else
      var rest := Min(gs[1..]);
      assert forall x :: x in gs ==> x == gs[0] || x in gs[1..];
      if gs[0] <= rest then gs[0] else rest
  }

  /** Largest value of a non-empty sample. */
  function Max(gs: seq<real>): (m: real)
    requires |gs| > 0
    ensures m in gs
    ensures forall x :: x in gs ==> x <= m
  {
    if |gs| == 1 then gs[0]
    else
      var rest := Max(gs[1..]);
      assert forall x :: x in gs ==> x == gs[0] || x in gs[1..];
      if rest <= gs[0] then gs[0] else rest
  }

  /** A mean weighted by the number of values it was taken over. */
  function Weighted(count: nat, mean: real): real
  {
    (count as real) * mean
  }

  /** A sample's size times its mean is its sum. */
  lemma MeanTimesCount(gs: seq<real>)
    requires |gs| > 0
    ensures Weighted(|gs|, Mean(gs)) == Sum(gs)
  {
    var n := |gs| as real;
    var q := Sum(gs) / n;
    assert q * n == Sum(gs);
  }

  lemma Distribute(n: real, m: real, x: real)
    requires n == m + 1.0
    ensures n * x == x + m * x
  {
  }

  /** The mean of a sample lies between its minimum and its maximum. */
  lemma MeanWithinMinMax(gs: seq<real>)
    requires |gs| > 0
    ensures Min(gs) <= Mean(gs) <= Max(gs)
  {
    MeanBetween(gs, Min(gs), Max(gs));
  }

  /** A sum of values that all lie in [lo, hi] lies in [n * lo, n * hi]. */
  lemma {:induction false} SumBetween(gs: seq<real>, lo: real, hi: real)
    requires forall x :: x in gs ==> lo <= x <= hi
    ensures (|gs| as real) * lo <= Sum(gs) <= (|gs| as real) * hi
  {
    if gs != [] {
      var m := |gs[1..]| as real;
      assert forall x :: x in gs[1..] ==> x in gs;
      assert gs[0] in gs;
      SumBetween(gs[1..], lo, hi);
      assert Sum(gs) == gs[0] + Sum(gs[1..]);
      Distribute(|gs| as real, m, lo);
      Distribute(|gs| as real, m, hi);
    }
  }

  /** The mean of values that all lie in [lo, hi] lies in [lo, hi]. */
  lemma MeanBetween(gs: seq<real>, lo: real, hi: real)
    requires |gs| > 0
    requires forall x :: x in gs ==> lo <= x <= hi
    ensures lo <= Mean(gs) <= hi
  {
    SumBetween(gs, lo, hi);
    DivideBounds(Sum(gs), |gs| as real, lo, hi);
  }

  /** n * lo <= a <= n * hi with n > 0 gives lo <= a / n <= hi. */
  lemma DivideBounds(a: real, n: real, lo: real, hi: real)
    requires n > 0.0
    requires n * lo <= a <= n * hi
    ensures lo <= a / n <= hi
  {
    var q := a / n;
    assert q * n == a;
  }

  lemma ScaleQuotient(a: real, s: real, m: real)
    requires m != 0.0
    ensures (a * s) / m == a * (s / m)
  {
    var t := s / m;
    assert t * m == s;
    assert (a * t) * m == a * s;
  }

  /** Every value of the sample multiplied by k. */
  function Scale(k: real, gs: seq<real>): (r: seq<real>)
    ensures |r| == |gs|
  {
    if gs == [] then [] else [k * gs[0]] + Scale(k, gs[1..])
  }

  lemma {:induction false} ScaleAt(k: real, gs: seq<real>, i: int)
    requires 0 <= i < |gs|
    ensures Scale(k, gs)[i] == k * gs[i]
  {
    if i > 0 {
      ScaleAt(k, gs[1..], i - 1);
    }
  }

  lemma {:induction false} SumScale(k: real, gs: seq<real>)
    ensures Sum(Scale(k, gs)) == k * Sum(gs)
  {
    if gs != [] {
      SumScale(k, gs[1..]);
      assert Scale(k, gs)[1..] == Scale(k, gs[1..]);
    }
  }

  /** Scaling the sample scales its mean by the same factor. */
  lemma MeanScale(k: real, gs: seq<real>)
    requires |gs| > 0
    ensures Mean(Scale(k, gs)) == k * Mean(gs)
  {
    SumScale(k, gs);
  }

  /** Sum of squared deviations from a centre c. */
  function SquaredDeviations(gs: seq<real>, c: real): (r: real)
    ensures r >= 0.0
  {
    if gs == [] then 0.0
    else
      var d := gs[0] - c;
      assert d * d >= 0.0 by {
        if d < 0.0 { assert d * d == (-d) * (-d); }
      }
      d * d + SquaredDeviations(gs[1..], c)
  }

  lemma {:induction false} SquaredDeviationsScale(k: real, gs: seq<real>, c: real)
    ensures SquaredDeviations(Scale(k, gs), k * c) == k * k * SquaredDeviations(gs, c)
  {
    if gs != [] {
      SquaredDeviationsScale(k, gs[1..], c);
      assert Scale(k, gs)[1..] == Scale(k, gs[1..]);
      var d := gs[0] - c;
      assert (k * gs[0] - k * c) * (k * gs[0] - k * c) == k * k * (d * d) by {
        assert k * gs[0] - k * c == k * d;
      }
    }
  }

  /** Sample variance (divisor n - 1); pandas yields NaN, here None, below
      two values. */
  function SampleVariance(gs: seq<real>): (v: Option<real>)
    ensures v.Some? <==> |gs| >= 2
    ensures v.Some? ==> v.value >= 0.0
  {
    if |gs| < 2 then None
    else Some(SquaredDeviations(gs, Mean(gs)) / ((|gs| - 1) as real))
  }

  /** Scaling every value by k scales the sample variance by k squared. */
  lemma VarianceScale(k: real, gs: seq<real>)
    requires |gs| >= 2
    ensures SampleVariance(Scale(k, gs)).value == k * k * SampleVariance(gs).value
  {
    var sg, c, kk := Scale(k, gs), Mean(gs), k * k;
    var m := (|gs| - 1) as real;
    var s := SquaredDeviations(gs, c);
    MeanScale(k, gs);
    assert Mean(sg) == k * c;
    SquaredDeviationsScale(k, gs, c);
    assert SquaredDeviations(sg, k * c) == kk * s;
    ScaleQuotient(kk, s, m);
  }
}
