/** Order statistics of a glucose sample as `np.percentile` (default method,
    "linear") and pandas' `median` compute them. For a sample of size n in
    ascending order, the p-th percentile sits at position p / 100 * (n - 1):
    the value is interpolated linearly between the two order statistics that
    bracket that position. The percent p is a whole number here (the report
    asks for 5, 25, 75 and 95), so the position is written as the integer
    k = p * (n - 1) counted in hundredths. */
module Percentiles {
  import opened Stats
  import opened Sorting

  /** The point a fraction g of the way from a to b. */
  function Lerp(a: real, b: real, g: real): real
  {
    a + g * (b - a)
  }

  /** Value at position k / 100 of a sorted sample: every whole step of the
      position moves one order statistic up; what is left, a fraction below
      one, interpolates between the order statistic reached and the next
      one (clipped at the last index, as numpy does). */
  function Interpolate(s: seq<real>, k: int): real
    requires |s| > 0 && Sorted(s)
    requires 0 <= k <= 100 * (|s| - 1)
    decreases k
  {
    if k >= 100 then Interpolate(s[1..], k - 100)
    else if |s| == 1 then s[0]
    else Lerp(s[0], s[1], k as real / 100.0)
  }

  /** numpy's formula: with lo = k / 100 the whole part of the position and
      g = (k % 100) / 100 its fraction, the value is s[lo] + g * (s[hi] - s[lo])
      where hi = lo + 1, or lo itself at the last index. */
  lemma InterpolateIsLinear(s: seq<real>, k: int)
    requires |s| > 0 && Sorted(s)
    requires 0 <= k <= 100 * (|s| - 1)
    ensures var lo := k / 100;
      var hi := if lo + 1 < |s| then lo + 1 else lo;
      Interpolate(s, k) == Lerp(s[lo], s[hi], (k % 100) as real / 100.0)
  {
    var lo, r := k / 100, k % 100;
    assert k == 100 * lo + r && 0 <= r < 100;
    InterpolateAt(s, lo, r);
  }

  /** The same, with the position given as its whole part lo and its
      remainder r in hundredths. */
  lemma {:induction false} InterpolateAt(s: seq<real>, lo: int, r: int)
    requires |s| > 0 && Sorted(s)
    requires 0 <= lo && 0 <= r < 100 && 100 * lo + r <= 100 * (|s| - 1)
    ensures lo < |s|
    ensures var hi := if lo + 1 < |s| then lo + 1 else lo;
      Interpolate(s, 100 * lo + r) == Lerp(s[lo], s[hi], r as real / 100.0)
  {
    if lo > 0 {
      var t := s[1..];
      InterpolateAt(t, lo - 1, r);
      assert Interpolate(s, 100 * lo + r) == Interpolate(t, 100 * (lo - 1) + r);
    } else if |s| == 1 {
      assert r == 0;
    }
  }

  /** a + g * (b - a) lies in [a, b] when a <= b and g lies in [0, 1]. */
  lemma LerpBetween(a: real, b: real, g: real)
    requires a <= b && 0.0 <= g <= 1.0
    ensures a <= Lerp(a, b, g) <= b
  {
    ProductNonNegative(g, b - a);
    ProductNonNegative(1.0 - g, b - a);
  }

  /** Moving further from a towards b never goes down when a <= b. */
  lemma LerpMonotone(a: real, b: real, g1: real, g2: real)
    requires a <= b && g1 <= g2
    ensures Lerp(a, b, g1) <= Lerp(a, b, g2)
  {
    ProductNonNegative(g2 - g1, b - a);
    assert Lerp(a, b, g2) - Lerp(a, b, g1) == (g2 - g1) * (b - a);
  }

  lemma ProductNonNegative(x: real, y: real)
    requires 0.0 <= x && 0.0 <= y
    ensures 0.0 <= x * y
  {
  }

  /** The position of the p-th percentile in a sample of size n, in
      hundredths of an index; it never runs past the last index. */
  function Position(n: nat, p: int): (k: int)
    requires n > 0 && 0 <= p <= 100
    ensures 0 <= k <= 100 * (n - 1)
    ensures p == 0 ==> k == 0
    ensures p == 100 ==> k == 100 * (n - 1)
  {
    MulMonotone(0, p, n - 1);
    MulMonotone(p, 100, n - 1);
    p * (n - 1)
  }

  lemma MulMonotone(a: int, b: int, c: int)
    requires a <= b && c >= 0
    ensures a * c <= b * c
  {
  }

  /** `np.percentile(gs, p)`: sorts the sample and interpolates. */
  function Percentile(gs: seq<real>, p: int): real
    requires |gs| > 0 && 0 <= p <= 100
  {
    Interpolate(Sort(gs), Position(|gs|, p))
  }

  /** pandas' `median`: the middle order statistic, or the average of the
      two middle ones when the size is even. */
  function Median(gs: seq<real>): real
    requires |gs| > 0
  {
    var s, n := Sort(gs), |gs|;
    if n % 2 == 1 then s[n / 2] else (s[n / 2 - 1] + s[n / 2]) / 2.0
  }

  /** The ends of the sorted sample are the sample's minimum and maximum. */
  lemma SortEnds(gs: seq<real>)
    requires |gs| > 0
    ensures Sort(gs)[0] == Min(gs)
    ensures Sort(gs)[|gs| - 1] == Max(gs)
  {
    SortedPermutationEnds(gs, Sort(gs));
  }

  /** Any ascending arrangement of a sample starts at its minimum and ends
      at its maximum. */
  lemma SortedPermutationEnds(gs: seq<real>, s: seq<real>)
    requires |gs| > 0 && Sorted(s) && multiset(s) == multiset(gs)
    ensures |s| == |gs|
    ensures s[0] == Min(gs) && s[|s| - 1] == Max(gs)
  {
    assert |s| == |multiset(s)| == |multiset(gs)| == |gs|;
    var lo, hi := Min(gs), Max(gs);
    assert s[0] in multiset(gs) && s[|s| - 1] in multiset(gs);
    assert s[0] in gs && s[|s| - 1] in gs;
    assert lo <= s[0] && s[|s| - 1] <= hi;
    assert lo in multiset(s) && hi in multiset(s);
    var i :| 0 <= i < |s| && s[i] == lo;
    var j :| 0 <= j < |s| && s[j] == hi;
    assert s[0] <= s[i] && s[j] <= s[|s| - 1];
  }

  /** Interpolation on a sorted sample is monotone in the position. */
  lemma {:induction false} InterpolateMonotone(s: seq<real>, k1: int, k2: int)
    requires |s| > 0 && Sorted(s)
    requires 0 <= k1 <= k2 <= 100 * (|s| - 1)
    ensures Interpolate(s, k1) <= Interpolate(s, k2)
    decreases k1
  {
    if k1 >= 100 {
      InterpolateMonotone(s[1..], k1 - 100, k2 - 100);
    } else if k2 >= 100 {
      LerpBetween(s[0], s[1], k1 as real / 100.0);
      InterpolateBounds(s[1..], k2 - 100);
    } else if |s| > 1 {
      LerpMonotone(s[0], s[1], k1 as real / 100.0, k2 as real / 100.0);
    }
  }

  /** Every percentile lies between the sample's minimum and maximum, the
      0th is the minimum and the 100th the maximum. */
  lemma PercentileBounds(gs: seq<real>, p: int)
    requires |gs| > 0 && 0 <= p <= 100
    ensures Min(gs) <= Percentile(gs, p) <= Max(gs)
    ensures p == 0 ==> Percentile(gs, p) == Min(gs)
    ensures p == 100 ==> Percentile(gs, p) == Max(gs)
  {
    var s, k := Sort(gs), Position(|gs|, p);
    SortEnds(gs);
    InterpolateBounds(s, k);
    assert Percentile(gs, p) == Interpolate(s, k);
  }

  /** Interpolation stays between the first and last order statistics and
      reaches them at the two ends of the position range. */
  lemma {:induction false} InterpolateBounds(s: seq<real>, k: int)
    requires |s| > 0 && Sorted(s)
    requires 0 <= k <= 100 * (|s| - 1)
    ensures s[0] <= Interpolate(s, k) <= s[|s| - 1]
    ensures k == 0 ==> Interpolate(s, k) == s[0]
    ensures k == 100 * (|s| - 1) ==> Interpolate(s, k) == s[|s| - 1]
    decreases k
  {
    if k >= 100 {
      InterpolateBounds(s[1..], k - 100);
      assert s[0] <= s[1];
    } else if |s| > 1 {
      assert Interpolate(s, k) == Lerp(s[0], s[1], k as real / 100.0);
      LerpBetween(s[0], s[1], k as real / 100.0);
      assert s[1] <= s[|s| - 1];
    }
  }

  /** A larger percent never gives a smaller percentile. */
  lemma PercentileMonotone(gs: seq<real>, p: int, q: int)
    requires |gs| > 0 && 0 <= p <= q <= 100
    ensures Percentile(gs, p) <= Percentile(gs, q)
  {
    var n := |gs|;
    PositionMonotone(n, p, q);
    InterpolateMonotone(Sort(gs), Position(n, p), Position(n, q));
  }

  lemma PositionMonotone(n: nat, p: int, q: int)
    requires n > 0 && 0 <= p <= q <= 100
    ensures Position(n, p) <= Position(n, q)
  {
    MulMonotone(p, q, n - 1);
  }

  /** pandas' median is numpy's linearly interpolated 50th percentile. */
  lemma MedianIsPercentile50(gs: seq<real>)
    requires |gs| > 0
    ensures Median(gs) == Percentile(gs, 50)
  {
    var s, n := Sort(gs), |gs|;
    var m := (n - 1) / 2;
    if n % 2 == 1 {
      assert Position(n, 50) == 100 * m;
      InterpolateAtIndex(s, m);
      assert n / 2 == m;
    } else {
      assert Position(n, 50) == 100 * m + 50;
      InterpolateMidway(s, m);
      assert n / 2 == m + 1;
      assert Lerp(s[m], s[m + 1], 0.5) == (s[m] + s[m + 1]) / 2.0;
    }
  }

  /** At a whole position j the interpolated value is the j-th order
      statistic. */
  lemma {:induction false} InterpolateAtIndex(s: seq<real>, j: nat)
    requires j < |s| && Sorted(s)
    ensures Interpolate(s, 100 * j) == s[j]
  {
    if j > 0 {
      InterpolateAtIndex(s[1..], j - 1);
    }
  }

  /** Half-way between positions j and j + 1 the interpolated value is the
      average of the two order statistics. */
  lemma {:induction false} InterpolateMidway(s: seq<real>, j: nat)
    requires j + 1 < |s| && Sorted(s)
    ensures Interpolate(s, 100 * j + 50) == Lerp(s[j], s[j + 1], 0.5)
  {
    if j > 0 {
      InterpolateMidway(s[1..], j - 1);
    }
  }

  /** Three readings at 08:00 over two days, 70, 180 and 125 mg/dL: the
      median is 125 and the 5th..95th percentiles fan out around it. */
  lemma ThreeReadingExample()
    ensures Median([70.0, 180.0, 125.0]) == 125.0
    ensures Percentile([70.0, 180.0, 125.0], 5) == 75.5
    ensures Percentile([70.0, 180.0, 125.0], 25) == 97.5
    ensures Percentile([70.0, 180.0, 125.0], 75) == 152.5
    ensures Percentile([70.0, 180.0, 125.0], 95) == 174.5
  {
    var gs, s := [70.0, 180.0, 125.0], [70.0, 125.0, 180.0];
    SortThreeReadings();
    assert Position(3, 5) == 10 && Position(3, 25) == 50;
    assert Position(3, 75) == 150 && Position(3, 95) == 190;
    assert Interpolate(s, 10) == 75.5;
    assert Interpolate(s, 50) == 97.5;
    assert Interpolate(s, 150) == 152.5;
    assert Interpolate(s, 190) == 174.5;
  }

  lemma SortThreeReadings()
    ensures Sort([70.0, 180.0, 125.0]) == [70.0, 125.0, 180.0]
  {
    var gs := [70.0, 180.0, 125.0];
    assert gs[1..] == [180.0, 125.0];
    SortTwoReadings();
    assert Insert(70.0, [125.0, 180.0]) == [70.0, 125.0, 180.0];
  }

  lemma SortTwoReadings()
    ensures Sort([180.0, 125.0]) == [125.0, 180.0]
  {
    var gs := [180.0, 125.0];
    assert gs[1..] == [125.0];
    SortOneReading();
    InsertAbove();
  }

  lemma SortOneReading()
    ensures Sort([125.0]) == [125.0]
  {
    assert [125.0][1..] == [];
  }

  lemma InsertAbove()
    ensures Insert(180.0, [125.0]) == [125.0, 180.0]
  {
    assert [125.0][1..] == [];
    assert Insert(180.0, []) == [180.0];
  }
}
