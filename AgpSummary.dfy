/** The summary card of the report: how many readings there are, what share
    of them falls in each of five glucose bands, their mean, and their
    coefficient of variation; plus the Glucose Management Indicator that the
    page derives from the mean. */
module AgpSummary {
  import opened Stats
  import opened Readings

  // ---------------------------------------------------------------------------
  // Glucose bands
  // ---------------------------------------------------------------------------

  datatype Band = VeryLow | Low | Target | High | VeryHigh

  /** An upper limit of a band; the very-high band is open upwards. */
  datatype Limit = Finite(bound: real) | Infinity

  /** The lower end of each band's range, in mg/dL. */
  function Lower(b: Band): real
  {
    match b
    case VeryLow => 0.0
    case Low => 54.0
    case Target => 70.0
    case High => 181.0
    case VeryHigh => 251.0
  }

  /** The upper end of each band's range, in mg/dL. */
  function Upper(b: Band): Limit
  {
    match b
    case VeryLow => Finite(53.0)
    case Low => Finite(69.0)
    case Target => Finite(180.0)
    case High => Finite(250.0)
    case VeryHigh => Infinity
  }

  /** `Series.between(lo, hi)`: inclusive at both ends. */
  predicate Between(g: real, lo: real, hi: Limit)
  {
    lo <= g && (hi.Finite? ==> g <= hi.bound)
  }

  predicate InBand(g: real, b: Band)
  {
    Between(g, Lower(b), Upper(b))
  }

  /** The band a value falls in, read off the thresholds in increasing
      order; None for a value no band's range contains. */
  function Classify(g: real): (r: Option<Band>)
    ensures r.Some? ==> InBand(g, r.value)
    ensures forall b :: InBand(g, b) ==> r == Some(b)
  {
    if g < 0.0 then None
    else if g <= 53.0 then Some(VeryLow)
    else if g < 54.0 then None
    else if g <= 69.0 then Some(Low)
    else if g < 70.0 then None
    else if g <= 180.0 then Some(Target)
    else if g < 181.0 then None
    else if g <= 250.0 then Some(High)
    else if g < 251.0 then None
    else Some(VeryHigh)
  }

  /** No value lies in two bands: the five closed ranges are pairwise
      disjoint. */
  lemma BandsDisjoint(g: real, b1: Band, b2: Band)
    requires InBand(g, b1) && InBand(g, b2)
    ensures b1 == b2
  {
    assert Classify(g) == Some(b1) && Classify(g) == Some(b2);
  }

  /** A value lies in some band exactly when it is not negative and not
      strictly inside one of the four gaps between consecutive ranges. */
  lemma CoveredIff(g: real)
    ensures Classify(g).Some? <==>
      && 0.0 <= g
      && !(53.0 < g < 54.0) && !(69.0 < g < 70.0)
      && !(180.0 < g < 181.0) && !(250.0 < g < 251.0)
  {
  }

  /** Whole-number readings never fall in a gap: every non-negative integer
      value lies in a band. */
  lemma WholeNumbersCovered(k: int)
    requires k >= 0
    ensures Classify(k as real).Some?
  {
    CoveredIff(k as real);
    assert !(53 < k < 54) && !(69 < k < 70) && !(180 < k < 181) && !(250 < k < 251);
  }

  /** The band edges are classified as the inclusive ranges say; values in
      the gaps and below zero belong to no band. */
  lemma BoundaryValues()
    ensures Classify(0.0) == Some(VeryLow) && Classify(53.0) == Some(VeryLow)
    ensures Classify(54.0) == Some(Low) && Classify(69.0) == Some(Low)
    ensures Classify(70.0) == Some(Target) && Classify(180.0) == Some(Target)
    ensures Classify(181.0) == Some(High) && Classify(250.0) == Some(High)
    ensures Classify(251.0) == Some(VeryHigh)
    ensures Classify(-1.0) == None && Classify(53.5) == None && Classify(69.5) == None
    ensures Classify(180.5) == None && Classify(250.5) == None
  {
  }

  // ---------------------------------------------------------------------------
  // Counting
  // ---------------------------------------------------------------------------

  /** Number of values in band b. */
  function CountIn(gs: seq<real>, b: Band): (c: nat)
    ensures c <= |gs|
    ensures c == |gs| <==> forall g :: g in gs ==> InBand(g, b)
  {
    if gs == [] then 0
    else
      assert forall g :: g in gs ==> g == gs[0] || g in gs[1..];
      (if InBand(gs[0], b) then 1 else 0) + CountIn(gs[1..], b)
  }

  /** Number of values that lie in some band. */
  function CoveredCount(gs: seq<real>): (c: nat)
    ensures c <= |gs|
  {
    if gs == [] then 0
    else (if Classify(gs[0]).Some? then 1 else 0) + CoveredCount(gs[1..])
  }

  /** The five band counts add up to the number of values in some band. */
  lemma {:induction false} BandCountsPartition(gs: seq<real>)
    ensures CountIn(gs, VeryLow) + CountIn(gs, Low) + CountIn(gs, Target)
            + CountIn(gs, High) + CountIn(gs, VeryHigh) == CoveredCount(gs)
  {
    if gs != [] {
      BandCountsPartition(gs[1..]);
      var g := gs[0];
      match Classify(g)
      case None =>
      case Some(b) =>
        forall b' | b' != b ensures !InBand(g, b') {}
    }
  }

  /** Every value lies in some band exactly when the covered count is the
      whole sample. */
  lemma {:induction false} CoveredCountAll(gs: seq<real>)
    ensures CoveredCount(gs) == |gs| <==> forall g :: g in gs ==> Classify(g).Some?
  {
    if gs != [] {
      CoveredCountAll(gs[1..]);
      assert forall g :: g in gs <==> g == gs[0] || g in gs[1..];
    }
  }

  /** `between(...).mean() * 100`: the share of values in band b, as a
      percentage of all values. */
  function Percent(gs: seq<real>, b: Band): (pct: real)
    requires |gs| > 0
    ensures 0.0 <= pct <= 100.0
    ensures pct == 100.0 <==> forall g :: g in gs ==> InBand(g, b)
  {
    Share(CountIn(gs, b), |gs|)
  }

  /** c out of n, in percent: in [0, 100], and 100 only for the full count. */
  function Share(c: nat, n: nat): (pct: real)
    requires 0 < n && c <= n
    ensures 0.0 <= pct <= 100.0
    ensures pct == 100.0 <==> c == n
  {
    Fraction(c, n);
    (c as real / n as real) * 100.0
  }

  /** c / n lies in [0, 1] and is 1 only for c = n. */
  lemma Fraction(c: nat, n: nat)
    requires 0 < n && c <= n
    ensures 0.0 <= c as real / n as real <= 1.0
    ensures c as real / n as real == 1.0 <==> c == n
  {
    var q := c as real / n as real;
    assert q * (n as real) == c as real;
    DivideBounds(c as real, n as real, 0.0, 1.0);
    if q == 1.0 {
      assert c as real == n as real;
    }
  }

  // ---------------------------------------------------------------------------
  // Coefficient of variation
  // ---------------------------------------------------------------------------

  /** The square of the coefficient of variation in percent,
      (100 * std / mean)^2 with std the sample standard deviation, computed
      as 100^2 times the sample variance of the readings divided by their
      mean; None where pandas yields NaN or an infinity (fewer than two
      values, or a zero mean). */
  function SquaredCv(gs: seq<real>): (cv2: Option<real>)
    ensures cv2.Some? ==> cv2.value >= 0.0
    ensures cv2.Some? <==> |gs| >= 2 && Mean(gs) != 0.0
  {
    if |gs| < 2 || Mean(gs) == 0.0 then None
    else Some(10000.0 * SampleVariance(Scale(1.0 / Mean(gs), gs)).value)
  }

  /** The squared CV is (100 * std / mean)^2 = 100^2 * variance / mean^2. */
  lemma SquaredCvIsSquaredRatio(gs: seq<real>)
    requires |gs| >= 2 && Mean(gs) != 0.0
    ensures SquaredCv(gs).Some?
    ensures SquaredCv(gs).value
            == 10000.0 * SampleVariance(gs).value / (Mean(gs) * Mean(gs))
  {
    var m, v := Mean(gs), SampleVariance(gs).value;
    VarianceScale(1.0 / m, gs);
    InverseSquare(m, v);
  }

  lemma InverseSquare(m: real, v: real)
    requires m != 0.0
    ensures (1.0 / m) * (1.0 / m) * v == v / (m * m)
  {
    var r := 1.0 / m;
    assert r * m == 1.0;
    assert (r * r) * (m * m) == 1.0;
  }

  /** Scaling every reading by a non-zero factor leaves the coefficient of
      variation unchanged (its square, here). */
  lemma SquaredCvScaleInvariant(k: real, gs: seq<real>)
    requires k != 0.0
    ensures SquaredCv(Scale(k, gs)) == SquaredCv(gs)
  {
    if |gs| >= 2 {
      ScaledMeanZero(k, gs);
      if Mean(gs) != 0.0 {
        NormalizedScaledSample(k, gs);
      }
    }
  }

  /** Scaling by a non-zero factor keeps a zero mean zero and a non-zero
      mean non-zero. */
  lemma ScaledMeanZero(k: real, gs: seq<real>)
    requires k != 0.0 && |gs| > 0
    ensures Mean(Scale(k, gs)) == 0.0 <==> Mean(gs) == 0.0
  {
    MeanScale(k, gs);
    NonZeroProductIff(k, Mean(gs));
  }

  lemma NonZeroProductIff(k: real, m: real)
    requires k != 0.0
    ensures k * m == 0.0 <==> m == 0.0
  {
  }

  /** A scaled sample, divided by its own mean, is the original sample
      divided by its mean. */
  lemma NormalizedScaledSample(k: real, gs: seq<real>)
    requires k != 0.0 && |gs| > 0 && Mean(gs) != 0.0 && Mean(Scale(k, gs)) != 0.0
    ensures Scale(1.0 / Mean(Scale(k, gs)), Scale(k, gs)) == Scale(1.0 / Mean(gs), gs)
  {
    var m, km := Mean(gs), Mean(Scale(k, gs));
    MeanScale(k, gs);
    NonZeroProduct(k, m);
    NormalizedScaled(k, m, gs);
    assert km == k * m;
    assert 1.0 / km == 1.0 / (k * m);
  }

  /** The readings divided by their mean do not change when every reading
      and the mean are scaled by the same non-zero factor. */
  lemma NormalizedScaled(k: real, m: real, gs: seq<real>)
    requires k != 0.0 && m != 0.0
    ensures Scale(1.0 / (k * m), Scale(k, gs)) == Scale(1.0 / m, gs)
  {
    var lhs, rhs := Scale(1.0 / (k * m), Scale(k, gs)), Scale(1.0 / m, gs);
    forall i | 0 <= i < |gs| ensures lhs[i] == rhs[i] {
      ScaleAt(k, gs, i);
      ScaleAt(1.0 / (k * m), Scale(k, gs), i);
      ScaleAt(1.0 / m, gs, i);
      CancelScale(k, m, gs[i]);
    }
  }

  lemma NonZeroProduct(k: real, m: real)
    requires k != 0.0 && m != 0.0
    ensures k * m != 0.0
  {
  }

  /** Dividing a scaled reading by the scaled mean undoes the scaling. */
  lemma CancelScale(k: real, m: real, g: real)
    requires k != 0.0 && m != 0.0
    ensures (1.0 / (k * m)) * (k * g) == (1.0 / m) * g
  {
    NonZeroProduct(k, m);
    var a, b := 1.0 / (k * m), 1.0 / m;
    assert a * (k * m) == 1.0;
    assert b * m == 1.0;
    assert a * k == b by {
      assert (a * k) * m == 1.0;
    }
  }

  // ---------------------------------------------------------------------------
  // The summary
  // ---------------------------------------------------------------------------

  datatype Summary = Summary(
    totalReadings: nat,
    timeInTarget: real,
    timeBelowRange: real,
    timeVeryLow: real,
    timeAboveRange: real,
    timeVeryHigh: real,
    meanGlucose: real,
    squaredCv: Option<real>)

  /** `compute_agp_summary` on a non-empty table of readings. */
  function ComputeAgpSummary(rs: seq<Reading>): (s: Summary)
    requires |rs| > 0
    ensures s.totalReadings == |rs|
    ensures var gs := Glucose(rs);
      && s.timeVeryLow == Percent(gs, VeryLow)
      && s.timeBelowRange == Percent(gs, Low)
      && s.timeInTarget == Percent(gs, Target)
      && s.timeAboveRange == Percent(gs, High)
      && s.timeVeryHigh == Percent(gs, VeryHigh)
    ensures s.meanGlucose == Mean(Glucose(rs))
    ensures Min(Glucose(rs)) <= s.meanGlucose <= Max(Glucose(rs))
    ensures s.squaredCv == SquaredCv(Glucose(rs))
    ensures s.squaredCv.Some? <==> |rs| >= 2 && s.meanGlucose != 0.0
  {
    var gs := Glucose(rs);
    MeanWithinMinMax(gs);
    Summary(
      |rs|,
      Percent(gs, Target),
      Percent(gs, Low),
      Percent(gs, VeryLow),
      Percent(gs, High),
      Percent(gs, VeryHigh),
      Mean(gs),
      SquaredCv(gs))
  }

  /** The sum of the five band percentages. */
  function TotalPercent(s: Summary): real
  {
    s.timeVeryLow + s.timeBelowRange + s.timeInTarget + s.timeAboveRange + s.timeVeryHigh
  }

  /** The five percentages add up to the share of readings that lie in some
      band: never more than 100, and exactly 100 when every reading does. */
  lemma PercentagesSum(rs: seq<Reading>)
    requires |rs| > 0
    ensures TotalPercent(ComputeAgpSummary(rs)) == Share(CoveredCount(Glucose(rs)), |rs|)
    ensures TotalPercent(ComputeAgpSummary(rs)) <= 100.0
    ensures TotalPercent(ComputeAgpSummary(rs)) == 100.0 <==>
      forall i :: 0 <= i < |rs| ==> Classify(rs[i].glucose).Some?
  {
    var gs := Glucose(rs);
    SumOfPercents(gs);
    CoveredCountAll(gs);
    assert (forall g :: g in gs ==> Classify(g).Some?) <==>
           (forall i :: 0 <= i < |rs| ==> Classify(rs[i].glucose).Some?) by {
      assert forall i :: 0 <= i < |rs| ==> gs[i] == rs[i].glucose;
    }
  }

  lemma SumOfPercents(gs: seq<real>)
    requires |gs| > 0
    ensures Percent(gs, VeryLow) + Percent(gs, Low) + Percent(gs, Target)
            + Percent(gs, High) + Percent(gs, VeryHigh)
            == Share(CoveredCount(gs), |gs|)
  {
    var n := |gs|;
    var k1, k2, k3, k4, k5 := CountIn(gs, VeryLow), CountIn(gs, Low),
      CountIn(gs, Target), CountIn(gs, High), CountIn(gs, VeryHigh);
    BandCountsPartition(gs);
    var covered := CoveredCount(gs);
    assert k1 + k2 + k3 + k4 + k5 == covered;
    AddShares(k1, k2, k3, k4, k5, covered, n);
    assert Percent(gs, VeryLow) == Share(k1, n);
    assert Percent(gs, Low) == Share(k2, n);
    assert Percent(gs, Target) == Share(k3, n);
    assert Percent(gs, High) == Share(k4, n);
    assert Percent(gs, VeryHigh) == Share(k5, n);
  }

  /** Shares of the same whole add up like their counts. */
  lemma AddShares(c1: nat, c2: nat, c3: nat, c4: nat, c5: nat, c: nat, n: nat)
    requires 0 < n && c == c1 + c2 + c3 + c4 + c5 && c <= n
    ensures Share(c1, n) + Share(c2, n) + Share(c3, n) + Share(c4, n) + Share(c5, n)
            == Share(c, n)
  {
    AddTwoShares(c1, c2, n);
    AddTwoShares(c1 + c2, c3, n);
    AddTwoShares(c1 + c2 + c3, c4, n);
    AddTwoShares(c1 + c2 + c3 + c4, c5, n);
  }

  lemma AddTwoShares(a: nat, b: nat, n: nat)
    requires 0 < n && a + b <= n
    ensures Share(a, n) + Share(b, n) == Share(a + b, n)
  {
    var m := n as real;
    var x, y, z := a as real / m, b as real / m, (a + b) as real / m;
    assert x * m == a as real && y * m == b as real && z * m == (a + b) as real;
    assert (x + y) * m == z * m;
  }

  /** Three readings of 70, 180 and 125 mg/dL are all in target. */
  lemma ThreeReadingSummary()
    ensures var s := ComputeAgpSummary([Reading(738886, 8, 0, 70.0),
                                        Reading(738886, 8, 0, 180.0),
                                        Reading(738887, 8, 0, 125.0)]);
      && s.totalReadings == 3
      && s.timeInTarget == 100.0
      && s.timeVeryLow == 0.0 && s.timeBelowRange == 0.0
      && s.timeAboveRange == 0.0 && s.timeVeryHigh == 0.0
      && s.meanGlucose == 125.0
  {
    var rs := [Reading(738886, 8, 0, 70.0), Reading(738886, 8, 0, 180.0),
               Reading(738887, 8, 0, 125.0)];
    assert rs[1..][1..] == [rs[2]] && rs[2..][1..] == [];
    assert Glucose(rs) == [70.0, 180.0, 125.0];
    ThreeReadingPercents();
    ThreeReadingMean();
  }

  lemma ThreeReadingPercents()
    ensures Percent([70.0, 180.0, 125.0], Target) == 100.0
    ensures Percent([70.0, 180.0, 125.0], VeryLow) == 0.0
    ensures Percent([70.0, 180.0, 125.0], Low) == 0.0
    ensures Percent([70.0, 180.0, 125.0], High) == 0.0
    ensures Percent([70.0, 180.0, 125.0], VeryHigh) == 0.0
  {
    ThreeReadingCounts();
    assert Share(0, 3) == 0.0;
  }

  lemma ThreeReadingMean()
    ensures Mean([70.0, 180.0, 125.0]) == 125.0
  {
    var gs := [70.0, 180.0, 125.0];
    assert gs[1..] == [180.0, 125.0] && gs[2..] == [125.0] && gs[3..] == [];
    assert Sum(gs) == 375.0;
  }

  lemma ThreeReadingCounts()
    ensures CountIn([70.0, 180.0, 125.0], Target) == 3
    ensures CountIn([70.0, 180.0, 125.0], VeryLow) == 0
    ensures CountIn([70.0, 180.0, 125.0], Low) == 0
    ensures CountIn([70.0, 180.0, 125.0], High) == 0
    ensures CountIn([70.0, 180.0, 125.0], VeryHigh) == 0
  {
    var gs := [70.0, 180.0, 125.0];
    assert gs[1..] == [180.0, 125.0] && gs[2..] == [125.0] && gs[3..] == [];
  }

  // ---------------------------------------------------------------------------
  // Glucose Management Indicator
  // ---------------------------------------------------------------------------

  /** The mean glucose a given GMI corresponds to. */
  function MeanForGmi(gmi: real): real
  {
    (gmi - 3.31) / 0.02392
  }

  /** GMI in percent, from the mean glucose in mg/dL; the mean can be read
      back from it. */
  function Gmi(meanGlucose: real): (gmi: real)
    ensures MeanForGmi(gmi) == meanGlucose
  {
    3.31 + 0.02392 * meanGlucose
  }

  /** GMI is a strictly increasing, hence invertible, function of the mean. */
  lemma GmiInvertible(m: real, gmi: real)
    ensures MeanForGmi(Gmi(m)) == m
    ensures Gmi(MeanForGmi(gmi)) == gmi
    ensures forall m' :: m < m' ==> Gmi(m) < Gmi(m')
  {
  }

  /** A mean of 154 mg/dL gives a GMI of 6.99368 %, shown as 7.0. */
  lemma GmiExample()
    ensures Gmi(154.0) == 6.99368
  {
  }
}
