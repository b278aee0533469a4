/** The daily-profiles table of the report: the readings grouped by calendar
    date, one row per date that has readings, in ascending date order (the
    order a sorted `groupby` emits), with the minimum, maximum and mean
    glucose of that date's readings. */
module DailyProfiles {
  import opened Stats
  import opened Readings
  import opened Sorting

  datatype DailyProfile = DailyProfile(date: Date, min: real, max: real, mean: real)

  /** The glucose values of the readings taken on date d, in row order: the
      group `groupby('Date')` forms for d. */
  function GlucoseOn(rs: seq<Reading>, d: Date): (gs: seq<real>)
    ensures |gs| <= |rs|
    ensures |gs| > 0 <==> d in Dates(rs)
  {
    if rs == [] then []
    else
      assert d in Dates(rs) <==> d == rs[0].date || d in Dates(rs[1..]) by {
        assert Dates(rs) == [rs[0].date] + Dates(rs[1..]);
      }
      (if rs[0].date == d then [rs[0].glucose] else []) + GlucoseOn(rs[1..], d)
  }

  /** Every reading taken on date d contributes its value to d's group. */
  lemma {:induction false} GlucoseOnHas(rs: seq<Reading>, d: Date, i: int)
    requires 0 <= i < |rs| && rs[i].date == d
    ensures rs[i].glucose in GlucoseOn(rs, d)
  {
    var pre := if rs[0].date == d then [rs[0].glucose] else [];
    assert GlucoseOn(rs, d) == pre + GlucoseOn(rs[1..], d);
    if i > 0 {
      GlucoseOnHas(rs[1..], d, i - 1);
    }
  }

  /** Every value in d's group comes from a reading taken on date d. */
  lemma {:induction false} GlucoseOnFrom(rs: seq<Reading>, d: Date, g: real)
    requires g in GlucoseOn(rs, d)
    ensures exists i :: 0 <= i < |rs| && rs[i].date == d && rs[i].glucose == g
  {
    var pre := if rs[0].date == d then [rs[0].glucose] else [];
    assert GlucoseOn(rs, d) == pre + GlucoseOn(rs[1..], d);
    if g in pre {
      assert rs[0].date == d && rs[0].glucose == g;
    } else {
      GlucoseOnFrom(rs[1..], d, g);
      var j :| 0 <= j < |rs[1..]| && rs[1..][j].date == d && rs[1..][j].glucose == g;
      assert rs[j + 1].date == d && rs[j + 1].glucose == g;
    }
  }

  /** The group of date d holds the value of every reading taken on d,
      once each and in row order: its j-th value is that of the j-th
      reading taken on d. */
  lemma DateGroupRows(rs: seq<Reading>, d: Date)
    ensures ValuesAt(rs, GlucoseOn(rs, d), KeyIndices(Dates(rs), d, 0))
  {
    DateGroupRowsFrom(rs, d, 0);
    assert rs[0..] == rs;
  }

  /** The same for the readings from position lo on. */
  lemma {:induction false} DateGroupRowsFrom(rs: seq<Reading>, d: Date, lo: nat)
    requires lo <= |rs|
    ensures ValuesAt(rs, GlucoseOn(rs[lo..], d), KeyIndices(Dates(rs), d, lo))
    decreases |rs| - lo
  {
    if lo == |rs| {
      assert rs[lo..] == [];
    } else {
      DateGroupRowsFrom(rs, d, lo + 1);
      var t := rs[lo..];
      assert t[0] == rs[lo] && t[1..] == rs[lo + 1..];
      assert Dates(rs)[lo] == rs[lo].date;
      var rest, restIdx := GlucoseOn(rs[lo + 1..], d), KeyIndices(Dates(rs), d, lo + 1);
      if rs[lo].date == d {
        assert GlucoseOn(t, d) == [rs[lo].glucose] + rest;
        assert KeyIndices(Dates(rs), d, lo) == [lo] + restIdx;
        ValuesAtCons(rs, lo, rest, restIdx);
      } else {
        assert GlucoseOn(t, d) == rest;
        assert KeyIndices(Dates(rs), d, lo) == restIdx;
      }
    }
  }

  /** The row for a date that has readings. */
  function Profile(rs: seq<Reading>, d: Date): (p: DailyProfile)
    requires d in Dates(rs)
    ensures p.date == d
    ensures p.min <= p.mean <= p.max
  {
    var gs := GlucoseOn(rs, d);
    MeanWithinMinMax(gs);
    DailyProfile(d, Min(gs), Max(gs), Mean(gs))
  }

  /** The rows for a list of dates, in the list's order: the per-date
      `agg` step. */
  function ProfilesFor(rs: seq<Reading>, ds: seq<Date>): seq<DailyProfile>
    requires forall i :: 0 <= i < |ds| ==> ds[i] in Dates(rs)
  {
    seq(|ds|, i requires 0 <= i < |ds| => Profile(rs, ds[i]))
  }

  /** `compute_daily_profiles`: one row per distinct date, ascending. Rows
      come in strictly increasing date order, there is a row for a date
      exactly when some reading was taken on it, every row's mean lies
      between its minimum and maximum, and a row's minimum, maximum and
      mean are those of the readings taken on its date. */
  function ComputeDailyProfiles(rs: seq<Reading>): (ps: seq<DailyProfile>)
    ensures forall i, j :: 0 <= i < j < |ps| ==> ps[i].date < ps[j].date
    ensures forall d :: d in Dates(rs) <==> exists i :: 0 <= i < |ps| && ps[i].date == d
    ensures forall i :: 0 <= i < |ps| ==> ps[i].min <= ps[i].mean <= ps[i].max
    ensures forall i :: 0 <= i < |ps| ==>
      && ps[i].date in Dates(rs)
      && ps[i].min == Min(GlucoseOn(rs, ps[i].date))
      && ps[i].max == Max(GlucoseOn(rs, ps[i].date))
      && ps[i].mean == Mean(GlucoseOn(rs, ps[i].date))
  {
    var ds := DistinctSorted(Dates(rs));
    var ps := ProfilesFor(rs, ds);
    assert forall d :: d in ds <==> exists i :: 0 <= i < |ps| && ps[i].date == d by {
      forall d ensures d in ds <==> exists i :: 0 <= i < |ps| && ps[i].date == d {
        if d in ds {
          var i :| 0 <= i < |ds| && ds[i] == d;
          assert ps[i].date == d;
        }
      }
    }
    ps
  }

  /** Each row's minimum and maximum bound every reading of its date, and
      both are the value of some reading of that date. */
  lemma DailyProfileBounds(rs: seq<Reading>, i: int)
    requires 0 <= i < |ComputeDailyProfiles(rs)|
    ensures var p := ComputeDailyProfiles(rs)[i];
      && (forall j :: 0 <= j < |rs| && rs[j].date == p.date ==> p.min <= rs[j].glucose <= p.max)
      && (exists j :: 0 <= j < |rs| && rs[j].date == p.date && rs[j].glucose == p.min)
      && (exists j :: 0 <= j < |rs| && rs[j].date == p.date && rs[j].glucose == p.max)
  {
    var ds := DistinctSorted(Dates(rs));
    var d := ds[i];
    assert ComputeDailyProfiles(rs)[i] == Profile(rs, d);
    ProfileBounds(rs, d);
  }

  /** The row of a date bounds the date's readings and is attained by them. */
  lemma ProfileBounds(rs: seq<Reading>, d: Date)
    requires d in Dates(rs)
    ensures var p := Profile(rs, d);
      && (forall j :: 0 <= j < |rs| && rs[j].date == d ==> p.min <= rs[j].glucose <= p.max)
      && (exists j :: 0 <= j < |rs| && rs[j].date == d && rs[j].glucose == p.min)
      && (exists j :: 0 <= j < |rs| && rs[j].date == d && rs[j].glucose == p.max)
  {
    var gs := GlucoseOn(rs, d);
    forall j | 0 <= j < |rs| && rs[j].date == d
      ensures Min(gs) <= rs[j].glucose <= Max(gs)
    {
      GlucoseOnHas(rs, d, j);
    }
    GlucoseOnFrom(rs, d, Min(gs));
    GlucoseOnFrom(rs, d, Max(gs));
  }

  // ---------------------------------------------------------------------------
  // The daily groups partition the readings
  // ---------------------------------------------------------------------------

  /** Sum of the group sums of the listed dates. */
  function SumByDate(rs: seq<Reading>, ds: seq<Date>): real
  {
    if ds == [] then 0.0 else Sum(GlucoseOn(rs, ds[0])) + SumByDate(rs, ds[1..])
  }

  /** Total size of the groups of the listed dates. */
  function CountByDate(rs: seq<Reading>, ds: seq<Date>): nat
  {
    if ds == [] then 0 else |GlucoseOn(rs, ds[0])| + CountByDate(rs, ds[1..])
  }

  lemma SumCons(g: real, s: seq<real>)
    ensures Sum([g] + s) == g + Sum(s)
  {
    assert ([g] + s)[1..] == s;
  }

  /** Taking off the first reading takes its value off exactly one group,
      when the dates are distinct. */
  lemma {:induction false} ByDateStep(rs: seq<Reading>, ds: seq<Date>)
    requires |rs| > 0 && StrictlyIncreasing(ds)
    ensures SumByDate(rs, ds)
            == (if rs[0].date in ds then rs[0].glucose else 0.0) + SumByDate(rs[1..], ds)
    ensures CountByDate(rs, ds)
            == (if rs[0].date in ds then 1 else 0) + CountByDate(rs[1..], ds)
  {
    if ds != [] {
      var d, g := ds[0], rs[0].glucose;
      ByDateStep(rs, ds[1..]);
      var rest := GlucoseOn(rs[1..], d);
      if rs[0].date == d {
        assert GlucoseOn(rs, d) == [g] + rest;
        SumCons(g, rest);
        assert forall j :: 0 <= j < |ds[1..]| ==> ds[0] < ds[1..][j];
      } else {
        assert GlucoseOn(rs, d) == [] + rest;
        assert [] + rest == rest;
      }
      assert rs[0].date in ds <==> rs[0].date == d || rs[0].date in ds[1..];
    }
  }

  /** Over a list of distinct dates that holds every reading's date, the
      groups add up to the whole column: their sums to its sum, their sizes
      to the number of readings. */
  lemma {:induction false} DatesPartitionReadings(rs: seq<Reading>, ds: seq<Date>)
    requires StrictlyIncreasing(ds)
    requires forall i :: 0 <= i < |rs| ==> rs[i].date in ds
    ensures SumByDate(rs, ds) == Sum(Glucose(rs))
    ensures CountByDate(rs, ds) == |rs|
  {
    if rs == [] {
      EmptyGroups(ds);
    } else {
      ByDateStep(rs, ds);
      assert rs[0].date in ds;
      DatesPartitionReadings(rs[1..], ds);
      assert Glucose(rs) == [rs[0].glucose] + Glucose(rs[1..]);
      SumCons(rs[0].glucose, Glucose(rs[1..]));
    }
  }

  lemma {:induction false} EmptyGroups(ds: seq<Date>)
    ensures SumByDate([], ds) == 0.0 && CountByDate([], ds) == 0
  {
    if ds != [] {
      EmptyGroups(ds[1..]);
    }
  }

  /** Sum over the rows of group size times the row's mean. */
  function WeightedDailyMeans(rs: seq<Reading>, ps: seq<DailyProfile>): real
  {
    if ps == [] then 0.0
    else RowWeight(rs, ps[0]) + WeightedDailyMeans(rs, ps[1..])
  }

  /** A row's mean times the number of readings of its date. */
  function RowWeight(rs: seq<Reading>, p: DailyProfile): real
  {
    Weighted(|GlucoseOn(rs, p.date)|, p.mean)
  }

  /** Weighting each row's mean by its group size gives back its group's sum. */
  lemma {:induction false} WeightedIsSumByDate(rs: seq<Reading>, ds: seq<Date>)
    requires forall i :: 0 <= i < |ds| ==> ds[i] in Dates(rs)
    ensures WeightedDailyMeans(rs, ProfilesFor(rs, ds)) == SumByDate(rs, ds)
  {
    if ds != [] {
      assert forall i :: 0 <= i < |ds[1..]| ==> ds[1..][i] == ds[i + 1];
      var ps, qs := ProfilesFor(rs, ds), ProfilesFor(rs, ds[1..]);
      assert |ps| == |ds| && |qs| == |ds| - 1;
      assert forall i :: 0 <= i < |qs| ==> ps[1..][i] == qs[i];
      assert ps[1..] == qs;
      WeightedIsSumByDate(rs, ds[1..]);
      assert ps[0] == Profile(rs, ds[0]);
      ProfileWeight(rs, ds[0]);
    }
  }

  /** A date's row weighted by its group size gives back its group's sum. */
  lemma ProfileWeight(rs: seq<Reading>, d: Date)
    requires d in Dates(rs)
    ensures RowWeight(rs, Profile(rs, d)) == Sum(GlucoseOn(rs, d))
  {
    var gs, p := GlucoseOn(rs, d), Profile(rs, d);
    assert p.date == d && p.mean == Mean(gs);
    MeanTimesCount(gs);
  }

  /** The overall mean is the average of the daily means weighted by the
      number of readings of each day, and the day groups hold every reading
      exactly once. */
  lemma OverallMeanIsWeightedDailyMean(rs: seq<Reading>)
    requires |rs| > 0
    ensures Mean(Glucose(rs)) == WeightedDailyMeans(rs, ComputeDailyProfiles(rs)) / (|rs| as real)
    ensures CountByDate(rs, DistinctSorted(Dates(rs))) == |rs|
  {
    var ds := DistinctSorted(Dates(rs));
    assert forall i :: 0 <= i < |rs| ==> rs[i].date in ds by {
      forall i | 0 <= i < |rs| ensures rs[i].date in ds {
        assert Dates(rs)[i] == rs[i].date;
      }
    }
    DatesPartitionReadings(rs, ds);
    WeightedIsSumByDate(rs, ds);
  }

  /** Readings of 70 and 180 mg/dL on day d1 and of 125 mg/dL on day d2. */
  function TwoDays(d1: Date, d2: Date): seq<Reading>
  {
    [Reading(d1, 8, 0, 70.0), Reading(d1, 8, 0, 180.0), Reading(d2, 8, 0, 125.0)]
  }

  /** For any two days d1 before d2: one row per day, in date order, with
      the first day's range 70..180 and mean 125 and the second day's
      single value 125. */
  lemma TwoDayExample(d1: Date, d2: Date)
    requires d1 < d2
    ensures ComputeDailyProfiles(TwoDays(d1, d2))
            == [DailyProfile(d1, 70.0, 180.0, 125.0), DailyProfile(d2, 125.0, 125.0, 125.0)]
  {
    var rs := TwoDays(d1, d2);
    TwoDayGroups(d1, d2);
    TwoDayKeys(d1, d2);
    TwoDayStats();
    TwoRows(rs, d1, d2);
  }

  /** Readings taken on exactly two dates give a table of those two dates'
      rows. */
  lemma TwoRows(rs: seq<Reading>, d1: Date, d2: Date)
    requires DistinctSorted(Dates(rs)) == [d1, d2]
    ensures d1 in Dates(rs) && d2 in Dates(rs)
    ensures ComputeDailyProfiles(rs) == [Profile(rs, d1), Profile(rs, d2)]
  {
    assert d1 in DistinctSorted(Dates(rs)) && d2 in DistinctSorted(Dates(rs));
    var ps := ProfilesFor(rs, [d1, d2]);
    assert ComputeDailyProfiles(rs) == ps;
    assert |ps| == 2 && ps[0] == Profile(rs, d1) && ps[1] == Profile(rs, d2);
  }

  /** The date column and the two date groups of the example. */
  lemma TwoDayGroups(d1: Date, d2: Date)
    requires d1 < d2
    ensures Dates(TwoDays(d1, d2)) == [d1, d1, d2]
    ensures GlucoseOn(TwoDays(d1, d2), d1) == [70.0, 180.0]
    ensures GlucoseOn(TwoDays(d1, d2), d2) == [125.0]
  {
    var rs := TwoDays(d1, d2);
    assert rs[1..] == [rs[1], rs[2]] && rs[1..][1..] == [rs[2]] && rs[1..][1..][1..] == [];
    assert Dates([rs[2]]) == [d2];
    var last := [rs[2]];
    assert last[1..] == [];
    assert GlucoseOn(last, d1) == [] && GlucoseOn(last, d2) == [125.0];
  }

  /** The distinct dates of the example, ascending. */
  lemma TwoDayKeys(d1: Date, d2: Date)
    requires d1 < d2
    ensures DistinctSorted([d1, d1, d2]) == [d1, d2]
  {
    var ks := [d1, d1, d2];
    assert ks[1..] == [d1, d2] && ks[1..][1..] == [d2] && ks[1..][1..][1..] == [];
    assert DistinctSorted([d2]) == InsertKey(d2, []) == [d2];
    assert DistinctSorted([d1, d2]) == InsertKey(d1, [d2]) == [d1, d2];
    assert DistinctSorted(ks) == InsertKey(d1, [d1, d2]) == [d1, d2];
  }

  /** Min, max and mean of the example's two groups. */
  lemma TwoDayStats()
    ensures Min([70.0, 180.0]) == 70.0 && Max([70.0, 180.0]) == 180.0
    ensures Mean([70.0, 180.0]) == 125.0
    ensures Min([125.0]) == 125.0 && Max([125.0]) == 125.0 && Mean([125.0]) == 125.0
  {
    assert [70.0, 180.0][1..] == [180.0];
    assert [125.0][1..] == [];
    assert [180.0][1..] == [];
  }
}
