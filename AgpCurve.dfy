/** The ambulatory glucose profile curve: the readings grouped on their
    time-of-day coordinate `hour + minute / 60`, one row per distinct
    coordinate in ascending order, with the median and the 5th, 25th, 75th
    and 95th percentiles of each group. */
module AgpCurve {
  import opened Stats
  import opened Readings
  import opened Sorting
  import opened Percentiles

  datatype AgpRow = AgpRow(
    timeOfDay: real,
    median: real,
    percentile5: real,
    percentile25: real,
    percentile75: real,
    percentile95: real)

  /** The time-of-day column, in row order. */
  function Coordinates(rs: seq<Reading>): (ts: seq<real>)
    ensures |ts| == |rs|
    ensures forall i :: 0 <= i < |rs| ==> ts[i] == Coordinate(rs[i])
  {
    if rs == [] then [] else [Coordinate(rs[0])] + Coordinates(rs[1..])
  }

  /** The glucose values of the readings whose coordinate is t, in row
      order: the group `groupby('Time of Day')` forms for t. */
  function GlucoseAt(rs: seq<Reading>, t: real): (gs: seq<real>)
    ensures |gs| <= |rs|
    ensures |gs| > 0 <==> t in Coordinates(rs)
  {
    if rs == [] then []
    else
      assert t in Coordinates(rs) <==> t == Coordinate(rs[0]) || t in Coordinates(rs[1..]) by {
        assert Coordinates(rs) == [Coordinate(rs[0])] + Coordinates(rs[1..]);
      }
      (if Coordinate(rs[0]) == t then [rs[0].glucose] else []) + GlucoseAt(rs[1..], t)
  }

  /** Every reading whose coordinate is t contributes its value to t's group. */
  lemma {:induction false} GlucoseAtHas(rs: seq<Reading>, t: real, i: int)
    requires 0 <= i < |rs| && Coordinate(rs[i]) == t
    ensures rs[i].glucose in GlucoseAt(rs, t)
  {
    if i == 0 {
      assert GlucoseAt(rs, t) == [rs[0].glucose] + GlucoseAt(rs[1..], t);
    } else {
      assert rs[1..][i - 1] == rs[i];
      GlucoseAtHas(rs[1..], t, i - 1);
      var pre := if Coordinate(rs[0]) == t then [rs[0].glucose] else [];
      assert GlucoseAt(rs, t) == pre + GlucoseAt(rs[1..], t);
    }
  }

  /** The group of coordinate t holds the value of every reading at t,
      once each and in row order: its j-th value is that of the j-th
      reading whose coordinate is t. */
  lemma TimeGroupRows(rs: seq<Reading>, t: real)
    ensures ValuesAt(rs, GlucoseAt(rs, t), KeyIndices(Coordinates(rs), t, 0))
  {
    TimeGroupRowsFrom(rs, t, 0);
    assert rs[0..] == rs;
  }

  /** The same for the readings from position lo on. */
  lemma {:induction false} TimeGroupRowsFrom(rs: seq<Reading>, t: real, lo: nat)
    requires lo <= |rs|
    ensures ValuesAt(rs, GlucoseAt(rs[lo..], t), KeyIndices(Coordinates(rs), t, lo))
    decreases |rs| - lo
  {
    if lo == |rs| {
      assert rs[lo..] == [];
    } else {
      TimeGroupRowsFrom(rs, t, lo + 1);
      var tail := rs[lo..];
      assert tail[0] == rs[lo] && tail[1..] == rs[lo + 1..];
      assert Coordinates(rs)[lo] == Coordinate(rs[lo]);
      var rest, restIdx := GlucoseAt(rs[lo + 1..], t), KeyIndices(Coordinates(rs), t, lo + 1);
      if Coordinate(rs[lo]) == t {
        assert GlucoseAt(tail, t) == [rs[lo].glucose] + rest;
        assert KeyIndices(Coordinates(rs), t, lo) == [lo] + restIdx;
        ValuesAtCons(rs, lo, rest, restIdx);
      } else {
        assert GlucoseAt(tail, t) == rest;
        assert KeyIndices(Coordinates(rs), t, lo) == restIdx;
      }
    }
  }

  /** Every value in t's group comes from a reading whose coordinate is t. */
  lemma {:induction false} GlucoseAtFrom(rs: seq<Reading>, t: real, g: real)
    requires g in GlucoseAt(rs, t)
    ensures exists i :: 0 <= i < |rs| && Coordinate(rs[i]) == t && rs[i].glucose == g
  {
    var pre := if Coordinate(rs[0]) == t then [rs[0].glucose] else [];
    assert GlucoseAt(rs, t) == pre + GlucoseAt(rs[1..], t);
    if g in pre {
      assert Coordinate(rs[0]) == t && rs[0].glucose == g;
    } else {
      GlucoseAtFrom(rs[1..], t, g);
      var j :| 0 <= j < |rs[1..]| && Coordinate(rs[1..][j]) == t && rs[1..][j].glucose == g;
      assert rs[j + 1] == rs[1..][j];
    }
  }

  /** The row for a minute of the day at which some reading was taken: the
      statistics of the group of readings whose coordinate is that minute's
      time. */
  function Row(rs: seq<Reading>, k: int): (row: AgpRow)
    requires k in MinuteKeys(rs)
    ensures row.timeOfDay == KeyTime(k)
  {
    var t := KeyTime(k);
    KeyTimePresent(rs, k);
    var gs := GlucoseAt(rs, t);
    AgpRow(t, Median(gs), Percentile(gs, 5), Percentile(gs, 25),
           Percentile(gs, 75), Percentile(gs, 95))
  }

  /** A row's five statistics come in increasing order, stay within its
      group's range, and its median is the interpolated 50th percentile. */
  lemma RowStatistics(rs: seq<Reading>, k: int)
    requires k in MinuteKeys(rs)
    ensures KeyTime(k) in Coordinates(rs)
    ensures var row, gs := Row(rs, k), GlucoseAt(rs, KeyTime(k));
      && row.percentile5 <= row.percentile25 <= row.median
         <= row.percentile75 <= row.percentile95
      && Min(gs) <= row.percentile5 && row.percentile95 <= Max(gs)
      && row.median == Percentile(gs, 50)
  {
    KeyTimePresent(rs, k);
    var gs := GlucoseAt(rs, KeyTime(k));
    MedianIsPercentile50(gs);
    PercentileMonotone(gs, 5, 25);
    PercentileMonotone(gs, 25, 50);
    PercentileMonotone(gs, 50, 75);
    PercentileMonotone(gs, 75, 95);
    PercentileBounds(gs, 5);
    PercentileBounds(gs, 95);
  }

  /** The rows for a list of minute-of-day keys, in the list's order: the
      per-key `agg` step. */
  function RowsFor(rs: seq<Reading>, ks: seq<int>): seq<AgpRow>
    requires forall i :: 0 <= i < |ks| ==> ks[i] in MinuteKeys(rs)
  {
    seq(|ks|, i requires 0 <= i < |ks| => Row(rs, ks[i]))
  }

  /** A reading's coordinate is the time of its minute-of-day key. */
  lemma CoordinateIsKeyTime(r: Reading)
    ensures Coordinate(r) == KeyTime(MinuteKey(r))
  {
    TimeOfDayIsMinuteOfDay(r.hour, r.minute);
  }

  /** A minute of the day at which some reading was taken is, as a time of
      day, the coordinate of that reading. */
  lemma KeyTimePresent(rs: seq<Reading>, k: int)
    requires k in MinuteKeys(rs)
    ensures KeyTime(k) in Coordinates(rs)
  {
    var ks, ts := MinuteKeys(rs), Coordinates(rs);
    var i :| 0 <= i < |ks| && ks[i] == k;
    CoordinateIsKeyTime(rs[i]);
    assert ts[i] == KeyTime(k);
  }

  /** Every coordinate present is the time of a minute-of-day key present. */
  lemma CoordinateHasKey(rs: seq<Reading>, t: real)
    requires t in Coordinates(rs)
    ensures exists k :: k in MinuteKeys(rs) && KeyTime(k) == t
  {
    var ks, ts := MinuteKeys(rs), Coordinates(rs);
    var i :| 0 <= i < |ts| && ts[i] == t;
    CoordinateIsKeyTime(rs[i]);
    assert ks[i] in ks;
  }

  /** `compute_agp`: one row per distinct time-of-day coordinate, in
      strictly increasing order of the coordinate, and a row for a
      coordinate exactly when some reading has it. */
  function ComputeAgp(rs: seq<Reading>): (rows: seq<AgpRow>)
    ensures forall i, j :: 0 <= i < j < |rows| ==> rows[i].timeOfDay < rows[j].timeOfDay
    ensures forall t :: t in Coordinates(rs) <==> exists i :: 0 <= i < |rows| && rows[i].timeOfDay == t
  {
    var ks := DistinctSorted(MinuteKeys(rs));
    var rows := RowsFor(rs, ks);
    forall t | t in Coordinates(rs)
      ensures exists i :: 0 <= i < |rows| && rows[i].timeOfDay == t
    {
      CoordinateHasKey(rs, t);
      var k :| k in MinuteKeys(rs) && KeyTime(k) == t;
      var i :| 0 <= i < |ks| && ks[i] == k;
      assert rows[i].timeOfDay == t;
    }
    forall i | 0 <= i < |rows| ensures rows[i].timeOfDay in Coordinates(rs) {
      KeyTimePresent(rs, ks[i]);
    }
    rows
  }

  /** In every row P5 <= P25 <= median <= P75 <= P95; the 5th percentile
      is not below, and the 95th not above, all the readings taken at the
      row's time of day; the median is the interpolated 50th percentile of
      those readings; and each statistic is that of the readings taken at
      the row's time of day. */
  lemma AgpRowStatistics(rs: seq<Reading>, i: int)
    requires 0 <= i < |ComputeAgp(rs)|
    ensures var row := ComputeAgp(rs)[i];
      && row.percentile5 <= row.percentile25 <= row.median
         <= row.percentile75 <= row.percentile95
      && (exists j :: 0 <= j < |rs| && Coordinate(rs[j]) == row.timeOfDay
                      && rs[j].glucose <= row.percentile5)
      && (exists j :: 0 <= j < |rs| && Coordinate(rs[j]) == row.timeOfDay
                      && row.percentile95 <= rs[j].glucose)
      && row.median == Percentile(GlucoseAt(rs, row.timeOfDay), 50)
    ensures var row := ComputeAgp(rs)[i];
      var gs := GlucoseAt(rs, row.timeOfDay);
      && |gs| > 0
      && row.median == Median(gs)
      && row.percentile5 == Percentile(gs, 5)
      && row.percentile25 == Percentile(gs, 25)
      && row.percentile75 == Percentile(gs, 75)
      && row.percentile95 == Percentile(gs, 95)
  {
    var ks := DistinctSorted(MinuteKeys(rs));
    var t := KeyTime(ks[i]);
    assert ComputeAgp(rs)[i] == Row(rs, ks[i]);
    RowStatistics(rs, ks[i]);
    var gs := GlucoseAt(rs, t);
    GlucoseAtFrom(rs, t, Min(gs));
    GlucoseAtFrom(rs, t, Max(gs));
  }

  /** Three readings at 08:00, of 70 and 180 mg/dL on one day and 125 mg/dL
      on another. */
  function ThreeReadings(d1: Date, d2: Date): seq<Reading>
  {
    [Reading(d1, 8, 0, 70.0), Reading(d1, 8, 0, 180.0), Reading(d2, 8, 0, 125.0)]
  }

  /** Whatever the two days, the three readings give one row, at hour 8,
      with median 125. */
  lemma ThreeReadingCurve(d1: Date, d2: Date)
    ensures ComputeAgp(ThreeReadings(d1, d2)) == [AgpRow(8.0, 125.0, 75.5, 97.5, 152.5, 174.5)]
  {
    var rs := ThreeReadings(d1, d2);
    ThreeReadingKeys(d1, d2);
    SingleRow(rs, 480);
    ThreeReadingRow(d1, d2);
  }

  /** Readings that all fall in one minute of the day give a table of that
      minute's row alone. */
  lemma SingleRow(rs: seq<Reading>, k: int)
    requires DistinctSorted(MinuteKeys(rs)) == [k]
    ensures k in MinuteKeys(rs)
    ensures ComputeAgp(rs) == [Row(rs, k)]
  {
    assert k in DistinctSorted(MinuteKeys(rs));
    var rows := RowsFor(rs, [k]);
    assert ComputeAgp(rs) == rows;
    assert |rows| == 1 && rows[0] == Row(rs, k);
  }

  /** The row of minute 480 (08:00) for the three readings. */
  lemma ThreeReadingRow(d1: Date, d2: Date)
    ensures 480 in MinuteKeys(ThreeReadings(d1, d2))
    ensures Row(ThreeReadings(d1, d2), 480) == AgpRow(8.0, 125.0, 75.5, 97.5, 152.5, 174.5)
  {
    var rs := ThreeReadings(d1, d2);
    ThreeReadingKeys(d1, d2);
    ThreeReadingGroup(d1, d2);
    ThreeReadingExample();
    assert KeyTime(480) == 8.0;
    var gs := GlucoseAt(rs, 8.0);
    assert Row(rs, 480) == AgpRow(8.0, Median(gs), Percentile(gs, 5), Percentile(gs, 25),
                                  Percentile(gs, 75), Percentile(gs, 95));
  }

  /** All three readings fall in minute 480, so there is one key. */
  lemma ThreeReadingKeys(d1: Date, d2: Date)
    ensures MinuteKeys(ThreeReadings(d1, d2)) == [480, 480, 480]
    ensures DistinctSorted(MinuteKeys(ThreeReadings(d1, d2))) == [480]
  {
    var rs := ThreeReadings(d1, d2);
    assert forall i :: 0 <= i < 3 ==> MinuteKey(rs[i]) == 480;
    assert MinuteKeys(rs) == [480, 480, 480];
    var r := DistinctSorted([480, 480, 480]);
    assert 480 in r;
    assert forall i :: 0 <= i < |r| ==> r[i] == 480;
    if |r| >= 2 {
      assert false;
    }
  }

  /** The 08:00 group holds the three values in row order. */
  lemma ThreeReadingGroup(d1: Date, d2: Date)
    ensures GlucoseAt(ThreeReadings(d1, d2), 8.0) == [70.0, 180.0, 125.0]
  {
    var rs := ThreeReadings(d1, d2);
    assert forall i :: 0 <= i < 3 ==> Coordinate(rs[i]) == 8.0;
    assert rs[1..] == [rs[1], rs[2]] && rs[1..][1..] == [rs[2]] && rs[1..][1..][1..] == [];
    assert GlucoseAt([rs[2]], 8.0) == [125.0];
    assert GlucoseAt(rs[1..], 8.0) == [180.0, 125.0];
  }
}
