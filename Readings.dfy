/** A glucose reading as the report sees it once the timestamp column has
    been parsed: the calendar date, the hour and minute of the timestamp,
    and the glucose value in mg/dL. */
module Readings {

  /** A calendar date as its proleptic Gregorian ordinal (day 1 is
      0001-01-01), so that comparing dates is comparing integers. */
  type Date = int

  /** `Timestamp.dt.hour` always lies in 0..23. */
  type Hour = h: int | 0 <= h < 24

  /** `Timestamp.dt.minute` always lies in 0..59. */
  type Minute = m: int | 0 <= m < 60

  datatype Reading = Reading(date: Date, hour: Hour, minute: Minute, glucose: real)

  /** The glucose column, in row order. */
  function Glucose(rs: seq<Reading>): (gs: seq<real>)
    ensures |gs| == |rs|
    ensures forall i :: 0 <= i < |rs| ==> gs[i] == rs[i].glucose
  {
    if rs == [] then [] else [rs[0].glucose] + Glucose(rs[1..])
  }

  /** The date column, in row order. */
  function Dates(rs: seq<Reading>): (ds: seq<Date>)
    ensures |ds| == |rs|
    ensures forall i :: 0 <= i < |rs| ==> ds[i] == rs[i].date
  {
    if rs == [] then [] else [rs[0].date] + Dates(rs[1..])
  }

  /** The time-of-day coordinate `hour + minute / 60`, in hours. */
  function TimeOfDay(hour: Hour, minute: Minute): (t: real)
    ensures 0.0 <= t < 24.0
  {
    hour as real + minute as real / 60.0
  }

  /** The number of whole minutes since midnight. */
  function MinuteOfDay(hour: Hour, minute: Minute): (k: int)
    ensures 0 <= k < 24 * 60
  {
    60 * hour + minute
  }

  /** The time of day, in hours, of a minute-of-day key. */
  function KeyTime(k: int): real
  {
    k as real / 60.0
  }

  /** The coordinate is the minute of the day counted in hours. */
  lemma TimeOfDayIsMinuteOfDay(hour: Hour, minute: Minute)
    ensures TimeOfDay(hour, minute) == KeyTime(MinuteOfDay(hour, minute))
  {
  }

  /** Two readings get the same coordinate exactly when they fall in the same
      minute of the day, and the coordinates are ordered as the minutes are:
      grouping and sorting on the coordinate is grouping and sorting on the
      minute of the day. */
  lemma TimeOfDayOrder(h1: Hour, m1: Minute, h2: Hour, m2: Minute)
    ensures TimeOfDay(h1, m1) == TimeOfDay(h2, m2) <==> h1 == h2 && m1 == m2
    ensures TimeOfDay(h1, m1) < TimeOfDay(h2, m2) <==> MinuteOfDay(h1, m1) < MinuteOfDay(h2, m2)
  {
    TimeOfDayIsMinuteOfDay(h1, m1);
    TimeOfDayIsMinuteOfDay(h2, m2);
  }

  /** The time-of-day coordinate of a reading. */
  function Coordinate(r: Reading): real
  {
    TimeOfDay(r.hour, r.minute)
  }

  /** The minute-of-day key of a reading. */
  function MinuteKey(r: Reading): int
  {
    MinuteOfDay(r.hour, r.minute)
  }

  /** The minute-of-day keys of the readings, in row order. */
  function MinuteKeys(rs: seq<Reading>): (ks: seq<int>)
    ensures |ks| == |rs|
    ensures forall i :: 0 <= i < |rs| ==> ks[i] == MinuteKey(rs[i])
  {
    if rs == [] then [] else [MinuteKey(rs[0])] + MinuteKeys(rs[1..])
  }

  /** gs lists, in order, the glucose values of the readings at positions
      idx. */
  predicate ValuesAt(rs: seq<Reading>, gs: seq<real>, idx: seq<int>)
  {
    && |gs| == |idx|
    && forall j :: 0 <= j < |gs| ==> 0 <= idx[j] < |rs| && gs[j] == rs[idx[j]].glucose
  }

  /** Putting one more reading's position and value in front keeps the
      correspondence. */
  lemma ValuesAtCons(rs: seq<Reading>, i: int, gs: seq<real>, idx: seq<int>)
    requires 0 <= i < |rs| && ValuesAt(rs, gs, idx)
    ensures ValuesAt(rs, [rs[i].glucose] + gs, [i] + idx)
  {
    var gs', idx' := [rs[i].glucose] + gs, [i] + idx;
    forall j | 0 <= j < |gs'| ensures 0 <= idx'[j] < |rs| && gs'[j] == rs[idx'[j]].glucose {
      if j > 0 {
        assert gs'[j] == gs[j - 1] && idx'[j] == idx[j - 1];
      }
    }
  }
}
