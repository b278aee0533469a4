/** The readings table the page loads once and hands to each report
    function. Two of them add a derived column to it in place before they
    group: the calendar date (for the daily profiles) and the time-of-day
    coordinate (for the AGP curve). The table is an object whose columns
    change; a column not yet added is None. */
module Frame {
  import opened Stats
  import opened Readings
  import DailyProfiles
  import AgpCurve

  class GlucoseFrame {
    var readings: seq<Reading>
    var dateColumn: Option<seq<Date>>
    var timeOfDayColumn: Option<seq<real>>

    /** Every derived column present agrees, row for row, with the readings
        it was derived from. */
    predicate ColumnsAgree()
      reads this
    {
      && (dateColumn.Some? ==> dateColumn.value == Dates(readings))
      && (timeOfDayColumn.Some? ==> timeOfDayColumn.value == AgpCurve.Coordinates(readings))
    }

    /** A freshly loaded table has no derived column. */
    constructor(rs: seq<Reading>)
      ensures readings == rs
      ensures dateColumn == None && timeOfDayColumn == None
      ensures ColumnsAgree()
    {
      readings := rs;
      dateColumn := None;
      timeOfDayColumn := None;
    }

    /** `compute_daily_profiles`: sets the `Date` column, then groups on it.
        The readings and the other column are left as they were. */
    method ComputeDailyProfiles() returns (rows: seq<DailyProfiles.DailyProfile>)
      requires ColumnsAgree()
      modifies this
      ensures readings == old(readings) && timeOfDayColumn == old(timeOfDayColumn)
      ensures dateColumn == Some(Dates(readings))
      ensures ColumnsAgree()
      ensures rows == DailyProfiles.ComputeDailyProfiles(readings)
    {
      dateColumn := Some(Dates(readings));
      rows := DailyProfiles.ComputeDailyProfiles(readings);
    }

    /** `compute_agp`: sets the `Time of Day` column, then groups on it. The
        readings and the other column are left as they were. */
    method ComputeAgp() returns (rows: seq<AgpCurve.AgpRow>)
      requires ColumnsAgree()
      modifies this
      ensures readings == old(readings) && dateColumn == old(dateColumn)
      ensures timeOfDayColumn == Some(AgpCurve.Coordinates(readings))
      ensures ColumnsAgree()
      ensures rows == AgpCurve.ComputeAgp(readings)
    {
      timeOfDayColumn := Some(AgpCurve.Coordinates(readings));
      rows := AgpCurve.ComputeAgp(readings);
    }
  }

  /** The report's order of calls on one table: the AGP curve first, then
      the daily profiles. Afterwards the table carries both derived
      columns, its readings are unchanged, and the two results are those of
      the pure computations on the readings. */
  method Report(frame: GlucoseFrame)
      returns (curve: seq<AgpCurve.AgpRow>, daily: seq<DailyProfiles.DailyProfile>)
    requires frame.ColumnsAgree()
    modifies frame
    ensures frame.readings == old(frame.readings)
    ensures frame.dateColumn == Some(Dates(frame.readings))
    ensures frame.timeOfDayColumn == Some(AgpCurve.Coordinates(frame.readings))
    ensures curve == AgpCurve.ComputeAgp(frame.readings)
    ensures daily == DailyProfiles.ComputeDailyProfiles(frame.readings)
  {
    curve := frame.ComputeAgp();
    daily := frame.ComputeDailyProfiles();
  }
}
