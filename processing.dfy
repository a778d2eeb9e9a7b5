/**
 * DataProcessor: per-row features of a monitoring data frame
 * (scripts/tpp_utils.py, class DataProcessor): the night and weekend flags
 * of add_time_features and the rapid heart-rate change flag of
 * detect_rapid_changes.
 *
 * A timestamp's hour and day of week, and its position in time, are what a
 * date library reads off the parsed timestamp; here they are given with
 * each row.
 */
module Processing {
  import opened Wrappers
  import opened Values

  // ---------------------------------------------------------------------
  // add_time_features
  // ---------------------------------------------------------------------

  /** What a parsed timestamp gives: its hour (0..23) and day of week (Monday = 0). */
  datatype Stamp = Stamp(hour: int, dayOfWeek: int)

  /** A row and its parsed timestamp: None for a missing one (NaT). */
  datatype Stamped = Stamped(cells: Record, stamp: Option<Stamp>)

  /** The row with the columns add_time_features adds. */
  datatype Featured = Featured(cells: Record, stamp: Option<Stamp>, isNight: int, isWeekend: int)

  /** The columns add_time_features writes; any old column of these names is replaced. */
  const TimeFeatureColumns: set<string> := {"hour", "day_of_week", "is_night", "is_weekend"}

  /** The night hours: from 22:00 through the 6 o'clock hour. */
  predicate NightHour(hour: int)
  {
    hour >= 22 || hour <= 6
  }

  /** The weekend days: Saturday (5) and Sunday (6), with Monday as 0. */
  predicate WeekendDay(dayOfWeek: int)
  {
    dayOfWeek >= 5
  }

  /** A boolean column cast to integers. */
  function AsInt(b: bool): int
  {
    if b then 1 else 0
  }

  /**
   * add_time_features: same rows in the same order, the other cells
   * untouched, and two 0/1 columns: is_night set exactly for the night
   * hours and is_weekend exactly for the weekend days. A missing timestamp
   * has a NaN hour and day, which no comparison accepts, so both flags are 0.
   */
  function AddTimeFeatures(rows: seq<Stamped>): (out: seq<Featured>)
    ensures |out| == |rows|
    ensures forall i :: 0 <= i < |rows| ==>
      && out[i].cells == rows[i].cells - TimeFeatureColumns
      && out[i].stamp == rows[i].stamp
    ensures forall i :: 0 <= i < |rows| ==>
      && (out[i].isNight == 0 || out[i].isNight == 1)
      && (out[i].isNight == 1 <==> rows[i].stamp.Some? && NightHour(rows[i].stamp.value.hour))
      && (out[i].isWeekend == 0 || out[i].isWeekend == 1)
      && (out[i].isWeekend == 1 <==> rows[i].stamp.Some? && WeekendDay(rows[i].stamp.value.dayOfWeek))
    ensures forall i :: 0 <= i < |rows| && rows[i].stamp.None? ==>
      out[i].isNight == 0 && out[i].isWeekend == 0
  {
    seq(|rows|, i requires 0 <= i < |rows| =>
      var r := rows[i];
      var night := r.stamp.Some? && NightHour(r.stamp.value.hour);
      var weekend := r.stamp.Some? && WeekendDay(r.stamp.value.dayOfWeek);
      Featured(r.cells - TimeFeatureColumns, r.stamp, AsInt(night), AsInt(weekend)))
  }

  /**
   * On a clock hour, the night is the nine-hour window that starts at
   * 22:00 and wraps past midnight.
   */
  lemma NightIsNineHourWindow(hour: int)
    requires 0 <= hour < 24
    ensures NightHour(hour) <==> (hour - 22) % 24 < 9
  {
  }

  // ---------------------------------------------------------------------
  // detect_rapid_changes
  // ---------------------------------------------------------------------

  /**
   * A row as detect_rapid_changes sees it: the ordering key of its
   * timestamp, its heart rate (None when missing, which the data frame
   * holds as NaN) and its other cells.
   */
  datatype Reading = Reading(time: int, heartRate: Option<real>, cells: Record)

  /** The row with the hr_change and rapid_change columns. */
  datatype Flagged = Flagged(reading: Reading, hrChange: Option<real>, rapidChange: int)

  predicate SortedByTime(s: seq<Reading>)
  {
    forall i, j :: 0 <= i < j < |s| ==> s[i].time <= s[j].time
  }

  /** Inserts `x` before the first reading that is not earlier than it. */
  function InsertByTime(x: Reading, s: seq<Reading>): seq<Reading>
  {
    if s == [] || x.time <= s[0].time then [x] + s
    else [s[0]] + InsertByTime(x, s[1..])
  }

  /** Insertion adds exactly the one reading. */
  lemma {:induction false} InsertByTimeAdds(x: Reading, s: seq<Reading>)
    ensures multiset(InsertByTime(x, s)) == multiset(s) + multiset{x}
    ensures |InsertByTime(x, s)| == |s| + 1
  {
    if s != [] && x.time > s[0].time {
      InsertByTimeAdds(x, s[1..]);
      assert s == [s[0]] + s[1..];
    }
  }

  /** Insertion into a time-sorted sequence keeps it sorted. */
  lemma {:induction false} InsertByTimeSorted(x: Reading, s: seq<Reading>)
    requires SortedByTime(s)
    ensures SortedByTime(InsertByTime(x, s))
    ensures InsertByTime(x, s)[0] == x || InsertByTime(x, s)[0] == s[0]
  {
    InsertByTimeAdds(x, s);
    if s != [] && x.time > s[0].time {
      var rest := InsertByTime(x, s[1..]);
      InsertByTimeSorted(x, s[1..]);
      assert s[0].time <= rest[0].time;
    }
  }

  /** `sort_values('timestamp')`: the same readings, ordered by time. */
  function SortByTime(s: seq<Reading>): (r: seq<Reading>)
    ensures SortedByTime(r)
    ensures multiset(r) == multiset(s)
    ensures |r| == |s|
  {
    if s == [] then []
    else
      var sorted := SortByTime(s[1..]);
      var r := InsertByTime(s[0], sorted);
      assert SortedByTime(r) && multiset(r) == multiset(s) && |r| == |s| by {
        InsertByTimeAdds(s[0], sorted);
        InsertByTimeSorted(s[0], sorted);
        assert s == [s[0]] + s[1..];
      }
      r
  }

  function Abs(x: real): real
  {
    if x < 0.0 then -x else x
  }

  /** `heartRate.diff().abs()` at one row: NaN (None) unless both rates are present. */
  function HrChange(previous: Option<real>, current: Option<real>): (r: Option<real>)
    ensures r.Some? <==> previous.Some? && current.Some?
    ensures r.Some? ==>
      && previous.Some? && current.Some? && r.value >= 0.0
      && (r.value == current.value - previous.value || r.value == previous.value - current.value)
  {
    if previous.Some? && current.Some? then Some(Abs(current.value - previous.value)) else None
  }

  /** `(hr_change > threshold).astype(int)`: NaN never exceeds the threshold. */
  function RapidFlag(change: Option<real>, threshold: real): (flag: int)
    ensures flag == 0 || flag == 1
    ensures change.None? ==> flag == 0
  {
    if change.Some? && change.value > threshold then 1 else 0
  }

  /** The readings of flagged rows, in order. */
  function Readings(rows: seq<Flagged>): seq<Reading>
  {
    seq(|rows|, i requires 0 <= i < |rows| => rows[i].reading)
  }

  /** detect_rapid_changes' default threshold, in beats per minute. */
  const DefaultThreshold: real := 20.0

  /**
   * detect_rapid_changes: the rows, sorted by time when the frame has a
   * timestamp column and otherwise in their order, each with the absolute
   * heart-rate change from the row before it and a 0/1 flag that is 1
   * exactly when that change is strictly above the threshold. The first row
   * has no change and is never flagged.
   */
  method DetectRapidChanges(rows: seq<Reading>, hasTimestamp: bool, threshold: real)
    returns (out: seq<Flagged>)
    ensures |out| == |rows|
    ensures multiset(Readings(out)) == multiset(rows)
    ensures hasTimestamp ==> SortedByTime(Readings(out))
    ensures !hasTimestamp ==> Readings(out) == rows
    ensures |out| > 0 ==> out[0].hrChange.None? && out[0].rapidChange == 0
    ensures forall i :: 0 < i < |out| ==>
      out[i].hrChange == HrChange(out[i - 1].reading.heartRate, out[i].reading.heartRate)
    ensures forall i :: 0 < i < |out| ==>
      (out[i].rapidChange == 1 <==>
        && out[i - 1].reading.heartRate.Some?
        && out[i].reading.heartRate.Some?
        && Abs(out[i].reading.heartRate.value - out[i - 1].reading.heartRate.value) > threshold)
    ensures forall i :: 0 <= i < |out| ==> out[i].rapidChange == 0 || out[i].rapidChange == 1
  {
    var ordered := if hasTimestamp then SortByTime(rows) else rows;
    out := [];
    for i := 0 to |ordered|
      invariant |out| == i
      invariant forall k :: 0 <= k < i ==> out[k].reading == ordered[k]
      invariant i > 0 ==> out[0].hrChange.None?
      invariant forall k :: 0 < k < i ==> out[k].hrChange == HrChange(ordered[k - 1].heartRate, ordered[k].heartRate)
      invariant forall k :: 0 <= k < i ==> out[k].rapidChange == RapidFlag(out[k].hrChange, threshold)
    {
      var change := if i == 0 then None else HrChange(ordered[i - 1].heartRate, ordered[i].heartRate);
      out := out + [Flagged(ordered[i], change, RapidFlag(change, threshold))];
    }
    assert Readings(out) == ordered by {
      assert |Readings(out)| == |ordered|;
      assert forall k :: 0 <= k < |out| ==> Readings(out)[k] == ordered[k];
    }
  }
}
