/**
 * DataValidator: validation of single monitoring records and of whole
 * data frames of them (scripts/tpp_utils.py, class DataValidator).
 *
 * Parsing a timestamp is done by a date library in the source; here it is
 * the parameter `parses`, which says of a timestamp value whether it parses.
 */
module Validation {
  import opened Wrappers
  import opened Values

  /** REQUIRED_FIELDS, in the order the validator checks them. */
  const RequiredFields: seq<string> := ["timestamp", "heartRate", "hrv", "activity"]

  /** VALID_ACTIVITIES. */
  const ValidActivities: seq<string> := ["resting", "walking", "exercise", "sleeping"]

  /**
   * Why a record was rejected. Each reason carries what its message shows:
   * the missing field's name, or the offending value.
   */
  datatype Reason =
    | MissingField(field: string)
    | InvalidTimestamp
    | HeartRateOutOfRange(heartRate: Value)
    | InvalidHrv(hrv: Value)
    | InvalidActivity(activity: Value)
    | TemperatureOutOfRange(temperature: Value)

  /** `(True, None)` or `(False, message)`. */
  datatype Verdict = Accepted | Rejected(reason: Reason)

  // ---------------------------------------------------------------------
  // validate_record
  // ---------------------------------------------------------------------

  /** The first field of `fields` that `rec` lacks, if any. */
  function FirstMissing(fields: seq<string>, rec: Record): (m: Option<string>)
    ensures m.None? <==> forall f :: f in fields ==> f in rec
    ensures m.Some? ==>
      exists i :: 0 <= i < |fields| && fields[i] == m.value && m.value !in rec &&
        forall j :: 0 <= j < i ==> fields[j] in rec
  {
    if fields == [] then None
    else if fields[0] !in rec then Some(fields[0])
    else
      var m := FirstMissing(fields[1..], rec);
      assert m.Some? ==> exists i ::
        1 <= i < |fields| && fields[i] == m.value && m.value !in rec &&
        forall j :: 0 <= j < i ==> fields[j] in rec
      by {
        if m.Some? {
          var i :| 0 <= i < |fields[1..]| && fields[1..][i] == m.value && m.value !in rec &&
            forall j :: 0 <= j < i ==> fields[1..][j] in rec;
          assert forall j :: 0 <= j < i + 1 ==> fields[j] in rec by {
            forall j | 0 <= j < i + 1 ensures fields[j] in rec {
              if j > 0 { assert fields[j] == fields[1..][j - 1]; }
            }
          }
        }
      }
      m
  }

  /** The heart-rate check fails: not a number, or outside 30..220. */
  predicate HeartRateFails(hr: Value)
  {
    !hr.Num? || hr.x < 30.0 || hr.x > 220.0
  }

  /** The HRV check fails: not a number, or negative. */
  predicate HrvFails(hrv: Value)
  {
    !hrv.Num? || hrv.x < 0.0
  }

  /** The activity check fails: the value is not one of VALID_ACTIVITIES. */
  predicate ActivityFails(activity: Value)
  {
    !(activity.Str? && activity.s in ValidActivities)
  }

  /** The check on a present temperature fails: not None, and not a number in 30..45. */
  predicate TemperatureFails(temp: Value)
  {
    !temp.Null? && (!temp.Num? || temp.x < 30.0 || temp.x > 45.0)
  }

  /**
   * The record is acceptable: the required fields are all present, the
   * timestamp parses, the heart rate is a number in [30, 220], the HRV a
   * number >= 0, the activity one of the four known ones, and a temperature,
   * when present, is None or a number in [30, 45].
   */
  predicate Acceptable(rec: Record, parses: Value -> bool)
  {
    && AllRequiredPresent(rec)
    && parses(rec["timestamp"])
    && InRange(rec["heartRate"], 30.0, 220.0)
    && rec["hrv"].Num? && rec["hrv"].x >= 0.0
    && rec["activity"].Str? && rec["activity"].s in ValidActivities
    && ("temperature" in rec ==> rec["temperature"].Null? || InRange(rec["temperature"], 30.0, 45.0))
  }

  /**
   * The reason is one validate_record could give for `rec`: a missing field
   * is the first required field absent from `rec`; every other reason
   * carries the value `rec` holds in the field it is about.
   */
  predicate Describes(reason: Reason, rec: Record)
  {
    match reason
    case MissingField(f) =>
      exists i :: 0 <= i < |RequiredFields| && RequiredFields[i] == f && f !in rec &&
        forall j :: 0 <= j < i ==> RequiredFields[j] in rec
    case InvalidTimestamp => "timestamp" in rec
    case HeartRateOutOfRange(v) => "heartRate" in rec && v == rec["heartRate"]
    case InvalidHrv(v) => "hrv" in rec && v == rec["hrv"]
    case InvalidActivity(v) => "activity" in rec && v == rec["activity"]
    case TemperatureOutOfRange(v) => "temperature" in rec && v == rec["temperature"]
  }

  /** All four required fields are present. */
  predicate AllRequiredPresent(rec: Record)
  {
    "timestamp" in rec && "heartRate" in rec && "hrv" in rec && "activity" in rec
  }

  /**
   * The value checks of validate_record, run once every required field is
   * present: timestamp, heart rate, HRV, activity, then an optional
   * temperature. They never report a missing field.
   */
  function CheckValues(rec: Record, parses: Value -> bool): (v: Verdict)
    requires AllRequiredPresent(rec)
    ensures v.Rejected? ==> !v.reason.MissingField?
  {
    if !parses(rec["timestamp"]) then Rejected(InvalidTimestamp)
    else if HeartRateFails(rec["heartRate"]) then Rejected(HeartRateOutOfRange(rec["heartRate"]))
    else if HrvFails(rec["hrv"]) then Rejected(InvalidHrv(rec["hrv"]))
    else if ActivityFails(rec["activity"]) then Rejected(InvalidActivity(rec["activity"]))
    else if "temperature" in rec && TemperatureFails(rec["temperature"]) then
      Rejected(TemperatureOutOfRange(rec["temperature"]))
    else Accepted
  }

  /** validate_record: the checks run in order and the first failure wins. */
  function ValidateRecord(rec: Record, parses: Value -> bool): Verdict
  {
    match FirstMissing(RequiredFields, rec)
    case Some(f) => Rejected(MissingField(f))
    case None =>
      assert "timestamp" in RequiredFields && "heartRate" in RequiredFields;
      assert "hrv" in RequiredFields && "activity" in RequiredFields;
      CheckValues(rec, parses)
  }

  /**
   * A record is accepted exactly when it is acceptable; a rejection names
   * the first missing required field or carries the offending value.
   */
  lemma ValidateRecordCorrect(rec: Record, parses: Value -> bool)
    ensures ValidateRecord(rec, parses).Accepted? <==> Acceptable(rec, parses)
    ensures ValidateRecord(rec, parses).Rejected? ==> Describes(ValidateRecord(rec, parses).reason, rec)
  {
    var m := FirstMissing(RequiredFields, rec);
    if m.None? {
      assert "timestamp" in RequiredFields && "heartRate" in RequiredFields;
      assert "hrv" in RequiredFields && "activity" in RequiredFields;
    }
  }

  /**
   * Check number `k` of validate_record fails on `rec`: 0 the presence of the
   * required fields, then 1 timestamp, 2 heart rate, 3 HRV, 4 activity and
   * 5 temperature. The value checks are only meaningful once every required
   * field is present.
   */
  predicate CheckFails(rec: Record, parses: Value -> bool, k: nat)
  {
    if k == 0 then !AllRequiredPresent(rec)
    else
      && AllRequiredPresent(rec)
      && match k
         case 1 => !parses(rec["timestamp"])
         case 2 => !InRange(rec["heartRate"], 30.0, 220.0)
         case 3 => !(rec["hrv"].Num? && rec["hrv"].x >= 0.0)
         case 4 => !(rec["activity"].Str? && rec["activity"].s in ValidActivities)
         case 5 => "temperature" in rec && !(rec["temperature"].Null? || InRange(rec["temperature"], 30.0, 45.0))
         case _ => false
  }

  /** The number of the check a reason reports. */
  function CheckOf(reason: Reason): nat
  {
    match reason
    case MissingField(_) => 0
    case InvalidTimestamp => 1
    case HeartRateOutOfRange(_) => 2
    case InvalidHrv(_) => 3
    case InvalidActivity(_) => 4
    case TemperatureOutOfRange(_) => 5
  }

  /**
   * Error priority: a record is rejected exactly when one of the checks
   * fails, and the reason reported is that of the FIRST failing check, in
   * the order required fields, timestamp, heart rate, HRV, activity,
   * temperature.
   */
  lemma FirstFailingCheckReported(rec: Record, parses: Value -> bool)
    ensures ValidateRecord(rec, parses).Rejected? <==> exists k :: k < 6 && CheckFails(rec, parses, k)
    ensures ValidateRecord(rec, parses).Rejected? ==>
      var k := CheckOf(ValidateRecord(rec, parses).reason);
      CheckFails(rec, parses, k) && forall j: nat :: j < k ==> !CheckFails(rec, parses, j)
  {
    var v := ValidateRecord(rec, parses);
    if !AllRequiredPresent(rec) {
      assert CheckFails(rec, parses, 0);
      assert FirstMissing(RequiredFields, rec).Some?;
    } else {
      assert FirstMissing(RequiredFields, rec).None?;
      assert !CheckFails(rec, parses, 0);
      if v.Accepted? {
        forall k | k < 6 ensures !CheckFails(rec, parses, k) {}
      } else {
        match v.reason
        case MissingField(_) => {}
        case InvalidTimestamp =>
          assert CheckFails(rec, parses, 1);
        case HeartRateOutOfRange(_) =>
          assert CheckFails(rec, parses, 2);
          assert !CheckFails(rec, parses, 1);
        case InvalidHrv(_) =>
          assert CheckFails(rec, parses, 3);
          assert forall j: nat :: j < 3 ==> !CheckFails(rec, parses, j);
        case InvalidActivity(_) =>
          assert CheckFails(rec, parses, 4);
          assert forall j: nat :: j < 4 ==> !CheckFails(rec, parses, j);
        case TemperatureOutOfRange(_) =>
          assert CheckFails(rec, parses, 5);
          assert forall j: nat :: j < 5 ==> !CheckFails(rec, parses, j);
      }
    }
  }

  /**
   * The bounds are inclusive and a non-number never passes: in an otherwise
   * acceptable record, replacing the heart rate, the HRV or the temperature
   * by a value keeps the record acceptable exactly when the value is a
   * number in [30, 220], a number >= 0, or None or a number in [30, 45].
   */
  lemma BoundsAreInclusive(rec: Record, parses: Value -> bool, v: Value)
    requires Acceptable(rec, parses)
    ensures ValidateRecord(rec["heartRate" := v], parses).Accepted? <==> v.Num? && 30.0 <= v.x <= 220.0
    ensures ValidateRecord(rec["hrv" := v], parses).Accepted? <==> v.Num? && 0.0 <= v.x
    ensures ValidateRecord(rec["temperature" := v], parses).Accepted? <==>
      v.Null? || (v.Num? && 30.0 <= v.x <= 45.0)
  {
    assert rec["heartRate" := v]["timestamp"] == rec["timestamp"];
    assert rec["hrv" := v]["timestamp"] == rec["timestamp"];
    assert rec["temperature" := v]["timestamp"] == rec["timestamp"];
  }

  // ---------------------------------------------------------------------
  // validate_dataframe
  // ---------------------------------------------------------------------

  /**
   * A data-frame row: its index label, which validate_dataframe only copies
   * into the message, and its cells (`row.to_dict()`).
   */
  datatype Row = Row(index: Value, cells: Record)

  /** A data frame: its column names and its rows in iteration order. */
  datatype Frame = Frame(columns: seq<string>, rows: seq<Row>)

  /** One entry of validate_dataframe's error list. */
  datatype FrameError =
    | MissingColumn(column: string)
    | RowError(index: Value, reason: Reason)

  /** Every row has exactly the frame's columns as its keys, as `to_dict()` gives. */
  predicate WellFormed(frame: Frame)
  {
    forall r :: r in frame.rows ==> r.cells.Keys == set c | c in frame.columns
  }

  /** The error the column check gives for one field: none when present. */
  function ColumnCheck(field: string, columns: seq<string>): seq<FrameError>
  {
    if field in columns then [] else [MissingColumn(field)]
  }

  /** The column errors for `fields`, checked in order. */
  function ColumnErrors(fields: seq<string>, columns: seq<string>): seq<FrameError>
  {
    if fields == [] then [] else ColumnCheck(fields[0], columns) + ColumnErrors(fields[1..], columns)
  }

  /**
   * The column errors name exactly the fields absent from the columns, are
   * all missing-column errors, and there are none exactly when every field
   * is present.
   */
  lemma {:induction false} ColumnErrorsMembers(fields: seq<string>, columns: seq<string>)
    ensures forall e :: e in ColumnErrors(fields, columns) ==> e.MissingColumn?
    ensures forall f :: MissingColumn(f) in ColumnErrors(fields, columns) <==> f in fields && f !in columns
    ensures ColumnErrors(fields, columns) == [] <==> forall f :: f in fields ==> f in columns
  {
    if fields != [] {
      ColumnErrorsMembers(fields[1..], columns);
      assert forall f :: f in fields <==> f == fields[0] || f in fields[1..];
    }
  }

  /** Checking one more field appends that field's own error, if any. */
  lemma {:induction false} ColumnErrorsAppend(fields: seq<string>, f: string, columns: seq<string>)
    ensures ColumnErrors(fields + [f], columns) == ColumnErrors(fields, columns) + ColumnCheck(f, columns)
  {
    if fields == [] {
      assert [f][1..] == [];
    } else {
      assert (fields + [f])[1..] == fields[1..] + [f];
      ColumnErrorsAppend(fields[1..], f, columns);
    }
  }

  /** The error a single row contributes: none, or one tagged with its index. */
  function RowErrorsOf(row: Row, parses: Value -> bool): seq<FrameError>
  {
    match ValidateRecord(row.cells, parses)
    case Accepted => []
    case Rejected(reason) => [RowError(row.index, reason)]
  }

  /** The row errors of a sequence of rows, in row order. */
  function RowErrors(rows: seq<Row>, parses: Value -> bool): seq<FrameError>
  {
    if rows == [] then [] else RowErrorsOf(rows[0], parses) + RowErrors(rows[1..], parses)
  }

  /** The error list validate_dataframe returns. */
  function FrameErrors(frame: Frame, parses: Value -> bool): seq<FrameError>
  {
    var missing := ColumnErrors(RequiredFields, frame.columns);
    if missing != [] then missing else RowErrors(frame.rows, parses)
  }

  /** Row errors of consecutive stretches of rows concatenate: the list keeps row order. */
  lemma {:induction false} RowErrorsAppend(a: seq<Row>, b: seq<Row>, parses: Value -> bool)
    ensures RowErrors(a + b, parses) == RowErrors(a, parses) + RowErrors(b, parses)
  {
    if a == [] {
      assert a + b == b;
    } else {
      assert (a + b)[1..] == a[1..] + b;
      RowErrorsAppend(a[1..], b, parses);
    }
  }

  /**
   * A row's contribution sits between the errors of the rows before it and
   * those of the rows after it: nothing when it is valid, otherwise exactly
   * one error carrying its index label and validate_record's reason.
   */
  lemma RowErrorsSplitAt(before: seq<Row>, row: Row, after: seq<Row>, parses: Value -> bool)
    ensures RowErrors(before + [row] + after, parses) ==
      RowErrors(before, parses) + RowErrorsOf(row, parses) + RowErrors(after, parses)
  {
    RowErrorsAppend(before + [row], after, parses);
    RowErrorsAppend(before, [row], parses);
    assert RowErrors([row], parses) == RowErrorsOf(row, parses) by {
      assert [row][1..] == [];
    }
  }

  /** The row errors are empty exactly when every row is a valid record. */
  lemma {:induction false} RowErrorsEmptyIff(rows: seq<Row>, parses: Value -> bool)
    ensures RowErrors(rows, parses) == [] <==>
      forall i :: 0 <= i < |rows| ==> ValidateRecord(rows[i].cells, parses).Accepted?
  {
    if rows != [] {
      RowErrorsEmptyIff(rows[1..], parses);
      if RowErrors(rows, parses) == [] {
        forall i | 0 <= i < |rows| ensures ValidateRecord(rows[i].cells, parses).Accepted? {
          if i > 0 { assert rows[i] == rows[1..][i - 1]; }
        }
      } else if ValidateRecord(rows[0].cells, parses).Accepted? {
        var i :| 0 <= i < |rows[1..]| && !ValidateRecord(rows[1..][i].cells, parses).Accepted?;
        assert rows[1..][i] == rows[i + 1];
      }
    }
  }

  /**
   * Every row error names an invalid row: it carries that row's index and
   * the reason validate_record gives for it. There is at most one per row.
   */
  lemma {:induction false} RowErrorsTagged(rows: seq<Row>, parses: Value -> bool)
    ensures |RowErrors(rows, parses)| <= |rows|
    ensures forall e :: e in RowErrors(rows, parses) ==>
      exists i :: 0 <= i < |rows| && e.RowError? && e.index == rows[i].index &&
        ValidateRecord(rows[i].cells, parses) == Rejected(e.reason)
  {
    if rows != [] {
      RowErrorsTagged(rows[1..], parses);
      forall e | e in RowErrors(rows, parses)
        ensures exists i :: (0 <= i < |rows| && e.RowError? && e.index == rows[i].index &&
          ValidateRecord(rows[i].cells, parses) == Rejected(e.reason))
      {
        if e !in RowErrorsOf(rows[0], parses) {
          var i :| 0 <= i < |rows[1..]| && e.RowError? && e.index == rows[1..][i].index &&
            ValidateRecord(rows[1..][i].cells, parses) == Rejected(e.reason);
          assert rows[1..][i] == rows[i + 1];
        }
      }
    }
  }

  /** The column errors of REQUIRED_FIELDS, written out field by field. */
  lemma RequiredColumnErrorsUnrolled(columns: seq<string>)
    ensures ColumnErrors(RequiredFields, columns) ==
      ColumnCheck("timestamp", columns) + ColumnCheck("heartRate", columns) +
      ColumnCheck("hrv", columns) + ColumnCheck("activity", columns)
  {
    var r0, r1, r2, r3 := RequiredFields, ["heartRate", "hrv", "activity"], ["hrv", "activity"], ["activity"];
    assert r0[1..] == r1 && r1[1..] == r2 && r2[1..] == r3 && r3[1..] == [];
    assert ColumnErrors(r3, columns) == ColumnCheck("activity", columns) + ColumnErrors([], columns);
    assert ColumnErrors(r2, columns) == ColumnCheck("hrv", columns) + ColumnErrors(r3, columns);
    assert ColumnErrors(r1, columns) == ColumnCheck("heartRate", columns) + ColumnErrors(r2, columns);
    assert ColumnErrors(r0, columns) == ColumnCheck("timestamp", columns) + ColumnErrors(r1, columns);
  }

  /**
   * When columns are missing the list holds exactly one error per missing
   * required column, in REQUIRED_FIELDS order, and no row errors at all.
   */
  lemma MissingColumnsReportedAlone(frame: Frame, parses: Value -> bool)
    requires exists f :: f in RequiredFields && f !in frame.columns
    ensures FrameErrors(frame, parses) ==
      ColumnCheck("timestamp", frame.columns) + ColumnCheck("heartRate", frame.columns) +
      ColumnCheck("hrv", frame.columns) + ColumnCheck("activity", frame.columns)
    ensures forall e :: e in FrameErrors(frame, parses) ==> e.MissingColumn?
  {
    var cols := frame.columns;
    var f :| f in RequiredFields && f !in cols;
    ColumnErrorsMembers(RequiredFields, cols);
    assert MissingColumn(f) in ColumnErrors(RequiredFields, cols);
    assert FrameErrors(frame, parses) == ColumnErrors(RequiredFields, cols);
    RequiredColumnErrorsUnrolled(cols);
  }

  /**
   * When every required column is present, the errors are the row errors,
   * and the frame is valid exactly when every row is.
   */
  lemma RowsCheckedWhenColumnsPresent(frame: Frame, parses: Value -> bool)
    requires forall f :: f in RequiredFields ==> f in frame.columns
    ensures FrameErrors(frame, parses) == RowErrors(frame.rows, parses)
    ensures FrameErrors(frame, parses) == [] <==>
      forall i :: 0 <= i < |frame.rows| ==> ValidateRecord(frame.rows[i].cells, parses).Accepted?
  {
    ColumnErrorsMembers(RequiredFields, frame.columns);
    RowErrorsEmptyIff(frame.rows, parses);
  }

  /**
   * A row of a frame that has every required column holds every required
   * field, so its errors never report a missing field.
   */
  lemma NoMissingFieldInRowErrors(frame: Frame, parses: Value -> bool)
    requires forall f :: f in RequiredFields ==> f in frame.columns
    requires WellFormed(frame)
    ensures forall e :: e in FrameErrors(frame, parses) ==> e.RowError? && !e.reason.MissingField?
  {
    RowsCheckedWhenColumnsPresent(frame, parses);
    RowErrorsTagged(frame.rows, parses);
    forall e | e in RowErrors(frame.rows, parses) ensures e.RowError? && !e.reason.MissingField? {
      var i :| 0 <= i < |frame.rows| && e.RowError? && e.index == frame.rows[i].index &&
        ValidateRecord(frame.rows[i].cells, parses) == Rejected(e.reason);
      var cells := frame.rows[i].cells;
      assert frame.rows[i] in frame.rows;
      assert cells.Keys == set c | c in frame.columns;
      assert forall f :: f in RequiredFields ==> f in cells;
      assert FirstMissing(RequiredFields, cells).None?;
    }
  }

  /** The column loop of validate_dataframe: one error per missing required column, in order. */
  method MissingColumnErrors(columns: seq<string>) returns (errors: seq<FrameError>)
    ensures errors == ColumnErrors(RequiredFields, columns)
  {
    errors := [];
    for k := 0 to |RequiredFields|
      invariant errors == ColumnErrors(RequiredFields[..k], columns)
    {
      var field := RequiredFields[k];
      ColumnErrorsAppend(RequiredFields[..k], field, columns);
      assert RequiredFields[..k + 1] == RequiredFields[..k] + [field];
      if field !in columns {
        errors := errors + [MissingColumn(field)];
      }
    }
    assert RequiredFields[..|RequiredFields|] == RequiredFields;
  }

  /** The row loop of validate_dataframe: one error per invalid row, in row order. */
  method InvalidRowErrors(rows: seq<Row>, parses: Value -> bool) returns (errors: seq<FrameError>)
    ensures errors == RowErrors(rows, parses)
  {
    errors := [];
    for i := 0 to |rows|
      invariant errors == RowErrors(rows[..i], parses)
    {
      var row := rows[i];
      RowErrorsAppend(rows[..i], [row], parses);
      assert rows[..i + 1] == rows[..i] + [row];
      assert RowErrors([row], parses) == RowErrorsOf(row, parses);
      var verdict := ValidateRecord(row.cells, parses);
      if verdict.Rejected? {
        errors := errors + [RowError(row.index, verdict.reason)];
      }
    }
    assert rows[..|rows|] == rows;
  }

  /**
   * validate_dataframe: first one error per missing required column; only
   * when there is none, one error per invalid row. The frame is valid
   * exactly when the list is empty.
   */
  method ValidateDataFrame(frame: Frame, parses: Value -> bool) returns (ok: bool, errors: seq<FrameError>)
    ensures errors == FrameErrors(frame, parses)
    ensures ok <==> errors == []
  {
    errors := MissingColumnErrors(frame.columns);
    if errors != [] {
      return false, errors;
    }
    errors := InvalidRowErrors(frame.rows, parses);
    ok := |errors| == 0;
  }
}
