# Thyrotoxic Periodic Paralysis monitoring data: validation and per-row features

This project models the core of `scripts/tpp_utils.py` in Dafny. That file holds the
utilities used to check and prepare heart-rate / HRV monitoring data from wearable
devices:

- **`DataValidator.validate_record`** accepts or rejects one monitoring record, which is
  a mapping from field name to value. It first checks that the required fields
  `timestamp`, `heartRate`, `hrv` and `activity` are present. Then it checks the
  timestamp, the heart rate (a number in 30..220 bpm), the HRV (a number, at least 0),
  the activity (one of resting, walking, exercise, sleeping) and, when present, the
  temperature (None, or a number in 30..45 °C). The first failing check decides the
  error.
- **`DataValidator.validate_dataframe`** validates a whole data frame. If any required
  column is missing, it reports one error per missing column and nothing else.
  Otherwise it reports one error per invalid row, tagged with the row's index label.
- **`DataProcessor.add_time_features`** adds the `is_night` and `is_weekend` flags.
- **`DataProcessor.detect_rapid_changes`** sorts the rows by timestamp when the frame has
  one. It then adds the absolute heart-rate change from the previous row and flags rows
  whose change is strictly above a threshold.
- **`load_monitoring_data` / `save_monitoring_data`** pick CSV or JSON from the path's
  suffix and raise a `ValueError` for anything else.

Files:

- `values.dfy`: cell values and records.
- `validation.dfy`: `DataValidator`.
- `processing.dfy`: `DataProcessor`.
- `file_formats.dfy`: the load/save format dispatch.
- `wrappers.dfy`: `Option` and `Result`.

How values and parsing are represented:

- A cell value is `Num` (Python `int` and `float`), `Str` or `Null` (`None`).
- Whether a timestamp parses is decided by a date library in the source. Here it is a
  parameter `parses: Value -> bool` of the validators.
- The hour, the day of week and the sort key of a parsed timestamp are given with each
  row. For `add_time_features`, a missing timestamp (NaT) is given as no hour and day.
- A row's index label is only copied into the error message. It is a cell `Value`.

`validate_record` returns `(True, None)` or `(False, message)`. It is modelled as a
`Verdict`, either `Accepted` or `Rejected(reason)`. The reason carries what the message
reports: the missing field, or the offending value.

## Model

| member | source | states |
|---|---|---|
| `Validation.FirstMissing` | scripts/tpp_utils.py:34-36 | nothing is reported exactly when every field is present; otherwise the field reported is absent and every field listed before it is present |
| `Validation.ValidateRecord` | scripts/tpp_utils.py:23-65 | no contract of its own: the required-field check, then the value checks; its meaning is stated by `ValidateRecordCorrect` and `FirstFailingCheckReported` |
| `Validation.CheckValues` | scripts/tpp_utils.py:38-65 | the value checks, run once every required field is present, never report a missing field |
| `Validation.ValidateRecordCorrect` | scripts/tpp_utils.py:18-65 | a record is accepted exactly when all four required fields are present, the timestamp parses, the heart rate is a number in [30, 220], the HRV a number >= 0, the activity one of the four valid activities, and the temperature is absent, None or a number in [30, 45]; a rejection names the first missing required field or carries the record's own offending value |
| `Validation.FirstFailingCheckReported` | scripts/tpp_utils.py:33-63 | a record is rejected exactly when some check fails, and the reported reason is that of the first failing check in the order required fields, timestamp, heart rate, HRV, activity, temperature |
| `Validation.BoundsAreInclusive` | scripts/tpp_utils.py:44-63 | in an otherwise acceptable record, a heart rate, HRV or temperature value is accepted exactly when it is a number within its inclusive bounds (or None, for temperature); non-numbers are always rejected |
| `Validation.ColumnCheck` | scripts/tpp_utils.py:82-83 | no contract of its own: one field's missing-column error, or none |
| `Validation.ColumnErrors` | scripts/tpp_utils.py:81-83 | no contract of its own: the column errors of a list of fields, in order; stated by `ColumnErrorsMembers` and `ColumnErrorsAppend` |
| `Validation.RowErrorsOf` | scripts/tpp_utils.py:90-92 | no contract of its own: one row's error, tagged with its index label, or none |
| `Validation.RowErrors` | scripts/tpp_utils.py:89-92 | no contract of its own: the row errors in row order; stated by the `RowErrors…` lemmas |
| `Validation.FrameErrors` | scripts/tpp_utils.py:80-94 | no contract of its own: the column errors if any, otherwise the row errors; stated by `MissingColumnsReportedAlone` and `RowsCheckedWhenColumnsPresent` |
| `Validation.ColumnErrorsMembers` | scripts/tpp_utils.py:80-83 | the column errors are all missing-column errors, name exactly the checked fields absent from the columns, and there are none exactly when all are present |
| `Validation.ColumnErrorsAppend` | scripts/tpp_utils.py:81-83 | checking one more field appends exactly that field's own error (none when it is a column) after the errors so far |
| `Validation.RequiredColumnErrorsUnrolled` | scripts/tpp_utils.py:80-83 | the missing-column list is the missing ones among timestamp, heartRate, hrv, activity, in that order |
| `Validation.MissingColumnErrors` | scripts/tpp_utils.py:80-83 | the column loop produces exactly the column errors of the required fields, in order |
| `Validation.MissingColumnsReportedAlone` | scripts/tpp_utils.py:80-86 | when a required column is missing, the error list holds exactly one error per missing column, in required-field order, and no row errors |
| `Validation.RowErrorsAppend` | scripts/tpp_utils.py:89-92 | the row errors of consecutive stretches of rows concatenate in row order |
| `Validation.RowErrorsSplitAt` | scripts/tpp_utils.py:89-92 | a row's own contribution (nothing when it is valid, one error with its index label and reason when invalid) sits between the errors of the rows before it and those of the rows after it |
| `Validation.RowErrorsEmptyIff` | scripts/tpp_utils.py:89-94 | there are no row errors exactly when every row is a valid record |
| `Validation.RowErrorsTagged` | scripts/tpp_utils.py:89-92 | every row error carries the index label of an invalid row and that row's rejection reason; there are at most as many errors as rows |
| `Validation.RowsCheckedWhenColumnsPresent` | scripts/tpp_utils.py:85-94 | with all required columns present the errors are the row errors, and the frame is valid exactly when every row is |
| `Validation.NoMissingFieldInRowErrors` | scripts/tpp_utils.py:85-92 | in a frame with all required columns, whose rows hold all its columns, every error is a row error and none reports a missing field |
| `Validation.InvalidRowErrors` | scripts/tpp_utils.py:88-92 | the row loop produces exactly the row errors: one per invalid row, in row order |
| `Validation.ValidateDataFrame` | scripts/tpp_utils.py:68-94 | returns the column errors when any required column is missing and otherwise the row errors, and reports validity exactly when the list is empty |
| `Processing.AddTimeFeatures` | scripts/tpp_utils.py:111-119 | same number of rows, each keeping its timestamp and its other cells, with any old hour/day_of_week/is_night/is_weekend cell replaced; is_night is 0/1 and 1 exactly for hours >= 22 or <= 6; is_weekend is 0/1 and 1 exactly for day of week >= 5; a missing timestamp (NaT) gives 0 for both |
| `Processing.NightIsNineHourWindow` | scripts/tpp_utils.py:116 | on a clock hour, night is the nine-hour window starting at 22:00 and wrapping past midnight |
| `Processing.InsertByTime` | scripts/tpp_utils.py:164-165 | no contract of its own: one insertion step of the sort; stated by `InsertByTimeAdds` and `InsertByTimeSorted` |
| `Processing.InsertByTimeAdds` | scripts/tpp_utils.py:164-165 | inserting a reading adds exactly that reading and nothing else |
| `Processing.InsertByTimeSorted` | scripts/tpp_utils.py:164-165 | inserting a reading into a time-sorted sequence keeps it sorted, and the result starts with the inserted reading or the old first one |
| `Processing.SortByTime` | scripts/tpp_utils.py:164-165 | the result is sorted by time and a permutation of the input |
| `Processing.HrChange` | scripts/tpp_utils.py:168 | the change is present exactly when both heart rates are, and then it is the non-negative distance between them |
| `Processing.RapidFlag` | scripts/tpp_utils.py:169 | the flag is 0 or 1, and a missing (NaN) change is never flagged |
| `Processing.DetectRapidChanges` | scripts/tpp_utils.py:150-171 | output has one row per input row, a permutation of the input, sorted by time when there is a timestamp column and in input order otherwise; the first row has no change and flag 0; every later row's change is the absolute difference from the previous heart rate (missing when either is), and its flag is 1 exactly when both rates are present and the difference is strictly above the threshold; every flag is 0 or 1 |
| `FileFormats.EndsWith` | scripts/tpp_utils.py:316 | no contract of its own: `str.endswith`, an exact comparison of the last characters |
| `FileFormats.SuffixesExclusive` | scripts/tpp_utils.py:316-318 | no path ends with both `.csv` and `.json` |
| `FileFormats.LoaderFor` | scripts/tpp_utils.py:316-323 | load reads CSV exactly for `.csv` paths and JSON records exactly for `.json` paths, and fails exactly for the other paths, with the unsupported-format error carrying the path |
| `FileFormats.SaverFor` | scripts/tpp_utils.py:340-352 | save writes CSV exactly for `.csv` paths and JSON records exactly for `.json` paths, and fails exactly for the other paths, with the unsupported-format error carrying the path |
| `FileFormats.LoadAndSaveAgree` | scripts/tpp_utils.py:316-352 | load and save accept the same paths, pick corresponding formats, and reject the rest with the same error |
| `FileFormats.UpperCaseSuffixRejected` | scripts/tpp_utils.py:316-352 | suffix matching is case-sensitive: load and save both reject paths ending in `.CSV` or `.JSON` |

## Left out

- Error message text: the model keeps each message's kind and the field or value it
  reports. It does not render the strings. This includes the parser's exception text in
  the timestamp message, and the Python formatting of values and of the activity list.
- Timestamp parsing (`pd.to_datetime`): it is the `parses` parameter. Extracting hour and
  day of week is not modelled either; they come with each row. The sort key of a
  timestamp is an integer given with each row. `add_time_features` and
  `load_monitoring_data` also replace the timestamp column with parsed datetimes; the
  model does not represent that column's new type.
- Python numeric quirks: `bool` passes `isinstance(x, (int, float))`, and NaN passes
  every range comparison. A data frame holds a missing cell as NaN, so a row with an
  empty heart rate passes `validate_record` in the source. The model has no NaN among
  record values, so it rejects such a row. In `detect_rapid_changes`, a missing heart
  rate is modelled (`None`), with NaN's effect on the difference and the flag.
- Processing.AddTimeFeatures: `pd.to_datetime` raises on an unparseable timestamp, which
  fails the whole call. The model takes each row's timestamp already parsed (None for a
  missing one), so that failure is not represented.
- Processing.DetectRapidChanges: the source overwrites any existing `hr_change` and
  `rapid_change` columns. The model keeps a row's old cells in `reading.cells`, and the
  new values sit beside them in the `hrChange` and `rapidChange` fields. A Python default
  argument has no Dafny counterpart: the default threshold of 20.0 bpm is the constant
  `Processing.DefaultThreshold`, which callers pass explicitly.
- Processing.SortByTime: pandas' default sort does not promise an order for rows with
  equal timestamps. The model keeps them in input order, which is one of the orders the
  source may produce.
- Processing.DetectRapidChanges: a non-numeric heart-rate column, on which `diff()`
  raises, is not modelled. Heart rates are numbers or missing.
- The reading and writing of files in `load_monitoring_data` and `save_monitoring_data`:
  file I/O and the CSV/JSON codecs are foreign library calls. Only the choice of format
  and the error for other suffixes are modelled.
- `DataProcessor.calculate_rolling_stats` (floating-point rolling mean and standard
  deviation) and `SyntheticDataGenerator` (random data generation) are not part of this
  model. Neither are `scripts/upload_data.py`, `scripts/generate_data.py` and
  `scripts/analyze_data.py` (HTTP upload, command-line wrapper, floating-point
  statistics).
