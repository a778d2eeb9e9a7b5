/**
 * The cell values a monitoring record can hold. A record is what the
 * validator receives: a mapping from field name to value, as produced by
 * a parsed JSON object or by `row.to_dict()` on a data-frame row.
 */
module Values {

  /**
   * A cell value. Python's `int` and `float` are both `Num` (they are only
   * ever compared); `None` is `Null`; every other value is its text.
   */
  datatype Value = Num(x: real) | Str(s: string) | Null

  type Record = map<string, Value>

  /** `isinstance(v, (int, float)) and lo <= v <= hi`. */
  predicate InRange(v: Value, lo: real, hi: real)
  {
    v.Num? && lo <= v.x <= hi
  }
}
