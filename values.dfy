/**
 * Values shared by the attendance routes: the stored record type and the
 * JavaScript truthiness tests the handlers apply to their parameters.
 */
module Values {
  import opened Wrappers

  /**
   * The value of a record's `record_type` / `is_present` column: SQL NULL or
   * an integer. The handlers compare it with `=== 1` and `=== 0`, so any
   * other value is neither a check-in nor a check-out.
   */
  type RecordType = Option<int>

  /** `record_type === 1`: the person arrives. */
  predicate IsCheckIn(t: RecordType) {
    t == Some(1)
  }

  /** `record_type === 0`: the person leaves. */
  predicate IsCheckOut(t: RecordType) {
    t == Some(0)
  }

  /** `!s` for a request parameter: missing, or the empty string. */
  predicate IsFalsy(s: Option<string>) {
    s.None? || s.value == ""
  }
}
