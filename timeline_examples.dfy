/** Worked timelines for small days, times in milliseconds after midnight. */
module TimelineExamples {
  import opened Wrappers
  import opened TimelineRoute

  const Hour: int := 3_600_000

  /** In at 9:00, in again at 10:00, out at 12:00: one stay of 120 minutes from 10:00. */
  lemma RepeatedCheckInExample(now: int)
    ensures Timeline([Row(9 * Hour, Some(1)), Row(10 * Hour, Some(1)), Row(12 * Hour, Some(0))], now)
      == [Interval(10 * Hour, 12 * Hour, 120.0)]
  {
    var rows := [Row(9 * Hour, Some(1)), Row(10 * Hour, Some(1)), Row(12 * Hour, Some(0))];
    assert rows[..2] == [Row(9 * Hour, Some(1)), Row(10 * Hour, Some(1))];
    assert rows[..2][..1] == [Row(9 * Hour, Some(1))];
    assert [Row(9 * Hour, Some(1))][..0] == [];
    assert ScanAll([Row(9 * Hour, Some(1))]) == ScanState(true, Some(9 * Hour), []);
    assert ScanAll(rows[..2]) == ScanState(true, Some(10 * Hour), []);
  }

  /** In at 9:00, out at 17:00, in at 17:30, evaluated at 18:00: 480 minutes closed, then 30 minutes open. */
  lemma OpenStayExample()
    ensures Timeline([Row(9 * Hour, Some(1)), Row(17 * Hour, Some(0)), Row(35 * Hour / 2, Some(1))], 18 * Hour)
      == [Interval(9 * Hour, 17 * Hour, 480.0), Interval(35 * Hour / 2, 18 * Hour, 30.0)]
  {
    var rows := [Row(9 * Hour, Some(1)), Row(17 * Hour, Some(0)), Row(35 * Hour / 2, Some(1))];
    assert rows[..2] == [Row(9 * Hour, Some(1)), Row(17 * Hour, Some(0))];
    assert rows[..2][..1] == [Row(9 * Hour, Some(1))];
    assert [Row(9 * Hour, Some(1))][..0] == [];
    assert ScanAll([Row(9 * Hour, Some(1))]) == ScanState(true, Some(9 * Hour), []);
    assert ScanAll(rows[..2]) == ScanState(false, None, [Interval(9 * Hour, 17 * Hour, 480.0)]);
  }
}
