/**
 * The `/timeline/:person_name` handler: one person's records for one date,
 * in ascending `record_time` order, are scanned with two variables
 * (`isInOffice`, `inTime`) and turned into presence intervals.
 */
module TimelineRoute {
  import opened Wrappers
  import opened Values

  /** `1000 * 60`: the divisor that turns a millisecond difference into minutes. */
  const MillisPerMinute: int := 60000

  /** One row of the date's query result: `record_time` in milliseconds and `record_type`. */
  datatype Row = Row(time: int, recordType: RecordType)

  /** One timeline entry `{start, end, duration}`, duration in minutes. */
  datatype Interval = Interval(start: int, end: int, duration: real)

  /** The entry pushed for a stay from `start` to `end`. */
  function Span(start: int, end: int): Interval {
    Interval(start, end, (end - start) as real / MillisPerMinute as real)
  }

  /** An entry whose duration is its length in minutes. */
  predicate InMinutes(iv: Interval) {
    iv.duration == (iv.end - iv.start) as real / MillisPerMinute as real
  }

  /** The loop's variables: `isInOffice`, `inTime` (None is `null`) and `timeline`. */
  datatype ScanState = ScanState(inOffice: bool, inTime: Option<int>, timeline: seq<Interval>)

  /** The loop invariant of the scan: in the office exactly when `inTime` is set. */
  predicate Consistent(s: ScanState) {
    s.inOffice <==> s.inTime.Some?
  }

  /** The variables before the first row. */
  const Initial: ScanState := ScanState(false, None, [])

  /** One iteration of the loop body on one row. */
  function Step(s: ScanState, r: Row): (t: ScanState)
    requires Consistent(s)
    ensures Consistent(t)
  {
    if IsCheckIn(r.recordType) then
      ScanState(true, Some(r.time), s.timeline)
    else if IsCheckOut(r.recordType) && s.inOffice then
      ScanState(false, None, s.timeline + [Span(s.inTime.value, r.time)])
    else
      s
  }

  /** The variables after the loop has consumed all of `rows`, in order. */
  function ScanAll(rows: seq<Row>): (s: ScanState)
    ensures Consistent(s)
  {
    if rows == [] then Initial
    else Step(ScanAll(rows[..|rows| - 1]), rows[|rows| - 1])
  }

  /** After the loop: a stay still open is closed at `now`. */
  function Finish(s: ScanState, now: int): (t: seq<Interval>)
    ensures |t| == |s.timeline| + (if s.inOffice && s.inTime.Some? then 1 else 0)
    ensures t[..|s.timeline|] == s.timeline
    ensures |t| > |s.timeline| ==> t[|t| - 1].start == s.inTime.value && t[|t| - 1].end == now
  {
    if s.inOffice && s.inTime.Some? then s.timeline + [Span(s.inTime.value, now)]
    else s.timeline
  }

  /** The timeline the handler returns for `rows`, evaluated at `now`. */
  function Timeline(rows: seq<Row>, now: int): (t: seq<Interval>)
    ensures forall k :: 0 <= k < |t| ==> InMinutes(t[k])
    ensures |ScanAll(rows).timeline| <= |t| <= |ScanAll(rows).timeline| + 1
    ensures t[..|ScanAll(rows).timeline|] == ScanAll(rows).timeline
  {
    ScanInMinutes(rows);
    Finish(ScanAll(rows), now)
  }

  /** Rows in ascending `record_time` order, as `ORDER BY record_time` delivers them. */
  predicate Sorted(rows: seq<Row>) {
    forall i, j :: 0 <= i < j < |rows| ==> rows[i].time <= rows[j].time
  }

  /** No row is later than `hi`. */
  predicate NotAfter(rows: seq<Row>, hi: int) {
    forall i :: 0 <= i < |rows| ==> rows[i].time <= hi
  }

  /** Every entry has start <= end, and each entry ends no later than any later entry starts. */
  predicate Ordered(ivs: seq<Interval>) {
    && (forall k :: 0 <= k < |ivs| ==> ivs[k].start <= ivs[k].end)
    && (forall k, l :: 0 <= k < l < |ivs| ==> ivs[k].end <= ivs[l].start)
  }

  /**
   * Ordering of the scan: on sorted rows none later than `hi`, the emitted
   * entries are ordered, none ends after `hi`, and an open stay starts no
   * earlier than every emitted entry ends and no later than `hi`.
   */
  lemma {:induction false} ScanOrdered(rows: seq<Row>, hi: int)
    requires Sorted(rows) && NotAfter(rows, hi)
    ensures var s := ScanAll(rows);
      && Ordered(s.timeline)
      && (forall k :: 0 <= k < |s.timeline| ==> s.timeline[k].end <= hi)
      && (s.inTime.Some? ==> s.inTime.value <= hi)
      && (s.inTime.Some? ==> forall k :: 0 <= k < |s.timeline| ==> s.timeline[k].end <= s.inTime.value)
  {
    if rows != [] {
      var init, r := rows[..|rows| - 1], rows[|rows| - 1];
      ScanOrdered(init, r.time);
    }
  }

  /** Every entry the scan emits has its duration in minutes. */
  lemma {:induction false} ScanInMinutes(rows: seq<Row>)
    ensures forall k :: 0 <= k < |ScanAll(rows).timeline| ==> InMinutes(ScanAll(rows).timeline[k])
  {
    if rows != [] {
      ScanInMinutes(rows[..|rows| - 1]);
    }
  }

  /**
   * The timeline on sorted rows with `now` no earlier than any row: its
   * entries are ordered and pairwise non-overlapping, each duration is the
   * length in minutes, and no duration is negative.
   */
  lemma TimelineWellFormed(rows: seq<Row>, now: int)
    requires Sorted(rows) && NotAfter(rows, now)
    ensures Ordered(Timeline(rows, now))
    ensures forall k :: 0 <= k < |Timeline(rows, now)| ==>
      InMinutes(Timeline(rows, now)[k]) && Timeline(rows, now)[k].duration >= 0.0
  {
    ScanOrdered(rows, now);
    ScanInMinutes(rows);
    var t := Timeline(rows, now);
    forall k | 0 <= k < |t|
      ensures InMinutes(t[k]) && t[k].duration >= 0.0
    {
      assert t[k].start <= t[k].end;
    }
  }

  /** The loop of the handler, with `now` passed in instead of read from the clock. */
  method Reconstruct(rows: seq<Row>, now: int) returns (timeline: seq<Interval>)
    ensures timeline == Timeline(rows, now)
    ensures Sorted(rows) && NotAfter(rows, now) ==> Ordered(timeline)
  {
    timeline := [];
    var isInOffice := false;
    var inTime: Option<int> := None;
    for i := 0 to |rows|
      invariant ScanState(isInOffice, inTime, timeline) == ScanAll(rows[..i])
    {
      assert rows[..i + 1][..i] == rows[..i];
      var record := rows[i];
      if IsCheckIn(record.recordType) {
        isInOffice := true;
        inTime := Some(record.time);
      } else if IsCheckOut(record.recordType) && isInOffice {
        isInOffice := false;
        timeline := timeline + [Span(inTime.value, record.time)];
        inTime := None;
      }
    }
    assert rows[..|rows|] == rows;
    if isInOffice && inTime.Some? {
      timeline := timeline + [Span(inTime.value, now)];
    }
    if Sorted(rows) && NotAfter(rows, now) {
      TimelineWellFormed(rows, now);
    }
  }

  /** The handler's outcome: 400, 404, or the JSON body `{person_name, date, timeline}`. */
  datatype TimelineResponse =
    | BadRequest
    | NotFound
    | Found(personName: string, date: string, timeline: seq<Interval>)

  /**
   * The `/timeline/:person_name` handler. `rows` is what the query returns
   * for the person and the date; `now` is the evaluation time.
   */
  method HandleTimeline(personName: string, date: Option<string>, rows: seq<Row>, now: int)
    returns (resp: TimelineResponse)
    ensures resp.BadRequest? <==> IsFalsy(date)
    ensures resp.NotFound? <==> !IsFalsy(date) && rows == []
    ensures resp.Found? ==> resp == Found(personName, date.value, Timeline(rows, now))
  {
    if IsFalsy(date) {
      return BadRequest;
    }
    if |rows| == 0 {
      return NotFound;
    }
    var timeline := Reconstruct(rows, now);
    resp := Found(personName, date.value, timeline);
  }
}
