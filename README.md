# Staff attendance tracker: the attendance routes in Dafny

The service records check-ins and check-outs for named staff members. It
answers two questions from those records:

- When, on a given date, was a person in the office?
- Which records fall on which weekday?

This project models the three handlers of `routes/attendance.js` that hold
that logic. It proves what they compute.

- **Timeline reconstruction** (`GET /timeline/:person_name?date=`), in
  `timeline.dfy`. The handler scans the person's records for the date in
  `record_time` order, keeping two variables, `isInOffice` and `inTime`.
  - A record of type `1` starts a stay. It also restarts a stay that is
    already open.
  - A record of type `0` closes an open stay and pushes
    `{start, end, duration}`.
  - Anything else is ignored.
  - A stay still open at the end is closed at "now".
  - A missing date gives 400. A date with no records gives 404.

  `Reconstruct` is the loop, proved equal to the function `Timeline`.
  `timeline_reference.dfy` describes the same result without the scan's
  variables and proves the two agree. From that description follow:
  - the latest-check-in rule;
  - the ignored rows;
  - the number of entries;
  - the effect of a later "now".
- **Weekday grouping** (`GET /weekly/:person_name`), in `weekly.dfy`. Each
  record with a truthy `day_of_week` (1 = Sunday … 7 = Saturday) is pushed,
  in input order, onto that day's list. `GroupByWeekday` is the loop, proved
  equal to `Grouped`. Lemmas show that the seven lists partition the kept
  records and keep their order.
- **Recording** (`POST /record`), in `recording.dfy`. A class `AttendanceDb`
  holds the tables `person_info`, `attendance_records` and
  `current_attendance`. `Record` does three things in one all-or-nothing step:
  - checks that the person exists;
  - appends a record;
  - upserts the person's current state.

  Its object invariant says that `current_attendance` is the projection of
  the record log: each person's entry is the type of their latest record.

Modelling choices:

- Times are integer milliseconds.
- "Now" is a parameter instead of the clock read at `routes/attendance.js:179`.
  The database's `CURRENT_TIMESTAMP` is a parameter too.
- A duration is the `real` `(end - start) / 60000`.
- A stored `record_type` / `is_present` value is SQL NULL or an integer
  (`Option<int>`). It is a check-in exactly when it equals `1`, and a
  check-out exactly when it equals `0`. This matches the source's strict
  `=== 1` and `=== 0`.
- The rows a query returns are inputs.
  - Their order (`ORDER BY record_time`) is a precondition, and only where a
    property needs it.
  - Their weekday numbers (`DAYOFWEEK`) are input fields.
- A request parameter is falsy when it is missing or the empty string.

The handlers apply no time-zone shift. They compute no Monday-to-Sunday
window and no presence grid. The weekly handler does not run the interval
scan per weekday: it groups raw records by SQL's weekday number,
1 = Sunday.

## Model

| member | source | states |
|---|---|---|
| `TimelineRoute.Step` | routes/attendance.js:161-174 | One iteration keeps the loop invariant: `isInOffice` holds exactly when `inTime` is set |
| `TimelineRoute.ScanAll` | routes/attendance.js:152-175 | After any prefix of the rows, `isInOffice` holds exactly when `inTime` is non-null |
| `TimelineRoute.Finish` | routes/attendance.js:177-185 | After the loop, the emitted entries are kept as they are. Exactly one entry is added when the scan ends in the office (`isInOffice && inTime`), running from `inTime` to `now`; otherwise nothing is added |
| `TimelineRoute.Timeline` | routes/attendance.js:151-185 | The fold of `Step` over the rows, then `Finish` at `now`: every entry (pushed by `Span`, lines 167-171 and 180-184) has duration (end - start) / 60000, and the entries emitted by the loop are a prefix followed by at most one more |
| `TimelineRoute.ScanOrdered` | routes/attendance.js:157-175 | On rows sorted by time, none later than a bound: emitted entries have start <= end and are pairwise non-overlapping in order, none ends after the bound, and an open stay starts after every emitted entry ends |
| `TimelineRoute.ScanInMinutes` | routes/attendance.js:167-171 | Every emitted entry's duration is (end - start) / 60000 |
| `TimelineRoute.TimelineWellFormed` | routes/attendance.js:157-185 | For sorted rows and a "now" no earlier than any row, the whole timeline is ordered and non-overlapping, and every duration is the length in minutes and is >= 0 |
| `TimelineRoute.Reconstruct` | routes/attendance.js:151-185 | The loop returns exactly `Timeline(rows, now)`, and on sorted rows its result is ordered and non-overlapping |
| `TimelineRoute.HandleTimeline` | routes/attendance.js:125-196 | 400 exactly when the date is missing or empty; 404 exactly when the date is given and there are no rows; otherwise the body carries the person, the date and `Timeline(rows, now)` |
| `TimelineReference.LastMarker` | routes/attendance.js:161-164 | The index of the last type-1 or type-0 row, or -1 when there is none: the rows after it are all ignored ones |
| `TimelineReference.ClosingIndices` | routes/attendance.js:164-174 | Exactly the type-0 rows that close an open stay, in strictly ascending order |
| `TimelineReference.ScanCharacterized` | routes/attendance.js:153-175 | After the loop, the person is in the office iff the last type-1/type-0 row is a type-1 row, and `inTime` is that row's time. The k-th emitted entry is the one closed by the k-th closing type-0 row |
| `TimelineReference.TimelineCharacterized` | routes/attendance.js:153-185 | The timeline is one entry per closing type-0 row, in row order, then exactly one entry ending at "now" when the scan ends in the office. That open entry is always the last |
| `TimelineReference.TimelineLength` | routes/attendance.js:157-185 | The number of entries is the number of type-0 rows that close an open stay, plus one if the scan ends in the office |
| `TimelineReference.ClosingSpanStartsAtLatestCheckIn` | routes/attendance.js:161-171 | A closed stay starts at a type-1 row before the closing row, with no type-1 or type-0 row between them: the latest check-in, with earlier check-ins discarded |
| `TimelineReference.ScanExtends` | routes/attendance.js:157-175 | The scan's variables after a prefix determine the rest of the scan, whatever rows follow |
| `TimelineReference.IgnoredRowChangesNothing` | routes/attendance.js:161-164 | Inserting a row whose type is neither 1 nor 0 anywhere leaves the timeline unchanged |
| `TimelineReference.OrphanCheckOutChangesNothing` | routes/attendance.js:164 | A type-0 row while out of the office leaves the timeline unchanged, whatever follows |
| `TimelineReference.RepeatedCheckInDiscardsEarlier` | routes/attendance.js:161-163 | Of two consecutive type-1 rows, the earlier one has no effect: `inTime` is overwritten by the later one |
| `TimelineReference.LaterNowOnlyMovesOpenEnd` | routes/attendance.js:177-185 | Changing "now" keeps the length and every closed entry. It changes only the end of the final open entry, and changes nothing when the scan ends out of the office |
| `TimelineExamples.RepeatedCheckInExample` | routes/attendance.js:157-175 | In at 9:00, in at 10:00, out at 12:00 gives the single entry 10:00-12:00 of 120 minutes |
| `TimelineExamples.OpenStayExample` | routes/attendance.js:157-185 | In at 9:00, out at 17:00, in at 17:30, with "now" at 18:00, gives 9:00-17:00 (480 minutes) and then 17:30-18:00 (30 minutes) |
| `WeeklyRoute.Grouped` | routes/attendance.js:98-115 | The `weeklyData` object: exactly the keys 1 to 7, present even for days with no records, and no list longer than the input. List d is `Bucket(rows, d)`; what it holds is stated by `BucketMembers`, `BucketConcat` and `RowPlacedInItsBucket` |
| `WeeklyRoute.GroupedStep` | routes/attendance.js:108-115 | Appending a row with a truthy day d in 1..7 appends its entry to bucket d only. Any other row changes no bucket |
| `WeeklyRoute.GroupByWeekday` | routes/attendance.js:97-117 | The loop returns exactly the keys 1..7, each bound to `Bucket(rows, d)` |
| `WeeklyRoute.BucketConcat` | routes/attendance.js:108-115 | Grouping keeps input order: each bucket of `a + b` is the bucket of `a` followed by the bucket of `b` |
| `WeeklyRoute.RowPlacedInItsBucket` | routes/attendance.js:108-115 | The row at position i with day d sits in bucket d, right after the entries of the earlier rows with day d |
| `WeeklyRoute.BucketMembers` | routes/attendance.js:109-113 | An entry is in bucket d iff some row with day d has that time and type |
| `WeeklyRoute.BucketsPartitionKept` | routes/attendance.js:98-115 | The seven buckets together hold, as a multiset, exactly the entries of the rows with a truthy day |
| `WeeklyRoute.BucketSizesSum` | routes/attendance.js:98-115 | The seven bucket sizes add up to the number of kept rows |
| `WeeklyRoute.FalsyDayDropped` | routes/attendance.js:109 | A row whose `day_of_week` is NULL or 0 changes no bucket, wherever it stands |
| `RecordRoute.LatestType` | routes/attendance.js:37-45 | The type of a person's most recently appended record, or None exactly when the person has no record |
| `RecordRoute.LatestTypeAppend` | routes/attendance.js:32-45 | Appending a record changes the latest type of its own person only |
| `RecordRoute.AttendanceDb.Record` | routes/attendance.js:9-62 | 400 with no change iff the name is missing or empty; 404 with no change iff the person is unknown. Otherwise it appends exactly one record, sets `current[person]` to the type and timestamp, leaves every other person's entry unchanged, and keeps the projection invariant |

## Left out

- I/O, SQL and wiring are not part of this model: the connection pool, HTTP
  parsing and JSON serialisation. `db/connection.js`, `db/init.js` and
  `app.js` are not part of this model.
- The filtering and ordering SQL performs are not modelled: `DATE(record_time) = ?`,
  `ORDER BY record_time` and `DAYOFWEEK(STR_TO_DATE(...))`. Their results
  are inputs.
- Concurrency is not modelled: transaction begin, commit and rollback, and
  connection release. `Record` models their sequential all-or-nothing effect
  only.
- `GET /:person_name` (routes/attendance.js:65-79) is a single query
  returning the rows as they are. It holds no logic to model.
- `routes/auth.js` and `routes/person.js` are not modelled. Password hashing
  and token signing are foreign calls. The person routes are single SQL
  statements.
- The 500 error paths are not modelled. They are storage failures, or a
  `record_time` that does not parse as a date.
- Some conversions are not modelled: `new Date(...)` parsing, `toISOString()`
  formatting and floating-point rounding of the duration. Times are integers
  and durations are exact reals.
- `GroupByWeekday`: requires every truthy `day_of_week` to be 1..7, which
  SQL's `DAYOFWEEK` guarantees. Another truthy value would make the
  source's `push` throw; that case is not modelled.
- `RecordRoute.AttendanceDb.Record`: the `record_time` column is not
  modelled, because the `INSERT` at routes/attendance.js:32-35 does not
  write it. The `record_id` UUID is a parameter, and a clash on the
  primary key is not modelled.
- `RecordRoute.AttendanceDb.Record`: person names are compared by exact
  string equality. SQL compares them under the `person_name` column's
  collation, which db/init.js:17 leaves at the server default, usually
  case- and accent-insensitive. The existence check at
  routes/attendance.js:22, the foreign key and the `ON DUPLICATE KEY` match
  may therefore treat `"alice"` and `"Alice"` as one person, where this
  model treats them as two. The same holds for the per-person projection
  in `Valid()`.
- The mismatch between the column name `is_present`, used by the queries,
  and the schema's `record_type`, and the string-versus-number typing of
  that column, are not modelled. Types are `Option<int>`.
