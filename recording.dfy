/**
 * The `/record` handler: one transaction that checks the person exists,
 * appends a row to `attendance_records` and upserts the person's row of
 * `current_attendance`.
 */
module RecordRoute {
  import opened Wrappers
  import opened Values

  /** A row of `attendance_records` as the handler inserts it: `record_id`, `person_name`, `is_present`. */
  datatype AttendanceRecord = AttendanceRecord(recordId: string, personName: string, recordType: RecordType)

  /** A row of `current_attendance`: `is_present` and `last_record_time`. */
  datatype CurrentAttendance = CurrentAttendance(isPresent: RecordType, lastRecordTime: int)

  /** The handler's outcome: 400, 404, or 201 with the new `record_id`. */
  datatype RecordResponse = BadRequest | NotFound | Created(recordId: string)

  /** The type of the most recently appended record of `person`, or None when it has none. */
  function LatestType(records: seq<AttendanceRecord>, person: string): (t: Option<RecordType>)
    ensures t.None? <==> forall i :: 0 <= i < |records| ==> records[i].personName != person
    ensures t.Some? ==> exists i :: (0 <= i < |records| && records[i].personName == person
      && records[i].recordType == t.value
      && forall k :: i < k < |records| ==> records[k].personName != person)
  {
    if records == [] then None
    else
      var last := records[|records| - 1];
      if last.personName == person then Some(last.recordType)
      else LatestType(records[..|records| - 1], person)
  }

  /** Appending a record of `person` makes its type the latest for `person` and for nobody else. */
  lemma LatestTypeAppend(records: seq<AttendanceRecord>, r: AttendanceRecord, person: string)
    ensures LatestType(records + [r], person) ==
      if r.personName == person then Some(r.recordType) else LatestType(records, person)
  {
    assert (records + [r])[..|records|] == records;
  }

  /** The three tables the handler touches. */
  class AttendanceDb {
    /** `person_info`: the registered names. */
    var persons: set<string>
    /** `attendance_records`, in insertion order. */
    var records: seq<AttendanceRecord>
    /** `current_attendance`, keyed by `person_name`. */
    var current: map<string, CurrentAttendance>

    /**
     * Every record names a registered person (the foreign key), and
     * `current_attendance` is the projection of the log: a person has an
     * entry exactly when they have a record, and the entry's `is_present` is
     * the type of their latest record.
     */
    ghost predicate Valid()
      reads this
    {
      && (forall i :: 0 <= i < |records| ==> records[i].personName in persons)
      && (forall p :: p in current <==> LatestType(records, p).Some?)
      && (forall p :: p in current ==> current[p].isPresent == LatestType(records, p).value)
    }

    /** Registered persons and no attendance yet. */
    constructor (persons: set<string>)
      ensures Valid()
      ensures this.persons == persons && records == [] && current == map[]
    {
      this.persons := persons;
      records := [];
      current := map[];
    }

    /**
     * `POST /record` with `person_name`, `record_type`; `recordId` is the
     * fresh UUID and `now` the database's `CURRENT_TIMESTAMP`. Both writes
     * happen, or neither does.
     */
    method Record(personName: Option<string>, recordType: RecordType, recordId: string, now: int)
      returns (resp: RecordResponse)
      requires Valid()
      modifies this
      ensures Valid()
      ensures persons == old(persons)
      ensures resp.BadRequest? <==> IsFalsy(personName)
      ensures resp.NotFound? <==> !IsFalsy(personName) && personName.value !in persons
      ensures !resp.Created? ==> records == old(records) && current == old(current)
      ensures resp.Created? ==> resp.recordId == recordId
      ensures resp.Created? ==>
        records == old(records) + [AttendanceRecord(recordId, personName.value, recordType)]
      ensures resp.Created? ==>
        current == old(current)[personName.value := CurrentAttendance(recordType, now)]
      ensures resp.Created? ==> forall q :: q != personName.value ==>
        (q in current <==> q in old(current)) && (q in current ==> current[q] == old(current)[q])
    {
      if IsFalsy(personName) {
        return BadRequest;
      }
      var name := personName.value;
      if name !in persons {
        return NotFound;
      }
      var record := AttendanceRecord(recordId, name, recordType);
      records := records + [record];
      current := current[name := CurrentAttendance(recordType, now)];
      forall p
        ensures LatestType(records, p) == if p == name then Some(recordType) else LatestType(old(records), p)
      {
        LatestTypeAppend(old(records), record, p);
      }
      resp := Created(recordId);
    }
  }
}
