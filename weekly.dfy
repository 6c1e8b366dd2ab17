/**
 * The `/weekly/:person_name` handler: one person's records, in ascending
 * `record_time` order and tagged by SQL with `day_of_week` (1 = Sunday ...
 * 7 = Saturday), are appended to seven lists keyed by that number.
 */
module WeeklyRoute {
  import opened Wrappers
  import opened Values

  /** A query row: `record_time`, `record_type` and `day_of_week` (None is SQL NULL). */
  datatype WeekRow = WeekRow(time: int, recordType: RecordType, dayOfWeek: Option<int>)

  /** What a bucket holds for a row: `{record_time, record_type}`. */
  datatype Entry = Entry(time: int, recordType: RecordType)

  function EntryOf(r: WeekRow): Entry {
    Entry(r.time, r.recordType)
  }

  /** `if (record.day_of_week)`: the day is present and not 0. */
  predicate Kept(r: WeekRow) {
    r.dayOfWeek.Some? && r.dayOfWeek.value != 0
  }

  /** `DAYOFWEEK` yields NULL or a number from 1 to 7, so every kept row has a bucket. */
  predicate WellTagged(rows: seq<WeekRow>) {
    forall i :: 0 <= i < |rows| && Kept(rows[i]) ==> 1 <= rows[i].dayOfWeek.value <= 7
  }

  /** The entries of the rows tagged with day `d`, in input order. */
  function Bucket(rows: seq<WeekRow>, d: int): (b: seq<Entry>)
    ensures |b| <= |rows|
  {
    if rows == [] then []
    else
      var last := rows[|rows| - 1];
      Bucket(rows[..|rows| - 1], d) + if last.dayOfWeek == Some(d) then [EntryOf(last)] else []
  }

  /** The `weeklyData` object the handler returns: keys 1 to 7, each with its bucket. */
  function Grouped(rows: seq<WeekRow>): (g: map<int, seq<Entry>>)
    ensures g.Keys == {1, 2, 3, 4, 5, 6, 7}
    ensures forall d :: d in g ==> |g[d]| <= |rows|
  {
    map d | 1 <= d <= 7 :: Bucket(rows, d)
  }

  /** The entries of all kept rows, in input order. */
  function KeptEntries(rows: seq<WeekRow>): seq<Entry> {
    if rows == [] then []
    else
      var last := rows[|rows| - 1];
      KeptEntries(rows[..|rows| - 1]) + if Kept(last) then [EntryOf(last)] else []
  }

  /** The buckets of days `d` to 7 together. */
  function BucketsFrom(rows: seq<WeekRow>, d: int): multiset<Entry>
    decreases 8 - d
  {
    if d > 7 then multiset{}
    else multiset(Bucket(rows, d)) + BucketsFrom(rows, d + 1)
  }

  /** The grouping of `rows` with one more row appended. */
  lemma GroupedStep(rows: seq<WeekRow>, r: WeekRow)
    ensures Grouped(rows + [r]) ==
      if Kept(r) && 1 <= r.dayOfWeek.value <= 7 then
        Grouped(rows)[r.dayOfWeek.value := Grouped(rows)[r.dayOfWeek.value] + [EntryOf(r)]]
      else Grouped(rows)
  {
    var x := rows + [r];
    assert x[..|x| - 1] == rows;
    var g, g' := Grouped(rows), Grouped(x);
    var expected := if Kept(r) && 1 <= r.dayOfWeek.value <= 7 then
      g[r.dayOfWeek.value := g[r.dayOfWeek.value] + [EntryOf(r)]] else g;
    assert g'.Keys == expected.Keys;
    forall d | d in g'
      ensures g'[d] == expected[d]
    {
      assert Bucket(x, d) == Bucket(rows, d) + if r.dayOfWeek == Some(d) then [EntryOf(r)] else [];
    }
  }

  /**
   * The handler's `forEach`: each row with a truthy `day_of_week` is pushed
   * onto that day's list; `weeklyData` starts with seven empty lists.
   */
  method GroupByWeekday(rows: seq<WeekRow>) returns (weeklyData: map<int, seq<Entry>>)
    requires WellTagged(rows)
    ensures weeklyData == Grouped(rows)
    ensures weeklyData.Keys == {1, 2, 3, 4, 5, 6, 7}
  {
    weeklyData := map[1 := [], 2 := [], 3 := [], 4 := [], 5 := [], 6 := [], 7 := []];
    assert weeklyData == Grouped([]);
    for i := 0 to |rows|
      invariant weeklyData == Grouped(rows[..i])
    {
      var record := rows[i];
      GroupedStep(rows[..i], record);
      assert rows[..i + 1] == rows[..i] + [record];
      if record.dayOfWeek.Some? && record.dayOfWeek.value != 0 {
        var d := record.dayOfWeek.value;
        weeklyData := weeklyData[d := weeklyData[d] + [EntryOf(record)]];
      }
    }
    assert rows[..|rows|] == rows;
  }

  /** Bucketing keeps input order: the buckets of `a + b` are those of `a` followed by those of `b`. */
  lemma {:induction false} BucketConcat(a: seq<WeekRow>, b: seq<WeekRow>, d: int)
    ensures Bucket(a + b, d) == Bucket(a, d) + Bucket(b, d)
  {
    if b == [] {
      assert a + b == a;
    } else {
      var b0 := b[..|b| - 1];
      BucketConcat(a, b0, d);
      assert (a + b)[..|a + b| - 1] == a + b0;
    }
  }

  /**
   * Row `i`, tagged with day `d`, sits in bucket `d` right after the entries
   * of the earlier rows tagged `d`: each such row appears in its bucket at a
   * place fixed by its input position.
   */
  lemma RowPlacedInItsBucket(rows: seq<WeekRow>, i: int, d: int)
    requires 0 <= i < |rows| && rows[i].dayOfWeek == Some(d)
    ensures |Bucket(rows[..i], d)| < |Bucket(rows, d)|
    ensures Bucket(rows, d)[|Bucket(rows[..i], d)|] == EntryOf(rows[i])
  {
    assert rows == rows[..i + 1] + rows[i + 1..];
    assert rows[..i + 1][..i] == rows[..i];
    BucketConcat(rows[..i + 1], rows[i + 1..], d);
  }

  /** Bucket `d` holds exactly the entries of rows tagged with `d`. */
  lemma {:induction false} BucketMembers(rows: seq<WeekRow>, d: int, e: Entry)
    ensures e in Bucket(rows, d) <==>
      exists i :: 0 <= i < |rows| && rows[i].dayOfWeek == Some(d) && EntryOf(rows[i]) == e
  {
    if rows != [] {
      var n := |rows|;
      BucketMembers(rows[..n - 1], d, e);
      if e in Bucket(rows[..n - 1], d) {
        var i :| 0 <= i < n - 1 && rows[..n - 1][i].dayOfWeek == Some(d) && EntryOf(rows[..n - 1][i]) == e;
        assert rows[i] == rows[..n - 1][i];
      }
      if i :| 0 <= i < n && rows[i].dayOfWeek == Some(d) && EntryOf(rows[i]) == e {
        if i < n - 1 {
          assert rows[..n - 1][i] == rows[i];
        }
      }
    }
  }

  /** Appending a row adds its entry to the buckets of days `d` to 7 exactly when its day is one of them. */
  lemma {:induction false} BucketsFromSnoc(rows: seq<WeekRow>, r: WeekRow, d: int)
    requires 1 <= d <= 8
    ensures BucketsFrom(rows + [r], d) == BucketsFrom(rows, d) +
      if r.dayOfWeek.Some? && d <= r.dayOfWeek.value <= 7 then multiset{EntryOf(r)} else multiset{}
    decreases 8 - d
  {
    if d <= 7 {
      var x := rows + [r];
      assert x[..|x| - 1] == rows;
      var added := if r.dayOfWeek == Some(d) then [EntryOf(r)] else [];
      assert Bucket(x, d) == Bucket(rows, d) + added;
      assert multiset(Bucket(x, d)) == multiset(Bucket(rows, d)) + multiset(added);
      BucketsFromSnoc(rows, r, d + 1);
    }
  }

  /**
   * The buckets partition the kept rows: together the seven buckets hold
   * each kept row's entry exactly once and nothing else.
   */
  lemma {:induction false} BucketsPartitionKept(rows: seq<WeekRow>)
    requires WellTagged(rows)
    ensures BucketsFrom(rows, 1) == multiset(KeptEntries(rows))
  {
    if rows != [] {
      var init, r := rows[..|rows| - 1], rows[|rows| - 1];
      assert WellTagged(init) by {
        forall i | 0 <= i < |init| && Kept(init[i])
          ensures 1 <= init[i].dayOfWeek.value <= 7
        {
          assert init[i] == rows[i];
        }
      }
      BucketsPartitionKept(init);
      assert rows == init + [r];
      BucketsFromSnoc(init, r, 1);
    }
  }

  /** The bucket sizes add up to the number of kept rows. */
  lemma BucketSizesSum(rows: seq<WeekRow>)
    requires WellTagged(rows)
    ensures |Bucket(rows, 1)| + |Bucket(rows, 2)| + |Bucket(rows, 3)| + |Bucket(rows, 4)|
      + |Bucket(rows, 5)| + |Bucket(rows, 6)| + |Bucket(rows, 7)|
      == |KeptEntries(rows)|
  {
    BucketsPartitionKept(rows);
    assert |BucketsFrom(rows, 8)| == 0;
    assert |BucketsFrom(rows, 7)| == |Bucket(rows, 7)|;
    assert |BucketsFrom(rows, 6)| == |Bucket(rows, 6)| + |Bucket(rows, 7)|;
    assert |BucketsFrom(rows, 5)| == |Bucket(rows, 5)| + |Bucket(rows, 6)| + |Bucket(rows, 7)|;
    assert |BucketsFrom(rows, 4)| == |Bucket(rows, 4)| + |BucketsFrom(rows, 5)|;
    assert |BucketsFrom(rows, 3)| == |Bucket(rows, 3)| + |BucketsFrom(rows, 4)|;
    assert |BucketsFrom(rows, 2)| == |Bucket(rows, 2)| + |BucketsFrom(rows, 3)|;
    assert |BucketsFrom(rows, 1)| == |Bucket(rows, 1)| + |BucketsFrom(rows, 2)|;
  }

  /** A row whose `day_of_week` is falsy is dropped: it changes no bucket. */
  lemma FalsyDayDropped(a: seq<WeekRow>, r: WeekRow, b: seq<WeekRow>)
    requires !Kept(r)
    ensures Grouped(a + [r] + b) == Grouped(a + b)
  {
    forall d | 1 <= d <= 7
      ensures Bucket(a + [r] + b, d) == Bucket(a + b, d)
    {
      BucketConcat(a + [r], b, d);
      BucketConcat(a, [r], d);
      BucketConcat(a, b, d);
      assert [r][..0] == [];
    }
  }
}
