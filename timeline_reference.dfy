/**
 * A description of the timeline without the scan's variables: a person is
 * in the office after some rows exactly when the last check-in or check-out
 * among them is a check-in, a check-out closes a stay exactly when the
 * person was in the office just before it, and the stay it closes began at
 * the latest check-in. The lemmas here prove that the scan computes this.
 */
module TimelineReference {
  import opened Wrappers
  import opened Values
  import opened TimelineRoute

  /** A row the scan reacts to: a check-in or a check-out. */
  predicate IsMarker(r: Row) {
    IsCheckIn(r.recordType) || IsCheckOut(r.recordType)
  }

  /** The index of the last check-in or check-out among `rows`, or -1 when there is none. */
  function LastMarker(rows: seq<Row>): (m: int)
    ensures -1 <= m < |rows|
    ensures m >= 0 ==> IsMarker(rows[m])
    ensures forall k :: m < k < |rows| ==> !IsMarker(rows[k])
  {
    if rows == [] then -1
    else if IsMarker(rows[|rows| - 1]) then |rows| - 1
    else LastMarker(rows[..|rows| - 1])
  }

  /** In the office after `rows`: the last check-in or check-out is a check-in. */
  predicate InOfficeAfter(rows: seq<Row>) {
    var m := LastMarker(rows);
    m >= 0 && IsCheckIn(rows[m].recordType)
  }

  /** Row `j` is a check-out that closes a stay open just before it. */
  predicate Closes(rows: seq<Row>, j: int) {
    0 <= j < |rows| && IsCheckOut(rows[j].recordType) && InOfficeAfter(rows[..j])
  }

  /** The entry closed by row `j`: from the latest check-in before it to its own time. */
  function ClosingSpan(rows: seq<Row>, j: int): Interval
    requires Closes(rows, j)
  {
    Span(rows[LastMarker(rows[..j])].time, rows[j].time)
  }

  /** Closing a stay depends only on the rows up to and including the closing one. */
  lemma ClosesInPrefix(rows: seq<Row>, n: int)
    requires 0 <= n <= |rows|
    ensures forall j :: 0 <= j < n ==> Closes(rows[..n], j) == Closes(rows, j)
    ensures forall j :: 0 <= j < n && Closes(rows, j) ==> ClosingSpan(rows[..n], j) == ClosingSpan(rows, j)
  {
    forall j | 0 <= j < n
      ensures Closes(rows[..n], j) == Closes(rows, j)
      ensures Closes(rows, j) ==> ClosingSpan(rows[..n], j) == ClosingSpan(rows, j)
    {
      assert rows[..n][..j] == rows[..j];
    }
  }

  /** The indices of the closing check-outs, in ascending order. */
  function ClosingIndices(rows: seq<Row>): (c: seq<int>)
    ensures forall k :: 0 <= k < |c| ==> Closes(rows, c[k])
    ensures forall k, l :: 0 <= k < l < |c| ==> c[k] < c[l]
    ensures forall j :: Closes(rows, j) ==> j in c
  {
    if rows == [] then []
    else
      var n := |rows|;
      ClosesInPrefix(rows, n - 1);
      var c0 := ClosingIndices(rows[..n - 1]);
      c0 + if Closes(rows, n - 1) then [n - 1] else []
  }

  /**
   * The scan's variables after `rows`, described without the scan: in the
   * office iff the last marker is a check-in, `inTime` is that check-in's
   * time, and the k-th emitted entry is the one closed by the k-th closing
   * check-out.
   */
  lemma {:induction false} ScanCharacterized(rows: seq<Row>)
    ensures var s := ScanAll(rows); var c := ClosingIndices(rows);
      && s.inOffice == InOfficeAfter(rows)
      && s.inTime == (if InOfficeAfter(rows) then Some(rows[LastMarker(rows)].time) else None)
      && |s.timeline| == |c|
      && forall k :: 0 <= k < |c| ==> s.timeline[k] == ClosingSpan(rows, c[k])
  {
    if rows != [] {
      var n := |rows|;
      var init, r := rows[..n - 1], rows[n - 1];
      ScanCharacterized(init);
      ClosesInPrefix(rows, n - 1);
      assert rows[..n - 1] == init;
      var s0, c0 := ScanAll(init), ClosingIndices(init);
      var s, c := ScanAll(rows), ClosingIndices(rows);
      assert s == Step(s0, r);
      assert c == c0 + if Closes(rows, n - 1) then [n - 1] else [];
      forall k | 0 <= k < |c0|
        ensures s.timeline[k] == ClosingSpan(rows, c[k])
      {
        assert ClosingSpan(init, c0[k]) == ClosingSpan(rows, c0[k]);
      }
    }
  }

  /**
   * The timeline: one entry per closing check-out, in row order, each from
   * the latest check-in before it to the check-out; then, exactly when the
   * rows end in the office, one last entry from the latest check-in to `now`.
   */
  lemma TimelineCharacterized(rows: seq<Row>, now: int)
    ensures var t := Timeline(rows, now); var c := ClosingIndices(rows);
      && |t| == |c| + (if InOfficeAfter(rows) then 1 else 0)
      && (forall k :: 0 <= k < |c| ==> t[k] == ClosingSpan(rows, c[k]))
      && (InOfficeAfter(rows) ==> t[|c|] == Span(rows[LastMarker(rows)].time, now))
  {
    ScanCharacterized(rows);
  }

  /** A strictly ascending sequence holds as many distinct values as it is long. */
  lemma {:induction false} AscendingDistinct(c: seq<int>)
    requires forall k, l :: 0 <= k < l < |c| ==> c[k] < c[l]
    ensures |set x | x in c| == |c|
  {
    if c != [] {
      var init := c[..|c| - 1];
      AscendingDistinct(init);
      assert (set x | x in c) == (set x | x in init) + {c[|c| - 1]};
      assert c[|c| - 1] !in (set x | x in init);
    }
  }

  /**
   * The number of entries is the number of check-outs that close an open
   * stay, plus one when the rows end in the office.
   */
  lemma TimelineLength(rows: seq<Row>, now: int)
    ensures |Timeline(rows, now)| ==
      |set j | 0 <= j < |rows| && Closes(rows, j)| + (if InOfficeAfter(rows) then 1 else 0)
  {
    var c := ClosingIndices(rows);
    TimelineCharacterized(rows, now);
    AscendingDistinct(c);
    assert (set j | 0 <= j < |rows| && Closes(rows, j)) == (set x | x in c);
  }

  /** The start of a stay closed by row `j` is the latest check-in before `j`, and nothing between them is a check-in or a check-out. */
  lemma ClosingSpanStartsAtLatestCheckIn(rows: seq<Row>, j: int)
    requires Closes(rows, j)
    ensures exists i :: (0 <= i < j && IsCheckIn(rows[i].recordType)
      && ClosingSpan(rows, j) == Span(rows[i].time, rows[j].time)
      && forall k :: i < k < j ==> !IsMarker(rows[k]))
  {
    var i := LastMarker(rows[..j]);
    assert rows[..j][i] == rows[i];
    forall k | i < k < j
      ensures !IsMarker(rows[k])
    {
      assert rows[..j][k] == rows[k];
    }
  }

  /** The scan reaches the same variables from two row sequences that lead to the same variables, whatever follows. */
  lemma {:induction false} ScanExtends(a1: seq<Row>, a2: seq<Row>, b: seq<Row>)
    requires ScanAll(a1) == ScanAll(a2)
    ensures ScanAll(a1 + b) == ScanAll(a2 + b)
  {
    if b == [] {
      assert a1 + b == a1 && a2 + b == a2;
    } else {
      var b0 := b[..|b| - 1];
      ScanExtends(a1, a2, b0);
      assert (a1 + b)[..|a1 + b| - 1] == a1 + b0;
      assert (a2 + b)[..|a2 + b| - 1] == a2 + b0;
    }
  }

  /** A row whose type is neither `1` nor `0` changes nothing, wherever it stands. */
  lemma IgnoredRowChangesNothing(a: seq<Row>, r: Row, b: seq<Row>, now: int)
    requires !IsMarker(r)
    ensures Timeline(a + [r] + b, now) == Timeline(a + b, now)
  {
    assert (a + [r])[..|a|] == a;
    ScanExtends(a + [r], a, b);
    assert a + [r] + b == (a + [r]) + b;
  }

  /** A check-out while out of the office changes nothing, whatever follows it. */
  lemma OrphanCheckOutChangesNothing(a: seq<Row>, r: Row, b: seq<Row>, now: int)
    requires IsCheckOut(r.recordType) && !ScanAll(a).inOffice
    ensures Timeline(a + [r] + b, now) == Timeline(a + b, now)
  {
    assert (a + [r])[..|a|] == a;
    ScanExtends(a + [r], a, b);
  }

  /**
   * A check-in while already in the office discards the earlier check-in:
   * the rows behave as if the earlier check-in had never been there.
   */
  lemma RepeatedCheckInDiscardsEarlier(a: seq<Row>, r1: Row, r2: Row, b: seq<Row>, now: int)
    requires IsCheckIn(r1.recordType) && IsCheckIn(r2.recordType)
    ensures Timeline(a + [r1, r2] + b, now) == Timeline(a + [r2] + b, now)
  {
    var x, y := a + [r1, r2], a + [r2];
    assert x[..|x| - 1] == a + [r1] && (a + [r1])[..|a|] == a;
    assert y[..|y| - 1] == a;
    ScanExtends(x, y, b);
  }

  /**
   * A later `now` changes only the last entry's end and duration, and only
   * when the rows end in the office; the closed entries stay as they are.
   */
  lemma LaterNowOnlyMovesOpenEnd(rows: seq<Row>, now1: int, now2: int)
    ensures |Timeline(rows, now1)| == |Timeline(rows, now2)| ==
      |ClosingIndices(rows)| + (if InOfficeAfter(rows) then 1 else 0)
    ensures forall k :: 0 <= k < |ClosingIndices(rows)| ==> Timeline(rows, now1)[k] == Timeline(rows, now2)[k]
    ensures !InOfficeAfter(rows) ==> Timeline(rows, now1) == Timeline(rows, now2)
    ensures InOfficeAfter(rows) ==>
      var n := |ClosingIndices(rows)|;
      Timeline(rows, now1)[n].start == Timeline(rows, now2)[n].start &&
      Timeline(rows, now1)[n].end == now1 && Timeline(rows, now2)[n].end == now2
  {
    TimelineCharacterized(rows, now1);
    TimelineCharacterized(rows, now2);
  }
}
