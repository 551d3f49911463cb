/**
 * A column of a table: the segments holding its rows, in row order, the persistent ones (read
 * from disk) first and transient ones (in memory, appended to) after; the scan cursor that walks
 * the column vector by vector; and the append loop that fills the last transient segment and
 * creates new ones until a whole vector is copied.
 */
module ColumnData {
  import opened Results
  import opened Common

  datatype SegmentType = PERSISTENT | TRANSIENT

  /**
   * A segment: its kind, the id of its first row, its rows, and the number of rows it can take.
   * How many rows a segment takes belongs to the segment's type and is not part of this model:
   * a transient segment here takes rows up to a fixed capacity.
   */
  datatype Segment = Segment(segmentType: SegmentType, start: nat, rows: seq<Value>, capacity: nat)

  /** The rows of the segments, one segment after the other. */
  function RowsOf(segments: seq<Segment>): seq<Value>
  {
    if segments == [] then [] else segments[0].rows + RowsOf(segments[1..])
  }

  /** The rows of two runs of segments are the rows of each. */
  lemma {:induction false} RowsOfAppend(a: seq<Segment>, b: seq<Segment>)
    ensures RowsOf(a + b) == RowsOf(a) + RowsOf(b)
  {
    if a != [] {
      assert (a + b)[0] == a[0] && (a + b)[1..] == a[1..] + b;
      RowsOfAppend(a[1..], b);
      assert RowsOf(a + b) == a[0].rows + RowsOf(a[1..] + b);
    } else {
      assert a + b == b;
    }
  }

  /** The rows held in the persistent segments. */
  function PersistentRows(segments: seq<Segment>): nat
  {
    if segments == [] then 0
    else (if segments[0].segmentType == PERSISTENT then |segments[0].rows| else 0) + PersistentRows(segments[1..])
  }

  lemma {:induction false} PersistentRowsAppend(a: seq<Segment>, b: seq<Segment>)
    ensures PersistentRows(a + b) == PersistentRows(a) + PersistentRows(b)
  {
    if a != [] {
      assert (a + b)[0] == a[0] && (a + b)[1..] == a[1..] + b;
      PersistentRowsAppend(a[1..], b);
    } else {
      assert a + b == b;
    }
  }

  /** Each segment starts where the one before it ends, the first at `from`. */
  predicate Contiguous(segments: seq<Segment>, from: nat)
  {
    segments != [] ==> segments[0].start == from && Contiguous(segments[1..], from + |segments[0].rows|)
  }

  lemma {:induction false} ContiguousAppend(a: seq<Segment>, b: seq<Segment>, from: nat)
    requires Contiguous(a, from) && Contiguous(b, from + |RowsOf(a)|)
    ensures Contiguous(a + b, from)
  {
    if a != [] {
      assert (a + b)[1..] == a[1..] + b;
      ContiguousAppend(a[1..], b, from + |a[0].rows|);
    } else {
      assert a + b == b;
    }
  }

  /** Persistent segments come before transient ones, and no transient segment is over capacity. */
  predicate Ordered(segments: seq<Segment>)
  {
    (forall i, j :: 0 <= i < j < |segments| && segments[j].segmentType == PERSISTENT ==> segments[i].segmentType == PERSISTENT) &&
    forall i :: 0 <= i < |segments| && segments[i].segmentType == TRANSIENT ==> |segments[i].rows| <= segments[i].capacity
  }

  /** The persistent segments of an ordered column hold the rows before the first transient one. */
  lemma {:induction false} PersistentPrefix(segments: seq<Segment>)
    requires Ordered(segments) && forall i :: 0 <= i < |segments| ==> segments[i].segmentType == PERSISTENT
    ensures PersistentRows(segments) == |RowsOf(segments)|
  {
    if segments != [] {
      assert Ordered(segments[1..]) by {
        forall i | 0 <= i < |segments| - 1 ensures segments[1..][i] == segments[i + 1] {
        }
      }
      PersistentPrefix(segments[1..]);
    }
  }

  /** The segment holding row `row`: the one whose rows, counted from its start, include it. */
  predicate Holds(segment: Segment, row: int)
  {
    segment.start <= row < segment.start + |segment.rows|
  }

  /**
   * The segment tree's lookup of the segment holding a row (its binary search is not part of this
   * model): the first segment holding the row, or none.
   */
  function SegmentOf(segments: seq<Segment>, row: int): (r: Option<nat>)
    ensures r.Some? ==> r.value < |segments| && Holds(segments[r.value], row)
    ensures r.None? <==> forall i :: 0 <= i < |segments| ==> !Holds(segments[i], row)
  {
    if segments == [] then None
    else if Holds(segments[0], row) then Some(0)
    else match SegmentOf(segments[1..], row)
      case None => None
      case Some(i) => Some(i + 1)
  }

  /** The number of vectors a scan visits in a segment of `count` rows: an empty segment still has one. */
  function VectorCount(count: nat): (n: nat)
    ensures n >= 1 && (n - 1) * STANDARD_VECTOR_SIZE <= count && (count > 0 ==> count <= n * STANDARD_VECTOR_SIZE)
  {
    if count == 0 then 1 else (count + STANDARD_VECTOR_SIZE - 1) / STANDARD_VECTOR_SIZE
  }

  /** The vectors of the segments from `s` on. */
  function VectorsFrom(segments: seq<Segment>, s: nat): nat
    decreases |segments| - s
  {
    if s >= |segments| then 0 else VectorCount(|segments[s].rows|) + VectorsFrom(segments, s + 1)
  }

  /** Where a scan stands: a segment, a vector in it, and whether the segment's scan was set up. */
  datatype Cursor = Cursor(current: nat, vectorIndex: nat, initialized: bool)

  /** A scan that stands on a vector of a segment, or past the last segment. */
  predicate At(segments: seq<Segment>, c: Cursor)
  {
    c.current <= |segments| && (c.current < |segments| ==> c.vectorIndex < VectorCount(|segments[c.current].rows|))
  }

  /** The vectors a scan still visits, the one it stands on included. */
  function VectorsLeft(segments: seq<Segment>, c: Cursor): nat
    requires At(segments, c)
  {
    if c.current == |segments| then 0 else VectorCount(|segments[c.current].rows|) - c.vectorIndex + VectorsFrom(segments, c.current + 1)
  }

  /** ColumnScanState::Next: the next vector, or the first vector of the next segment once the segment's rows are passed. */
  function Advanced(segments: seq<Segment>, c: Cursor): (r: Cursor)
    requires c.current < |segments|
  {
    if (c.vectorIndex + 1) * STANDARD_VECTOR_SIZE >= |segments[c.current].rows| then Cursor(c.current + 1, 0, false)
    else c.(vectorIndex := c.vectorIndex + 1)
  }

  /** Each step of a scan visits one vector: the scan stays on a vector and has one vector fewer to go. */
  lemma AdvanceCounts(segments: seq<Segment>, c: Cursor)
    requires At(segments, c) && c.current < |segments|
    ensures At(segments, Advanced(segments, c))
    ensures VectorsLeft(segments, Advanced(segments, c)) == VectorsLeft(segments, c) - 1
  {
    var count := |segments[c.current].rows|;
    if (c.vectorIndex + 1) * STANDARD_VECTOR_SIZE >= count {
      assert c.vectorIndex + 1 == VectorCount(count);
    } else {
      assert c.vectorIndex + 1 < VectorCount(count);
    }
  }

  /** A scan set up by InitializeScan visits every vector of every segment: all of them are left. */
  lemma ScanCoversColumn(segments: seq<Segment>)
    ensures At(segments, Cursor(0, 0, false))
    ensures VectorsLeft(segments, Cursor(0, 0, false)) == VectorsFrom(segments, 0)
  {
  }

  /** What a transient segment's append takes from `count` rows at `offset`: as many as it has room for. */
  function Taken(segment: Segment, count: nat): (n: nat)
  {
    if |segment.rows| >= segment.capacity then 0
    else if count <= segment.capacity - |segment.rows| then count
    else segment.capacity - |segment.rows|
  }

  /** A segment's append: the rows it takes, added after its own. */
  function Filled(segment: Segment, vector: seq<Value>, offset: nat, count: nat): (r: Segment)
    requires offset + count <= |vector|
    ensures r.rows == segment.rows + vector[offset..offset + Taken(segment, count)]
    ensures r == segment.(rows := r.rows)
    ensures |segment.rows| <= segment.capacity ==> |r.rows| <= r.capacity
    ensures Taken(segment, count) < count ==> |r.rows| >= r.capacity
  {
    segment.(rows := segment.rows + vector[offset..offset + Taken(segment, count)])
  }

  /** A vector of a segment. */
  datatype VectorAt = VectorAt(segment: nat, vectorIndex: nat)

  class ColumnScanState {
    var current: nat
    var vectorIndex: nat
    var initialized: bool

    constructor()
      ensures current == 0 && vectorIndex == 0 && !initialized
    {
      current := 0;
      vectorIndex := 0;
      initialized := false;
    }

    function AsCursor(): Cursor
      reads this
    {
      Cursor(current, vectorIndex, initialized)
    }

    /**
     * ColumnScanState::Next: on to the next vector; once its first row is past the segment's
     * rows, on to the first vector of the next segment, whose scan is not set up yet.
     */
    method Next(segments: seq<Segment>)
      requires current < |segments|
      modifies this
      ensures AsCursor() == Advanced(segments, old(AsCursor()))
    {
      vectorIndex := vectorIndex + 1;
      if vectorIndex * STANDARD_VECTOR_SIZE >= |segments[current].rows| {
        current := current + 1;
        vectorIndex := 0;
        initialized := false;
      }
    }
  }

  class ColumnAppendState {
    /** The index of the transient segment appended to. */
    var current: nat

    constructor()
      ensures current == 0
    {
      current := 0;
    }
  }

  class ColumnData {
    /** The number of rows a new transient segment can take. */
    const capacity: nat
    var persistentRows: nat
    var segments: seq<Segment>

    /** Contiguous segments from row 0, persistent ones first, counted in `persistentRows`. */
    ghost predicate Valid()
      reads this
    {
      capacity > 0 && Contiguous(segments, 0) && Ordered(segments) && persistentRows == PersistentRows(segments)
    }

    /** A column without segments. */
    constructor(capacity: nat)
      requires capacity > 0
      ensures Valid() && segments == [] && persistentRows == 0 && this.capacity == capacity
    {
      this.capacity := capacity;
      persistentRows := 0;
      segments := [];
    }

    /** All rows of the column, in order. */
    function Rows(): seq<Value>
      reads this
    {
      RowsOf(segments)
    }

    /**
     * Initialize: each persistent segment read from disk is counted in `persistentRows` and added
     * at the end, in order; a column that had only persistent segments, given segments that
     * continue its rows, stays valid.
     */
    method Initialize(loaded: seq<Segment>)
      requires forall i :: 0 <= i < |loaded| ==> loaded[i].segmentType == PERSISTENT
      modifies this
      ensures segments == old(segments) + loaded
      ensures persistentRows == old(persistentRows) + |RowsOf(loaded)|
      ensures Rows() == old(Rows()) + RowsOf(loaded)
      ensures (old(Valid()) && Contiguous(loaded, |old(Rows())|) &&
               forall i :: 0 <= i < |old(segments)| ==> old(segments)[i].segmentType == PERSISTENT) ==> Valid()
    {
      var i := 0;
      while i < |loaded|
        invariant i <= |loaded|
        invariant segments == old(segments) + loaded[..i]
        invariant persistentRows == old(persistentRows) + |RowsOf(loaded[..i])|
      {
        assert loaded[..i + 1] == loaded[..i] + [loaded[i]];
        RowsOfAppend(loaded[..i], [loaded[i]]);
        assert RowsOf([loaded[i]]) == loaded[i].rows + RowsOf([]);
        persistentRows := persistentRows + |loaded[i].rows|;
        segments := segments + [loaded[i]];
        i := i + 1;
      }
      assert loaded[..i] == loaded;
      RowsOfAppend(old(segments), loaded);
      if old(Valid()) && Contiguous(loaded, |old(Rows())|) &&
         forall i :: 0 <= i < |old(segments)| ==> old(segments)[i].segmentType == PERSISTENT {
        InitializeKeepsValid(old(segments), loaded, old(persistentRows));
      }
    }

    /** InitializeScan: the scan starts at the first vector of the first segment, not set up. */
    method InitializeScan(state: ColumnScanState)
      modifies state
      ensures state.AsCursor() == Cursor(0, 0, false)
      ensures At(segments, state.AsCursor()) && VectorsLeft(segments, state.AsCursor()) == VectorsFrom(segments, 0)
    {
      state.current := 0;
      state.vectorIndex := 0;
      state.initialized := false;
      ScanCoversColumn(segments);
    }

    /**
     * Scan: the vector the cursor stands on is scanned (the segment's own scan is not part of this
     * model; its set-up is marked on the cursor first), then the cursor moves on.
     */
    method Scan(state: ColumnScanState) returns (segment: nat, vectorIndex: nat)
      requires At(segments, state.AsCursor()) && state.current < |segments|
      modifies state
      ensures segment == old(state.current) && vectorIndex == old(state.vectorIndex)
      ensures state.AsCursor() == Advanced(segments, old(state.AsCursor()).(initialized := true))
      ensures At(segments, state.AsCursor()) && VectorsLeft(segments, state.AsCursor()) == old(VectorsLeft(segments, state.AsCursor())) - 1
    {
      if !state.initialized {
        state.initialized := true;
      }
      segment, vectorIndex := state.current, state.vectorIndex;
      AdvanceCounts(segments, state.AsCursor());
      state.Next(segments);
    }

    /**
     * IndexScan: as Scan, but the segment's scan is set up whenever the cursor is on a segment's
     * first vector; the refusal while updates are outstanding is not part of this model.
     */
    method IndexScan(state: ColumnScanState) returns (segment: nat, vectorIndex: nat, setUp: bool)
      requires At(segments, state.AsCursor()) && state.current < |segments|
      modifies state
      ensures segment == old(state.current) && vectorIndex == old(state.vectorIndex) && setUp == (vectorIndex == 0)
      ensures state.AsCursor() == Advanced(segments, old(state.AsCursor()))
      ensures At(segments, state.AsCursor()) && VectorsLeft(segments, state.AsCursor()) == old(VectorsLeft(segments, state.AsCursor())) - 1
    {
      setUp := state.vectorIndex == 0;
      segment, vectorIndex := state.current, state.vectorIndex;
      AdvanceCounts(segments, state.AsCursor());
      state.Next(segments);
    }

    /** AppendTransientSegment: an empty transient segment starting at `startRow`, added at the end. */
    method AppendTransientSegment(startRow: nat)
      modifies this`segments
      ensures segments == old(segments) + [Segment(TRANSIENT, startRow, [], capacity)]
      ensures Rows() == old(Rows())
      ensures PersistentRows(segments) == PersistentRows(old(segments))
    {
      RowsOfAppend(segments, [Segment(TRANSIENT, startRow, [], capacity)]);
      PersistentRowsAppend(segments, [Segment(TRANSIENT, startRow, [], capacity)]);
      segments := segments + [Segment(TRANSIENT, startRow, [], capacity)];
    }

    /**
     * InitializeAppend: the append goes to the last segment when it is transient; when there is
     * none, or the last one is persistent, to a new transient segment starting at `persistentRows`.
     */
    method InitializeAppend(state: ColumnAppendState)
      requires Valid()
      modifies this`segments, state
      ensures Valid() && Rows() == old(Rows())
      ensures state.current == |segments| - 1 && segments[state.current].segmentType == TRANSIENT
      ensures old(segments) != [] && old(segments)[|old(segments)| - 1].segmentType == TRANSIENT ==> segments == old(segments)
      ensures old(segments) == [] || old(segments)[|old(segments)| - 1].segmentType == PERSISTENT ==>
              segments == old(segments) + [Segment(TRANSIENT, persistentRows, [], capacity)]
    {
      if |segments| == 0 {
        AppendTransientSegment(persistentRows);
        NewSegmentKeepsValid(old(segments), persistentRows, capacity);
      }
      var last := |segments| - 1;
      if segments[last].segmentType == PERSISTENT {
        PersistentPrefix(segments);
        AppendTransientSegment(persistentRows);
        NewSegmentKeepsValid(old(segments), persistentRows, capacity);
        state.current := |segments| - 1;
      } else {
        state.current := last;
      }
    }

    /**
     * The current transient segment's append: it takes what it has room for, says how many, and
     * the column's rows gain them at the end.
     */
    method AppendToSegment(state: ColumnAppendState, vector: seq<Value>, offset: nat, count: nat) returns (copied: nat)
      requires Valid() && state.current == |segments| - 1 && segments[state.current].segmentType == TRANSIENT
      requires offset + count <= |vector|
      modifies this`segments
      ensures Valid() && |segments| == |old(segments)| && segments[state.current].segmentType == TRANSIENT
      ensures copied == Taken(old(segments)[state.current], count) && copied <= count
      ensures segments == old(segments)[state.current := Filled(old(segments)[state.current], vector, offset, count)]
      ensures Rows() == old(Rows()) + vector[offset..offset + copied]
      ensures copied < count ==> |segments[state.current].rows| >= segments[state.current].capacity
    {
      FillKeepsValid(segments, vector, offset, count);
      copied := Taken(segments[state.current], count);
      segments := segments[state.current := Filled(segments[state.current], vector, offset, count)];
    }

    /** A full current segment: a new transient one, starting where it ends, becomes the current one. */
    method NextSegment(state: ColumnAppendState)
      requires Valid() && state.current == |segments| - 1
      modifies this`segments, state
      ensures Valid() && Rows() == old(Rows()) && state.current == |segments| - 1
      ensures segments == old(segments) + [Segment(TRANSIENT, |Rows()|, [], capacity)]
    {
      var last := segments[state.current];
      EndOfRows(segments);
      NewSegmentKeepsValid(segments, last.start + |last.rows|, capacity);
      AppendTransientSegment(last.start + |last.rows|);
      state.current := |segments| - 1;
    }

    /**
     * Append: the vector's rows go into the current transient segment until it is full, then into
     * a new transient segment starting where the current one ends, until all are copied; the
     * column's rows are its old rows followed by the vector's.
     */
    method Append(state: ColumnAppendState, vector: seq<Value>)
      requires Valid() && state.current == |segments| - 1 && segments[state.current].segmentType == TRANSIENT
      modifies this`segments, state
      ensures Valid() && state.current == |segments| - 1 && segments[state.current].segmentType == TRANSIENT
      ensures Rows() == old(Rows()) + vector
    {
      var offset: nat := 0;
      var count: nat := |vector|;
      while true
        invariant Valid() && offset + count == |vector|
        invariant state.current == |segments| - 1 && segments[state.current].segmentType == TRANSIENT
        invariant Rows() == old(Rows()) + vector[..offset]
        decreases count, if |segments[state.current].rows| >= segments[state.current].capacity then 1 else 0
      {
        var copied := AppendToSegment(state, vector, offset, count);
        assert vector[..offset] + vector[offset..offset + copied] == vector[..offset + copied];
        if copied == count {
          offset := offset + copied;
          break;
        }
        NextSegment(state);
        offset := offset + copied;
        count := count - copied;
      }
      assert vector[..offset] == vector;
    }

    /**
     * Fetch: the vector of the segment holding `rowId` that contains the row, numbered from the
     * segment's start; an error when no segment holds the row.
     */
    function Fetch(rowId: int): (r: Result<VectorAt, string>)
      reads this
      ensures r.Ok? ==> r.value.segment < |segments| && Holds(segments[r.value.segment], rowId) &&
                        segments[r.value.segment].start + r.value.vectorIndex * STANDARD_VECTOR_SIZE <= rowId <
                        segments[r.value.segment].start + (r.value.vectorIndex + 1) * STANDARD_VECTOR_SIZE
      ensures r.Err? <==> forall i :: 0 <= i < |segments| ==> !Holds(segments[i], rowId)
    {
      match SegmentOf(segments, rowId)
      case None => Err("Could not find node in column segment tree!")
      case Some(s) => Ok(VectorAt(s, (rowId - segments[s].start) as nat / STANDARD_VECTOR_SIZE))
    }

    /**
     * FetchRow: the single row goes to the segment that holds it, whose own FetchRow reads it;
     * an error when no segment holds the row.
     */
    function FetchRow(rowId: int): (r: Result<nat, string>)
      reads this
      ensures r.Ok? ==> r.value < |segments| && Holds(segments[r.value], rowId)
      ensures r.Err? <==> forall i :: 0 <= i < |segments| ==> !Holds(segments[i], rowId)
    {
      match SegmentOf(segments, rowId)
      case None => Err("Could not find node in column segment tree!")
      case Some(s) => Ok(s)
    }

    /**
     * Update: the whole batch goes to the segment holding the first selected row id (the first id
     * when there is no selection); an error when no segment holds it.
     */
    function Update(ids: seq<int>, selection: Option<seq<nat>>): (r: Result<nat, string>)
      reads this
      requires selection.None? ==> |ids| >= 1
      requires selection.Some? ==> |selection.value| >= 1 && selection.value[0] < |ids|
      ensures var first := if selection.Some? then ids[selection.value[0]] else ids[0];
              (r.Ok? ==> r.value < |segments| && Holds(segments[r.value], first)) &&
              (r.Err? <==> forall i :: 0 <= i < |segments| ==> !Holds(segments[i], first))
    {
      var first := if selection.Some? then ids[selection.value[0]] else ids[0];
      match SegmentOf(segments, first)
      case None => Err("Could not find node in column segment tree!")
      case Some(s) => Ok(s)
    }
  }

  /** Adding loaded persistent segments that continue an all-persistent column keeps it valid. */
  lemma InitializeKeepsValid(segments: seq<Segment>, loaded: seq<Segment>, persistentRows: nat)
    requires Contiguous(segments, 0) && Ordered(segments) && persistentRows == PersistentRows(segments)
    requires forall i :: 0 <= i < |loaded| ==> loaded[i].segmentType == PERSISTENT
    requires Contiguous(loaded, |RowsOf(segments)|)
    requires forall i :: 0 <= i < |segments| ==> segments[i].segmentType == PERSISTENT
    ensures Contiguous(segments + loaded, 0) && Ordered(segments + loaded)
    ensures persistentRows + |RowsOf(loaded)| == PersistentRows(segments + loaded)
  {
    ContiguousAppend(segments, loaded, 0);
    PersistentRowsAppend(segments, loaded);
    PersistentPrefix(loaded);
  }

  /** The last segment of contiguous segments from 0 ends at the column's row count. */
  lemma {:induction false} EndOfRows(segments: seq<Segment>)
    requires segments != [] && Contiguous(segments, 0)
    ensures segments[|segments| - 1].start + |segments[|segments| - 1].rows| == |RowsOf(segments)|
  {
    EndFrom(segments, 0);
  }

  lemma {:induction false} EndFrom(segments: seq<Segment>, from: nat)
    requires segments != [] && Contiguous(segments, from)
    ensures segments[|segments| - 1].start + |segments[|segments| - 1].rows| == from + |RowsOf(segments)|
  {
    if |segments| > 1 {
      EndFrom(segments[1..], from + |segments[0].rows|);
    }
  }

  /** An empty transient segment at the end of the rows keeps a column valid. */
  lemma NewSegmentKeepsValid(segments: seq<Segment>, startRow: nat, capacity: nat)
    requires Contiguous(segments, 0) && Ordered(segments) && startRow == |RowsOf(segments)|
    ensures Contiguous(segments + [Segment(TRANSIENT, startRow, [], capacity)], 0)
    ensures Ordered(segments + [Segment(TRANSIENT, startRow, [], capacity)])
  {
    ContiguousAppend(segments, [Segment(TRANSIENT, startRow, [], capacity)], 0);
  }

  /** Filling the last segment keeps a column valid and adds the rows taken at the end of its rows. */
  lemma FillKeepsValid(segments: seq<Segment>, vector: seq<Value>, offset: nat, count: nat)
    requires segments != [] && Contiguous(segments, 0) && Ordered(segments) && offset + count <= |vector|
    requires segments[|segments| - 1].segmentType == TRANSIENT
    ensures var last := |segments| - 1;
            var filled := segments[last := Filled(segments[last], vector, offset, count)];
            Contiguous(filled, 0) && Ordered(filled) && PersistentRows(filled) == PersistentRows(segments) &&
            RowsOf(filled) == RowsOf(segments) + vector[offset..offset + Taken(segments[last], count)]
  {
    var last := |segments| - 1;
    var s := Filled(segments[last], vector, offset, count);
    var front := segments[..last];
    assert segments == front + [segments[last]];
    assert segments[last := s] == front + [s];
    ReplaceLast(front, segments[last], s);
    FillOrdered(segments, s);
  }

  /** Replacing the last segment by one with the same start and more rows. */
  lemma ReplaceLast(front: seq<Segment>, old_: Segment, s: Segment)
    requires Contiguous(front + [old_], 0) && s.start == old_.start && s.segmentType == old_.segmentType == TRANSIENT
    requires |old_.rows| <= |s.rows| && s.rows[..|old_.rows|] == old_.rows
    ensures Contiguous(front + [s], 0) && PersistentRows(front + [s]) == PersistentRows(front + [old_])
    ensures RowsOf(front + [s]) == RowsOf(front + [old_]) + s.rows[|old_.rows|..]
  {
    ReplaceRows(front, old_, s);
    PersistentRowsAppend(front, [old_]);
    PersistentRowsAppend(front, [s]);
    ContiguousSplit(front, [old_], 0);
    ContiguousAppend(front, [s], 0);
  }

  lemma ReplaceRows(front: seq<Segment>, old_: Segment, s: Segment)
    requires |old_.rows| <= |s.rows| && s.rows[..|old_.rows|] == old_.rows
    ensures RowsOf(front + [s]) == RowsOf(front + [old_]) + s.rows[|old_.rows|..]
  {
    RowsOfAppend(front, [old_]);
    RowsOfAppend(front, [s]);
    assert RowsOf([old_]) == old_.rows + RowsOf([]);
    assert RowsOf([s]) == s.rows + RowsOf([]);
    assert s.rows == old_.rows + s.rows[|old_.rows|..];
  }

  /** Filling the last transient segment within its capacity keeps the segments ordered. */
  lemma FillOrdered(segments: seq<Segment>, s: Segment)
    requires segments != [] && Ordered(segments) && segments[|segments| - 1].segmentType == TRANSIENT
    requires s.segmentType == TRANSIENT && |s.rows| <= s.capacity
    ensures Ordered(segments[|segments| - 1 := s])
  {
  }

  lemma {:induction false} ContiguousSplit(a: seq<Segment>, b: seq<Segment>, from: nat)
    requires Contiguous(a + b, from)
    ensures Contiguous(a, from) && Contiguous(b, from + |RowsOf(a)|)
  {
    if a != [] {
      assert (a + b)[1..] == a[1..] + b;
      ContiguousSplit(a[1..], b, from + |a[0].rows|);
    } else {
      assert a + b == b;
    }
  }
}
