/**
 * Transaction-local storage (src/storage/local_storage.cpp): the rows a transaction has
 * appended to a table but not yet committed. Per table it keeps a collection of chunks of at
 * most STANDARD_VECTOR_SIZE rows, a deleted-flag vector per chunk that has had a local row
 * deleted, and a local copy of each unique index so that duplicates are caught before commit.
 * A local row is named by the row id MAX_ROW_ID + its position in the collection.
 */
module LocalStorage {
  import opened Results
  import opened Common
  import opened Wal

  //===--------------------------------------------------------------------===//
  // The chunk collection
  //===--------------------------------------------------------------------===//

  /**
   * How the collection keeps its rows: every chunk holds between 1 and STANDARD_VECTOR_SIZE
   * rows, and every chunk but the last is full.
   */
  predicate Packed(chunks: seq<seq<Row>>)
  {
    forall c :: 0 <= c < |chunks| ==>
      0 < |chunks[c]| <= STANDARD_VECTOR_SIZE &&
      (c < |chunks| - 1 ==> |chunks[c]| == STANDARD_VECTOR_SIZE)
  }

  /** The rows of the chunks, one chunk after the other. */
  function Flatten(chunks: seq<seq<Row>>): seq<Row>
  {
    if chunks == [] then [] else Flatten(chunks[..|chunks| - 1]) + chunks[|chunks| - 1]
  }

  lemma {:induction false} FlattenAppend(xs: seq<seq<Row>>, ys: seq<seq<Row>>)
    ensures Flatten(xs + ys) == Flatten(xs) + Flatten(ys)
    decreases |ys|
  {
    if ys != [] {
      var ys' := ys[..|ys| - 1];
      assert (xs + ys)[..|xs + ys| - 1] == xs + ys';
      FlattenAppend(xs, ys');
    } else {
      assert xs + ys == xs;
    }
  }

  lemma FlattenOne(x: seq<Row>)
    ensures Flatten([x]) == x
  {
    assert [x][..0] == [];
  }

  /**
   * ChunkCollection::Append (not part of this model; this is the behaviour the local storage
   * relies on): the rows first fill up the last chunk, and what is left becomes a new chunk.
   */
  function CollectionAppend(chunks: seq<seq<Row>>, rows: seq<Row>): (r: seq<seq<Row>>)
    requires |rows| <= STANDARD_VECTOR_SIZE
  {
    if rows == [] then chunks
    else if chunks != [] && |chunks[|chunks| - 1]| < STANDARD_VECTOR_SIZE then
      var last := chunks[|chunks| - 1];
      var added := if |rows| < STANDARD_VECTOR_SIZE - |last| then |rows| else STANDARD_VECTOR_SIZE - |last|;
      chunks[..|chunks| - 1] + [last + rows[..added]] + (if added < |rows| then [rows[added..]] else [])
    else chunks + [rows]
  }

  /** Appending keeps the collection packed and puts the rows after the ones it held. */
  lemma CollectionAppendPacked(chunks: seq<seq<Row>>, rows: seq<Row>)
    requires Packed(chunks) && |rows| <= STANDARD_VECTOR_SIZE
    ensures Packed(CollectionAppend(chunks, rows))
    ensures Flatten(CollectionAppend(chunks, rows)) == Flatten(chunks) + rows
  {
    var r := CollectionAppend(chunks, rows);
    if rows == [] {
    } else if chunks != [] && |chunks[|chunks| - 1]| < STANDARD_VECTOR_SIZE {
      var init := chunks[..|chunks| - 1];
      var last := chunks[|chunks| - 1];
      var added := if |rows| < STANDARD_VECTOR_SIZE - |last| then |rows| else STANDARD_VECTOR_SIZE - |last|;
      assert chunks == init + [last];
      assert r == init + [last + rows[..added]] + (if added < |rows| then [rows[added..]] else []);
      FillLast(init, last, rows, added);
    } else {
      assert r == chunks + [rows];
      PushFull(chunks, rows);
    }
  }

  /** The case of CollectionAppend that starts a new chunk after a full one. */
  lemma PushFull(chunks: seq<seq<Row>>, rows: seq<Row>)
    requires Packed(chunks) && 0 < |rows| <= STANDARD_VECTOR_SIZE
    requires chunks != [] ==> |chunks[|chunks| - 1]| == STANDARD_VECTOR_SIZE
    ensures Packed(chunks + [rows]) && Flatten(chunks + [rows]) == Flatten(chunks) + rows
  {
    FlattenAppend(chunks, [rows]);
    FlattenOne(rows);
    var r := chunks + [rows];
    forall c | 0 <= c < |r|
      ensures 0 < |r[c]| <= STANDARD_VECTOR_SIZE && (c < |r| - 1 ==> |r[c]| == STANDARD_VECTOR_SIZE)
    {
      if c < |chunks| {
        assert r[c] == chunks[c];
      }
    }
  }

  /** The case of CollectionAppend that first fills up a last chunk holding `last`. */
  lemma FillLast(init: seq<seq<Row>>, last: seq<Row>, rows: seq<Row>, added: nat)
    requires Packed(init + [last]) && 0 < |rows| <= STANDARD_VECTOR_SIZE
    requires |last| < STANDARD_VECTOR_SIZE
    requires added == if |rows| < STANDARD_VECTOR_SIZE - |last| then |rows| else STANDARD_VECTOR_SIZE - |last|
    ensures var r := init + [last + rows[..added]] + (if added < |rows| then [rows[added..]] else []);
      Packed(r) && Flatten(r) == Flatten(init + [last]) + rows
  {
    var tail := if added < |rows| then [rows[added..]] else [];
    FillLastPacked(init, last, rows[..added], tail);
    FillLastRows(init, last, rows, added, tail);
  }

  lemma FillLastPacked(init: seq<seq<Row>>, last: seq<Row>, head: seq<Row>, tail: seq<seq<Row>>)
    requires Packed(init + [last]) && |last + head| <= STANDARD_VECTOR_SIZE
    requires |tail| <= 1 && (tail != [] ==> |last + head| == STANDARD_VECTOR_SIZE && 0 < |tail[0]| <= STANDARD_VECTOR_SIZE)
    ensures Packed(init + [last + head] + tail)
  {
    var r := init + [last + head] + tail;
    forall c | 0 <= c < |r|
      ensures 0 < |r[c]| <= STANDARD_VECTOR_SIZE && (c < |r| - 1 ==> |r[c]| == STANDARD_VECTOR_SIZE)
    {
      if c < |init| {
        assert r[c] == (init + [last])[c];
      }
    }
  }

  lemma FillLastRows(init: seq<seq<Row>>, last: seq<Row>, rows: seq<Row>, added: nat, tail: seq<seq<Row>>)
    requires added <= |rows| && tail == if added < |rows| then [rows[added..]] else []
    ensures Flatten(init + [last + rows[..added]] + tail) == Flatten(init + [last]) + rows
  {
    var a := last + rows[..added];
    FlattenAppend(init + [a], tail);
    FlattenAppend(init, [a]);
    FlattenOne(a);
    FlattenAppend(init, [last]);
    FlattenOne(last);
    var rest := if added < |rows| then rows[added..] else [];
    assert Flatten(tail) == rest by {
      if added < |rows| {
        FlattenOne(rows[added..]);
      }
    }
    assert rows[..added] + rest == rows;
    Regroup(Flatten(init), last, rows[..added], rest);
  }

  lemma Regroup(f: seq<Row>, l: seq<Row>, h: seq<Row>, r: seq<Row>)
    ensures f + (l + h) + r == f + l + (h + r)
  {
  }

  /** In a packed collection of n chunks all chunks before the last hold n - 1 full vectors. */
  lemma {:induction false} PackedPrefixSize(chunks: seq<seq<Row>>, n: nat)
    requires Packed(chunks) && n < |chunks|
    ensures |Flatten(chunks[..n])| == n * STANDARD_VECTOR_SIZE
  {
    if n > 0 {
      assert chunks[..n] == chunks[..n - 1] + [chunks[n - 1]];
      FlattenAppend(chunks[..n - 1], [chunks[n - 1]]);
      FlattenOne(chunks[n - 1]);
      PackedPrefixSize(chunks, n - 1);
    } else {
      assert chunks[..n] == [];
    }
  }

  /**
   * The local row a row id names: the row at position (id - MAX_ROW_ID) % STANDARD_VECTOR_SIZE
   * of chunk (id - MAX_ROW_ID) / STANDARD_VECTOR_SIZE.
   */
  function RowAt(chunks: seq<seq<Row>>, id: int): Option<Row>
  {
    var offset := id - MAX_ROW_ID;
    if offset < 0 then None
    else
      var c := offset / STANDARD_VECTOR_SIZE;
      var p := offset % STANDARD_VECTOR_SIZE;
      if c < |chunks| && p < |chunks[c]| then Some(chunks[c][p]) else None
  }

  /**
   * In a packed collection the row id MAX_ROW_ID + i names the row at position i of the
   * collection, and nothing past its end.
   */
  lemma {:induction false} RowAtPosition(chunks: seq<seq<Row>>, i: nat)
    requires Packed(chunks)
    ensures RowAt(chunks, MAX_ROW_ID + i) == if i < |Flatten(chunks)| then Some(Flatten(chunks)[i]) else None
    decreases |chunks|
  {
    if chunks != [] {
      var n := |chunks| - 1;
      assert chunks == chunks[..n] + [chunks[n]];
      FlattenAppend(chunks[..n], [chunks[n]]);
      FlattenOne(chunks[n]);
      PackedPrefixSize(chunks, n);
      var c := i / STANDARD_VECTOR_SIZE;
      var p := i % STANDARD_VECTOR_SIZE;
      assert i == c * STANDARD_VECTOR_SIZE + p;
      if c < n {
        assert Packed(chunks[..n]);
        RowAtPosition(chunks[..n], i);
        PackedPrefixSize(chunks[..n + 1], c);
        assert chunks[..n][c] == chunks[c];
      } else if c > n {
        assert i >= (n + 1) * STANDARD_VECTOR_SIZE;
      }
    }
  }

  //===--------------------------------------------------------------------===//
  // Deleted flags and the selection a scan builds from them
  //===--------------------------------------------------------------------===//

  /** The positions below n whose deleted flag is clear, in ascending order. */
  function Unset(flags: seq<bool>, n: nat): (r: seq<nat>)
    requires n <= |flags|
    ensures |r| <= n
    ensures forall k :: 0 <= k < |r| ==> r[k] < n
  {
    if n == 0 then [] else Unset(flags, n - 1) + (if flags[n - 1] then [] else [n - 1])
  }

  /** Unset holds exactly the positions below n whose flag is clear. */
  lemma {:induction false} UnsetMembers(flags: seq<bool>, n: nat)
    requires n <= |flags|
    ensures forall p: nat :: p in Unset(flags, n) <==> p < n && !flags[p]
  {
    if n > 0 {
      UnsetMembers(flags, n - 1);
    }
  }

  /** Unset lists its positions in strictly ascending order. */
  lemma {:induction false} UnsetAscending(flags: seq<bool>, n: nat)
    requires n <= |flags|
    ensures forall i, j :: 0 <= i < j < |Unset(flags, n)| ==> Unset(flags, n)[i] < Unset(flags, n)[j]
  {
    if n > 0 {
      UnsetAscending(flags, n - 1);
    }
  }

  /** When every flag below n is set, no position is selected. */
  lemma {:induction false} AllDeletedNoneSelected(flags: seq<bool>, n: nat)
    requires n <= |flags| && forall p :: 0 <= p < n ==> flags[p]
    ensures Unset(flags, n) == []
  {
    if n > 0 {
      AllDeletedNoneSelected(flags, n - 1);
    }
  }

  /** The positions 0, 1, ..., n - 1: the selection of a chunk without deleted rows. */
  function Range(n: nat): (r: seq<nat>)
    ensures |r| == n && forall k :: 0 <= k < n ==> r[k] == k
  {
    seq(n, k => k)
  }

  //===--------------------------------------------------------------------===//
  // The storage of one table
  //===--------------------------------------------------------------------===//

  /**
   * LocalTableStorage: the chunk collection, the deleted flags of the chunks that have any,
   * the local copies of the table's unique indexes, the row reached by the last
   * CheckCommit, and the row id at which the commit will append (its TableAppendState, absent
   * when there is none).
   */
  datatype TableStorage = TableStorage(
    chunks: seq<seq<Row>>,
    deleted: map<nat, seq<bool>>,
    indexes: seq<Index>,
    maxRow: int,
    appendStart: Option<nat>)

  /** Packed chunks, and a flag for every row a chunk can hold in each deleted-flag vector. */
  predicate Scannable(ts: TableStorage)
  {
    Packed(ts.chunks) &&
    forall c :: c in ts.deleted ==> |ts.deleted[c]| == STANDARD_VECTOR_SIZE
  }

  /** A storage of a table with `width` columns; its local indexes are all unique ones. */
  predicate StorageValid(ts: TableStorage, width: nat)
  {
    Scannable(ts) &&
    (forall c, p :: 0 <= c < |ts.chunks| && 0 <= p < |ts.chunks[c]| ==> |ts.chunks[c][p]| == width) &&
    forall j :: 0 <= j < |ts.indexes| ==> ts.indexes[j].unique
  }

  /** An empty copy of each unique index among `indexes`, in order. */
  function LocalIndexes(indexes: seq<Index>): (r: seq<Index>)
    ensures |r| <= |indexes|
    ensures forall k :: 0 <= k < |r| ==> r[k].unique && r[k].keys == multiset{}
    ensures forall k :: 0 <= k < |r| ==> exists x :: x in indexes && x.unique && x.columns == r[k].columns
  {
    if indexes == [] then []
    else
      var first := indexes[0];
      var rest := LocalIndexes(indexes[1..]);
      assert forall x :: x in indexes[1..] ==> x in indexes;
      (if first.unique then [Index(first.columns, true, multiset{})] else []) + rest
  }

  /**
   * The LocalTableStorage constructor: no rows, and an empty local copy of each unique index
   * of the table.
   */
  function NewStorage(table: DataTable): (ts: TableStorage)
    reads table
    ensures StorageValid(ts, |table.types|)
    ensures ts.chunks == [] && ts.deleted == map[] && ts.maxRow == 0 && ts.appendStart == None
    ensures ts.indexes == LocalIndexes(table.indexes)
  {
    TableStorage([], map[], LocalIndexes(table.indexes), 0, None)
  }

  /** The positions of chunk c, among its first `count`, that a scan delivers. */
  function Selection(ts: TableStorage, c: nat, count: nat): (sel: seq<nat>)
    requires c in ts.deleted ==> count <= |ts.deleted[c]|
    ensures forall k :: 0 <= k < |sel| ==> sel[k] < count
  {
    if c in ts.deleted then Unset(ts.deleted[c], count) else Range(count)
  }

  /**
   * A scan of chunk c delivers exactly its positions below `count` that are not marked
   * deleted, in ascending order.
   */
  lemma SelectionIsUndeleted(ts: TableStorage, c: nat, count: nat)
    requires c in ts.deleted ==> count <= |ts.deleted[c]|
    ensures forall p: nat :: p in Selection(ts, c, count) <==>
      p < count && !(c in ts.deleted && ts.deleted[c][p])
    ensures forall i, j :: 0 <= i < j < |Selection(ts, c, count)| ==>
      Selection(ts, c, count)[i] < Selection(ts, c, count)[j]
  {
    if c in ts.deleted {
      UnsetMembers(ts.deleted[c], count);
      UnsetAscending(ts.deleted[c], count);
    } else {
      forall p: nat | p < count ensures p in Selection(ts, c, count) {
        assert Range(count)[p] == p;
      }
    }
  }

  /** Which column a scan reads: the row id, or a column of the table. */
  datatype ColumnId = RowIdColumn | ColumnIndex(index: nat)

  /** Every column of a table with n columns, in order. */
  function AllColumns(n: nat): (ids: seq<ColumnId>)
    ensures |ids| == n && forall i :: 0 <= i < n ==> ids[i] == ColumnIndex(i)
  {
    seq(n, i requires 0 <= i < n => ColumnIndex(i))
  }

  /** What a scan returns for one row with the given row id. */
  function ScanRow(row: Row, rowId: int, columnIds: seq<ColumnId>): (r: Row)
    ensures |r| == |columnIds|
  {
    seq(|columnIds|, i requires 0 <= i < |columnIds| =>
      match columnIds[i]
      case RowIdColumn => rowId
      case ColumnIndex(col) => Cell(row, col))
  }

  /** The rows LocalStorage::Scan returns for chunk c when it looks at its first `count` rows. */
  function ScanOutput(ts: TableStorage, c: nat, count: nat, columnIds: seq<ColumnId>): seq<Row>
    requires c < |ts.chunks| && count <= |ts.chunks[c]|
    requires c in ts.deleted ==> count <= |ts.deleted[c]|
  {
    var sel := Selection(ts, c, count);
    seq(|sel|, k requires 0 <= k < |sel| =>
      ScanRow(ts.chunks[c][sel[k]], MAX_ROW_ID + c * STANDARD_VECTOR_SIZE + sel[k], columnIds))
  }

  /** The rows of chunk c that a scan of all columns of a whole storage delivers. */
  function ChunkView(ts: TableStorage, c: nat): seq<Row>
    requires c < |ts.chunks|
    requires c in ts.deleted ==> |ts.chunks[c]| <= |ts.deleted[c]|
  {
    var sel := Selection(ts, c, |ts.chunks[c]|);
    seq(|sel|, k requires 0 <= k < |sel| => ts.chunks[c][sel[k]])
  }

  /** Scanning every column of a chunk returns its undeleted rows themselves. */
  lemma ScanAllColumns(ts: TableStorage, c: nat, width: nat)
    requires StorageValid(ts, width) && c < |ts.chunks|
    ensures ScanOutput(ts, c, |ts.chunks[c]|, AllColumns(width)) == ChunkView(ts, c)
  {
    var sel := Selection(ts, c, |ts.chunks[c]|);
    forall k | 0 <= k < |sel|
      ensures ScanOutput(ts, c, |ts.chunks[c]|, AllColumns(width))[k] == ChunkView(ts, c)[k]
    {
      var row := ts.chunks[c][sel[k]];
      assert ScanRow(row, MAX_ROW_ID + c * STANDARD_VECTOR_SIZE + sel[k], AllColumns(width)) == row;
    }
  }

  /**
   * The row id a scan returns with a row names that row: RowAt finds the row under it. A
   * scan thus hands out the ids that Delete and Update take back.
   */
  lemma ScanRowIdsNameTheirRows(ts: TableStorage, c: nat, count: nat, columnIds: seq<ColumnId>, k: nat, i: nat)
    requires c < |ts.chunks| && count <= |ts.chunks[c]| && |ts.chunks[c]| <= STANDARD_VECTOR_SIZE
    requires c in ts.deleted ==> count <= |ts.deleted[c]|
    requires k < |ScanOutput(ts, c, count, columnIds)| && i < |columnIds| && columnIds[i] == RowIdColumn
    ensures RowAt(ts.chunks, ScanOutput(ts, c, count, columnIds)[k][i]) ==
      Some(ts.chunks[c][Selection(ts, c, count)[k]])
  {
    var p := Selection(ts, c, count)[k];
    assert ScanOutput(ts, c, count, columnIds)[k][i] == MAX_ROW_ID + c * STANDARD_VECTOR_SIZE + p;
    assert (c * STANDARD_VECTOR_SIZE + p) / STANDARD_VECTOR_SIZE == c;
    assert (c * STANDARD_VECTOR_SIZE + p) % STANDARD_VECTOR_SIZE == p;
  }

  /** The chunks, from chunk `from` on, that a scan of a whole storage hands on: those with a row left. */
  function VisibleChunks(ts: TableStorage, from: nat): (r: seq<seq<Row>>)
    requires Scannable(ts)
    ensures forall k :: 0 <= k < |r| ==> r[k] != []
    decreases |ts.chunks| - from
  {
    if from >= |ts.chunks| then []
    else (if ChunkView(ts, from) == [] then [] else [ChunkView(ts, from)]) + VisibleChunks(ts, from + 1)
  }

  /** The rows a scan of a whole storage hands on, one chunk after the other. */
  function VisibleRows(ts: TableStorage): seq<Row>
    requires Scannable(ts)
  {
    Flatten(VisibleChunks(ts, 0))
  }

  /** Without deleted rows, a scan of a whole storage hands on every chunk as it is. */
  lemma {:induction false} NothingDeletedAllVisible(ts: TableStorage, from: nat)
    requires Scannable(ts) && ts.deleted == map[] && from <= |ts.chunks|
    ensures VisibleChunks(ts, from) == ts.chunks[from..]
    decreases |ts.chunks| - from
  {
    if from < |ts.chunks| {
      NothingDeletedAllVisible(ts, from + 1);
      assert ChunkView(ts, from) == ts.chunks[from];
      assert ts.chunks[from..] == [ts.chunks[from]] + ts.chunks[from + 1..];
    }
  }

  /**
   * ScanTableStorage as written stops at the first chunk that has no row left to hand on,
   * taking it for the end of the scan: these are the chunks it hands on.
   */
  function ChunksUntilEmpty(ts: TableStorage, from: nat): (r: seq<seq<Row>>)
    requires Scannable(ts)
    ensures forall k :: 0 <= k < |r| ==> r[k] != []
    decreases |ts.chunks| - from
  {
    if from >= |ts.chunks| || ChunkView(ts, from) == [] then []
    else [ChunkView(ts, from)] + ChunksUntilEmpty(ts, from + 1)
  }

  /**
   * When a transaction has deleted every row of its first local chunk, ScanTableStorage as
   * written hands on nothing, while the rows of the second chunk are still there: CheckCommit
   * does not check them and Commit does not commit them.
   */
  lemma FirstChunkDeletedHidesTheRest(ts: TableStorage)
    requires Scannable(ts) && |ts.chunks| == 2 && 1 !in ts.deleted
    requires 0 in ts.deleted && forall p :: 0 <= p < |ts.chunks[0]| ==> ts.deleted[0][p]
    ensures ChunksUntilEmpty(ts, 0) == []
    ensures VisibleRows(ts) == ts.chunks[1] != []
  {
    var n := |ts.chunks[0]|;
    AllDeletedNoneSelected(ts.deleted[0], n);
    assert ChunkView(ts, 0) == [];
    assert ChunkView(ts, 1) == ts.chunks[1];
    assert VisibleChunks(ts, 2) == [];
    assert VisibleChunks(ts, 1) == [ts.chunks[1]];
    assert VisibleChunks(ts, 0) == [ts.chunks[1]];
    FlattenOne(ts.chunks[1]);
  }

  /**
   * A table's first append that its unique index rejects, here two rows with the same key,
   * leaves behind the storage Append made for it, with no chunks. CheckCommit and Commit
   * scan every storage, and LocalTableStorage::InitializeScan as written reads the last of
   * its chunks, which a storage with no chunks does not have; read as intended, such a
   * storage has no rows to check or commit.
   */
  lemma RejectedFirstAppendLeavesNoChunks(table: DataTable)
    requires table.indexes == [Index([0], true, multiset{})]
    ensures !AcceptedBy(NewStorage(table).indexes, [[1], [1]])
    ensures NewStorage(table).chunks == [] && VisibleRows(NewStorage(table)) == []
  {
    var indexes := NewStorage(table).indexes;
    assert table.indexes[1..] == [];
    assert indexes == [Index([0], true, multiset{})];
    DuplicateKeyRejected(indexes, [[1], [1]], 0, 0, 1);
  }

  /** One step of a scan of a whole storage: chunk c, when it has a row left, then the rest. */
  lemma VisibleStep(ts: TableStorage, c: nat, chunk: seq<Row>)
    requires Scannable(ts) && c < |ts.chunks| && chunk == ChunkView(ts, c) != []
    ensures VisibleChunks(ts, c) == [chunk] + VisibleChunks(ts, c + 1)
  {
  }

  /** A chunk with no row left is passed over. */
  lemma PassOver(ts: TableStorage, c: nat)
    requires Scannable(ts) && c < |ts.chunks| && ChunkView(ts, c) == []
    ensures VisibleChunks(ts, c) == VisibleChunks(ts, c + 1)
  {
  }

  lemma UntilEmptyStep(ts: TableStorage, c: nat, chunk: seq<Row>)
    requires Scannable(ts) && c < |ts.chunks| && chunk == ChunkView(ts, c) != []
    ensures ChunksUntilEmpty(ts, c) == [chunk] + ChunksUntilEmpty(ts, c + 1)
  {
  }

  /** One step of ScanTableStorage: a chunk with rows left joins those already handed on. */
  lemma ScanStep(ts: TableStorage, c: nat, chunks: seq<seq<Row>>, chunk: seq<Row>)
    requires Scannable(ts) && c < |ts.chunks| && chunk == ChunkView(ts, c)
    requires chunks + VisibleChunks(ts, c) == VisibleChunks(ts, 0)
    ensures (if chunk != [] then chunks + [chunk] else chunks) + VisibleChunks(ts, c + 1) == VisibleChunks(ts, 0)
  {
    if chunk != [] {
      VisibleStep(ts, c, chunk);
      MoveOn(chunks, [chunk], VisibleChunks(ts, c + 1));
    } else {
      PassOver(ts, c);
    }
  }

  lemma MoveOn(done: seq<seq<Row>>, next: seq<seq<Row>>, rest: seq<seq<Row>>)
    ensures done + next + rest == done + (next + rest)
  {
  }

  /** What a scan of every column returns for a chunk it reads whole. */
  lemma ScanWholeChunk(ts: TableStorage, c: nat, width: nat, count: nat, chunk: seq<Row>)
    requires StorageValid(ts, width) && c < |ts.chunks| && count == |ts.chunks[c]|
    requires chunk == ScanOutput(ts, c, count, AllColumns(width))
    ensures chunk == ChunkView(ts, c)
  {
    ScanAllColumns(ts, c, width);
  }

  //===--------------------------------------------------------------------===//
  // Appending, deleting and updating local rows
  //===--------------------------------------------------------------------===//

  const DUPLICATE_KEY := "PRIMARY KEY or UNIQUE constraint violated: duplicated key"
  const UNSUPPORTED_UPDATE := "Unsupported type for in-place update"

  /**
   * The index loop of LocalStorage::Append as written: each local index takes the keys of the
   * chunk in turn, and the loop stops at the first index that rejects them, leaving their keys
   * in the indexes before it. Returns the index contents it leaves and whether all accepted.
   */
  function IndexLoopAsWritten(indexes: seq<Index>, chunk: seq<Row>): (r: (seq<Index>, bool))
    ensures |r.0| == |indexes|
  {
    if indexes == [] then ([], true)
    else
      var added := Keys(chunk, indexes[0].columns);
      if !Accepts(indexes[0].keys, added) then (indexes, false)
      else
        var rest := IndexLoopAsWritten(indexes[1..], chunk);
        ([indexes[0].(keys := indexes[0].keys + added)] + rest.0, rest.1)
  }

  /**
   * Over unique indexes the loop as written decides as the corrected Append does, and when
   * all accept it leaves the same indexes; it differs only in what a rejection leaves.
   */
  lemma {:induction false} IndexLoopDecides(indexes: seq<Index>, chunk: seq<Row>)
    requires forall j :: 0 <= j < |indexes| ==> indexes[j].unique
    ensures IndexLoopAsWritten(indexes, chunk).1 == AcceptedBy(indexes, chunk)
    ensures IndexLoopAsWritten(indexes, chunk).1 ==> IndexLoopAsWritten(indexes, chunk).0 == WithKeys(indexes, chunk)
  {
    if indexes != [] {
      IndexLoopDecides(indexes[1..], chunk);
      AcceptedByFirst(indexes, chunk);
      WithKeysFirst(indexes, chunk);
    }
  }

  lemma AcceptedByFirst(indexes: seq<Index>, chunk: seq<Row>)
    requires indexes != [] && indexes[0].unique
    ensures AcceptedBy(indexes, chunk) <==>
      Accepts(indexes[0].keys, Keys(chunk, indexes[0].columns)) && AcceptedBy(indexes[1..], chunk)
  {
    if Accepts(indexes[0].keys, Keys(chunk, indexes[0].columns)) && AcceptedBy(indexes[1..], chunk) {
      forall j | 0 < j < |indexes| && indexes[j].unique
        ensures Accepts(indexes[j].keys, Keys(chunk, indexes[j].columns))
      {
        assert indexes[j] == indexes[1..][j - 1];
      }
    }
  }

  lemma WithKeysFirst(indexes: seq<Index>, chunk: seq<Row>)
    requires indexes != []
    ensures WithKeys(indexes, chunk) ==
      [indexes[0].(keys := indexes[0].keys + Keys(chunk, indexes[0].columns))] + WithKeys(indexes[1..], chunk)
  {
  }

  /** The index loop as written over two indexes. */
  lemma IndexLoopTwo(indexes: seq<Index>, chunk: seq<Row>)
    requires |indexes| == 2
    ensures var a0 := Keys(chunk, indexes[0].columns);
      var a1 := Keys(chunk, indexes[1].columns);
      var first := indexes[0].(keys := indexes[0].keys + a0);
      IndexLoopAsWritten(indexes, chunk) ==
        if !Accepts(indexes[0].keys, a0) then (indexes, false)
        else if !Accepts(indexes[1].keys, a1) then ([first, indexes[1]], false)
        else ([first, indexes[1].(keys := indexes[1].keys + a1)], true)
  {
    var a0 := Keys(chunk, indexes[0].columns);
    if Accepts(indexes[0].keys, a0) {
      var rest := indexes[1..];
      var a1 := Keys(chunk, indexes[1].columns);
      var second := indexes[1].(keys := indexes[1].keys + a1);
      var inner := IndexLoopAsWritten(rest, chunk);
      assert rest[0] == indexes[1] && rest[1..] == [];
      assert IndexLoopAsWritten(rest[1..], chunk) == ([], true);
      assert [second] + [] == [second];
      assert inner == if Accepts(indexes[1].keys, a1) then ([second], true) else (rest, false);
      assert rest == [indexes[1]];
      var first := indexes[0].(keys := indexes[0].keys + a0);
      assert IndexLoopAsWritten(indexes, chunk) == ([first] + inner.0, inner.1);
      if Accepts(indexes[1].keys, a1) {
        assert [first] + inner.0 == [first, second];
      } else {
        assert [first] + inner.0 == [first, indexes[1]];
      }
    }
  }

  /**
   * With unique indexes on columns 0 and 1 of a table whose local rows are (1, 1), appending
   * (2, 1) is rejected by the second index but leaves key 2 in the first, so that appending
   * (2, 5) next is rejected as well, though no local row has 2 in column 0; had the rejected
   * chunk left nothing behind, (2, 5) would be accepted.
   */
  lemma RejectedChunkLeavesKeysBehind()
    ensures var indexes := [Index([0], true, multiset{[1]}), Index([1], true, multiset{[1]})];
      var rejected := IndexLoopAsWritten(indexes, [[2, 1]]);
      !rejected.1 &&
      rejected.0 == [Index([0], true, multiset{[1]} + multiset{[2]}), Index([1], true, multiset{[1]})] &&
      !IndexLoopAsWritten(rejected.0, [[2, 5]]).1 &&
      IndexLoopAsWritten(indexes, [[2, 5]]).1
  {
    var indexes := [Index([0], true, multiset{[1]}), Index([1], true, multiset{[1]})];
    KeysOne([2, 1], [0]);
    KeysOne([2, 1], [1]);
    KeysOne([2, 5], [0]);
    KeysOne([2, 5], [1]);
    assert KeyOf([2, 1], [0]) == [2];
    assert KeyOf([2, 1], [1]) == [1];
    assert KeyOf([2, 5], [0]) == [2];
    assert KeyOf([2, 5], [1]) == [5];
    IndexLoopTwo(indexes, [[2, 1]]);
    assert !Accepts(multiset{[1]}, multiset{[1]});
    var rejected := IndexLoopAsWritten(indexes, [[2, 1]]);
    IndexLoopTwo(rejected.0, [[2, 5]]);
    assert !Accepts(multiset{[1]} + multiset{[2]}, multiset{[2]});
    IndexLoopTwo(indexes, [[2, 5]]);
  }

  /**
   * The appended rows land at the end of the collection: the row ids MAX_ROW_ID + count,
   * MAX_ROW_ID + count + 1, ... (count the rows the collection held before) name them in order.
   */
  lemma AppendedRowIds(chunks: seq<seq<Row>>, rows: seq<Row>, k: nat)
    requires Packed(chunks) && |rows| <= STANDARD_VECTOR_SIZE && k < |rows|
    ensures RowAt(CollectionAppend(chunks, rows), MAX_ROW_ID + |Flatten(chunks)| + k) == Some(rows[k])
  {
    CollectionAppendPacked(chunks, rows);
    RowAtEnd(chunks, CollectionAppend(chunks, rows), rows, k);
  }

  lemma RowAtEnd(chunks: seq<seq<Row>>, after: seq<seq<Row>>, rows: seq<Row>, k: nat)
    requires Packed(after) && Flatten(after) == Flatten(chunks) + rows && k < |rows|
    ensures RowAt(after, MAX_ROW_ID + |Flatten(chunks)| + k) == Some(rows[k])
  {
    RowAtPosition(after, |Flatten(chunks)| + k);
  }

  /** Every row of the collection has `width` values. */
  predicate Uniform(chunks: seq<seq<Row>>, width: nat)
  {
    forall c, p :: 0 <= c < |chunks| && 0 <= p < |chunks[c]| ==> |chunks[c][p]| == width
  }

  lemma CollectionAppendUniform(chunks: seq<seq<Row>>, rows: seq<Row>, width: nat)
    requires Uniform(chunks, width) && |rows| <= STANDARD_VECTOR_SIZE
    requires forall k :: 0 <= k < |rows| ==> |rows[k]| == width
    ensures Uniform(CollectionAppend(chunks, rows), width)
  {
    var r := CollectionAppend(chunks, rows);
    if rows != [] && chunks != [] && |chunks[|chunks| - 1]| < STANDARD_VECTOR_SIZE {
      var n := |chunks| - 1;
      forall c, p | 0 <= c < |r| && 0 <= p < |r[c]| ensures |r[c][p]| == width {
        if c < n {
          assert r[c] == chunks[c];
        } else if c == n {
          assert r[c] == chunks[n] + r[c][|chunks[n]|..];
        }
      }
    }
  }

  /** The deleted flags of chunk c: its vector, or all clear when it has none yet. */
  function FlagsOf(ts: TableStorage, c: nat): seq<bool>
  {
    if c in ts.deleted then ts.deleted[c] else seq(STANDARD_VECTOR_SIZE, _ => false)
  }

  /** GetChunk: the chunk that the first row id names. */
  function GetChunk(rowIds: seq<int>): (c: nat)
    requires |rowIds| > 0 && rowIds[0] >= MAX_ROW_ID
    ensures c * STANDARD_VECTOR_SIZE <= rowIds[0] - MAX_ROW_ID < (c + 1) * STANDARD_VECTOR_SIZE
  {
    (rowIds[0] - MAX_ROW_ID) / STANDARD_VECTOR_SIZE
  }

  /** Every row id names a row of chunk c (the assertion GetChunk makes in debug builds). */
  predicate InChunk(rowIds: seq<int>, c: nat)
  {
    forall i :: 0 <= i < |rowIds| ==>
      MAX_ROW_ID + c * STANDARD_VECTOR_SIZE <= rowIds[i] < MAX_ROW_ID + (c + 1) * STANDARD_VECTOR_SIZE
  }

  /** The positions in chunk c that the row ids name. */
  function Offsets(rowIds: seq<int>, c: nat): (o: seq<int>)
    ensures |o| == |rowIds|
    ensures InChunk(rowIds, c) ==> forall i :: 0 <= i < |o| ==> 0 <= o[i] < STANDARD_VECTOR_SIZE
  {
    seq(|rowIds|, i requires 0 <= i < |rowIds| => rowIds[i] - (MAX_ROW_ID + c * STANDARD_VECTOR_SIZE))
  }

  /** The flags with the given positions set as well. */
  function Marked(flags: seq<bool>, positions: seq<int>): (r: seq<bool>)
    ensures |r| == |flags|
  {
    seq(|flags|, p requires 0 <= p < |flags| => flags[p] || p in positions)
  }

  /** Deleting the same rows twice is deleting them once. */
  lemma MarkTwice(flags: seq<bool>, positions: seq<int>)
    ensures Marked(Marked(flags, positions), positions) == Marked(flags, positions)
  {
  }

  /**
   * After a Delete of chunk c, a scan of that chunk passes over the deleted positions and
   * delivers the other positions exactly when it did before.
   */
  lemma DeletedRowsAreNotScanned(ts: TableStorage, c: nat, positions: seq<int>, count: nat)
    requires count <= STANDARD_VECTOR_SIZE && |FlagsOf(ts, c)| == STANDARD_VECTOR_SIZE
    ensures var after := ts.(deleted := ts.deleted[c := Marked(FlagsOf(ts, c), positions)]);
      forall p: nat :: p in Selection(after, c, count) <==>
        p in Selection(ts, c, count) && p !in positions
  {
    var after := ts.(deleted := ts.deleted[c := Marked(FlagsOf(ts, c), positions)]);
    SelectionIsUndeleted(ts, c, count);
    SelectionIsUndeleted(after, c, count);
  }

  /** The in-place update handles the numeric types; the others throw. */
  predicate InPlaceType(t: TypeId)
  {
    t == TINYINT || t == SMALLINT || t == INTEGER || t == BIGINT || t == FLOAT || t == DOUBLE
  }

  /** The first of the columns, from `from` on, whose type cannot be updated in place, or |columnIds|. */
  function FirstNotInPlace(types: seq<TypeId>, columnIds: seq<nat>, from: nat): (k: nat)
    requires from <= |columnIds| && forall i :: 0 <= i < |columnIds| ==> columnIds[i] < |types|
    ensures from <= k <= |columnIds|
    ensures forall i :: from <= i < k ==> InPlaceType(types[columnIds[i]])
    ensures k < |columnIds| ==> !InPlaceType(types[columnIds[k]])
    decreases |columnIds| - from
  {
    if from == |columnIds| || !InPlaceType(types[columnIds[from]]) then from
    else FirstNotInPlace(types, columnIds, from + 1)
  }

  /** Positions of `rows` whose rows have a column `col`. */
  predicate Writable(rows: seq<Row>, col: nat, positions: seq<int>)
  {
    forall i :: 0 <= i < |positions| ==> 0 <= positions[i] < |rows| && col < |rows[positions[i]]|
  }

  /** update_data: values[i] goes into column `col` of the row at positions[i], one after another. */
  function WriteColumn(rows: seq<Row>, col: nat, positions: seq<int>, values: seq<Value>): (r: seq<Row>)
    requires |positions| == |values| && Writable(rows, col, positions)
    ensures |r| == |rows| && forall p :: 0 <= p < |rows| ==> |r[p]| == |rows[p]|
    decreases |positions|
  {
    if positions == [] then rows
    else
      var n := |positions| - 1;
      var r := WriteColumn(rows, col, positions[..n], values[..n]);
      r[positions[n] := r[positions[n]][col := values[n]]]
  }

  /** update_data leaves the rows it does not list unchanged. */
  lemma {:induction false} WriteColumnUnlisted(rows: seq<Row>, col: nat, positions: seq<int>, values: seq<Value>, p: int)
    requires |positions| == |values| && Writable(rows, col, positions)
    requires 0 <= p < |rows| && p !in positions
    ensures WriteColumn(rows, col, positions, values)[p] == rows[p]
    decreases |positions|
  {
    if positions != [] {
      var n := |positions| - 1;
      assert p !in positions[..n];
      WriteColumnUnlisted(rows, col, positions[..n], values[..n], p);
    }
  }

  /** update_data changes no other column. */
  lemma {:induction false} WriteColumnOthers(rows: seq<Row>, col: nat, positions: seq<int>, values: seq<Value>, p: nat, q: nat)
    requires |positions| == |values| && Writable(rows, col, positions)
    requires p < |rows| && q < |rows[p]| && q != col
    ensures WriteColumn(rows, col, positions, values)[p][q] == rows[p][q]
    decreases |positions|
  {
    if positions != [] {
      var n := |positions| - 1;
      WriteColumnOthers(rows, col, positions[..n], values[..n], p, q);
    }
  }

  /** When no row is listed twice, every listed row holds its new value afterwards. */
  lemma {:induction false} WriteColumnListed(rows: seq<Row>, col: nat, positions: seq<int>, values: seq<Value>, i: nat)
    requires |positions| == |values| && Writable(rows, col, positions) && i < |positions|
    requires forall a, b :: 0 <= a < b < |positions| ==> positions[a] != positions[b]
    ensures WriteColumn(rows, col, positions, values)[positions[i]][col] == values[i]
    decreases |positions|
  {
    var n := |positions| - 1;
    if i < n {
      WriteColumnListed(rows, col, positions[..n], values[..n], i);
    }
  }

  /** update_chunk for each column in turn: column columnIds[k] takes the values data[k]. */
  function WriteColumns(rows: seq<Row>, columnIds: seq<nat>, data: seq<seq<Value>>, positions: seq<int>, width: nat): (r: seq<Row>)
    requires |data| == |columnIds| && forall k :: 0 <= k < |data| ==> |data[k]| == |positions|
    requires forall k :: 0 <= k < |columnIds| ==> columnIds[k] < width
    requires forall p :: 0 <= p < |rows| ==> |rows[p]| == width
    requires forall i :: 0 <= i < |positions| ==> 0 <= positions[i] < |rows|
    ensures |r| == |rows| && forall p :: 0 <= p < |rows| ==> |r[p]| == width
    decreases |columnIds|
  {
    if columnIds == [] then rows
    else
      var n := |columnIds| - 1;
      var r := WriteColumns(rows, columnIds[..n], data[..n], positions, width);
      WriteColumn(r, columnIds[n], positions, data[n])
  }

  /** Every table's storage is valid for the table's width. */
  predicate AllValid(storage: map<DataTable, TableStorage>)
  {
    forall t :: t in storage ==> StorageValid(storage[t], |t.types|)
  }

  lemma AllValidUpdate(storage: map<DataTable, TableStorage>, table: DataTable, ts: TableStorage)
    requires AllValid(storage) && StorageValid(ts, |table.types|)
    ensures AllValid(storage[table := ts])
  {
  }

  /** Appending a chunk of rows of the table's width keeps a storage valid. */
  lemma AppendValid(ts: TableStorage, chunk: seq<Row>, width: nat)
    requires StorageValid(ts, width) && |chunk| <= STANDARD_VECTOR_SIZE
    requires forall k :: 0 <= k < |chunk| ==> |chunk[k]| == width
    ensures StorageValid(ts.(chunks := CollectionAppend(ts.chunks, chunk), indexes := WithKeys(ts.indexes, chunk)), width)
  {
    CollectionAppendPacked(ts.chunks, chunk);
    CollectionAppendUniform(ts.chunks, chunk, width);
  }

  /** A deleted-flag vector of STANDARD_VECTOR_SIZE flags keeps a storage valid. */
  lemma FlagsValid(ts: TableStorage, c: nat, flags: seq<bool>, width: nat)
    requires StorageValid(ts, width) && |flags| == STANDARD_VECTOR_SIZE
    ensures StorageValid(ts.(deleted := ts.deleted[c := flags]), width)
  {
  }

  /** Rewriting a chunk with as many rows of the same width keeps a storage valid. */
  lemma RewriteValid(ts: TableStorage, c: nat, rows: seq<Row>, width: nat)
    requires StorageValid(ts, width) && c < |ts.chunks| && |rows| == |ts.chunks[c]|
    requires forall p :: 0 <= p < |rows| ==> |rows[p]| == width
    ensures StorageValid(ts.(chunks := ts.chunks[c := rows]), width)
  {
    var after := ts.(chunks := ts.chunks[c := rows]);
    assert forall k :: 0 <= k < |after.chunks| ==> |after.chunks[k]| == |ts.chunks[k]|;
  }

  /** Marking one more position is marking the longer list. */
  lemma MarkOneMore(flags: seq<bool>, positions: seq<int>, i: nat)
    requires i < |positions| && 0 <= positions[i] < |flags|
    ensures Marked(flags, positions[..i + 1]) == Marked(flags, positions[..i])[positions[i] := true]
  {
    assert positions[..i + 1] == positions[..i] + [positions[i]];
  }

  //===--------------------------------------------------------------------===//
  // Commit
  //===--------------------------------------------------------------------===//

  /** The rows of the first k + 1 chunks: those of the first k, then chunk k. */
  lemma FlattenPrefixStep(chunks: seq<seq<Row>>, k: nat)
    requires k < |chunks|
    ensures Flatten(chunks[..k + 1]) == Flatten(chunks[..k]) + chunks[k]
  {
    assert chunks[..k + 1][..k] == chunks[..k];
  }

  /** Of two prefixes of a collection without empty chunks, the shorter holds fewer rows. */
  lemma {:induction false} PrefixFewerRows(chunks: seq<seq<Row>>, e: nat, d: nat)
    requires e < d <= |chunks| && forall k :: 0 <= k < |chunks| ==> chunks[k] != []
    ensures |Flatten(chunks[..e])| < |Flatten(chunks[..d])|
    decreases d - e
  {
    FlattenPrefixStep(chunks, d - 1);
    if e < d - 1 {
      PrefixFewerRows(chunks, e, d - 1);
    }
  }

  /** A scan of a whole storage only looks at its chunks and deleted flags. */
  lemma {:induction false} VisibleSame(a: TableStorage, b: TableStorage, from: nat)
    requires Scannable(a) && a.chunks == b.chunks && a.deleted == b.deleted
    ensures Scannable(b) && VisibleChunks(a, from) == VisibleChunks(b, from)
    decreases |a.chunks| - from
  {
    if from < |a.chunks| {
      VisibleSame(a, b, from + 1);
      ChunkViewSame(a, b, from);
    }
  }

  /** A chunk's view only looks at its chunks and deleted flags. */
  lemma ChunkViewSame(a: TableStorage, b: TableStorage, c: nat)
    requires Scannable(a) && a.chunks == b.chunks && a.deleted == b.deleted && c < |a.chunks|
    ensures ChunkView(a, c) == ChunkView(b, c)
  {
    assert Selection(a, c, |a.chunks[c]|) == Selection(b, c, |b.chunks[c]|);
  }

  /** `order` lists every table with local storage once: the order the map is walked in. */
  predicate Lists(order: seq<DataTable>, storage: map<DataTable, TableStorage>)
  {
    (forall t :: t in storage ==> t in order) &&
    (forall i :: 0 <= i < |order| ==> order[i] in storage) &&
    forall i, j :: 0 <= i < j < |order| ==> order[i] != order[j]
  }

  /** An Insert record per chunk. */
  function Inserts(chunks: seq<seq<Row>>): (records: seq<LogRecord>)
    ensures |records| == |chunks| && forall k :: 0 <= k < |chunks| ==> records[k] == Insert(chunks[k])
    decreases |chunks|
  {
    if chunks == [] then [] else Inserts(chunks[..|chunks| - 1]) + [Insert(chunks[|chunks| - 1])]
  }

  /**
   * What Commit writes to the log for the tables in `order`: for each table that is not
   * temporary, a SetTable record and then an Insert record per chunk the scan hands on.
   */
  function CommitRecords(order: seq<DataTable>, storage: map<DataTable, TableStorage>): seq<LogRecord>
    requires forall t :: t in order ==> t in storage && Scannable(storage[t])
  {
    if order == [] then []
    else
      var t := order[|order| - 1];
      CommitRecords(order[..|order| - 1], storage) + TableRecords(t, storage[t])
  }

  /** What Commit writes to the log for one table: nothing when it is temporary, else a SetTable and its Inserts. */
  function TableRecords(t: DataTable, ts: TableStorage): seq<LogRecord>
    requires Scannable(ts)
  {
    if t.temporary then [] else [SetTable(t.schema, t.name)] + Inserts(VisibleChunks(ts, 0))
  }

  lemma CommitRecordsAll(order: seq<DataTable>, storage: map<DataTable, TableStorage>)
    requires forall t :: t in order ==> t in storage && Scannable(storage[t])
    ensures CommitRecords(order[..|order|], storage) == CommitRecords(order, storage)
  {
    assert order[..|order|] == order;
  }

  lemma Associates(a: seq<LogRecord>, b: seq<LogRecord>, c: seq<LogRecord>)
    ensures (a + b) + c == a + (b + c)
  {
  }

  /** The records of the first i + 1 tables are those of the first i and then those of table i. */
  lemma CommitRecordsStep(order: seq<DataTable>, i: nat, storage: map<DataTable, TableStorage>)
    requires i < |order| && forall t :: t in order ==> t in storage && Scannable(storage[t])
    ensures CommitRecords(order[..i + 1], storage) == CommitRecords(order[..i], storage) + TableRecords(order[i], storage[order[i]])
  {
    assert order[..i + 1][..i] == order[..i];
  }

  /** The rows the Insert records carry, one record after the other. */
  function InsertedRows(records: seq<LogRecord>): seq<Row>
  {
    if records == [] then []
    else
      var r := records[|records| - 1];
      InsertedRows(records[..|records| - 1]) + (if r.Insert? then r.rows else [])
  }

  /**
   * The Insert records Commit writes for a table carry exactly the rows it appends to the
   * table, so replaying the log appends the same rows.
   */
  lemma {:induction false} InsertsCarryTheRows(chunks: seq<seq<Row>>)
    ensures InsertedRows(Inserts(chunks)) == Flatten(chunks)
    decreases |chunks|
  {
    if chunks != [] {
      var n := |chunks| - 1;
      InsertsCarryTheRows(chunks[..n]);
    }
  }

  /**
   * The state CheckCommit leaves a table in once it has looked at it: the indexes hold the
   * keys of the first d chunks the scan handed on, the append state starts at the table's
   * row count and, when the table has indexes, max_row is the row reached.
   */
  ghost predicate Checked(indexes: seq<Index>, before: TableStorage, after: TableStorage,
                          held: seq<Index>, rowStart: nat, d: nat)
  {
    Scannable(before) &&
    var chunks := VisibleChunks(before, 0);
    d <= |chunks| && indexes == WithKeys(held, Flatten(chunks[..d])) &&
    after == before.(appendStart := Some(rowStart),
                     maxRow := if held == [] then before.maxRow else rowStart + |Flatten(chunks[..d])|)
  }

  /** Whether every unique index among `held` accepts the rows a scan of `ts` hands on. */
  ghost predicate AcceptsScan(held: seq<Index>, ts: TableStorage)
  {
    Scannable(ts) && AcceptedBy(held, VisibleRows(ts))
  }

  /** Whether d is the number of chunks a scan of `ts` hands on. */
  ghost predicate WholeScan(ts: TableStorage, d: nat)
  {
    Scannable(ts) && d == |VisibleChunks(ts, 0)|
  }

  /**
   * What the rollback of CheckCommit finds in a table: the scan it starts from, not yet
   * appended anywhere, and the table either checked or not reached.
   */
  ghost predicate RollBackReady(indexes: seq<Index>, before: TableStorage, after: TableStorage,
                                held: seq<Index>, rowStart: nat, d: nat, width: nat)
  {
    StorageValid(after, width) && Scannable(before) && before.maxRow == 0 &&
    (Checked(indexes, before, after, held, rowStart, d) || (indexes == held && after == before))
  }


  /** Every storage of `storage` with its append state dropped. */
  function Reset(storage: map<DataTable, TableStorage>): (reset: map<DataTable, TableStorage>)
    ensures reset.Keys == storage.Keys
    ensures forall t :: t in storage ==> reset[t].appendStart == None
  {
    map t | t in storage :: storage[t].(appendStart := None)
  }

  /** `storage` with states[k] put in for the k-th table of `order`, one after the other. */
  function Applied(storage: map<DataTable, TableStorage>, order: seq<DataTable>, states: seq<TableStorage>)
    : map<DataTable, TableStorage>
    requires |states| <= |order|
    decreases |states|
  {
    if states == [] then storage
    else Applied(storage, order, states[..|states| - 1])[order[|states| - 1] := states[|states| - 1]]
  }

  lemma {:induction false} AppliedUntouched(storage: map<DataTable, TableStorage>, order: seq<DataTable>,
                                            states: seq<TableStorage>, t: DataTable)
    requires |states| <= |order| && forall k :: 0 <= k < |states| ==> order[k] != t
    ensures t in Applied(storage, order, states) <==> t in storage
    ensures t in storage ==> Applied(storage, order, states)[t] == storage[t]
    decreases |states|
  {
    if states != [] {
      AppliedUntouched(storage, order, states[..|states| - 1], t);
    }
  }

  lemma {:induction false} AppliedAt(storage: map<DataTable, TableStorage>, order: seq<DataTable>,
                                     states: seq<TableStorage>, k: nat)
    requires k < |states| <= |order| && forall i, j :: 0 <= i < j < |order| ==> order[i] != order[j]
    ensures order[k] in Applied(storage, order, states) && Applied(storage, order, states)[order[k]] == states[k]
    decreases |states|
  {
    var n := |states| - 1;
    if k < n {
      AppliedAt(storage, order, states[..n], k);
    }
  }

  lemma {:induction false} AppliedKeys(storage: map<DataTable, TableStorage>, order: seq<DataTable>, states: seq<TableStorage>)
    requires |states| <= |order| && forall k :: 0 <= k < |states| ==> order[k] in storage
    ensures Applied(storage, order, states).Keys == storage.Keys
    decreases |states|
  {
    if states != [] {
      AppliedKeys(storage, order, states[..|states| - 1]);
    }
  }

  /**
   * How far the first loop of CheckCommit got: the first |checked| tables of `order` were
   * checked, their indexes now holding indexes[k]; while `success` every one of them took
   * all its rows, otherwise the last one rejected them.
   */
  ghost predicate Progress(order: seq<DataTable>, before: map<DataTable, TableStorage>, held: map<DataTable, seq<Index>>,
                           rowCount: map<DataTable, nat>, indexes: seq<seq<Index>>, checked: seq<TableStorage>,
                           appended: seq<nat>, success: bool)
  {
    |indexes| == |checked| == |appended| <= |order| &&
    (forall k :: 0 <= k < |order| ==> order[k] in before && order[k] in held && order[k] in rowCount) &&
    (forall k {:trigger Checked(indexes[k], before[order[k]], checked[k], held[order[k]], rowCount[order[k]], appended[k])} ::
      0 <= k < |checked| ==> Checked(indexes[k], before[order[k]], checked[k], held[order[k]], rowCount[order[k]], appended[k])) &&
    (success ==> forall k {:trigger AcceptsScan(held[order[k]], before[order[k]])} ::
      0 <= k < |checked| ==> AcceptsScan(held[order[k]], before[order[k]]) && WholeScan(before[order[k]], appended[k])) &&
    (!success ==> 0 < |checked| && !AcceptsScan(held[order[|checked| - 1]], before[order[|checked| - 1]]))
  }

  /** One more table checked. */
  lemma ProgressStep(order: seq<DataTable>, before: map<DataTable, TableStorage>, held: map<DataTable, seq<Index>>,
                     rowCount: map<DataTable, nat>, indexes: seq<seq<Index>>, checked: seq<TableStorage>,
                     appended: seq<nat>, x: seq<Index>, c: TableStorage, d: nat, ok: bool)
    requires Progress(order, before, held, rowCount, indexes, checked, appended, true) && |checked| < |order|
    requires var t := order[|checked|];
      Checked(x, before[t], c, held[t], rowCount[t], d) && ok == AcceptsScan(held[t], before[t]) &&
      (ok ==> WholeScan(before[t], d))
    ensures Progress(order, before, held, rowCount, indexes + [x], checked + [c], appended + [d], ok)
  {
    var i := |checked|;
    forall k | 0 <= k < i + 1
      ensures Checked((indexes + [x])[k], before[order[k]], (checked + [c])[k], held[order[k]], rowCount[order[k]], (appended + [d])[k])
      ensures ok ==> AcceptsScan(held[order[k]], before[order[k]]) && WholeScan(before[order[k]], (appended + [d])[k])
    {
      if k < i {
        assert Checked(indexes[k], before[order[k]], checked[k], held[order[k]], rowCount[order[k]], appended[k]);
        assert AcceptsScan(held[order[k]], before[order[k]]);
      }
    }
  }

  /** The number of chunks the k-th table had appended, none when the loop never reached it. */
  function Done(appended: seq<nat>, k: nat): nat
  {
    if k < |appended| then appended[k] else 0
  }

  /** Putting in the states the check left keeps every storage valid. */
  lemma AppliedValid(order: seq<DataTable>, before: map<DataTable, TableStorage>, held: map<DataTable, seq<Index>>,
                     rowCount: map<DataTable, nat>, indexes: seq<seq<Index>>, checked: seq<TableStorage>,
                     appended: seq<nat>, success: bool)
    requires AllValid(before) && Lists(order, before)
    requires Progress(order, before, held, rowCount, indexes, checked, appended, success)
    ensures Applied(before, order, checked).Keys == before.Keys && AllValid(Applied(before, order, checked))
  {
    AppliedKeys(before, order, checked);
    var after := Applied(before, order, checked);
    forall t | t in after
      ensures StorageValid(after[t], |t.types|)
    {
      var k :| 0 <= k < |order| && order[k] == t;
      if k < |checked| {
        AppliedAt(before, order, checked, k);
        assert Checked(indexes[k], before[order[k]], checked[k], held[order[k]], rowCount[order[k]], appended[k]);
      } else {
        AppliedUntouched(before, order, checked, t);
      }
    }
  }

  /** Every unique index of every table in `order` accepts the rows a scan of the table hands on. */
  ghost predicate AllAccepted(order: seq<DataTable>, before: map<DataTable, TableStorage>, held: map<DataTable, seq<Index>>)
  {
    forall k :: 0 <= k < |order| ==> order[k] in before && order[k] in held && AcceptsScan(held[order[k]], before[order[k]])
  }

  /**
   * The state a passed check leaves: each table's indexes hold the keys of its visible rows,
   * its appends start after its `rowCount` rows, and a table with indexes has its max row set.
   */
  ghost predicate Committed(order: seq<DataTable>, before: map<DataTable, TableStorage>, held: map<DataTable, seq<Index>>,
                            rowCount: map<DataTable, nat>, after: map<DataTable, TableStorage>,
                            heldAfter: map<DataTable, seq<Index>>)
  {
    forall k :: 0 <= k < |order| ==>
      var t := order[k];
      t in before && t in held && t in rowCount && t in after && t in heldAfter && Scannable(before[t]) &&
      heldAfter[t] == WithKeys(held[t], VisibleRows(before[t])) &&
      after[t] == before[t].(appendStart := Some(rowCount[t]),
        maxRow := if held[t] == [] then before[t].maxRow else rowCount[t] + |VisibleRows(before[t])|)
  }

  /** The storages a failed check leaves: as they were but for max row, and without an append state. */
  ghost predicate RolledBack(order: seq<DataTable>, before: map<DataTable, TableStorage>, after: map<DataTable, TableStorage>)
  {
    forall k :: 0 <= k < |order| ==>
      var t := order[k];
      t in before && t in after && after[t] == before[t].(appendStart := None, maxRow := after[t].maxRow)
  }

  /** When every table passed, every index accepted and each table holds its keys and its new append state. */
  lemma CheckedAll(order: seq<DataTable>, before: map<DataTable, TableStorage>, held: map<DataTable, seq<Index>>,
                   rowCount: map<DataTable, nat>, indexes: seq<seq<Index>>, checked: seq<TableStorage>, appended: seq<nat>,
                   heldAfter: map<DataTable, seq<Index>>)
    requires AllValid(before) && Lists(order, before)
    requires Progress(order, before, held, rowCount, indexes, checked, appended, true) && |checked| == |order|
    requires forall k :: 0 <= k < |order| ==> order[k] in heldAfter && heldAfter[order[k]] == indexes[k]
    ensures AllAccepted(order, before, held)
    ensures Committed(order, before, held, rowCount, Applied(before, order, checked), heldAfter)
  {
    AppliedKeys(before, order, checked);
    forall k | 0 <= k < |order|
      ensures AcceptsScan(held[order[k]], before[order[k]])
      ensures heldAfter[order[k]] == WithKeys(held[order[k]], VisibleRows(before[order[k]]))
      ensures Applied(before, order, checked)[order[k]] == before[order[k]].(appendStart := Some(rowCount[order[k]]),
        maxRow := if held[order[k]] == [] then before[order[k]].maxRow else rowCount[order[k]] + |VisibleRows(before[order[k]])|)
    {
      AppliedAt(before, order, checked, k);
      assert Checked(indexes[k], before[order[k]], checked[k], held[order[k]], rowCount[order[k]], appended[k]);
      assert AcceptsScan(held[order[k]], before[order[k]]);
      assert VisibleChunks(before[order[k]], 0)[..appended[k]] == VisibleChunks(before[order[k]], 0);
    }
  }

  /** A check that stopped early found a table whose indexes reject its rows. */
  lemma FailedCheck(order: seq<DataTable>, before: map<DataTable, TableStorage>, held: map<DataTable, seq<Index>>,
                    rowCount: map<DataTable, nat>, indexes: seq<seq<Index>>, checked: seq<TableStorage>, appended: seq<nat>)
    requires Progress(order, before, held, rowCount, indexes, checked, appended, false)
    ensures !AllAccepted(order, before, held)
  {
    var n := |checked| - 1;
    assert !AcceptsScan(held[order[n]], before[order[n]]);
  }

  /** Dropping the append states of what a failed check left gives the storages as they were, but for max row. */
  lemma ResetRolledBack(order: seq<DataTable>, before: map<DataTable, TableStorage>, held: map<DataTable, seq<Index>>,
                        rowCount: map<DataTable, nat>, indexes: seq<seq<Index>>, checked: seq<TableStorage>,
                        appended: seq<nat>, after: map<DataTable, TableStorage>)
    requires Lists(order, before)
    requires Progress(order, before, held, rowCount, indexes, checked, appended, false)
    requires after == Reset(Applied(before, order, checked))
    ensures RolledBack(order, before, after)
  {
    AppliedKeys(before, order, checked);
    forall k | 0 <= k < |order|
      ensures after[order[k]] == before[order[k]].(appendStart := None, maxRow := after[order[k]].maxRow)
    {
      if k < |checked| {
        AppliedAt(before, order, checked, k);
        assert Checked(indexes[k], before[order[k]], checked[k], held[order[k]], rowCount[order[k]], appended[k]);
      } else {
        AppliedUntouched(before, order, checked, order[k]);
      }
    }
  }

  /** What a check that stopped at a table whose indexes reject its rows leaves to undo. */
  ghost predicate Failed(order: seq<DataTable>, before: map<DataTable, TableStorage>, held: map<DataTable, seq<Index>>,
                         rowCount: map<DataTable, nat>, indexes: seq<seq<Index>>, checked: seq<TableStorage>, appended: seq<nat>)
  {
    AllValid(before) && Lists(order, before) &&
    Progress(order, before, held, rowCount, indexes, checked, appended, false) &&
    forall t :: t in before ==> before[t].maxRow == 0 && t in held
  }

  /** The indexes of the tables of `order`: indexes[k] for the ones checked, those in `held` for the rest. */
  ghost predicate Linked(order: seq<DataTable>, held: map<DataTable, seq<Index>>, indexes: seq<seq<Index>>)
    reads order
  {
    forall k :: 0 <= k < |order| ==>
      order[k] in held && order[k].indexes == if k < |indexes| then indexes[k] else held[order[k]]
  }

  /** After a failed check every table is ready for the rollback: checked, or not reached. */
  lemma ReadyForRollBack(order: seq<DataTable>, before: map<DataTable, TableStorage>, held: map<DataTable, seq<Index>>,
                         rowCount: map<DataTable, nat>, indexes: seq<seq<Index>>, checked: seq<TableStorage>,
                         appended: seq<nat>, k: nat)
    requires Failed(order, before, held, rowCount, indexes, checked, appended) && k < |order|
    ensures Applied(before, order, checked).Keys == before.Keys
    ensures var t := order[k];
      RollBackReady(if k < |checked| then indexes[k] else held[t], before[t], Applied(before, order, checked)[t],
                    held[t], rowCount[t], Done(appended, k), |t.types|)
  {
    AppliedValid(order, before, held, rowCount, indexes, checked, appended, false);
    if k < |checked| {
      AppliedAt(before, order, checked, k);
      assert Checked(indexes[k], before[order[k]], checked[k], held[order[k]], rowCount[order[k]], appended[k]);
    } else {
      AppliedUntouched(before, order, checked, order[k]);
    }
  }

  /** When the indexes reject chunk i after taking the ones before, they reject the rows of all chunks. */
  lemma RejectedChunk(indexes: seq<Index>, chunks: seq<seq<Row>>, i: nat)
    requires i < |chunks| && AcceptedBy(indexes, Flatten(chunks[..i]))
    requires !AcceptedBy(WithKeys(indexes, Flatten(chunks[..i])), chunks[i])
    ensures !AcceptedBy(indexes, Flatten(chunks))
  {
    FlattenPrefixStep(chunks, i);
    AcceptedInParts(indexes, Flatten(chunks[..i]), chunks[i]);
    FlattenSplit(chunks, i + 1);
    AcceptedInParts(indexes, Flatten(chunks[..i + 1]), Flatten(chunks[i + 1..]));
  }

  lemma FlattenSplit(chunks: seq<seq<Row>>, n: nat)
    requires n <= |chunks|
    ensures Flatten(chunks) == Flatten(chunks[..n]) + Flatten(chunks[n..])
  {
    assert chunks == chunks[..n] + chunks[n..];
    FlattenAppend(chunks[..n], chunks[n..]);
  }

  /**
   * The callback CheckCommit gives the scan: each chunk goes into the table's indexes in turn,
   * row ids counting on from `rowStart`, until one is rejected. Returns whether all went in,
   * the row reached, and how many chunks went in.
   */
  method AppendChunksToIndexes(t: DataTable, chunks: seq<seq<Row>>, rowStart: int) returns (ok: bool, current: int, ghost d: nat)
    modifies t`indexes
    ensures d <= |chunks| && current == rowStart + |Flatten(chunks[..d])|
    ensures t.indexes == WithKeys(old(t.indexes), Flatten(chunks[..d]))
    ensures ok == AcceptedBy(old(t.indexes), Flatten(chunks))
    ensures ok ==> d == |chunks|
  {
    ghost var held := t.indexes;
    current := rowStart;
    var i := 0;
    assert chunks[..0] == [];
    WithNoKeys(held);
    while i < |chunks|
      invariant i <= |chunks|
      invariant current == rowStart + |Flatten(chunks[..i])|
      invariant t.indexes == WithKeys(held, Flatten(chunks[..i]))
      invariant AcceptedBy(held, Flatten(chunks[..i]))
    {
      FlattenPrefixStep(chunks, i);
      WithKeysAppend(held, Flatten(chunks[..i]), chunks[i]);
      AcceptedInParts(held, Flatten(chunks[..i]), chunks[i]);
      var appended := t.AppendToIndexes(chunks[i], current);
      if !appended {
        RejectedChunk(held, chunks, i);
        return false, current, i;
      }
      current := current + |chunks[i]|;
      i := i + 1;
    }
    assert chunks[..i] == chunks;
    return true, current, i;
  }

  /**
   * The callback of CheckCommit's rollback: takes the chunks out of the table's indexes again,
   * one after the other, until the row reached is `maxRow`, the row the append got to.
   */
  method RemoveChunksFromIndexes(t: DataTable, chunks: seq<seq<Row>>, rowStart: int, maxRow: int, ghost d: nat)
    requires d <= |chunks| && forall k :: 0 <= k < |chunks| ==> chunks[k] != []
    requires maxRow == rowStart + |Flatten(chunks[..d])|
    modifies t`indexes
    ensures t.indexes == WithoutKeys(old(t.indexes), Flatten(chunks[..d]))
  {
    ghost var held := t.indexes;
    var current := rowStart;
    var e := 0;
    assert chunks[..0] == [];
    WithNoKeys(held);
    while e < |chunks|
      invariant e <= d
      invariant current == rowStart + |Flatten(chunks[..e])|
      invariant t.indexes == WithoutKeys(held, Flatten(chunks[..e]))
    {
      if current >= maxRow {
        break;
      }
      FlattenPrefixStep(chunks, e);
      WithoutKeysAppend(held, Flatten(chunks[..e]), chunks[e]);
      t.RemoveFromIndexes(chunks[e], current);
      current := current + |chunks[e]|;
      e := e + 1;
    }
    if e < d {
      PrefixFewerRows(chunks, e, d);
    }
  }

  /**
   * The loop body of Commit for one table: chunk after chunk is appended to the table and,
   * when there is a log and the table is not temporary, written to the log.
   */
  method CommitChunks(t: DataTable, chunks: seq<seq<Row>>, log: WriteAheadLog?)
    modifies t`rows, log
    ensures t.rows == old(t.rows) + Flatten(chunks)
    ensures log != null ==> log.records == old(log.records) + (if t.temporary then [] else Inserts(chunks))
  {
    var k := 0;
    assert chunks[..0] == [];
    while k < |chunks|
      invariant k <= |chunks|
      invariant t.rows == old(t.rows) + Flatten(chunks[..k])
      invariant log != null ==> log.records == old(log.records) + (if t.temporary then [] else Inserts(chunks[..k]))
    {
      FlattenPrefixStep(chunks, k);
      assert chunks[..k + 1][..k] == chunks[..k];
      t.Append(chunks[k]);
      if log != null && !t.temporary {
        log.Write(Insert(chunks[k]));
      }
      k := k + 1;
    }
    assert chunks[..k] == chunks;
  }

  /** Table t holds rows `c`: its rows from before Commit and, once Commit has passed it (k < i), its visible rows. */
  ghost predicate TableCommitted(t: DataTable, storage: map<DataTable, TableStorage>, rows: map<DataTable, seq<Row>>,
                                 c: seq<Row>, k: nat, i: nat)
  {
    t in storage && t in rows && Scannable(storage[t]) &&
    c == rows[t] + if k < i then VisibleRows(storage[t]) else []
  }

  /** The rows `cur` of the tables of `order` once Commit has walked the first i of them. */
  ghost predicate RowsCommitted(order: seq<DataTable>, storage: map<DataTable, TableStorage>, rows: map<DataTable, seq<Row>>,
                                cur: seq<seq<Row>>, i: nat)
  {
    |cur| == |order| && i <= |order| &&
    forall k {:trigger TableCommitted(order[k], storage, rows, cur[k], k, i)} :: 0 <= k < |order| ==>
      TableCommitted(order[k], storage, rows, cur[k], k, i)
  }

  lemma RowsCommittedAll(order: seq<DataTable>, storage: map<DataTable, TableStorage>, rows: map<DataTable, seq<Row>>,
                         cur: seq<seq<Row>>)
    requires RowsCommitted(order, storage, rows, cur, |order|)
    ensures forall k :: 0 <= k < |order| ==>
      order[k] in storage && order[k] in rows && Scannable(storage[order[k]]) &&
      cur[k] == rows[order[k]] + VisibleRows(storage[order[k]])
  {
    forall k | 0 <= k < |order|
      ensures order[k] in storage && order[k] in rows && Scannable(storage[order[k]]) &&
        cur[k] == rows[order[k]] + VisibleRows(storage[order[k]])
    {
      assert TableCommitted(order[k], storage, rows, cur[k], k, |order|);
    }
  }

  /** The rows of every table of `order` are the ones `cur` follows. */
  ghost predicate RowsLinked(order: seq<DataTable>, cur: seq<seq<Row>>)
    reads order
  {
    |cur| == |order| && forall k :: 0 <= k < |order| ==> order[k].rows == cur[k]
  }

  lemma RowsCommittedStep(order: seq<DataTable>, storage: map<DataTable, TableStorage>, rows: map<DataTable, seq<Row>>,
                          cur: seq<seq<Row>>, i: nat, r: seq<Row>)
    requires RowsCommitted(order, storage, rows, cur, i) && i < |order|
    requires TableCommitted(order[i], storage, rows, cur[i], i, i)
    requires r == cur[i] + VisibleRows(storage[order[i]])
    ensures RowsCommitted(order, storage, rows, cur[i := r], i + 1)
  {
    forall k | 0 <= k < |order|
      ensures TableCommitted(order[k], storage, rows, cur[i := r][k], k, i + 1)
    {
      assert TableCommitted(order[k], storage, rows, cur[k], k, i);
    }
  }

  /** Temporary tables leave no trace in the log. */
  lemma {:induction false} TemporaryTablesNotLogged(order: seq<DataTable>, storage: map<DataTable, TableStorage>)
    requires forall t :: t in order ==> t in storage && Scannable(storage[t])
    requires forall t :: t in order ==> t.temporary
    ensures CommitRecords(order, storage) == []
    decreases |order|
  {
    if order != [] {
      TemporaryTablesNotLogged(order[..|order| - 1], storage);
    }
  }

  /** LocalTableStorage::Clear: no chunks, no local indexes, no deleted flags, no append state. */
  function Cleared(ts: TableStorage): (r: TableStorage)
    ensures Scannable(r) && VisibleRows(r) == []
    ensures r.maxRow == ts.maxRow
  {
    ts.(chunks := [], indexes := [], deleted := map[], appendStart := None)
  }

  //===--------------------------------------------------------------------===//
  // Scans
  //===--------------------------------------------------------------------===//

  /** LocalScanState: the storage being scanned (by its table), and the scan's position. */
  class LocalScanState {
    /** The table whose local storage is scanned; null when it has none. */
    var table: DataTable?
    var chunkIndex: nat
    var maxIndex: nat
    var lastChunkCount: nat

    constructor()
      ensures table == null && chunkIndex == 0 && maxIndex == 0 && lastChunkCount == 0
    {
      table := null;
      chunkIndex := 0;
      maxIndex := 0;
      lastChunkCount := 0;
    }
  }

  /** LocalStorage: the local storage of every table the transaction has appended to. */
  class LocalStorage {
    /** table_storage. */
    var storage: map<DataTable, TableStorage>

    constructor()
      ensures storage == map[]
    {
      storage := map[];
    }

    predicate Valid()
      reads this
    {
      AllValid(storage)
    }

    /** The scan state refers to a storage it can read: its last chunk and count still exist. */
    predicate ScanReady(state: LocalScanState)
      reads this, state
    {
      state.table != null ==>
        state.table in storage &&
        state.maxIndex < |storage[state.table].chunks| &&
        state.lastChunkCount <= |storage[state.table].chunks[state.maxIndex]|
    }

    /**
     * LocalTableStorage::InitializeScan: a scan from the first chunk to the chunk that is
     * last now, reading as many rows of that one as it holds now.
     */
    method InitializeStorageScan(table: DataTable, state: LocalScanState)
      requires table in storage && storage[table].chunks != []
      modifies state
      ensures ScanReady(state) && state.table == table && state.chunkIndex == 0
      ensures state.maxIndex == |storage[table].chunks| - 1
      ensures state.lastChunkCount == |storage[table].chunks[state.maxIndex]|
    {
      var chunks := storage[table].chunks;
      state.table := table;
      state.chunkIndex := 0;
      state.maxIndex := |chunks| - 1;
      state.lastChunkCount := |chunks[|chunks| - 1]|;
    }

    /** LocalStorage::InitializeScan: a table without local storage gets an empty scan. */
    method InitializeScan(table: DataTable, state: LocalScanState)
      requires table in storage ==> storage[table].chunks != []
      modifies state
      ensures ScanReady(state)
      ensures table !in storage ==> state.table == null
      ensures table in storage ==>
        state.table == table && state.chunkIndex == 0 &&
        state.maxIndex == |storage[table].chunks| - 1 &&
        state.lastChunkCount == |storage[table].chunks[state.maxIndex]|
    {
      if table !in storage {
        state.table := null;
        return;
      }
      InitializeStorageScan(table, state);
    }

    /** How many rows of the chunk at the scan's position the scan looks at. */
    function ChunkCount(state: LocalScanState): nat
      reads this, state
      requires ScanReady(state) && state.table != null && state.chunkIndex <= state.maxIndex
    {
      if state.chunkIndex == state.maxIndex then state.lastChunkCount
      else |storage[state.table].chunks[state.chunkIndex]|
    }

    /**
     * LocalStorage::Scan: the undeleted rows of the next chunk, with the requested columns,
     * and the scan moves on by one chunk; nothing once the scan is past its last chunk.
     */
    method Scan(state: LocalScanState, columnIds: seq<ColumnId>) returns (result: seq<Row>)
      requires ScanReady(state)
      requires state.table != null ==> StorageValid(storage[state.table], |state.table.types|)
      modifies state
      ensures ScanReady(state) && state.table == old(state.table)
      ensures state.maxIndex == old(state.maxIndex) && state.lastChunkCount == old(state.lastChunkCount)
      ensures if old(state.table == null || state.chunkIndex > state.maxIndex) then
          result == [] && state.chunkIndex == old(state.chunkIndex)
        else
          state.chunkIndex == old(state.chunkIndex) + 1 &&
          result == ScanOutput(storage[state.table], old(state.chunkIndex), old(ChunkCount(state)), columnIds)
    {
      if state.table == null || state.chunkIndex > state.maxIndex {
        return [];
      }
      var ts := storage[state.table];
      var c := state.chunkIndex;
      var chunk := ts.chunks[c];
      var count := if c == state.maxIndex then state.lastChunkCount else |chunk|;
      var sel: seq<nat>;
      if c in ts.deleted {
        var deleted := ts.deleted[c];
        sel := [];
        var i := 0;
        while i < count
          invariant 0 <= i <= count
          invariant sel == Unset(deleted, i)
        {
          if !deleted[i] {
            sel := sel + [i];
          }
          i := i + 1;
        }
      } else {
        sel := Range(count);
      }
      result := seq(|sel|, k requires 0 <= k < |sel| =>
        ScanRow(chunk[sel[k]], MAX_ROW_ID + c * STANDARD_VECTOR_SIZE + sel[k], columnIds));
      state.chunkIndex := c + 1;
    }

    /** The storage of a table: its own, or a new one when it has none yet. */
    function StorageOf(table: DataTable): TableStorage
      reads this, table
    {
      if table in storage then storage[table] else NewStorage(table)
    }

    /** Asks each local unique index in turn whether it takes the keys of `chunk`. */
    static method LocalIndexesAccept(indexes: seq<Index>, chunk: seq<Row>) returns (ok: bool)
      requires forall j :: 0 <= j < |indexes| ==> indexes[j].unique
      ensures ok == AcceptedBy(indexes, chunk)
    {
      var j := 0;
      while j < |indexes|
        invariant j <= |indexes|
        invariant forall i :: 0 <= i < j ==> Accepts(indexes[i].keys, Keys(chunk, indexes[i].columns))
      {
        if !Accepts(indexes[j].keys, Keys(chunk, indexes[j].columns)) {
          return false;
        }
        j := j + 1;
      }
      return true;
    }

    /**
     * LocalStorage::Append, corrected: creates the table's storage on first use, then either
     * every local unique index accepts the chunk, takes its keys, and the chunk joins the
     * collection, or the append fails and nothing but the new storage is left behind.
     */
    method Append(table: DataTable, chunk: seq<Row>) returns (r: Result<(), string>)
      requires Valid()
      requires |chunk| <= STANDARD_VECTOR_SIZE && forall k :: 0 <= k < |chunk| ==> |chunk[k]| == |table.types|
      modifies this
      ensures Valid()
      ensures var ts := old(StorageOf(table));
        (r.Ok? <==> AcceptedBy(ts.indexes, chunk)) &&
        (r.Err? ==> r.error == DUPLICATE_KEY && storage == old(storage)[table := ts]) &&
        (r.Ok? ==> storage == old(storage)[table :=
          ts.(chunks := CollectionAppend(ts.chunks, chunk), indexes := WithKeys(ts.indexes, chunk))])
    {
      var ts := StorageOf(table);
      var accepted := LocalIndexesAccept(ts.indexes, chunk);
      if !accepted {
        AllValidUpdate(storage, table, ts);
        storage := storage[table := ts];
        return Err(DUPLICATE_KEY);
      }
      var appended := ts.(chunks := CollectionAppend(ts.chunks, chunk), indexes := WithKeys(ts.indexes, chunk));
      AppendValid(ts, chunk, |table.types|);
      AllValidUpdate(storage, table, appended);
      storage := storage[table := appended];
      return Ok(());
    }

    /** Sets the flag of every row of chunk c that the ids name. */
    static method MarkDeleted(flags: seq<bool>, rowIds: seq<int>, c: nat) returns (r: seq<bool>)
      requires |flags| == STANDARD_VECTOR_SIZE && InChunk(rowIds, c)
      ensures r == Marked(flags, Offsets(rowIds, c))
    {
      var baseIndex := MAX_ROW_ID + c * STANDARD_VECTOR_SIZE;
      ghost var positions := Offsets(rowIds, c);
      r := flags;
      assert r == Marked(flags, positions[..0]);
      var i := 0;
      while i < |rowIds|
        invariant i <= |rowIds|
        invariant r == Marked(flags, positions[..i])
      {
        MarkOneMore(flags, positions, i);
        r := r[rowIds[i] - baseIndex := true];
        i := i + 1;
      }
      assert positions[..i] == positions;
    }

    /**
     * LocalStorage::Delete: sets the deleted flag of every row the ids name in the chunk the
     * first id names, creating the chunk's flags, all clear, on first use.
     */
    method Delete(table: DataTable, rowIds: seq<int>)
      requires Valid() && table in storage
      requires |rowIds| > 0 && rowIds[0] >= MAX_ROW_ID
      requires InChunk(rowIds, GetChunk(rowIds)) && GetChunk(rowIds) < |storage[table].chunks|
      modifies this
      ensures Valid()
      ensures var ts := old(storage[table]);
        var c: nat := GetChunk(rowIds);
        storage == old(storage)[table := ts.(deleted := ts.deleted[c := Marked(FlagsOf(ts, c), Offsets(rowIds, c))])]
    {
      var ts := storage[table];
      var c: nat := GetChunk(rowIds);
      var flags := if c in ts.deleted then ts.deleted[c] else seq(STANDARD_VECTOR_SIZE, _ => false);
      flags := MarkDeleted(flags, rowIds, c);
      FlagsValid(ts, c, flags, |table.types|);
      AllValidUpdate(storage, table, ts.(deleted := ts.deleted[c := flags]));
      storage := storage[table := ts.(deleted := ts.deleted[c := flags])];
    }

    /** update_data: writes values[i] into column `col` of the row at positions[i], in order. */
    static method UpdateData(rows: seq<Row>, col: nat, positions: seq<int>, values: seq<Value>) returns (r: seq<Row>)
      requires |positions| == |values| && Writable(rows, col, positions)
      ensures r == WriteColumn(rows, col, positions, values)
    {
      r := rows;
      var i := 0;
      while i < |positions|
        invariant i <= |positions|
        invariant r == WriteColumn(rows, col, positions[..i], values[..i])
      {
        assert positions[..i + 1][..i] == positions[..i] && values[..i + 1][..i] == values[..i];
        r := r[positions[i] := r[positions[i]][col := values[i]]];
        i := i + 1;
      }
      assert positions[..i] == positions && values[..i] == values;
    }

    /**
     * update_chunk for column after column: stops at the first column whose type cannot be
     * updated in place, the columns before it written.
     */
    static method UpdateChunk(rows: seq<Row>, types: seq<TypeId>, columnIds: seq<nat>, data: seq<seq<Value>>,
                              positions: seq<int>, width: nat) returns (r: seq<Row>, ok: bool)
      requires |data| == |columnIds| && forall k :: 0 <= k < |data| ==> |data[k]| == |positions|
      requires forall k :: 0 <= k < |columnIds| ==> columnIds[k] < width && columnIds[k] < |types|
      requires forall p :: 0 <= p < |rows| ==> |rows[p]| == width
      requires forall i :: 0 <= i < |positions| ==> 0 <= positions[i] < |rows|
      ensures var k := FirstNotInPlace(types, columnIds, 0);
        (ok <==> k == |columnIds|) && r == WriteColumns(rows, columnIds[..k], data[..k], positions, width)
    {
      ghost var k := FirstNotInPlace(types, columnIds, 0);
      r := rows;
      var i := 0;
      assert columnIds[..0] == [] && data[..0] == [];
      while i < |columnIds|
        invariant i <= k
        invariant r == WriteColumns(rows, columnIds[..i], data[..i], positions, width)
      {
        if !InPlaceType(types[columnIds[i]]) {
          return r, false;
        }
        assert columnIds[..i + 1][..i] == columnIds[..i] && data[..i + 1][..i] == data[..i];
        r := UpdateData(r, columnIds[i], positions, data[i]);
        i := i + 1;
      }
      return r, true;
    }

    /**
     * LocalStorage::Update: column columnIds[k] of the rows the ids name in the chunk the
     * first id names takes the values data[k], column after column; a column whose type
     * cannot be updated in place ends the update with an error, the columns before it
     * already written.
     */
    method Update(table: DataTable, rowIds: seq<int>, columnIds: seq<nat>, data: seq<seq<Value>>) returns (r: Result<(), string>)
      requires Valid() && table in storage
      requires |rowIds| > 0 && rowIds[0] >= MAX_ROW_ID
      requires InChunk(rowIds, GetChunk(rowIds)) && GetChunk(rowIds) < |storage[table].chunks|
      requires forall i :: 0 <= i < |rowIds| ==>
        Offsets(rowIds, GetChunk(rowIds))[i] < |storage[table].chunks[GetChunk(rowIds)]|
      requires |data| == |columnIds| && forall k :: 0 <= k < |data| ==> |data[k]| == |rowIds|
      requires forall k :: 0 <= k < |columnIds| ==> columnIds[k] < |table.types|
      modifies this
      ensures Valid()
      ensures var k := FirstNotInPlace(table.types, columnIds, 0);
        (r.Ok? <==> k == |columnIds|) && (r.Err? ==> r.error == UNSUPPORTED_UPDATE) &&
        var ts := old(storage[table]);
        var c: nat := GetChunk(rowIds);
        storage == old(storage)[table := ts.(chunks := ts.chunks[c :=
          WriteColumns(ts.chunks[c], columnIds[..k], data[..k], Offsets(rowIds, c), |table.types|)])]
    {
      var ts := storage[table];
      var c: nat := GetChunk(rowIds);
      var positions := Offsets(rowIds, c);
      var width := |table.types|;
      var chunk, ok := UpdateChunk(ts.chunks[c], table.types, columnIds, data, positions, width);
      r := if ok then Ok(()) else Err(UNSUPPORTED_UPDATE);
      RewriteValid(ts, c, chunk, width);
      AllValidUpdate(storage, table, ts.(chunks := ts.chunks[c := chunk]));
      storage := storage[table := ts.(chunks := ts.chunks[c := chunk])];
    }

    /**
     * One table of CheckCommit: its append state starts at the table's row count; a table
     * with indexes then has the chunks the scan hands on appended to them until one is
     * rejected, and max_row set to the row reached. Returns the storage the table is left with.
     */
    method CheckTable(t: DataTable) returns (ok: bool, checked: TableStorage, ghost d: nat)
      requires t in storage && StorageValid(storage[t], |t.types|)
      modifies t`indexes
      ensures Checked(t.indexes, storage[t], checked, old(t.indexes), old(|t.rows|), d)
      ensures ok == AcceptsScan(old(t.indexes), storage[t])
      ensures ok ==> WholeScan(storage[t], d)
    {
      var ts := storage[t];
      var rowStart := t.InitializeAppend();
      checked := ts.(appendStart := Some(rowStart));
      if |t.indexes| == 0 {
        d := |VisibleChunks(ts, 0)|;
        assert VisibleChunks(ts, 0)[..d] == VisibleChunks(ts, 0);
        ok := true;
      } else {
        var chunks := ScanTableStorage(t);
        var current;
        ok, current, d := AppendChunksToIndexes(t, chunks, rowStart);
        checked := checked.(maxRow := current);
      }
    }

    /**
     * LocalStorage::CheckCommit: every table's indexes take the rows its scan hands on, and
     * the commit can go ahead exactly when every unique index of every table accepts them.
     * Otherwise the keys already added are taken out again, the append states are dropped
     * and the commit fails with a duplicate key. `order` is the order in which the map
     * holding the tables is walked.
     */
    method CheckCommit(order: seq<DataTable>) returns (r: Result<(), string>)
      requires Valid() && Lists(order, storage)
      requires forall t :: t in storage ==> storage[t].maxRow == 0
      modifies this`storage, storage.Keys`indexes
      ensures Valid() && storage.Keys == old(storage.Keys)
      ensures r.Ok? <==> AllAccepted(order, old(storage), old(Held()))
      ensures r.Ok? ==> Committed(order, old(storage), old(Held()), old(RowCounts()), storage, Held())
      ensures r.Err? ==> r.error == DUPLICATE_KEY && RolledBack(order, old(storage), storage) && Linked(order, old(Held()), [])
    {
      ghost var before, held, rowCount := storage, Held(), RowCounts();
      assert forall t :: t in before ==> before[t].maxRow == 0 && t in held;
      var success, indexes, checked, appended := CheckTables(order, before, held, rowCount);
      if !success {
        FailedCheck(order, before, held, rowCount, indexes, checked, appended);
        UndoCheck(order, before, held, rowCount, indexes, checked, appended);
        return Err(DUPLICATE_KEY);
      }
      KeepChecked(order, before, held, rowCount, indexes, checked, appended);
      return Ok(());
    }

    /** The success path of CheckCommit: every table keeps the append state the check gave it. */
    method KeepChecked(order: seq<DataTable>, ghost before: map<DataTable, TableStorage>,
                       ghost held: map<DataTable, seq<Index>>, ghost rowCount: map<DataTable, nat>,
                       ghost indexes: seq<seq<Index>>, checked: seq<TableStorage>, ghost appended: seq<nat>)
      requires AllValid(before) && Lists(order, before) && storage == before
      requires Progress(order, before, held, rowCount, indexes, checked, appended, true) && |checked| == |order|
      requires Linked(order, held, indexes)
      modifies this`storage
      ensures Valid() && storage.Keys == before.Keys
      ensures AllAccepted(order, before, held) && Committed(order, before, held, rowCount, storage, Held())
    {
      PutChecked(order, before, held, rowCount, indexes, checked, appended, true);
      ghost var heldAfter := Held();
      forall k | 0 <= k < |order|
        ensures order[k] in heldAfter && heldAfter[order[k]] == indexes[k]
      {
        assert order[k] in storage;
      }
      CheckedAll(order, before, held, rowCount, indexes, checked, appended, heldAfter);
    }

    /** The indexes of every table, keyed by the table. */
    ghost function Held(): (held: map<DataTable, seq<Index>>)
      reads this, storage.Keys
      ensures held.Keys == storage.Keys
    {
      map t | t in storage :: t.indexes
    }

    /** The number of committed rows of every table, keyed by the table. */
    ghost function RowCounts(): (rowCount: map<DataTable, nat>)
      reads this, storage.Keys
      ensures rowCount.Keys == storage.Keys
    {
      map t | t in storage :: |t.rows|
    }

    /**
     * The failure path of CheckCommit: the keys the checked tables took are removed again
     * and every append state is dropped.
     */
    method UndoCheck(order: seq<DataTable>, ghost before: map<DataTable, TableStorage>,
                     ghost held: map<DataTable, seq<Index>>, ghost rowCount: map<DataTable, nat>,
                     ghost indexes: seq<seq<Index>>, checked: seq<TableStorage>, ghost appended: seq<nat>)
      requires Failed(order, before, held, rowCount, indexes, checked, appended)
      requires storage == before && Linked(order, held, indexes)
      modifies this`storage, before.Keys`indexes
      ensures Valid() && storage.Keys == before.Keys
      ensures RolledBack(order, before, storage) && Linked(order, held, [])
    {
      PutChecked(order, before, held, rowCount, indexes, checked, appended, false);
      RollBackChecked(order, before, held, rowCount, indexes, checked, appended);
      ResetAppendStates();
      ResetRolledBack(order, before, held, rowCount, indexes, checked, appended, storage);
    }

    /** The storages take the states the check left them with. */
    method PutChecked(order: seq<DataTable>, ghost before: map<DataTable, TableStorage>,
                      ghost held: map<DataTable, seq<Index>>, ghost rowCount: map<DataTable, nat>,
                      ghost indexes: seq<seq<Index>>, checked: seq<TableStorage>, ghost appended: seq<nat>,
                      ghost success: bool)
      requires AllValid(before) && Lists(order, before) && storage == before
      requires Progress(order, before, held, rowCount, indexes, checked, appended, success)
      modifies this`storage
      ensures storage == Applied(before, order, checked) && storage.Keys == before.Keys && Valid()
    {
      storage := Applied(storage, order, checked);
      AppliedValid(order, before, held, rowCount, indexes, checked, appended, success);
    }

    /** The keys the checked tables took are removed from their indexes again. */
    method RollBackChecked(order: seq<DataTable>, ghost before: map<DataTable, TableStorage>,
                           ghost held: map<DataTable, seq<Index>>, ghost rowCount: map<DataTable, nat>,
                           ghost indexes: seq<seq<Index>>, ghost checked: seq<TableStorage>, ghost appended: seq<nat>)
      requires Failed(order, before, held, rowCount, indexes, checked, appended)
      requires storage == Applied(before, order, checked) && Linked(order, held, indexes)
      modifies before.Keys`indexes
      ensures Linked(order, held, [])
    {
      AppliedKeys(before, order, checked);
      forall k | 0 <= k < |order|
        ensures RollBackReady(order[k].indexes, before[order[k]], storage[order[k]], held[order[k]], rowCount[order[k]],
                              Done(appended, k), |order[k].types|)
      {
        ReadyForRollBack(order, before, held, rowCount, indexes, checked, appended, k);
      }
      RollBack(order, before, held, rowCount, appended);
    }

    /**
     * The first loop of CheckCommit: CheckTable on one table after another until one fails.
     * checked[k] is the storage the k-th table is to be left with, appended[k] the number of
     * its chunks that went into its indexes, and indexes[k] what those indexes hold.
     */
    method CheckTables(order: seq<DataTable>, ghost before: map<DataTable, TableStorage>,
                       ghost held: map<DataTable, seq<Index>>, ghost rowCount: map<DataTable, nat>)
      returns (success: bool, ghost indexes: seq<seq<Index>>, checked: seq<TableStorage>, ghost appended: seq<nat>)
      requires AllValid(before) && storage == before && Lists(order, before)
      requires forall t :: t in before ==> t in held && t in rowCount
      requires forall t :: t in before ==> t.indexes == held[t] && |t.rows| == rowCount[t]
      modifies before.Keys`indexes
      ensures Progress(order, before, held, rowCount, indexes, checked, appended, success)
      ensures success ==> |checked| == |order|
      ensures Linked(order, held, indexes)
    {
      success := true;
      indexes, checked, appended := [], [], [];
      var i := 0;
      while i < |order| && success
        invariant i <= |order| && |checked| == i
        invariant Progress(order, before, held, rowCount, indexes, checked, appended, success)
        invariant forall k :: 0 <= k < i ==> order[k].indexes == indexes[k]
        invariant forall k :: i <= k < |order| ==> order[k].indexes == held[order[k]]
      {
        ghost var x, d;
        var c;
        success, x, c, d := CheckNext(order, i, before, held, rowCount, indexes, checked, appended);
        indexes, checked, appended := indexes + [x], checked + [c], appended + [d];
        i := i + 1;
      }
    }

    /** One turn of CheckTables: CheckTable on the next table of `order`. */
    method CheckNext(order: seq<DataTable>, i: nat, ghost before: map<DataTable, TableStorage>,
                     ghost held: map<DataTable, seq<Index>>, ghost rowCount: map<DataTable, nat>,
                     ghost indexes: seq<seq<Index>>, ghost checked: seq<TableStorage>, ghost appended: seq<nat>)
      returns (ok: bool, ghost x: seq<Index>, c: TableStorage, ghost d: nat)
      requires AllValid(before) && storage == before && Lists(order, before) && i == |checked| < |order|
      requires forall t :: t in before ==> t in held && t in rowCount
      requires forall t :: t in before ==> |t.rows| == rowCount[t]
      requires Progress(order, before, held, rowCount, indexes, checked, appended, true)
      requires forall k :: 0 <= k < i ==> order[k].indexes == indexes[k]
      requires forall k :: i <= k < |order| ==> order[k].indexes == held[order[k]]
      modifies {order[i]}`indexes
      ensures Progress(order, before, held, rowCount, indexes + [x], checked + [c], appended + [d], ok)
      ensures forall k :: 0 <= k <= i ==> order[k].indexes == (indexes + [x])[k]
      ensures forall k :: i < k < |order| ==> order[k].indexes == held[order[k]]
    {
      var t := order[i];
      ok, c, d := CheckTable(t);
      x := t.indexes;
      ProgressStep(order, before, held, rowCount, indexes, checked, appended, x, c, d, ok);
    }

    /**
     * The rollback of CheckCommit: every table with indexes whose append got past its first
     * row has the keys it took out again.
     */
    method RollBack(order: seq<DataTable>, ghost before: map<DataTable, TableStorage>, ghost held: map<DataTable, seq<Index>>,
                    ghost rowCount: map<DataTable, nat>, ghost appended: seq<nat>)
      requires storage.Keys == before.Keys && Lists(order, before)
      requires forall t :: t in before ==> t in held && t in rowCount
      requires forall k {:trigger RollBackReady(order[k].indexes, before[order[k]], storage[order[k]], held[order[k]], rowCount[order[k]], Done(appended, k), |order[k].types|)} ::
        0 <= k < |order| ==>
        RollBackReady(order[k].indexes, before[order[k]], storage[order[k]], held[order[k]], rowCount[order[k]], Done(appended, k), |order[k].types|)
      modifies before.Keys`indexes
      ensures forall k :: 0 <= k < |order| ==> order[k].indexes == held[order[k]]
    {
      var i := 0;
      while i < |order|
        invariant i <= |order|
        invariant forall k :: 0 <= k < i ==> order[k].indexes == held[order[k]]
        invariant forall k :: i <= k < |order| ==> order[k].indexes == old(order[k].indexes)
      {
        RollBackTable(order[i], before[order[i]], held[order[i]], rowCount[order[i]], Done(appended, i));
        i := i + 1;
      }
    }

    /** The rollback of one table. */
    method RollBackTable(t: DataTable, ghost before: TableStorage, ghost held: seq<Index>,
                         ghost rowCount: nat, ghost appended: nat)
      requires t in storage && RollBackReady(t.indexes, before, storage[t], held, rowCount, appended, |t.types|)
      modifies t`indexes
      ensures t.indexes == held
    {
      var ts := storage[t];
      if |t.indexes| != 0 && ts.maxRow != 0 {
        var chunks := ScanTableStorage(t);
        VisibleSame(before, ts, 0);
        RemoveChunksFromIndexes(t, chunks, ts.appendStart.value, ts.maxRow, appended);
        WithoutWithKeys(held, Flatten(chunks[..appended]));
      } else if |t.indexes| != 0 && t.indexes != held {
        WithNoKeys(held);
      }
    }

    /** Drops every table's append state. */
    method ResetAppendStates()
      requires Valid()
      modifies this`storage
      ensures Valid() && storage == Reset(old(storage))
    {
      storage := map t | t in storage :: storage[t].(appendStart := None);
    }

    /**
     * LocalStorage::Commit: every table gets the rows its scan hands on and, unless the table is
     * temporary or there is no log, a SetTable record and an Insert record per chunk; then the
     * map of storages is emptied. `order` is the walk order of the map.
     */
    method Commit(order: seq<DataTable>, log: WriteAheadLog?)
      requires Valid() && Lists(order, storage)
      requires forall t :: t in storage ==> storage[t].appendStart.Some?
      modifies this`storage, storage.Keys`rows, log
      ensures storage == map[]
      ensures forall k :: 0 <= k < |order| ==> order[k].rows == old(Rows())[order[k]] + VisibleRows(old(storage)[order[k]])
      ensures log != null ==> log.records == old(log.records) + CommitRecords(order, old(storage))
    {
      ghost var before := storage;
      CommitTables(order, log);
      assert storage == before;
      storage := map[];
    }

    /** The walk of Commit over the tables of `order`. */
    method CommitTables(order: seq<DataTable>, log: WriteAheadLog?)
      requires Valid() && Lists(order, storage)
      modifies storage.Keys`rows, log
      ensures forall k :: 0 <= k < |order| ==> order[k].rows == old(Rows())[order[k]] + VisibleRows(storage[order[k]])
      ensures log != null ==> log.records == old(log.records) + CommitRecords(order, storage)
    {
      ghost var rows := Rows();
      ghost var records := if log == null then [] else log.records;
      ghost var cur := StartCommit(order, rows);
      cur := CommitLoop(order, records, log, rows, cur);
      CommitRecordsAll(order, storage);
      RowsCommittedAll(order, storage, rows, cur);
    }

    /** The loop of Commit over the tables of `order`, with the rows of each followed in `cur`. */
    method CommitLoop(order: seq<DataTable>, ghost records: seq<LogRecord>, log: WriteAheadLog?,
                      ghost rows: map<DataTable, seq<Row>>, ghost start: seq<seq<Row>>) returns (ghost cur: seq<seq<Row>>)
      requires Valid() && Lists(order, storage)
      requires RowsCommitted(order, storage, rows, start, 0) && RowsLinked(order, start)
      requires log != null ==> log.records == records
      modifies storage.Keys`rows, log
      ensures RowsCommitted(order, storage, rows, cur, |order|) && RowsLinked(order, cur)
      ensures log != null ==> log.records == records + CommitRecords(order[..|order|], storage)
    {
      cur := start;
      var i := 0;
      while i < |order|
        invariant i <= |order| && RowsCommitted(order, storage, rows, cur, i) && RowsLinked(order, cur)
        invariant log != null ==> log.records == records + CommitRecords(order[..i], storage)
      {
        cur := CommitStep(order, i, records, log, rows, cur);
        i := i + 1;
      }
    }

    /** Before Commit walks `order`, each of its tables holds the rows it had. */
    ghost method StartCommit(order: seq<DataTable>, rows: map<DataTable, seq<Row>>) returns (cur: seq<seq<Row>>)
      requires Valid() && Lists(order, storage) && rows == Rows()
      ensures RowsCommitted(order, storage, rows, cur, 0) && RowsLinked(order, cur)
    {
      cur := seq(|order|, k requires 0 <= k < |order| reads order => order[k].rows);
      forall k | 0 <= k < |order|
        ensures TableCommitted(order[k], storage, rows, cur[k], k, 0)
      {
      }
    }

    /** CommitNext, with the rows of every table of `order` followed in `cur`. */
    method CommitStep(order: seq<DataTable>, i: nat, ghost records: seq<LogRecord>, log: WriteAheadLog?,
                      ghost rows: map<DataTable, seq<Row>>, ghost cur: seq<seq<Row>>) returns (ghost next: seq<seq<Row>>)
      requires Valid() && Lists(order, storage) && i < |order|
      requires RowsCommitted(order, storage, rows, cur, i) && RowsLinked(order, cur)
      requires log != null ==> log.records == records + CommitRecords(order[..i], storage)
      modifies {order[i]}`rows, log
      ensures RowsCommitted(order, storage, rows, next, i + 1) && RowsLinked(order, next)
      ensures log != null ==> log.records == records + CommitRecords(order[..i + 1], storage)
    {
      assert TableCommitted(order[i], storage, rows, cur[i], i, i);
      CommitNext(order, i, records, log);
      RowsCommittedStep(order, storage, rows, cur, i, order[i].rows);
      next := cur[i := order[i].rows];
    }

    /** One turn of Commit: the i-th table of `order` takes its rows, and the log its records. */
    method CommitNext(order: seq<DataTable>, i: nat, ghost records: seq<LogRecord>, log: WriteAheadLog?)
      requires Valid() && Lists(order, storage) && i < |order|
      requires log != null ==> log.records == records + CommitRecords(order[..i], storage)
      modifies {order[i]}`rows, log
      ensures order[i].rows == old(order[i].rows) + VisibleRows(storage[order[i]])
      ensures log != null ==> log.records == records + CommitRecords(order[..i + 1], storage)
    {
      CommitTable(order[i], log);
      CommitRecordsStep(order, i, storage);
      if log != null {
        Associates(records, CommitRecords(order[..i], storage), TableRecords(order[i], storage[order[i]]));
      }
    }

    /** The body of Commit's walk for table t. */
    method CommitTable(t: DataTable, log: WriteAheadLog?)
      requires t in storage && StorageValid(storage[t], |t.types|)
      modifies t`rows, log
      ensures t.rows == old(t.rows) + VisibleRows(storage[t])
      ensures log != null ==> log.records == old(log.records) + TableRecords(t, storage[t])
    {
      if log != null && !t.temporary {
        log.Write(SetTable(t.schema, t.name));
      }
      var chunks := ScanTableStorage(t);
      CommitChunks(t, chunks, log);
      if log != null && !t.temporary {
        Associates(old(log.records), [SetTable(t.schema, t.name)], Inserts(chunks));
      }
    }

    /** The committed rows of every table, keyed by the table. */
    ghost function Rows(): (rows: map<DataTable, seq<Row>>)
      reads this, storage.Keys
      ensures rows.Keys == storage.Keys
    {
      map t | t in storage :: t.rows
    }

    /**
     * ScanTableStorage, corrected: a storage with no chunks hands on nothing; otherwise it
     * runs the scan to its last chunk and hands on every chunk with a row left, so the
     * callers see every undeleted row.
     */
    method ScanTableStorage(table: DataTable) returns (chunks: seq<seq<Row>>)
      requires table in storage && StorageValid(storage[table], |table.types|)
      ensures chunks == VisibleChunks(storage[table], 0)
    {
      var ts := storage[table];
      if ts.chunks == [] {
        return [];
      }
      var state := new LocalScanState();
      InitializeStorageScan(table, state);
      var columnIds := AllColumns(|table.types|);
      chunks := [];
      while state.chunkIndex <= state.maxIndex
        invariant ScanReady(state) && state.table == table
        invariant state.maxIndex == |ts.chunks| - 1 && state.lastChunkCount == |ts.chunks[state.maxIndex]|
        invariant state.chunkIndex <= |ts.chunks|
        invariant chunks + VisibleChunks(ts, state.chunkIndex) == VisibleChunks(ts, 0)
        decreases |ts.chunks| - state.chunkIndex
      {
        ghost var c := state.chunkIndex;
        var chunk := Scan(state, columnIds);
        ScanWholeChunk(ts, c, |table.types|, |ts.chunks[c]|, chunk);
        ScanStep(ts, c, chunks, chunk);
        if chunk != [] {
          chunks := chunks + [chunk];
        }
      }
    }

    /**
     * ScanTableStorage as written: it stops at the first chunk the scan returns empty, which
     * is also what a chunk whose rows are all deleted looks like.
     */
    method ScanTableStorageAsWritten(table: DataTable) returns (chunks: seq<seq<Row>>)
      requires table in storage && StorageValid(storage[table], |table.types|) && storage[table].chunks != []
      ensures chunks == ChunksUntilEmpty(storage[table], 0)
    {
      var ts := storage[table];
      var state := new LocalScanState();
      InitializeStorageScan(table, state);
      var columnIds := AllColumns(|table.types|);
      chunks := [];
      while true
        invariant ScanReady(state) && state.table == table
        invariant state.maxIndex == |ts.chunks| - 1 && state.lastChunkCount == |ts.chunks[state.maxIndex]|
        invariant state.chunkIndex <= |ts.chunks|
        invariant chunks + ChunksUntilEmpty(ts, state.chunkIndex) == ChunksUntilEmpty(ts, 0)
        decreases |ts.chunks| - state.chunkIndex
      {
        ghost var c := state.chunkIndex;
        var chunk := Scan(state, columnIds);
        if chunk == [] {
          assert c < |ts.chunks| ==> ChunkView(ts, c) == [] by {
            if c < |ts.chunks| {
              ScanWholeChunk(ts, c, |table.types|, |ts.chunks[c]|, chunk);
            }
          }
          return;
        }
        ScanWholeChunk(ts, c, |table.types|, |ts.chunks[c]|, chunk);
        UntilEmptyStep(ts, c, chunk);
        MoveOn(chunks, [chunk], ChunksUntilEmpty(ts, c + 1));
        chunks := chunks + [chunk];
      }
    }
  }
}
