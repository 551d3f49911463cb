/**
 * The commit protocol: how each entry of a committing transaction's undo buffer is made
 * permanent. Catalog entries, updates and deleted rows are stamped with the commit id,
 * deletes lower the table's cardinality, and, when the database keeps a write-ahead log,
 * each entry of a non-temporary table is written to it, preceded by a set-table record
 * whenever the table changes.
 */
module CommitState {
  import opened Results
  import opened Common
  import opened Wal

  /** The kinds of catalog entries. */
  datatype CatalogType =
    | INVALID | TABLE | SCHEMA | TABLE_FUNCTION | SCALAR_FUNCTION | VIEW | INDEX
    | UPDATED_ENTRY | DELETED_ENTRY | PREPARED_STATEMENT | SEQUENCE

  /** The catalog kinds whose creation and whose drop have records of their own in the log. */
  predicate Logged(t: CatalogType)
  {
    t == TABLE || t == SCHEMA || t == VIEW || t == SEQUENCE
  }

  const DROP_UNKNOWN := "Don't know how to drop this type!"
  const WRITE_UNKNOWN := "UndoBuffer - don't know how to write this entry to the WAL"
  const COMMIT_UNKNOWN := "UndoBuffer - don't know how to commit this type!"

  /**
   * A version of a catalog entry. The committing transaction's undo buffer points at the old
   * version; `parent` is the version the transaction put in front of it (a DELETED_ENTRY when
   * it dropped the object).
   */
  class CatalogEntry {
    const kind: CatalogType
    const name: string
    const temporary: bool
    const parent: CatalogEntry?
    /** The transaction or commit id that this version belongs to. */
    var timestamp: int

    constructor(kind: CatalogType, name: string, temporary: bool, parent: CatalogEntry?, timestamp: int)
      ensures this.kind == kind && this.name == name && this.temporary == temporary
      ensures this.parent == parent && this.timestamp == timestamp
    {
      this.kind := kind;
      this.name := name;
      this.temporary := temporary;
      this.parent := parent;
      this.timestamp := timestamp;
    }
  }

  /** What a catalog record of the log does: whether it creates or drops, the kind and the name. */
  datatype CatalogChange = CatalogChange(create: bool, kind: CatalogType, name: string)

  /** Reads back the catalog change a log record stands for; other records stand for none. */
  function ChangeOf(record: LogRecord): Option<CatalogChange>
  {
    match record
    case CreateTable(n) => Some(CatalogChange(true, TABLE, n))
    case CreateSchema(n) => Some(CatalogChange(true, SCHEMA, n))
    case CreateView(n) => Some(CatalogChange(true, VIEW, n))
    case CreateSequence(n) => Some(CatalogChange(true, SEQUENCE, n))
    case DropTable(n) => Some(CatalogChange(false, TABLE, n))
    case DropSchema(n) => Some(CatalogChange(false, SCHEMA, n))
    case DropView(n) => Some(CatalogChange(false, VIEW, n))
    case DropSequence(n) => Some(CatalogChange(false, SEQUENCE, n))
    case _ => None
  }

  /**
   * The decision table of WriteCatalogEntry: the records (none or one) that the commit of a
   * catalog entry of kind `entry` with a parent of kind `parent` writes, or the error it
   * throws. ALTERs (a table or schema replaced by a new version of the same kind) and new
   * temporary tables are not logged; a drop logs the drop of the old entry's kind; indexes and
   * prepared statements are logged through their queries instead.
   */
  function CatalogRecords(entry: CatalogType, entryName: string, parent: CatalogType, parentName: string,
                          parentTemporary: bool): (r: Result<seq<LogRecord>, string>)
    ensures r.Err? <==>
      !(Logged(parent) || parent == DELETED_ENTRY || parent == INDEX || parent == PREPARED_STATEMENT) ||
      (parent == DELETED_ENTRY && !Logged(entry) && entry != PREPARED_STATEMENT)
    ensures r.Err? ==> r.error == if parent == DELETED_ENTRY then DROP_UNKNOWN else WRITE_UNKNOWN
    ensures r.Ok? ==> |r.value| <= 1
    ensures r.Ok? && r.value != [] <==>
      (Logged(parent) && !((parent == TABLE || parent == SCHEMA) && entry == parent) &&
        !(parent == TABLE && parentTemporary)) ||
      (parent == DELETED_ENTRY && Logged(entry))
    ensures r.Ok? && r.value != [] ==> ChangeOf(r.value[0]) == Some(
      if parent == DELETED_ENTRY then CatalogChange(false, entry, entryName) else CatalogChange(true, parent, parentName))
  {
    match parent
    case TABLE =>
      if entry == TABLE || parentTemporary then Ok([]) else Ok([CreateTable(parentName)])
    case SCHEMA =>
      if entry == SCHEMA then Ok([]) else Ok([CreateSchema(parentName)])
    case VIEW => Ok([CreateView(parentName)])
    case SEQUENCE => Ok([CreateSequence(parentName)])
    case DELETED_ENTRY =>
      if entry == TABLE then Ok([DropTable(entryName)])
      else if entry == SCHEMA then Ok([DropSchema(entryName)])
      else if entry == VIEW then Ok([DropView(entryName)])
      else if entry == SEQUENCE then Ok([DropSequence(entryName)])
      else if entry == PREPARED_STATEMENT then Ok([])
      else Err(DROP_UNKNOWN)
    case INDEX => Ok([])
    case PREPARED_STATEMENT => Ok([])
    case _ => Err(WRITE_UNKNOWN)
  }

  /** The set-table record that SwitchTable writes when the table changes, and nothing otherwise. */
  function SwitchRecords(current: DataTable?, table: DataTable): (r: seq<LogRecord>)
    ensures current == table <==> r == []
    ensures r != [] ==> r == [SetTable(table.schema, table.name)]
  {
    if current == table then [] else [SetTable(table.schema, table.name)]
  }

  /**
   * The delete versions of the rows of one vector: for each position, the id of the
   * transaction that deleted the row, replaced by the commit id once that transaction
   * commits. The chunk version classes are not part of this model; this keeps the one array
   * of theirs that committing a delete writes.
   */
  class ChunkVersionInfo {
    const deleted: array<int>

    /** Every position starts with the same id (the source's "not deleted" marker). */
    constructor(initial: int)
      ensures deleted.Length == STANDARD_VECTOR_SIZE && fresh(deleted)
      ensures forall p :: 0 <= p < deleted.Length ==> deleted[p] == initial
    {
      deleted := new int[STANDARD_VECTOR_SIZE](_ => initial);
    }

    /** CommitDelete: each listed position gets the commit id; every other position keeps its id. */
    method CommitDelete(commitId: int, rows: seq<nat>)
      requires forall i :: 0 <= i < |rows| ==> rows[i] < deleted.Length
      modifies deleted
      ensures forall p :: 0 <= p < deleted.Length ==>
        deleted[p] == if p in rows then commitId else old(deleted[p])
    {
      var i := 0;
      while i < |rows|
        invariant i <= |rows|
        invariant forall p :: 0 <= p < deleted.Length ==>
          deleted[p] == if p in rows[..i] then commitId else old(deleted[p])
      {
        deleted[rows[i]] := commitId;
        assert rows[..i + 1] == rows[..i] + [rows[i]];
        i := i + 1;
      }
      assert rows[..i] == rows;
    }
  }

  /** The rows of one vector of a table that a transaction deleted, with the vector's delete versions. */
  datatype DeleteInfo = DeleteInfo(table: DataTable, vinfo: ChunkVersionInfo, baseRow: nat, rows: seq<nat>)

  /** A delete record logs the row id base_row + rows[i] for each deleted row, in order. */
  predicate DeleteLogged(record: LogRecord, info: DeleteInfo)
  {
    record.Delete? && |record.rowIds| == |info.rows| &&
    forall i :: 0 <= i < |info.rows| ==> record.rowIds[i] == info.baseRow + info.rows[i]
  }

  /**
   * The rows of one vector of one column that a transaction updated. `values` stands for the
   * segment's contents of that vector, which Fetch copies out (the segment code is not part of
   * this model).
   */
  class UpdateInfo {
    const table: DataTable
    const column: nat
    const columnType: TypeId
    /** The row id of the segment's first row. */
    const rowStart: nat
    const vectorIndex: nat
    /** The positions within the vector of the updated rows. */
    const tuples: seq<nat>
    const values: seq<Value>
    var versionNumber: int

    constructor(table: DataTable, column: nat, columnType: TypeId, rowStart: nat, vectorIndex: nat,
                tuples: seq<nat>, values: seq<Value>, versionNumber: int)
      ensures this.table == table && this.column == column && this.columnType == columnType
      ensures this.rowStart == rowStart && this.vectorIndex == vectorIndex
      ensures this.tuples == tuples && this.values == values && this.versionNumber == versionNumber
    {
      this.table := table;
      this.column := column;
      this.columnType := columnType;
      this.rowStart := rowStart;
      this.vectorIndex := vectorIndex;
      this.tuples := tuples;
      this.values := values;
      this.versionNumber := versionNumber;
    }

    /** A vector holds at most STANDARD_VECTOR_SIZE values and the updated positions lie in it. */
    predicate Valid()
    {
      |values| <= STANDARD_VECTOR_SIZE && forall i :: 0 <= i < |tuples| ==> tuples[i] < |values|
    }
  }

  /** The row id of the row at position `tuple` of vector `vectorIndex` of a segment starting at row `rowStart`. */
  function UpdateRowId(rowStart: nat, vectorIndex: nat, tuple: nat): nat
  {
    rowStart + vectorIndex * STANDARD_VECTOR_SIZE + tuple
  }

  /**
   * An update record logs, for each updated position, the vector's value there and the row id
   * of that position.
   */
  predicate UpdateLogged(record: LogRecord, info: UpdateInfo)
    requires info.Valid()
  {
    record.Update? && record.column == info.column &&
    |record.values| == |info.tuples| && |record.rowIds| == |info.tuples| &&
    forall i :: 0 <= i < |info.tuples| ==>
      record.values[i] == info.values[info.tuples[i]] &&
      record.rowIds[i] == UpdateRowId(info.rowStart, info.vectorIndex, info.tuples[i])
  }

  /**
   * Each row id of an update record points back at the updated row: its offset from the
   * segment's start divides into the vector index and the position in the vector.
   */
  lemma UpdateRowIdsLocate(rowStart: nat, vectorIndex: nat, tuple: nat)
    requires tuple < STANDARD_VECTOR_SIZE
    ensures var id := UpdateRowId(rowStart, vectorIndex, tuple);
      id >= rowStart &&
      (id - rowStart) / STANDARD_VECTOR_SIZE == vectorIndex &&
      (id - rowStart) % STANDARD_VECTOR_SIZE == tuple
  {
    var offset := vectorIndex * STANDARD_VECTOR_SIZE + tuple;
    assert offset == UpdateRowId(rowStart, vectorIndex, tuple) - rowStart;
    DivideVector(vectorIndex, tuple);
  }

  lemma DivideVector(q: nat, r: nat)
    requires r < STANDARD_VECTOR_SIZE
    ensures (q * STANDARD_VECTOR_SIZE + r) / STANDARD_VECTOR_SIZE == q
    ensures (q * STANDARD_VECTOR_SIZE + r) % STANDARD_VECTOR_SIZE == r
  {
  }

  /** The entries of an undo buffer, each with the data it points at. */
  datatype UndoEntry =
    | EmptyEntry
    | CatalogUndo(catalog: CatalogEntry)
    | InsertTuple
    | DeleteTuple(delete: DeleteInfo)
    | UpdateTuple(update: UpdateInfo)
    | QueryUndo(query: string)
    | DataUndo

  /** The objects that committing `entry` stamps or changes. */
  function Stamped(entry: UndoEntry): set<object?>
  {
    match entry
    case CatalogUndo(c) => {c.parent}
    case DeleteTuple(d) => {d.table, d.vinfo.deleted}
    case UpdateTuple(u) => {u}
    case _ => {}
  }

  /** Whether committing `entry` writes to the log. */
  predicate Logs(hasLog: bool, entry: UndoEntry)
  {
    hasLog && match entry
      case CatalogUndo(_) => true
      case QueryUndo(_) => true
      case DeleteTuple(d) => !d.table.temporary
      case UpdateTuple(u) => !u.table.temporary
      case _ => false
  }

  /** The values `sel` picks out of `a`, in the order of `sel`. */
  function Select(a: seq<int>, sel: seq<nat>): (r: seq<int>)
    requires forall i :: 0 <= i < |sel| ==> sel[i] < |a|
    ensures |r| == |sel| && forall i :: 0 <= i < |sel| ==> r[i] == a[sel[i]]
    decreases |sel|
  {
    if sel == [] then [] else Select(a, sel[..|sel| - 1]) + [a[sel[|sel| - 1]]]
  }

  /** The scratch chunk for update records: a vector of the column's type and one of row ids. */
  class UpdateChunk {
    const columnType: TypeId
    const values: array<Value>
    const rowIds: array<int>

    constructor(columnType: TypeId)
      ensures this.columnType == columnType
      ensures values.Length == STANDARD_VECTOR_SIZE && rowIds.Length == STANDARD_VECTOR_SIZE
      ensures fresh(values) && fresh(rowIds) && values != rowIds
    {
      this.columnType := columnType;
      values := new Value[STANDARD_VECTOR_SIZE];
      rowIds := new int[STANDARD_VECTOR_SIZE];
    }
  }

  class CommitState {
    /** The log to write to; null when the database keeps none. */
    const log: WriteAheadLog?
    const commitId: nat
    /** The table the last set-table record named. */
    var currentTable: DataTable?
    /** The scratch row-id vector for delete records, made on first use. */
    var deleteChunk: array?<int>
    /** The scratch chunk for update records, made on first use and remade when the column type changes. */
    var updateChunk: UpdateChunk?

    /** The scratch vectors hold a full vector each, and the update chunk's two are distinct. */
    predicate Valid()
      reads this
    {
      (deleteChunk != null ==> deleteChunk.Length == STANDARD_VECTOR_SIZE) &&
      (updateChunk != null ==>
        updateChunk.values.Length == STANDARD_VECTOR_SIZE && updateChunk.rowIds.Length == STANDARD_VECTOR_SIZE &&
        updateChunk.values != updateChunk.rowIds)
    }

    /** The arrays of the scratch chunks. */
    function Scratch(): set<object?>
      reads this
    {
      var delete: set<object?> := {deleteChunk as object?};
      delete + if updateChunk == null then {} else {updateChunk.values, updateChunk.rowIds}
    }

    /** A commit state starts with no current table and no scratch chunks; the log defaults to none. */
    constructor(commitId: nat, log: WriteAheadLog? := null)
      ensures this.commitId == commitId && this.log == log
      ensures currentTable == null && deleteChunk == null && updateChunk == null
      ensures Valid()
    {
      this.commitId := commitId;
      this.log := log;
      currentTable := null;
      deleteChunk := null;
      updateChunk := null;
    }

    /** Writes a set-table record when `table` is not the current table, and makes it the current one. */
    method SwitchTable(table: DataTable)
      requires log != null
      modifies this`currentTable, log
      ensures currentTable == table
      ensures log.records == old(log.records) + SwitchRecords(old(currentTable), table)
    {
      if currentTable != table {
        log.Write(SetTable(table.schema, table.name));
        currentTable := table;
      }
    }

    /** Writes the record of a committed catalog entry, as the decision table says, or fails. */
    method WriteCatalogEntry(entry: CatalogEntry) returns (r: Result<(), string>)
      requires log != null && entry.parent != null
      modifies log
      ensures var d := CatalogRecords(entry.kind, entry.name, entry.parent.kind, entry.parent.name, entry.parent.temporary);
        (r.Ok? <==> d.Ok?) && (r.Err? ==> r.error == d.error) &&
        log.records == old(log.records) + if d.Ok? then d.value else []
    {
      var parent := entry.parent;
      match parent.kind {
        case TABLE =>
          if entry.kind != TABLE && !parent.temporary {
            log.Write(CreateTable(parent.name));
          }
        case SCHEMA =>
          if entry.kind != SCHEMA {
            log.Write(CreateSchema(parent.name));
          }
        case VIEW =>
          log.Write(CreateView(parent.name));
        case SEQUENCE =>
          log.Write(CreateSequence(parent.name));
        case DELETED_ENTRY =>
          if entry.kind == TABLE {
            log.Write(DropTable(entry.name));
          } else if entry.kind == SCHEMA {
            log.Write(DropSchema(entry.name));
          } else if entry.kind == VIEW {
            log.Write(DropView(entry.name));
          } else if entry.kind == SEQUENCE {
            log.Write(DropSequence(entry.name));
          } else if entry.kind != PREPARED_STATEMENT {
            return Err(DROP_UNKNOWN);
          }
        case INDEX =>
        case PREPARED_STATEMENT =>
        case _ =>
          return Err(WRITE_UNKNOWN);
      }
      return Ok(());
    }

    /** Writes the row ids of a committed delete, after switching to its table. */
    method WriteDelete(info: DeleteInfo)
      requires log != null && Valid() && |info.rows| <= STANDARD_VECTOR_SIZE
      modifies this`currentTable, this`deleteChunk, deleteChunk, log
      ensures Valid() && currentTable == info.table && deleteChunk != null
      ensures old(deleteChunk) != null ==> deleteChunk == old(deleteChunk)
      ensures var n := |old(log.records)| + |SwitchRecords(old(currentTable), info.table)|;
        |log.records| == n + 1 &&
        log.records[..n] == old(log.records) + SwitchRecords(old(currentTable), info.table) &&
        DeleteLogged(log.records[n], info)
    {
      SwitchTable(info.table);
      if deleteChunk == null {
        deleteChunk := new int[STANDARD_VECTOR_SIZE];
      }
      var rows := deleteChunk;
      var i := 0;
      while i < |info.rows|
        modifies rows
        invariant i <= |info.rows|
        invariant forall j :: 0 <= j < i ==> rows[j] == info.baseRow + info.rows[j]
      {
        rows[i] := info.baseRow + info.rows[i];
        i := i + 1;
      }
      ghost var n := |log.records|;
      log.Write(Delete(rows[..|info.rows|]));
      assert log.records[..n] == old(log.records) + SwitchRecords(old(currentTable), info.table);
    }

    /**
     * Writes a committed update: the vector's current values at the updated positions and
     * their row ids, after switching to its table. The scratch chunk is remade only when
     * there is none or its value type is not the column's.
     */
    method WriteUpdate(info: UpdateInfo)
      requires log != null && Valid() && info.Valid()
      modifies this`currentTable, this`updateChunk, Scratch(), log
      ensures Valid() && currentTable == info.table
      ensures updateChunk != null && updateChunk.columnType == info.columnType
      ensures old(updateChunk) != null && old(updateChunk.columnType) == info.columnType ==> updateChunk == old(updateChunk)
      ensures old(updateChunk) == null || old(updateChunk.columnType) != info.columnType ==> fresh(updateChunk)
      ensures var n := |old(log.records)| + |SwitchRecords(old(currentTable), info.table)|;
        |log.records| == n + 1 &&
        log.records[..n] == old(log.records) + SwitchRecords(old(currentTable), info.table) &&
        UpdateLogged(log.records[n], info)
    {
      SwitchTable(info.table);
      if updateChunk == null || updateChunk.columnType != info.columnType {
        updateChunk := new UpdateChunk(info.columnType);
      }
      var chunk := updateChunk;
      FillUpdateChunk(chunk, info);
      ghost var n := |log.records|;
      log.Write(Update(info.column, Select(chunk.values[..], info.tuples), Select(chunk.rowIds[..], info.tuples)));
      assert log.records[..n] == old(log.records) + SwitchRecords(old(currentTable), info.table);
    }

    /**
     * Fetches the vector's values into the scratch chunk and writes the row id of each updated
     * position at that position.
     */
    static method FillUpdateChunk(chunk: UpdateChunk, info: UpdateInfo)
      requires info.Valid() && chunk.values != chunk.rowIds
      requires chunk.values.Length == STANDARD_VECTOR_SIZE && chunk.rowIds.Length == STANDARD_VECTOR_SIZE
      modifies chunk.values, chunk.rowIds
      ensures forall j :: 0 <= j < |info.tuples| ==>
        chunk.values[info.tuples[j]] == info.values[info.tuples[j]] &&
        chunk.rowIds[info.tuples[j]] == UpdateRowId(info.rowStart, info.vectorIndex, info.tuples[j])
    {
      forall i | 0 <= i < |info.values| {
        chunk.values[i] := info.values[i];
      }
      var start := info.rowStart + info.vectorIndex * STANDARD_VECTOR_SIZE;
      var i := 0;
      while i < |info.tuples|
        modifies chunk.rowIds
        invariant i <= |info.tuples|
        invariant forall j :: 0 <= j < |info.values| ==> chunk.values[j] == info.values[j]
        invariant forall j :: 0 <= j < i ==> chunk.rowIds[info.tuples[j]] == start + info.tuples[j]
      {
        chunk.rowIds[info.tuples[i]] := start + info.tuples[i];
        i := i + 1;
      }
    }

    /**
     * CommitEntry<HAS_LOG>: commits one undo-buffer entry. Catalog entries have their new
     * version stamped with the commit id, updates their version number; deletes lower the
     * table's cardinality and have the deleted rows' versions stamped with the commit id.
     * With a log (and a non-temporary table) the entry is written to it.
     * Data entries need nothing; any other kind of entry is an error.
     */
    method CommitEntry(hasLog: bool, entry: UndoEntry) returns (r: Result<(), string>)
      requires Valid() && (hasLog ==> log != null)
      requires entry.CatalogUndo? ==> entry.catalog.parent != null
      requires entry.DeleteTuple? ==> |entry.delete.rows| <= STANDARD_VECTOR_SIZE
      requires entry.DeleteTuple? ==>
        (forall i :: 0 <= i < |entry.delete.rows| ==> entry.delete.rows[i] < entry.delete.vinfo.deleted.Length) &&
        entry.delete.vinfo.deleted != deleteChunk
      requires entry.UpdateTuple? ==> entry.update.Valid()
      modifies this, Scratch(), log, Stamped(entry)
      ensures Valid()
      ensures (entry.EmptyEntry? || entry.InsertTuple?) ==> r == Err(COMMIT_UNKNOWN)
      ensures entry.CatalogUndo? ==>
        var c := entry.catalog;
        var d := CatalogRecords(c.kind, c.name, c.parent.kind, c.parent.name, c.parent.temporary);
        c.parent.timestamp == commitId &&
        (r.Err? <==> hasLog && d.Err?) &&
        (hasLog ==> log.records == old(log.records) + if d.Ok? then d.value else [])
      ensures entry.DeleteTuple? ==>
        var d := entry.delete;
        r.Ok? && d.table.cardinality == old(d.table.cardinality) - |d.rows| &&
        (forall p :: 0 <= p < d.vinfo.deleted.Length ==>
          d.vinfo.deleted[p] == if p in d.rows then commitId else old(d.vinfo.deleted[p])) &&
        (hasLog && !d.table.temporary ==>
          var n := |old(log.records)| + |SwitchRecords(old(currentTable), d.table)|;
          |log.records| == n + 1 && log.records[..n] == old(log.records) + SwitchRecords(old(currentTable), d.table) &&
          DeleteLogged(log.records[n], d))
      ensures entry.UpdateTuple? ==>
        var u := entry.update;
        r.Ok? && u.versionNumber == commitId &&
        (hasLog && !u.table.temporary ==>
          var n := |old(log.records)| + |SwitchRecords(old(currentTable), u.table)|;
          |log.records| == n + 1 && log.records[..n] == old(log.records) + SwitchRecords(old(currentTable), u.table) &&
          UpdateLogged(log.records[n], u))
      ensures entry.QueryUndo? ==> r.Ok? && (hasLog ==> log.records == old(log.records) + [Query(entry.query)])
      ensures entry.DataUndo? ==> r.Ok?
      ensures log != null && !Logs(hasLog, entry) ==> log.records == old(log.records)
    {
      match entry {
        case CatalogUndo(c) =>
          c.parent.timestamp := commitId;
          r := Ok(());
          if hasLog {
            r := WriteCatalogEntry(c);
          }
        case DeleteTuple(d) =>
          d.table.cardinality := d.table.cardinality - |d.rows|;
          if hasLog && !d.table.temporary {
            WriteDelete(d);
          }
          d.vinfo.CommitDelete(commitId, d.rows);
          r := Ok(());
        case UpdateTuple(u) =>
          if hasLog && !u.table.temporary {
            WriteUpdate(u);
          }
          u.versionNumber := commitId;
          r := Ok(());
        case QueryUndo(q) =>
          if hasLog {
            log.Write(Query(q));
          }
          r := Ok(());
        case DataUndo =>
          r := Ok(());
        case _ =>
          r := Err(COMMIT_UNKNOWN);
      }
    }
  }
}
