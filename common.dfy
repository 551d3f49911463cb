/**
 * Constants and the table object that the transaction-local storage and the commit protocol
 * both work on.
 */
module Common {

  /** The number of rows in one vector, and so in one chunk. */
  const STANDARD_VECTOR_SIZE: nat := 1024

  /**
   * Row ids of rows that live only in a transaction's local storage start here; the row at
   * position p of the local collection has id MAX_ROW_ID + p.
   */
  const MAX_ROW_ID: nat := 4611686018427388000

  /** The physical types a vector can hold; ADDRESS is the type of raw memory addresses. */
  datatype TypeId =
    | BOOLEAN | TINYINT | SMALLINT | INTEGER | BIGINT | ADDRESS | HASH | FLOAT | DOUBLE | VARCHAR

  /** A value of a column; the model does not tell the physical widths apart. */
  type Value = int

  /** One row: a value per column. */
  type Row = seq<Value>

  /** An index key: the values of the index's key columns. */
  type Key = seq<Value>

  /** The value in column c of a row (rows always have a value per column of their table). */
  function Cell(row: Row, c: nat): Value
  {
    if c < |row| then row[c] else 0
  }

  /** The key a row has in an index over the given columns. */
  function KeyOf(row: Row, columns: seq<nat>): (k: Key)
    ensures |k| == |columns|
    ensures forall j :: 0 <= j < |columns| ==> k[j] == Cell(row, columns[j])
  {
    seq(|columns|, j requires 0 <= j < |columns| => Cell(row, columns[j]))
  }

  /** The keys that a batch of rows brings to an index over the given columns. */
  function Keys(rows: seq<Row>, columns: seq<nat>): (m: multiset<Key>)
    ensures |m| == |rows|
    ensures forall k :: 0 <= k < |rows| ==> KeyOf(rows[k], columns) in m
  {
    if rows == [] then multiset{}
    else Keys(rows[..|rows| - 1], columns) + multiset{KeyOf(rows[|rows| - 1], columns)}
  }

  /** The keys of two batches one after the other are the keys of each. */
  lemma {:induction false} KeysAppend(a: seq<Row>, b: seq<Row>, columns: seq<nat>)
    ensures Keys(a + b, columns) == Keys(a, columns) + Keys(b, columns)
    decreases |b|
  {
    if b == [] {
      assert a + b == a;
    } else {
      var b' := b[..|b| - 1];
      assert (a + b)[..|a + b| - 1] == a + b';
      KeysAppend(a, b', columns);
    }
  }

  /**
   * A unique index holding `held` accepts the keys `added` exactly when every added key
   * occurs once among the added keys and not at all among the held ones.
   */
  predicate Accepts(held: multiset<Key>, added: multiset<Key>)
  {
    forall k :: k in added ==> held[k] + added[k] <= 1
  }

  /**
   * A unique index accepts a batch split in two exactly when it accepts the first part and,
   * holding that part too, accepts the second: appending a batch chunk by chunk decides the
   * same as appending it at once.
   */
  lemma AcceptsInParts(held: multiset<Key>, a: multiset<Key>, b: multiset<Key>)
    ensures Accepts(held, a + b) <==> Accepts(held, a) && Accepts(held + a, b)
  {
    if Accepts(held, a + b) {
      forall k | k in a ensures held[k] + a[k] <= 1 {
        assert k in a + b;
      }
      forall k | k in b ensures (held + a)[k] + b[k] <= 1 {
        assert k in a + b;
      }
    }
    if Accepts(held, a) && Accepts(held + a, b) {
      forall k | k in a + b ensures held[k] + (a + b)[k] <= 1 {
        if k !in b {
          assert k in a;
        }
      }
    }
  }

  /** Taking the keys of a batch out of the index that holds them as well gives back the index. */
  lemma KeysOutAgain(held: multiset<Key>, added: multiset<Key>)
    ensures held + added - added == held
  {
  }

  /**
   * An index of a table: the columns its key is made of, whether it enforces uniqueness,
   * and the keys it holds (the row ids they point to are left out).
   */
  datatype Index = Index(columns: seq<nat>, unique: bool, keys: multiset<Key>)

  /** Whether every unique index among `indexes` accepts the keys of `chunk`. */
  predicate AcceptedBy(indexes: seq<Index>, chunk: seq<Row>)
  {
    forall j :: 0 <= j < |indexes| && indexes[j].unique ==> Accepts(indexes[j].keys, Keys(chunk, indexes[j].columns))
  }

  /** Every index holding the keys of `chunk` as well. */
  function WithKeys(indexes: seq<Index>, chunk: seq<Row>): (r: seq<Index>)
    ensures |r| == |indexes|
    ensures forall j :: 0 <= j < |indexes| ==>
      r[j] == indexes[j].(keys := indexes[j].keys + Keys(chunk, indexes[j].columns))
  {
    seq(|indexes|, j requires 0 <= j < |indexes| =>
      indexes[j].(keys := indexes[j].keys + Keys(chunk, indexes[j].columns)))
  }

  /** Every index without the keys of `chunk`. */
  function WithoutKeys(indexes: seq<Index>, chunk: seq<Row>): (r: seq<Index>)
    ensures |r| == |indexes|
    ensures forall j :: 0 <= j < |indexes| ==>
      r[j] == indexes[j].(keys := indexes[j].keys - Keys(chunk, indexes[j].columns))
  {
    seq(|indexes|, j requires 0 <= j < |indexes| =>
      indexes[j].(keys := indexes[j].keys - Keys(chunk, indexes[j].columns)))
  }

  /** No rows add no keys and take none away. */
  lemma WithNoKeys(indexes: seq<Index>)
    ensures WithKeys(indexes, []) == indexes && WithoutKeys(indexes, []) == indexes
  {
    forall j | 0 <= j < |indexes|
      ensures WithKeys(indexes, [])[j] == indexes[j] && WithoutKeys(indexes, [])[j] == indexes[j]
    {
      assert Keys([], indexes[j].columns) == multiset{};
    }
  }

  /** Adding the keys of two batches one after the other adds the keys of both at once. */
  lemma WithKeysAppend(indexes: seq<Index>, a: seq<Row>, b: seq<Row>)
    ensures WithKeys(WithKeys(indexes, a), b) == WithKeys(indexes, a + b)
  {
    forall j | 0 <= j < |indexes|
      ensures WithKeys(WithKeys(indexes, a), b)[j] == WithKeys(indexes, a + b)[j]
    {
      KeysAppend(a, b, indexes[j].columns);
    }
  }

  /** Taking out the keys of two batches one after the other takes out the keys of both at once. */
  lemma WithoutKeysAppend(indexes: seq<Index>, a: seq<Row>, b: seq<Row>)
    ensures WithoutKeys(WithoutKeys(indexes, a), b) == WithoutKeys(indexes, a + b)
  {
    forall j | 0 <= j < |indexes|
      ensures WithoutKeys(WithoutKeys(indexes, a), b)[j] == WithoutKeys(indexes, a + b)[j]
    {
      KeysAppend(a, b, indexes[j].columns);
      MultisetDifference(indexes[j].keys, Keys(a, indexes[j].columns), Keys(b, indexes[j].columns));
    }
  }

  lemma MultisetDifference(m: multiset<Key>, a: multiset<Key>, b: multiset<Key>)
    ensures m - a - b == m - (a + b)
  {
  }

  /** RemoveFromIndexes undoes AppendToIndexes. */
  lemma WithoutWithKeys(indexes: seq<Index>, chunk: seq<Row>)
    ensures WithoutKeys(WithKeys(indexes, chunk), chunk) == indexes
  {
    forall j | 0 <= j < |indexes|
      ensures WithoutKeys(WithKeys(indexes, chunk), chunk)[j] == indexes[j]
    {
      KeysOutAgain(indexes[j].keys, Keys(chunk, indexes[j].columns));
    }
  }

  /**
   * The indexes accept a batch split in two exactly when they accept the first part and,
   * holding it, the second: appending chunk by chunk decides as appending all at once.
   */
  lemma AcceptedInParts(indexes: seq<Index>, a: seq<Row>, b: seq<Row>)
    ensures AcceptedBy(indexes, a + b) <==> AcceptedBy(indexes, a) && AcceptedBy(WithKeys(indexes, a), b)
  {
    forall j | 0 <= j < |indexes|
      ensures Accepts(indexes[j].keys, Keys(a + b, indexes[j].columns)) <==>
        Accepts(indexes[j].keys, Keys(a, indexes[j].columns)) &&
        Accepts(WithKeys(indexes, a)[j].keys, Keys(b, indexes[j].columns))
    {
      KeysAppend(a, b, indexes[j].columns);
      AcceptsInParts(indexes[j].keys, Keys(a, indexes[j].columns), Keys(b, indexes[j].columns));
    }
  }

  lemma KeysOne(row: Row, columns: seq<nat>)
    ensures Keys([row], columns) == multiset{KeyOf(row, columns)}
  {
    assert [row][..0] == [];
  }

  /**
   * A chunk holding two rows with the same key of a unique index is rejected as a whole, and
   * so is a chunk holding a key the index already has.
   */
  lemma DuplicateKeyRejected(indexes: seq<Index>, chunk: seq<Row>, j: nat, a: nat, b: nat)
    requires j < |indexes| && indexes[j].unique && a < |chunk| && b < |chunk|
    requires var key := KeyOf(chunk[a], indexes[j].columns);
      (a != b && key == KeyOf(chunk[b], indexes[j].columns)) || key in indexes[j].keys
    ensures !AcceptedBy(indexes, chunk)
  {
    var columns := indexes[j].columns;
    var key := KeyOf(chunk[a], columns);
    if a != b && key == KeyOf(chunk[b], columns) {
      var lo := if a < b then a else b;
      var hi := if a < b then b else a;
      KeysSplit(chunk, hi, columns);
      assert chunk[..hi][lo] == chunk[lo];
      KeysSplit(chunk[..hi], lo, columns);
      assert Keys(chunk, columns)[key] >= 2;
    } else {
      KeysSplit(chunk, a, columns);
    }
    assert !Accepts(indexes[j].keys, Keys(chunk, columns));
  }

  /** The keys of some rows are those of the rows before p, of row p and of the rows after it. */
  lemma KeysSplit(rows: seq<Row>, p: nat, columns: seq<nat>)
    requires p < |rows|
    ensures Keys(rows, columns) ==
      Keys(rows[..p], columns) + multiset{KeyOf(rows[p], columns)} + Keys(rows[p + 1..], columns)
  {
    assert rows == rows[..p] + [rows[p]] + rows[p + 1..];
    KeysAppend(rows[..p] + [rows[p]], rows[p + 1..], columns);
    KeysAppend(rows[..p], [rows[p]], columns);
    KeysOne(rows[p], columns);
  }

  /**
   * The part of a DataTable that the core reads and changes. The table's own code (its
   * appends and its indexes) is not part of this model; the methods below give it the
   * behaviour the core relies on.
   */
  class DataTable {
    const schema: string
    const name: string
    /** IsTemporary(): a temporary table is never written to the log. */
    const temporary: bool
    /** The physical type of each column. */
    const types: seq<TypeId>
    /** The committed rows; the row at position p has row id p. */
    var rows: seq<Row>
    /** The table's indexes. */
    var indexes: seq<Index>
    /** The table's row count as the catalog sees it. */
    var cardinality: int

    constructor(schema: string, name: string, temporary: bool, types: seq<TypeId>, indexes: seq<Index>)
      ensures this.schema == schema && this.name == name && this.temporary == temporary
      ensures this.types == types && this.indexes == indexes
      ensures rows == [] && cardinality == 0
    {
      this.schema := schema;
      this.name := name;
      this.temporary := temporary;
      this.types := types;
      this.indexes := indexes;
      rows := [];
      cardinality := 0;
    }

    /**
     * InitializeAppend: the row id the next appended row gets.
     */
    method InitializeAppend() returns (rowStart: nat)
      ensures rowStart == |rows|
    {
      rowStart := |rows|;
    }

    /**
     * AppendToIndexes: adds the keys of `chunk` (row ids from `rowStart` on) to every index,
     * all or nothing; it fails when a unique index rejects them.
     */
    method AppendToIndexes(chunk: seq<Row>, rowStart: int) returns (ok: bool)
      modifies `indexes
      ensures ok == old(AcceptedBy(indexes, chunk))
      ensures indexes == if ok then old(WithKeys(indexes, chunk)) else old(indexes)
    {
      ok := AcceptedBy(indexes, chunk);
      if ok {
        indexes := WithKeys(indexes, chunk);
      }
    }

    /** RemoveFromIndexes: takes the keys of `chunk` (row ids from `rowStart` on) out again. */
    method RemoveFromIndexes(chunk: seq<Row>, rowStart: int)
      modifies `indexes
      ensures indexes == old(WithoutKeys(indexes, chunk))
    {
      indexes := WithoutKeys(indexes, chunk);
    }

    /** Append: the committed chunk becomes the table's last rows. */
    method Append(chunk: seq<Row>)
      modifies `rows
      ensures rows == old(rows) + chunk
    {
      rows := rows + chunk;
    }
  }
}
