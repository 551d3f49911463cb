/**
 * The update info of a string segment's vector: the rows of the vector that have been updated,
 * ascending, each with the location of its current string, kept in three fixed arrays of
 * STANDARD_VECTOR_SIZE entries and a count; and the undo record an update leaves behind.
 * Rolling an update back filters the entries in place.
 */
module StringUpdates {
  import opened Results
  import opened Common
  import opened StringLayout

  /** One updated row of a vector and the location of its current string. */
  datatype UpdateEntry = UpdateEntry(id: int, location: StringLocation)

  /**
   * The undo record of an update of one vector: the updated rows (ascending), the vector's null
   * mask before the update, and the location each row's string had before the update.
   */
  datatype UpdateVersion = UpdateVersion(vectorIndex: nat, tuples: seq<int>, nullmask: seq<bool>, locations: seq<StringLocation>)

  predicate Ascending(xs: seq<int>)
  {
    forall i, j :: 0 <= i < j < |xs| ==> xs[i] < xs[j]
  }

  /** Rows of one vector: offsets in [0, STANDARD_VECTOR_SIZE). */
  predicate InVector(xs: seq<int>)
  {
    forall i :: 0 <= i < |xs| ==> 0 <= xs[i] < STANDARD_VECTOR_SIZE
  }

  /** The rows of a list of entries. */
  function Ids(es: seq<UpdateEntry>): (r: seq<int>)
    ensures |r| == |es| && forall i :: 0 <= i < |es| ==> r[i] == es[i].id
  {
    seq(|es|, i requires 0 <= i < |es| => es[i].id)
  }

  /** The entries three parallel arrays hold up to a count. */
  function EntriesOf(ids: seq<int>, blockIds: seq<int>, offsets: seq<int>): (r: seq<UpdateEntry>)
    requires |ids| == |blockIds| == |offsets|
    ensures |r| == |ids| && forall i :: 0 <= i < |ids| ==> r[i] == UpdateEntry(ids[i], StringLocation(blockIds[i], offsets[i]))
  {
    seq(|ids|, i requires 0 <= i < |ids| => UpdateEntry(ids[i], StringLocation(blockIds[i], offsets[i])))
  }

  /** The rows of the entries three arrays hold are the first array. */
  lemma IdsOf(ids: seq<int>, blockIds: seq<int>, offsets: seq<int>)
    requires |ids| == |blockIds| == |offsets|
    ensures Ids(EntriesOf(ids, blockIds, offsets)) == ids
  {
  }

  /** The position of `x` in `xs`, if it is there. */
  function Find(xs: seq<int>, x: int): (r: Option<nat>)
    ensures r.Some? ==> r.value < |xs| && xs[r.value] == x
    ensures r.None? <==> x !in xs
  {
    if xs == [] then None
    else if xs[0] == x then Some(0)
    else match Find(xs[1..], x)
      case Some(i) => Some(i + 1)
      case None => None
  }

  /**
   * In an ascending list, once every element before `u` is below `x` and the one at `u` (if
   * any) is not, `x` is at `u` or nowhere: what a merge walk relies on.
   */
  lemma FindAscending(xs: seq<int>, u: nat, x: int)
    requires Ascending(xs) && u <= |xs|
    requires forall v :: 0 <= v < u ==> xs[v] < x
    requires u < |xs| ==> xs[u] >= x
    ensures Find(xs, x) == if u < |xs| && xs[u] == x then Some(u) else None
  {
    var r := Find(xs, x);
    if r.Some? {
      assert xs[r.value] == x;
      assert r.value == u;
    }
  }

  /**
   * The entries of an update info after an update is rolled back, and how many of the update's
   * rows have been met: the first `i` entries walked as RollbackUpdate walks them, next to the
   * update's rows. An entry of a row the update did not touch is kept; an entry of a row it
   * touched gets the row's location from before the update back, unless that location is not in
   * an overflow block, in which case the entry goes and the row reads the base table again.
   */
  function RollbackUpTo(es: seq<UpdateEntry>, tuples: seq<int>, olds: seq<StringLocation>, i: nat): (r: (seq<UpdateEntry>, nat))
    requires i <= |es| && |olds| == |tuples|
    ensures r.1 <= |tuples| && |r.0| <= i
  {
    if i == 0 then ([], 0)
    else
      var previous := RollbackUpTo(es, tuples, olds, i - 1);
      RollbackStep(previous.0, previous.1, es[i - 1], tuples, olds)
  }

  /** One entry of the walk: kept, restored or dropped, next to the update's row `used`. */
  function RollbackStep(kept: seq<UpdateEntry>, used: nat, e: UpdateEntry, tuples: seq<int>, olds: seq<StringLocation>): (r: (seq<UpdateEntry>, nat))
    requires used <= |tuples| && |olds| == |tuples|
    ensures r.1 <= |tuples| && |r.0| <= |kept| + 1
  {
    if used >= |tuples| || e.id != tuples[used] then (kept + [e], used)
    else if olds[used].blockId != INVALID_BLOCK then (kept + [UpdateEntry(e.id, olds[used])], used + 1)
    else (kept, used + 1)
  }

  /**
   * The same filter as a lookup: each entry is looked up among the update's rows on its own,
   * with no walk. The first `i` entries.
   */
  function RestoredUpTo(es: seq<UpdateEntry>, tuples: seq<int>, olds: seq<StringLocation>, i: nat): seq<UpdateEntry>
    requires i <= |es| && |olds| == |tuples|
  {
    if i == 0 then []
    else
      var e := es[i - 1];
      RestoredUpTo(es, tuples, olds, i - 1) +
      match Find(tuples, e.id)
      case None => [e]
      case Some(t) => if olds[t].blockId != INVALID_BLOCK then [UpdateEntry(e.id, olds[t])] else []
  }

  /** What the walk has met after `i` entries: exactly the update's rows up to the i-th entry's row. */
  ghost predicate Met(es: seq<UpdateEntry>, tuples: seq<int>, i: nat, used: nat)
    requires i <= |es|
  {
    used <= |tuples| &&
    (forall t :: 0 <= t < used ==> i > 0 && tuples[t] <= es[i - 1].id) &&
    (used < |tuples| && i > 0 ==> tuples[used] > es[i - 1].id)
  }

  /**
   * Where the walk stands at entry `i`: the update's rows it has met are below the entry's row,
   * and the next one is not, since every row of the update is one of the info's rows.
   */
  lemma WalkPosition(es: seq<UpdateEntry>, tuples: seq<int>, i: nat, used: nat)
    requires i < |es| && Met(es, tuples, i, used)
    requires Ascending(Ids(es)) && Ascending(tuples) && forall t :: 0 <= t < |tuples| ==> tuples[t] in Ids(es)
    ensures forall t :: 0 <= t < used ==> tuples[t] < es[i].id
    ensures used < |tuples| ==> tuples[used] >= es[i].id
  {
    var ids := Ids(es);
    if used < |tuples| {
      var j :| 0 <= j < |ids| && ids[j] == tuples[used];
      assert i == 0 || ids[i - 1] < ids[j];
      assert j >= i;
      assert ids[i] <= ids[j];
    }
    if i > 0 {
      assert ids[i - 1] < ids[i];
    }
  }

  /** Where the walk finds the entry's row among the update's rows, the lookup finds it too. */
  lemma StepIsLookup(kept: seq<UpdateEntry>, used: nat, e: UpdateEntry, tuples: seq<int>, olds: seq<StringLocation>)
    requires used <= |tuples| && |olds| == |tuples|
    requires Find(tuples, e.id) == if used < |tuples| && tuples[used] == e.id then Some(used) else None
    ensures RollbackStep(kept, used, e, tuples, olds).0 == kept +
      match Find(tuples, e.id)
      case None => [e]
      case Some(t) => if olds[t].blockId != INVALID_BLOCK then [UpdateEntry(e.id, olds[t])] else []
  {
  }

  /** After entry `i` the walk has met the update's rows up to that entry's row. */
  lemma MetStep(es: seq<UpdateEntry>, tuples: seq<int>, olds: seq<StringLocation>, kept: seq<UpdateEntry>, i: nat, used: nat)
    requires i < |es| && used <= |tuples| && |olds| == |tuples| && Ascending(tuples)
    requires forall t :: 0 <= t < used ==> tuples[t] < es[i].id
    requires used < |tuples| ==> tuples[used] >= es[i].id
    ensures Met(es, tuples, i + 1, RollbackStep(kept, used, es[i], tuples, olds).1)
  {
    var x := es[i].id;
    if used < |tuples| && tuples[used] == x {
      forall t | used + 1 <= t < |tuples|
        ensures tuples[t] > x
      {
        assert tuples[used] < tuples[t];
      }
    }
  }

  /**
   * When the update's rows are ascending and all among the info's rows, the walk of
   * RollbackUpdate computes the lookup: the in-place filter keeps, restores and drops exactly
   * the entries the lookup does.
   */
  lemma {:induction false} RollbackIsLookup(es: seq<UpdateEntry>, tuples: seq<int>, olds: seq<StringLocation>, i: nat)
    requires i <= |es| && |olds| == |tuples|
    requires Ascending(Ids(es)) && Ascending(tuples) && forall t :: 0 <= t < |tuples| ==> tuples[t] in Ids(es)
    ensures RollbackUpTo(es, tuples, olds, i).0 == RestoredUpTo(es, tuples, olds, i)
    ensures Met(es, tuples, i, RollbackUpTo(es, tuples, olds, i).1)
  {
    if i > 0 {
      RollbackIsLookup(es, tuples, olds, i - 1);
      var previous := RollbackUpTo(es, tuples, olds, i - 1);
      WalkPosition(es, tuples, i - 1, previous.1);
      FindAscending(tuples, previous.1, es[i - 1].id);
      MetStep(es, tuples, olds, previous.0, i - 1, previous.1);
      StepIsLookup(previous.0, previous.1, es[i - 1], tuples, olds);
    }
  }

  /**
   * The filter keeps the entries in order: the rows that remain are ascending, and each is one of
   * the first `i` rows the info had.
   */
  lemma {:induction false} RestoredOrder(es: seq<UpdateEntry>, tuples: seq<int>, olds: seq<StringLocation>, i: nat)
    requires i <= |es| && |olds| == |tuples| && Ascending(Ids(es))
    ensures Ascending(Ids(RestoredUpTo(es, tuples, olds, i)))
    ensures forall k :: 0 <= k < |RestoredUpTo(es, tuples, olds, i)| ==> RestoredUpTo(es, tuples, olds, i)[k].id in Ids(es)[..i]
  {
    if i > 0 {
      RestoredOrder(es, tuples, olds, i - 1);
      var previous := RestoredUpTo(es, tuples, olds, i - 1);
      var r := RestoredUpTo(es, tuples, olds, i);
      forall k | 0 <= k < |previous|
        ensures previous[k].id < es[i - 1].id && previous[k].id in Ids(es)[..i]
      {
        var j :| 0 <= j < i - 1 && Ids(es)[..i - 1][j] == previous[k].id;
        assert Ids(es)[j] < Ids(es)[i - 1];
        assert Ids(es)[..i][j] == previous[k].id;
      }
      assert Ids(es)[..i][i - 1] == es[i - 1].id;
    }
  }

  /** Entries whose rows are among the first `n` rows of entries of a vector are of the vector. */
  lemma WithinVector(es: seq<UpdateEntry>, n: nat, rs: seq<UpdateEntry>)
    requires n <= |es| && InVector(Ids(es)) && forall k :: 0 <= k < |rs| ==> rs[k].id in Ids(es)[..n]
    ensures InVector(Ids(rs))
  {
    forall k | 0 <= k < |rs|
      ensures 0 <= Ids(rs)[k] < STANDARD_VECTOR_SIZE
    {
      var u :| 0 <= u < n && Ids(es)[..n][u] == rs[k].id;
      assert Ids(es)[u] == rs[k].id;
    }
  }

  /** A null mask with the bits of rows `base + t`, t in `tuples`, taken from `prior`. */
  function RestoredMask(mask: seq<bool>, base: nat, tuples: seq<int>, prior: seq<bool>): (r: seq<bool>)
    requires |prior| == STANDARD_VECTOR_SIZE && InVector(tuples)
  {
    seq(|mask|, k requires 0 <= k < |mask| => if k - base in tuples then prior[k - base] else mask[k])
  }

  /** The loop of RollbackUpdate over the updated rows, bit by bit. */
  method RestoreBits(mask: seq<bool>, base: nat, tuples: seq<int>, prior: seq<bool>) returns (r: seq<bool>)
    requires |prior| == STANDARD_VECTOR_SIZE && InVector(tuples)
    requires forall t :: 0 <= t < |tuples| ==> base + tuples[t] < |mask|
    ensures r == RestoredMask(mask, base, tuples, prior)
  {
    r := mask;
    var i := 0;
    while i < |tuples|
      invariant i <= |tuples| && |r| == |mask|
      invariant forall k :: 0 <= k < |r| ==> r[k] == if k - base in tuples[..i] then prior[k - base] else mask[k]
    {
      assert tuples[..i + 1] == tuples[..i] + [tuples[i]];
      r := r[base + tuples[i] := prior[tuples[i]]];
      i := i + 1;
    }
    assert tuples[..i] == tuples;
  }

  /** The update info of one vector of a string segment. */
  class StringUpdateInfo {
    var count: nat
    const ids: array<int>
    const blockIds: array<int>
    const offsets: array<int>

    /** Room for a vector's rows in three separate arrays. */
    ghost predicate Shaped()
      reads this
    {
      count <= STANDARD_VECTOR_SIZE && ids.Length == STANDARD_VECTOR_SIZE &&
      blockIds.Length == STANDARD_VECTOR_SIZE && offsets.Length == STANDARD_VECTOR_SIZE &&
      ids != blockIds && ids != offsets && blockIds != offsets
    }

    /** Room for a vector's rows, and ascending rows of the vector. */
    ghost predicate Valid()
      reads this, ids
    {
      Shaped() && Ascending(ids[..count]) && InVector(ids[..count])
    }

    /** The entries the info holds. */
    ghost function Entries(): seq<UpdateEntry>
      reads this, ids, blockIds, offsets
      requires count <= ids.Length && count <= blockIds.Length && count <= offsets.Length
    {
      EntriesOf(ids[..count], blockIds[..count], offsets[..count])
    }

    constructor()
      ensures Valid() && count == 0 && fresh(ids) && fresh(blockIds) && fresh(offsets)
    {
      count := 0;
      ids := new int[STANDARD_VECTOR_SIZE];
      blockIds := new int[STANDARD_VECTOR_SIZE];
      offsets := new int[STANDARD_VECTOR_SIZE];
    }

    /** The entry the arrays hold at `j`. */
    ghost function EntryAt(j: nat): UpdateEntry
      reads ids, blockIds, offsets
      requires j < ids.Length && j < blockIds.Length && j < offsets.Length
    {
      UpdateEntry(ids[j], StringLocation(blockIds[j], offsets[j]))
    }

    /** Writes entry `e` at `at`, the three arrays and nothing else. */
    method Place(at: nat, e: UpdateEntry)
      requires Shaped() && at < STANDARD_VECTOR_SIZE
      modifies ids, blockIds, offsets
      ensures EntryAt(at) == e
      ensures forall j :: 0 <= j < STANDARD_VECTOR_SIZE && j != at ==> EntryAt(j) == old(EntryAt(j))
    {
      ids[at] := e.id;
      blockIds[at] := e.location.blockId;
      offsets[at] := e.location.offset;
    }

    /**
     * The arrays during the filter: the entries kept so far at the front, and from `i` on the
     * entries not yet walked, as they were.
     */
    ghost predicate Layout(kept: seq<UpdateEntry>, es: seq<UpdateEntry>, i: nat)
      reads this, ids, blockIds, offsets
      requires Shaped()
    {
      |kept| <= i <= count <= |es| &&
      (forall j :: 0 <= j < |kept| ==> kept[j] == EntryAt(j)) &&
      (forall j :: i <= j < count ==> es[j] == EntryAt(j))
    }

    /**
     * One step of the filter: the entry at `i` is moved to the front, moved there with the
     * location it had before the update, or dropped.
     */
    method FilterStep(i: nat, newCount: nat, oldIdx: nat, tuples: seq<int>, olds: seq<StringLocation>,
                      ghost es: seq<UpdateEntry>, ghost kept: seq<UpdateEntry>)
      returns (newCount': nat, oldIdx': nat, ghost kept': seq<UpdateEntry>)
      requires Shaped() && i < count && oldIdx <= |tuples| && |olds| == |tuples|
      requires |kept| == newCount && Layout(kept, es, i)
      modifies ids, blockIds, offsets
      ensures (kept', oldIdx') == RollbackStep(kept, oldIdx, es[i], tuples, olds)
      ensures |kept'| == newCount' && Layout(kept', es, i + 1)
    {
      var e := UpdateEntry(ids[i], StringLocation(blockIds[i], offsets[i]));
      newCount', oldIdx', kept' := newCount, oldIdx, kept;
      if oldIdx >= |tuples| || e.id != tuples[oldIdx] {
        kept' := kept + [e];
        Place(newCount, e);
        newCount' := newCount + 1;
      } else {
        var oldLocation := olds[oldIdx];
        if oldLocation.blockId != INVALID_BLOCK {
          kept' := kept + [UpdateEntry(e.id, oldLocation)];
          Place(newCount, UpdateEntry(e.id, oldLocation));
          newCount' := newCount + 1;
        }
        oldIdx' := oldIdx + 1;
      }
    }

    /**
     * The filter of RollbackUpdate, in place: the entries that stay are moved to the front, in
     * order, and their number is returned; `count` is left for the caller to set.
     */
    method Filter(tuples: seq<int>, olds: seq<StringLocation>) returns (newCount: nat)
      requires Shaped() && |olds| == |tuples|
      modifies ids, blockIds, offsets
      ensures newCount <= count
      ensures EntriesOf(ids[..newCount], blockIds[..newCount], offsets[..newCount]) ==
              RollbackUpTo(old(Entries()), tuples, olds, count).0
    {
      ghost var es := Entries();
      ghost var kept: seq<UpdateEntry> := [];
      newCount := 0;
      var oldIdx := 0;
      var i := 0;
      while i < count
        invariant i <= count && |kept| == newCount && Layout(kept, es, i)
        invariant kept == RollbackUpTo(es, tuples, olds, i).0 && oldIdx == RollbackUpTo(es, tuples, olds, i).1
      {
        newCount, oldIdx, kept := FilterStep(i, newCount, oldIdx, tuples, olds, es, kept);
        i := i + 1;
      }
      assert EntriesOf(ids[..newCount], blockIds[..newCount], offsets[..newCount]) == kept;
    }

    /**
     * The update-info half of RollbackUpdate: the filter, and the new count when any entry stays
     * (an info left empty is dropped by the caller, its count untouched).
     */
    method Rollback(tuples: seq<int>, olds: seq<StringLocation>) returns (newCount: nat)
      requires Valid() && |olds| == |tuples| && Ascending(tuples)
      requires forall t :: 0 <= t < |tuples| ==> tuples[t] in Ids(Entries())
      modifies this, ids, blockIds, offsets
      ensures newCount == |RestoredUpTo(old(Entries()), tuples, olds, old(count))|
      ensures newCount > 0 ==> Valid() && Entries() == RestoredUpTo(old(Entries()), tuples, olds, old(count))
    {
      ghost var es := Entries();
      IdsOf(ids[..count], blockIds[..count], offsets[..count]);
      newCount := Filter(tuples, olds);
      RollbackIsLookup(es, tuples, olds, |es|);
      RestoredOrder(es, tuples, olds, |es|);
      WithinVector(es, |es|, RestoredUpTo(es, tuples, olds, |es|));
      if newCount > 0 {
        count := newCount;
        IdsOf(ids[..count], blockIds[..count], offsets[..count]);
      }
    }
  }
}
