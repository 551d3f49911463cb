/**
 * Merging a new update of a vector's rows into what earlier updates left: the walk over two
 * ascending lists of rows that MergeStringUpdate and MergeUpdateInfo hand their three callbacks
 * to, the update info it yields, the undo record it yields, and the null mask an update writes.
 */
module StringMerge {
  import opened Results
  import opened Common
  import opened StringLayout
  import opened StringUpdates

  /**
   * One step of the merge walk: a row in both lists (merge), a row only in the new list
   * (pick_new) or a row only in the earlier list (pick_old), with its positions in the lists.
   */
  datatype Pick = Merged(id: int, newIdx: nat, oldIdx: nat) | PickNew(id: int, newIdx: nat) | PickOld(id: int, oldIdx: nat)

  /** The pick refers to its row: at its positions, from `i` and `j` on, the lists hold its row. */
  predicate Points(a: seq<int>, b: seq<int>, i: nat, j: nat, p: Pick)
  {
    match p
    case Merged(id, x, y) => i <= x < |a| && j <= y < |b| && a[x] == id && b[y] == id
    case PickNew(id, x) => i <= x < |a| && a[x] == id
    case PickOld(id, y) => j <= y < |b| && b[y] == id
  }

  /**
   * merge_loop from positions i and j: while both lists have rows, the smaller row is picked from
   * its list, or both when they are equal; then the rest of whichever list is left.
   */
  function MergeLoop(a: seq<int>, b: seq<int>, i: nat, j: nat): (r: seq<Pick>)
    requires i <= |a| && j <= |b|
    ensures |r| <= |a| - i + |b| - j
    ensures forall k :: 0 <= k < |r| ==> Points(a, b, i, j, r[k])
    decreases |a| - i + |b| - j
  {
    if i < |a| && j < |b| then
      if a[i] == b[j] then [Merged(a[i], i, j)] + MergeLoop(a, b, i + 1, j + 1)
      else if a[i] < b[j] then [PickNew(a[i], i)] + MergeLoop(a, b, i + 1, j)
      else [PickOld(b[j], j)] + MergeLoop(a, b, i, j + 1)
    else if i < |a| then [PickNew(a[i], i)] + MergeLoop(a, b, i + 1, j)
    else if j < |b| then [PickOld(b[j], j)] + MergeLoop(a, b, i, j + 1)
    else []
  }

  function PickIds(picks: seq<Pick>): (r: seq<int>)
    ensures |r| == |picks| && forall k :: 0 <= k < |picks| ==> r[k] == picks[k].id
  {
    seq(|picks|, k requires 0 <= k < |picks| => picks[k].id)
  }

  /** The pick of row x, if the walk has one. */
  function PickFor(picks: seq<Pick>, x: int): (r: Option<Pick>)
    ensures r.Some? ==> r.value in picks && r.value.id == x
    ensures r.None? <==> x !in PickIds(picks)
  {
    match Find(PickIds(picks), x)
    case Some(k) => Some(picks[k])
    case None => None
  }

  /**
   * What the walk does with row x: merges it when both lists have it, picks it from the list
   * that has it otherwise, at its position there.
   */
  function Expected(a: seq<int>, b: seq<int>, i: nat, j: nat, x: int): Option<Pick>
    requires i <= |a| && j <= |b|
  {
    if x in a[i..] && x in b[j..] then Some(Merged(x, Find(a, x).value, Find(b, x).value))
    else if x in a[i..] then Some(PickNew(x, Find(a, x).value))
    else if x in b[j..] then Some(PickOld(x, Find(b, x).value))
    else None
  }

  lemma PickForCons(p: Pick, rest: seq<Pick>, x: int)
    ensures PickFor([p] + rest, x) == if p.id == x then Some(p) else PickFor(rest, x)
  {
    assert PickIds([p] + rest)[1..] == PickIds(rest);
  }

  /** In an ascending list, a row at position u is found at u. */
  lemma FoundAt(xs: seq<int>, u: nat)
    requires Ascending(xs) && u < |xs|
    ensures Find(xs, xs[u]) == Some(u)
  {
    FindAscending(xs, u, xs[u]);
  }

  /** The suffix from i is the row at i and the suffix after it. */
  lemma InSuffix(xs: seq<int>, i: nat, x: int)
    requires i < |xs|
    ensures x in xs[i..] <==> x == xs[i] || x in xs[i + 1..]
  {
    assert xs[i..] == [xs[i]] + xs[i + 1..];
  }

  /** In an ascending list, nothing in the suffix from i is below the row at i. */
  lemma NotBelow(xs: seq<int>, i: nat, x: int)
    requires Ascending(xs) && i < |xs| && x < xs[i]
    ensures x !in xs[i..]
  {
  }

  /** The walk over two ascending lists picks every row as Expected says. */
  lemma {:induction false} MergePick(a: seq<int>, b: seq<int>, i: nat, j: nat, x: int)
    requires Ascending(a) && Ascending(b) && i <= |a| && j <= |b|
    ensures PickFor(MergeLoop(a, b, i, j), x) == Expected(a, b, i, j, x)
    decreases |a| - i + |b| - j
  {
    var r := MergeLoop(a, b, i, j);
    if r == [] {
      assert a[i..] == [] && b[j..] == [];
      return;
    }
    var p := r[0];
    var i', j' := if p.PickOld? then i else i + 1, if p.PickNew? then j else j + 1;
    assert r == [p] + MergeLoop(a, b, i', j');
    PickForCons(p, MergeLoop(a, b, i', j'), x);
    if i < |a| {
      InSuffix(a, i, x);
    }
    if j < |b| {
      InSuffix(b, j, x);
    }
    if p.id == x {
      match p
      case Merged(_, _, _) =>
        FoundAt(a, i);
        FoundAt(b, j);
      case PickNew(_, _) =>
        FoundAt(a, i);
        if j < |b| {
          NotBelow(b, j, x);
        }
      case PickOld(_, _) =>
        FoundAt(b, j);
        if i < |a| {
          NotBelow(a, i, x);
        }
    } else {
      MergePick(a, b, i', j', x);
    }
  }

  /** The walk over two ascending lists picks its rows in ascending order. */
  lemma {:induction false} MergeAscending(a: seq<int>, b: seq<int>, i: nat, j: nat)
    requires Ascending(a) && Ascending(b) && i <= |a| && j <= |b|
    ensures Ascending(PickIds(MergeLoop(a, b, i, j)))
    decreases |a| - i + |b| - j
  {
    var r := MergeLoop(a, b, i, j);
    if r != [] {
      var p := r[0];
      var i', j' := if p.PickOld? then i else i + 1, if p.PickNew? then j else j + 1;
      var rest := MergeLoop(a, b, i', j');
      assert r == [p] + rest;
      MergeAscending(a, b, i', j');
      forall k | 0 <= k < |rest|
        ensures p.id < PickIds(rest)[k]
      {
        assert Points(a, b, i', j', rest[k]);
      }
      assert PickIds(r) == [p.id] + PickIds(rest);
      AscendingCons(p.id, PickIds(rest));
    }
  }

  /** A row below every row of an ascending list, put in front of it, keeps it ascending. */
  lemma AscendingCons(h: int, xs: seq<int>)
    requires Ascending(xs) && forall k :: 0 <= k < |xs| ==> h < xs[k]
    ensures Ascending([h] + xs)
  {
    var ys := [h] + xs;
    forall u, v | 0 <= u < v < |ys|
      ensures ys[u] < ys[v]
    {
      assert ys[v] == xs[v - 1];
      if u > 0 {
        assert ys[u] == xs[u - 1];
      }
    }
  }

  /** A row of the walk is a row of one of the lists. */
  lemma MergeRows(a: seq<int>, b: seq<int>, x: int)
    requires Ascending(a) && Ascending(b)
    ensures x in PickIds(MergeLoop(a, b, 0, 0)) <==> x in a || x in b
  {
    MergePick(a, b, 0, 0, x);
    assert a[0..] == a && b[0..] == b;
  }

  /** An ascending list of rows of a vector has at most a vector's worth of rows. */
  lemma {:induction false} AscendingFits(xs: seq<int>)
    requires Ascending(xs) && InVector(xs)
    ensures |xs| <= STANDARD_VECTOR_SIZE
  {
    if |xs| > 0 {
      AscendingGrows(xs, |xs| - 1);
    }
  }

  lemma {:induction false} AscendingGrows(xs: seq<int>, k: nat)
    requires Ascending(xs) && k < |xs|
    ensures xs[k] >= xs[0] + k
  {
    if k > 0 {
      AscendingGrows(xs, k - 1);
    }
  }

  //===--------------------------------------------------------------------===//
  // MergeStringUpdate: the new update info
  //===--------------------------------------------------------------------===//

  /** A pick's positions are within lists of `na` new and `nb` earlier rows. */
  predicate PickWithin(p: Pick, na: nat, nb: nat)
  {
    (!p.PickOld? ==> p.newIdx < na) && (!p.PickNew? ==> p.oldIdx < nb)
  }

  /** The entry MergeStringUpdate writes for a pick: the new string's location, or the earlier entry's. */
  function EntryOf(p: Pick, locations: seq<StringLocation>, earlier: seq<UpdateEntry>): UpdateEntry
    requires PickWithin(p, |locations|, |earlier|)
  {
    match p
    case Merged(id, x, _) => UpdateEntry(id, locations[x])
    case PickNew(id, x) => UpdateEntry(id, locations[x])
    case PickOld(id, y) => UpdateEntry(id, earlier[y].location)
  }

  /** The entries of the update info MergeStringUpdate builds, pick by pick. */
  function MergedEntries(picks: seq<Pick>, locations: seq<StringLocation>, earlier: seq<UpdateEntry>): (r: seq<UpdateEntry>)
    requires forall k :: 0 <= k < |picks| ==> PickWithin(picks[k], |locations|, |earlier|)
    ensures Ids(r) == PickIds(picks)
  {
    seq(|picks|, k requires 0 <= k < |picks| => EntryOf(picks[k], locations, earlier))
  }

  /** The walk of new rows `rows` against the rows of the earlier entries. */
  function StringPicks(rows: seq<int>, earlier: seq<UpdateEntry>): (r: seq<Pick>)
    ensures forall k :: 0 <= k < |r| ==> PickWithin(r[k], |rows|, |earlier|)
  {
    var r := MergeLoop(rows, Ids(earlier), 0, 0);
    assert forall k :: 0 <= k < |r| ==> Points(rows, Ids(earlier), 0, 0, r[k]);
    r
  }

  /**
   * The update info MergeStringUpdate builds: the updated rows with their new strings' locations,
   * and every other row of the earlier info with its earlier entry, ascending and within the vector.
   */
  lemma MergedInfo(rows: seq<int>, locations: seq<StringLocation>, earlier: seq<UpdateEntry>, x: int)
    requires Ascending(rows) && InVector(rows) && |locations| == |rows|
    requires Ascending(Ids(earlier)) && InVector(Ids(earlier))
    ensures var es := MergedEntries(StringPicks(rows, earlier), locations, earlier);
      Ascending(Ids(es)) && InVector(Ids(es)) && |es| <= STANDARD_VECTOR_SIZE &&
      (x in Ids(es) <==> x in rows || x in Ids(earlier)) &&
      (x in rows ==> es[Find(Ids(es), x).value].location == locations[Find(rows, x).value]) &&
      (x !in rows && x in Ids(earlier) ==> es[Find(Ids(es), x).value] == earlier[Find(Ids(earlier), x).value])
  {
    var picks := StringPicks(rows, earlier);
    var es := MergedEntries(picks, locations, earlier);
    MergeAscending(rows, Ids(earlier), 0, 0);
    MergeRows(rows, Ids(earlier), x);
    forall y | y in Ids(es)
      ensures 0 <= y < STANDARD_VECTOR_SIZE
    {
      MergeRows(rows, Ids(earlier), y);
    }
    assert InVector(Ids(es));
    AscendingFits(Ids(es));
    MergePick(rows, Ids(earlier), 0, 0, x);
    assert rows[0..] == rows && Ids(earlier)[0..] == Ids(earlier);
    if x in Ids(es) {
      var k := Find(Ids(es), x).value;
      assert PickFor(picks, x) == Some(picks[k]);
      if x !in rows {
        assert earlier[Find(Ids(earlier), x).value].id == x;
      }
    }
  }

  /** The update info CreateStringUpdate builds: the updated rows with their new strings' locations. */
  function CreatedEntries(rows: seq<int>, locations: seq<StringLocation>): (r: seq<UpdateEntry>)
    requires |locations| == |rows|
    ensures Ids(r) == rows
  {
    seq(|rows|, i requires 0 <= i < |rows| => UpdateEntry(rows[i], locations[i]))
  }

  /** Against no earlier rows, the walk picks every new row, in order. */
  lemma {:induction false} AllNew(rows: seq<int>, i: nat)
    requires i <= |rows|
    ensures |MergeLoop(rows, [], i, 0)| == |rows| - i
    ensures forall k :: 0 <= k < |rows| - i ==> MergeLoop(rows, [], i, 0)[k] == PickNew(rows[i + k], i + k)
    decreases |rows| - i
  {
    if i < |rows| {
      AllNew(rows, i + 1);
    }
  }

  /** Creating an update info is merging into an empty one. */
  lemma CreateIsMerge(rows: seq<int>, locations: seq<StringLocation>)
    requires |locations| == |rows|
    ensures MergedEntries(StringPicks(rows, []), locations, []) == CreatedEntries(rows, locations)
  {
    assert Ids([]) == [];
    AllNew(rows, 0);
  }

  /**
   * CreateStringUpdate's info, given where the update's strings were written: a fresh info with
   * an entry per updated row, in the update's order.
   */
  method CreateStringUpdate(rows: seq<int>, written: seq<StringLocation>) returns (info: StringUpdateInfo)
    requires Ascending(rows) && InVector(rows) && |written| == |rows|
    ensures fresh(info) && fresh(info.ids) && fresh(info.blockIds) && fresh(info.offsets)
    ensures info.Valid() && info.Entries() == CreatedEntries(rows, written)
  {
    AscendingFits(rows);
    info := new StringUpdateInfo();
    info.count := |rows|;
    var i := 0;
    while i < |rows|
      invariant i <= |rows| && info.Shaped() && info.count == |rows|
      invariant forall j :: 0 <= j < i ==> info.EntryAt(j) == UpdateEntry(rows[j], written[j])
    {
      info.Place(i, UpdateEntry(rows[i], written[i]));
      i := i + 1;
    }
    assert info.ids[..info.count] == rows;
  }

  /**
   * MergeStringUpdate's info, given where the update's strings were written: a fresh info filled
   * pick by pick as the walk of the updated rows against the earlier info's rows goes; merge and
   * pick_new take the new string's location, pick_old the earlier entry's.
   */
  method MergeStringUpdate(rows: seq<int>, written: seq<StringLocation>, earlier: StringUpdateInfo) returns (info: StringUpdateInfo)
    requires Ascending(rows) && InVector(rows) && |written| == |rows| && earlier.Valid()
    ensures fresh(info) && fresh(info.ids) && fresh(info.blockIds) && fresh(info.offsets)
    ensures info.Valid()
    ensures info.Entries() == MergedEntries(StringPicks(rows, earlier.Entries()), written, earlier.Entries())
  {
    ghost var es := earlier.Entries();
    assert earlier.ids[..earlier.count] == Ids(es);
    var picks := MergeLoop(rows, earlier.ids[..earlier.count], 0, 0);
    assert picks == StringPicks(rows, es);
    ghost var merged := MergedEntries(picks, written, es);
    MergedInfo(rows, written, es, 0);
    info := new StringUpdateInfo();
    info.count := |picks|;
    var k := 0;
    while k < |picks|
      invariant k <= |picks| && info.Shaped() && info.count == |picks|
      invariant forall j :: 0 <= j < k ==> info.EntryAt(j) == merged[j]
    {
      var p := picks[k];
      if p.PickOld? {
        info.Place(k, UpdateEntry(p.id, StringLocation(earlier.blockIds[p.oldIdx], earlier.offsets[p.oldIdx])));
      } else {
        info.Place(k, UpdateEntry(p.id, written[p.newIdx]));
      }
      k := k + 1;
    }
    assert info.Entries() == merged;
    assert info.ids[..info.count] == Ids(merged);
  }

  //===--------------------------------------------------------------------===//
  // MergeUpdateInfo: the undo record
  //===--------------------------------------------------------------------===//

  /** Every pick of the walk over two lists of a vector's rows is a row of the vector, within the lists. */
  lemma MergeInVector(a: seq<int>, b: seq<int>)
    requires InVector(a) && InVector(b)
    ensures var picks := MergeLoop(a, b, 0, 0);
      InVector(PickIds(picks)) &&
      forall k :: 0 <= k < |picks| ==> PickWithin(picks[k], |a|, |b|) && 0 <= picks[k].id < STANDARD_VECTOR_SIZE
  {
    var picks := MergeLoop(a, b, 0, 0);
    forall k | 0 <= k < |picks|
      ensures PickWithin(picks[k], |a|, |b|) && 0 <= picks[k].id < STANDARD_VECTOR_SIZE
    {
      assert Points(a, b, 0, 0, picks[k]);
    }
  }

  /**
   * The null bits of the record after the picks: each pick_new sets the bit of its row from the
   * base mask, at the row (as intended) or at the pick's position in the update (as written).
   */
  function RecordedMask(mask: seq<bool>, picks: seq<Pick>, baseMask: seq<bool>, asWritten: bool): (r: seq<bool>)
    requires |baseMask| == STANDARD_VECTOR_SIZE && |mask| == STANDARD_VECTOR_SIZE
    requires forall k :: 0 <= k < |picks| ==> 0 <= picks[k].id < STANDARD_VECTOR_SIZE && (picks[k].PickNew? ==> picks[k].newIdx < STANDARD_VECTOR_SIZE)
    ensures |r| == STANDARD_VECTOR_SIZE
    decreases |picks|
  {
    if picks == [] then mask
    else
      var p := picks[0];
      var mask' := if p.PickNew? then mask[p.id := if asWritten then baseMask[p.newIdx] else baseMask[p.id]] else mask;
      RecordedMask(mask', picks[1..], baseMask, asWritten)
  }

  /** The walk picks row x from the new list only. */
  predicate NewAt(picks: seq<Pick>, x: int)
  {
    PickFor(picks, x).Some? && PickFor(picks, x).value.PickNew?
  }

  /** As intended, the record's bit of a row picked from the new list only is the base mask's; every other bit is kept. */
  lemma {:induction false} RecordedMaskMeans(mask: seq<bool>, picks: seq<Pick>, baseMask: seq<bool>, x: int)
    requires |baseMask| == STANDARD_VECTOR_SIZE && |mask| == STANDARD_VECTOR_SIZE && 0 <= x < STANDARD_VECTOR_SIZE
    requires forall k :: 0 <= k < |picks| ==> 0 <= picks[k].id < STANDARD_VECTOR_SIZE && (picks[k].PickNew? ==> picks[k].newIdx < STANDARD_VECTOR_SIZE)
    requires Ascending(PickIds(picks))
    ensures RecordedMask(mask, picks, baseMask, false)[x] == if NewAt(picks, x) then baseMask[x] else mask[x]
    decreases |picks|
  {
    if picks != [] {
      var p := picks[0];
      var rest := picks[1..];
      var mask' := if p.PickNew? then mask[p.id := baseMask[p.id]] else mask;
      assert picks == [p] + rest;
      assert PickIds(rest) == PickIds(picks)[1..];
      assert RecordedMask(mask, picks, baseMask, false) == RecordedMask(mask', rest, baseMask, false);
      PickForCons(p, rest, x);
      RecordedMaskMeans(mask', rest, baseMask, x);
      if p.id == x {
        FirstNotAfter(picks);
        assert !NewAt(rest, x) && mask'[x] == (if p.PickNew? then baseMask[x] else mask[x]);
      } else {
        assert NewAt(picks, x) == NewAt(rest, x) && mask'[x] == mask[x];
      }
    }
  }

  /** In an ascending walk the first row picked is not picked again. */
  lemma FirstNotAfter(picks: seq<Pick>)
    requires picks != [] && Ascending(PickIds(picks))
    ensures picks[0].id !in PickIds(picks[1..])
  {
    var rest := picks[1..];
    forall k | 0 <= k < |rest|
      ensures PickIds(rest)[k] != picks[0].id
    {
      assert PickIds(picks)[0] < PickIds(picks)[k + 1];
    }
  }

  /** The location MergeUpdateInfo records for a pick: the record's own, or the base table's. */
  function RecordedLocation(p: Pick, baseLocations: seq<StringLocation>, recorded: seq<StringLocation>): StringLocation
    requires PickWithin(p, |baseLocations|, |recorded|)
  {
    match p
    case Merged(_, _, y) => recorded[y]
    case PickNew(_, x) => baseLocations[x]
    case PickOld(_, y) => recorded[y]
  }

  /**
   * The undo record after MergeUpdateInfo merges the rows of a further update of the same
   * transaction into it: with the null bit of a newly recorded row taken as the source reads it
   * (`asWritten`) or as intended.
   */
  function MergedRecord(version: UpdateVersion, rows: seq<int>, baseLocations: seq<StringLocation>, baseMask: seq<bool>,
                        asWritten: bool): (r: UpdateVersion)
    requires Ascending(rows) && InVector(rows) && |baseLocations| == |rows|
    requires Ascending(version.tuples) && InVector(version.tuples) && |version.locations| == |version.tuples|
    requires |version.nullmask| == STANDARD_VECTOR_SIZE && |baseMask| == STANDARD_VECTOR_SIZE
    ensures r.vectorIndex == version.vectorIndex && |r.nullmask| == STANDARD_VECTOR_SIZE && |r.locations| == |r.tuples|
    ensures Ascending(r.tuples) && InVector(r.tuples)
  {
    var picks := MergeLoop(rows, version.tuples, 0, 0);
    AscendingFits(rows);
    MergeInVector(rows, version.tuples);
    MergeAscending(rows, version.tuples, 0, 0);
    UpdateVersion(version.vectorIndex, PickIds(picks), RecordedMask(version.nullmask, picks, baseMask, asWritten),
                  seq(|picks|, k requires 0 <= k < |picks| => RecordedLocation(picks[k], baseLocations, version.locations)))
  }

  /**
   * As intended, the merged record holds the rows of both updates; a row the record already held
   * keeps its recorded bit, and a row only the further update touched gets the base table's bit
   * from before that update.
   */
  lemma MergedRecordBit(version: UpdateVersion, rows: seq<int>, baseLocations: seq<StringLocation>, baseMask: seq<bool>, x: int)
    requires Ascending(rows) && InVector(rows) && |baseLocations| == |rows|
    requires Ascending(version.tuples) && InVector(version.tuples) && |version.locations| == |version.tuples|
    requires |version.nullmask| == STANDARD_VECTOR_SIZE && |baseMask| == STANDARD_VECTOR_SIZE && 0 <= x < STANDARD_VECTOR_SIZE
    ensures var r := MergedRecord(version, rows, baseLocations, baseMask, false);
      (x in r.tuples <==> x in rows || x in version.tuples) &&
      r.nullmask[x] == (if x in rows && x !in version.tuples then baseMask[x] else version.nullmask[x])
  {
    var picks := MergeLoop(rows, version.tuples, 0, 0);
    AscendingFits(rows);
    MergeInVector(rows, version.tuples);
    MergeAscending(rows, version.tuples, 0, 0);
    MergePick(rows, version.tuples, 0, 0, x);
    assert rows[0..] == rows && version.tuples[0..] == version.tuples;
    RecordedMaskMeans(version.nullmask, picks, baseMask, x);
  }

  /**
   * As intended, a row the merged record already held keeps its recorded location, and a row only
   * the further update touched gets the base table's location from before that update.
   */
  lemma MergedRecordMeans(version: UpdateVersion, rows: seq<int>, baseLocations: seq<StringLocation>, baseMask: seq<bool>, x: int)
    requires Ascending(rows) && InVector(rows) && |baseLocations| == |rows|
    requires Ascending(version.tuples) && InVector(version.tuples) && |version.locations| == |version.tuples|
    requires |version.nullmask| == STANDARD_VECTOR_SIZE && |baseMask| == STANDARD_VECTOR_SIZE && 0 <= x < STANDARD_VECTOR_SIZE
    ensures var r := MergedRecord(version, rows, baseLocations, baseMask, false);
      (x in version.tuples ==> x in r.tuples && r.locations[Find(r.tuples, x).value] == version.locations[Find(version.tuples, x).value]) &&
      (x in rows && x !in version.tuples ==> x in r.tuples && r.locations[Find(r.tuples, x).value] == baseLocations[Find(rows, x).value])
  {
    var picks := MergeLoop(rows, version.tuples, 0, 0);
    AscendingFits(rows);
    MergeInVector(rows, version.tuples);
    MergeAscending(rows, version.tuples, 0, 0);
    MergePick(rows, version.tuples, 0, 0, x);
    assert rows[0..] == rows && version.tuples[0..] == version.tuples;
  }

  //===--------------------------------------------------------------------===//
  // Update: the null mask
  //===--------------------------------------------------------------------===//

  /** The null mask after an update of rows `base + t`, t in `rows`, with null bits `nulls`. */
  function NulledMask(mask: seq<bool>, base: nat, rows: seq<int>, nulls: seq<bool>): (r: seq<bool>)
    requires |nulls| == |rows|
  {
    seq(|mask|, k requires 0 <= k < |mask| => if k - base in rows then nulls[Find(rows, k - base).value] else mask[k])
  }

  /** The loop of Update over the updated rows, setting each row's bit to the update's. */
  method SetNullBits(mask: seq<bool>, base: nat, rows: seq<int>, nulls: seq<bool>) returns (r: seq<bool>)
    requires |nulls| == |rows| && Ascending(rows)
    requires forall t :: 0 <= t < |rows| ==> 0 <= base + rows[t] < |mask|
    ensures r == NulledMask(mask, base, rows, nulls)
  {
    r := mask;
    var i := 0;
    while i < |rows|
      invariant i <= |rows| && r == NulledMask(mask, base, rows[..i], nulls[..i])
    {
      NulledStep(mask, base, rows, nulls, i);
      r := r[base + rows[i] := nulls[i]];
      i := i + 1;
    }
    assert rows[..i] == rows && nulls[..i] == nulls;
  }

  /** Setting the bit of one more row of an ascending list extends the nulled mask by that row. */
  lemma NulledStep(mask: seq<bool>, base: nat, rows: seq<int>, nulls: seq<bool>, i: nat)
    requires |nulls| == |rows| && Ascending(rows) && i < |rows| && 0 <= base + rows[i] < |mask|
    ensures NulledMask(mask, base, rows[..i + 1], nulls[..i + 1]) ==
            NulledMask(mask, base, rows[..i], nulls[..i])[base + rows[i] := nulls[i]]
  {
    var prefix, next := rows[..i], rows[..i + 1];
    assert Ascending(prefix) && Ascending(next);
    var extended := NulledMask(mask, base, next, nulls[..i + 1]);
    var written := NulledMask(mask, base, prefix, nulls[..i])[base + rows[i] := nulls[i]];
    forall k | 0 <= k < |mask|
      ensures extended[k] == written[k]
    {
      if k == base + rows[i] {
        FoundAt(next, i);
      } else if k - base in prefix {
        var u := Find(prefix, k - base).value;
        FoundAt(prefix, u);
        FoundAt(next, u);
      } else {
        assert next == prefix + [rows[i]];
      }
    }
  }

  /** Rolling back a transaction's only update of a vector restores the vector's null mask from before it. */
  lemma FirstRecordRestoresMask(m0: seq<bool>, base: nat, rows: seq<int>, nulls: seq<bool>)
    requires base + STANDARD_VECTOR_SIZE <= |m0|
    requires Ascending(rows) && InVector(rows) && |nulls| == |rows|
    ensures RestoredMask(NulledMask(m0, base, rows, nulls), base, rows, m0[base..base + STANDARD_VECTOR_SIZE]) == m0
  {
    var restored := RestoredMask(NulledMask(m0, base, rows, nulls), base, rows, m0[base..base + STANDARD_VECTOR_SIZE]);
    forall k | 0 <= k < |m0|
      ensures restored[k] == m0[k]
    {
      if k - base in rows {
        assert 0 <= k - base < STANDARD_VECTOR_SIZE by {
          assert rows[Find(rows, k - base).value] == k - base;
        }
      }
    }
  }

  /**
   * Rolling back the second update of a transaction to a vector restores the vector's null mask
   * from before the first: the record of the first update holds the mask from before it, and the
   * merge of the second adds the bits of the rows only the second touched.
   */
  lemma MergedRecordRestoresMask(m0: seq<bool>, base: nat, vectorIndex: nat, rows1: seq<int>, nulls1: seq<bool>,
                                 locations1: seq<StringLocation>, rows2: seq<int>, nulls2: seq<bool>,
                                 locations2: seq<StringLocation>)
    requires base + STANDARD_VECTOR_SIZE <= |m0|
    requires Ascending(rows1) && InVector(rows1) && |nulls1| == |rows1| && |locations1| == |rows1|
    requires Ascending(rows2) && InVector(rows2) && |nulls2| == |rows2| && |locations2| == |rows2|
    ensures var m1 := NulledMask(m0, base, rows1, nulls1);
      var m2 := NulledMask(m1, base, rows2, nulls2);
      var first := UpdateVersion(vectorIndex, rows1, m0[base..base + STANDARD_VECTOR_SIZE], locations1);
      var second := MergedRecord(first, rows2, locations2, m1[base..base + STANDARD_VECTOR_SIZE], false);
      RestoredMask(m2, base, second.tuples, second.nullmask) == m0
  {
    var m1 := NulledMask(m0, base, rows1, nulls1);
    var m2 := NulledMask(m1, base, rows2, nulls2);
    var first := UpdateVersion(vectorIndex, rows1, m0[base..base + STANDARD_VECTOR_SIZE], locations1);
    var second := MergedRecord(first, rows2, locations2, m1[base..base + STANDARD_VECTOR_SIZE], false);
    var before := m1[base..base + STANDARD_VECTOR_SIZE];
    var restored := RestoredMask(m2, base, second.tuples, second.nullmask);
    forall k | 0 <= k < |m0|
      ensures restored[k] == m0[k]
    {
      var y := k - base;
      assert y !in rows1 ==> m1[k] == m0[k];
      assert y !in rows2 ==> m2[k] == m1[k];
      if 0 <= y < STANDARD_VECTOR_SIZE {
        MergedRecordBit(first, rows2, locations2, before, y);
        assert before[y] == m1[k] && first.nullmask[y] == m0[k];
      } else {
        assert y !in second.tuples && y !in rows1 && y !in rows2;
      }
    }
  }

  /**
   * As written, MergeUpdateInfo records a newly recorded row's bit from the base mask at the
   * row's position in the update rather than at the row: row 0 of the vector is NULL, a first
   * update sets row 3 and a second row 5, both to strings; rolling the second back makes row 5 NULL.
   */
  lemma AsWrittenRollbackNullsRow()
    ensures var m0 := seq(STANDARD_VECTOR_SIZE, k => k == 0);
      var m1 := NulledMask(m0, 0, [3], [false]);
      var m2 := NulledMask(m1, 0, [5], [false]);
      var first := UpdateVersion(0, [3], m0, [StringLocation(INVALID_BLOCK, 0)]);
      var second := MergedRecord(first, [5], [StringLocation(INVALID_BLOCK, 0)], m1, true);
      RestoredMask(m2, 0, second.tuples, second.nullmask)[5] && !m0[5]
  {
    var m0 := seq(STANDARD_VECTOR_SIZE, k => k == 0);
    var m1 := NulledMask(m0, 0, [3], [false]);
    assert m1[0] by {
      assert 0 !in [3];
    }
    var first := UpdateVersion(0, [3], m0, [StringLocation(INVALID_BLOCK, 0)]);
    var picks := MergeLoop([5], [3], 0, 0);
    assert picks == [PickOld(3, 0), PickNew(5, 0)];
    var second := MergedRecord(first, [5], [StringLocation(INVALID_BLOCK, 0)], m1, true);
    assert second.tuples == [3, 5];
    assert second.nullmask == m0[5 := m1[0]];
  }
}
