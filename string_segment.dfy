/**
 * A string segment: one block whose front holds, vector by vector, a null mask and 1024 int32
 * dictionary offsets, and whose back holds the string dictionary, growing toward the front;
 * strings that do not belong in the dictionary go to a list of in-memory overflow blocks.
 * Updates to a vector keep the new strings' locations in a per-vector update info.
 */
module StringSegment {
  import opened Results
  import opened Common
  import ArtKey
  import opened NativeBytes
  import opened StringLayout
  import opened StringUpdates
  import opened StringMerge

  /** The bytes of a vector's null mask. */
  const NULLMASK_SIZE: nat := 128
  /** The bytes a vector takes at the front of the block: its null mask and its int32 offsets. */
  const VECTOR_SIZE: nat := STANDARD_VECTOR_SIZE * 4 + NULLMASK_SIZE

  /** A value of a VARCHAR vector: None is NULL. */
  type StringValue = Option<seq<Byte>>

  /** A string as a C string holds it: no 0 byte inside. */
  predicate CString(s: seq<Byte>)
  {
    forall i :: 0 <= i < |s| ==> s[i] != 0
  }

  /** The strings of a vector: C strings whose 32-bit length leaves room for an overflow entry. */
  predicate Appendable(data: seq<StringValue>)
  {
    forall i :: 0 <= i < |data| ==> data[i].Some? ==> CString(data[i].value) && |data[i].value| + 5 < ArtKey.Pow256(4)
  }

  /** Temporary ids start at MAXIMUM_BLOCK, stay within int64, and every buffer's id was handed out before `nextId`. */
  predicate IdsBelow(buffers: map<int, seq<Byte>>, nextId: int)
  {
    MAXIMUM_BLOCK <= nextId <= ArtKey.Half(8) && forall id :: id in buffers ==> id < nextId
  }

  /** The memory of the buffer manager's in-memory buffers, by block id. */
  class BufferManager {
    var buffers: map<int, seq<Byte>>
    /** The id the next temporary buffer gets: temporary ids start at MAXIMUM_BLOCK. */
    var nextId: int

    ghost predicate Valid()
      reads this`buffers, this`nextId
    {
      IdsBelow(buffers, nextId)
    }

    constructor()
      ensures Valid() && buffers == map[] && nextId == MAXIMUM_BLOCK
    {
      buffers := map[];
      nextId := MAXIMUM_BLOCK;
    }

    /** A new buffer of `size` zero bytes under the next temporary id; the int64 id counter must not overflow. */
    method Allocate(size: nat) returns (id: int)
      requires Valid() && nextId < ArtKey.Half(8)
      modifies this
      ensures Valid() && id == old(nextId) && nextId == id + 1 && id !in old(buffers)
      ensures buffers == old(buffers)[id := seq(size, _ => 0)]
    {
      id := nextId;
      buffers := buffers[id := seq(size, _ => 0)];
      nextId := nextId + 1;
    }

    /** A memcpy of `bytes` to `pos` in the buffer of block `id`. */
    method Write(id: int, pos: nat, bytes: seq<Byte>)
      requires id in buffers && pos + |bytes| <= |buffers[id]|
      modifies this`buffers
      ensures buffers == old(buffers)[id := Splice(old(buffers[id]), pos, bytes)]
    {
      buffers := buffers[id := Splice(buffers[id], pos, bytes)];
    }
  }

  /** The bounds of the int64 and int32 fields of a big-string marker. */
  lemma SignedBounds()
    ensures ArtKey.Half(8) == 0x8000_0000_0000_0000 && ArtKey.Half(4) == 0x8000_0000
  {
  }

  /** An overflow block: its id, the number of bytes written to it and its size. */
  datatype StringBlock = StringBlock(blockId: int, offset: nat, size: nat)

  /** The number of bytes written to each overflow block, by block id; the head comes first. */
  ghost function Limits(blocks: seq<StringBlock>): map<int, nat>
  {
    if blocks == [] then map[] else Limits(blocks[1..])[blocks[0].blockId := blocks[0].offset]
  }

  /** The head block is backed by a buffer of its size, and only a block of BLOCK_ALLOC_SIZE can be left partly filled. */
  predicate HeadValid(head: StringBlock, buffers: map<int, seq<Byte>>)
  {
    head.blockId >= MAXIMUM_BLOCK && head.blockId in buffers && |buffers[head.blockId]| == head.size &&
    head.offset <= head.size && (head.size == BLOCK_ALLOC_SIZE || head.offset == head.size)
  }

  /** Every overflow block has a buffer that holds what was written to it, and none is the segment's own block. */
  ghost predicate BlocksValid(overflow: seq<StringBlock>, buffers: map<int, seq<Byte>>, primary: int)
  {
    var limits := Limits(overflow);
    primary !in limits &&
    forall id :: id in limits ==> id >= MAXIMUM_BLOCK && id in buffers && limits[id] <= |buffers[id]|
  }

  ghost predicate OverflowValid(overflow: seq<StringBlock>, buffers: map<int, seq<Byte>>, primary: int)
  {
    BlocksValid(overflow, buffers, primary) && (overflow != [] ==> HeadValid(overflow[0], buffers))
  }

  lemma LimitsCons(head: StringBlock, rest: seq<StringBlock>)
    ensures Limits([head] + rest) == Limits(rest)[head.blockId := head.offset]
  {
    assert ([head] + rest)[1..] == rest;
  }

  /** Growing twice is growing. */
  lemma GrowsTrans(b0: map<int, seq<Byte>>, b1: map<int, seq<Byte>>, b2: map<int, seq<Byte>>,
                   l0: map<int, nat>, l1: map<int, nat>, l2: map<int, nat>)
    requires Grows(b0, b1, l0, l1) && Grows(b1, b2, l1, l2)
    ensures Grows(b0, b2, l0, l2)
  {
    forall id | id in l0
      ensures b2[id][..l0[id]] == b0[id][..l0[id]]
    {
      assert b2[id][..l0[id]] == b2[id][..l1[id]][..l0[id]];
      assert b1[id][..l0[id]] == b1[id][..l1[id]][..l0[id]];
    }
  }

  /** A new, empty head block under a fresh id. */
  lemma NewHead(overflow: seq<StringBlock>, buffers: map<int, seq<Byte>>, primary: int, id: int, size: nat)
    requires BlocksValid(overflow, buffers, primary) && primary in buffers
    requires id !in buffers && id >= MAXIMUM_BLOCK
    ensures BlocksValid([StringBlock(id, 0, size)] + overflow, buffers[id := seq(size, _ => 0)], primary)
    ensures Grows(buffers, buffers[id := seq(size, _ => 0)], Limits(overflow), Limits([StringBlock(id, 0, size)] + overflow))
  {
    LimitsCons(StringBlock(id, 0, size), overflow);
  }

  /** Copying a string to the head block's write position, and moving that position past it. */
  lemma HeadWrite(overflow: seq<StringBlock>, buffers: map<int, seq<Byte>>, primary: int, s: seq<Byte>)
    requires BlocksValid(overflow, buffers, primary) && overflow != [] && |s| < ArtKey.Pow256(4)
    requires overflow[0].blockId >= MAXIMUM_BLOCK && overflow[0].blockId in buffers
    requires |buffers[overflow[0].blockId]| == overflow[0].size
    requires overflow[0].offset + |s| + 5 <= overflow[0].size
    requires overflow[0].size == BLOCK_ALLOC_SIZE || overflow[0].offset + |s| + 5 == overflow[0].size
    ensures var head := overflow[0];
      var buffers' := buffers[head.blockId := Splice(buffers[head.blockId], head.offset, OverflowBytes(s))];
      var overflow' := [head.(offset := head.offset + |s| + 5)] + overflow[1..];
      OverflowValid(overflow', buffers', primary) &&
      OverflowHolds(buffers', Limits(overflow'), StringLocation(head.blockId, head.offset), s) &&
      Grows(buffers, buffers', Limits(overflow), Limits(overflow'))
  {
    var head := overflow[0];
    var head' := head.(offset := head.offset + |s| + 5);
    var buffers' := buffers[head.blockId := Splice(buffers[head.blockId], head.offset, OverflowBytes(s))];
    LimitsCons(head, overflow[1..]);
    LimitsCons(head', overflow[1..]);
    assert [head] + overflow[1..] == overflow;
    forall id | id in Limits(overflow)
      ensures buffers'[id][..Limits(overflow)[id]] == buffers[id][..Limits(overflow)[id]]
    {
      if id == head.blockId {
        assert Limits(overflow)[id] == head.offset;
      }
    }
  }

  /** The rows `cs` are held by their dictionary offsets, each no larger than `bound`. */
  ghost predicate Stored(dict: seq<Byte>, buffers: map<int, seq<Byte>>, limits: map<int, nat>, offsets: seq<int>,
                         cs: seq<StringValue>, bound: nat)
  {
    |cs| <= |offsets| &&
    forall r :: 0 <= r < |cs| ==> offsets[r] <= bound && Holds(dict, buffers, limits, offsets[r], cs[r])
  }

  /** The rows stay held when the dictionary above `bound` and the overflow blocks' written bytes are kept. */
  lemma StoredFrame(dict: seq<Byte>, dict': seq<Byte>, buffers: map<int, seq<Byte>>, buffers': map<int, seq<Byte>>,
                    limits: map<int, nat>, limits': map<int, nat>, offsets: seq<int>, offsets': seq<int>,
                    cs: seq<StringValue>, bound: nat, bound': nat)
    requires Stored(dict, buffers, limits, offsets, cs, bound)
    requires Grows(buffers, buffers', limits, limits')
    requires bound <= bound' && bound <= BLOCK_SIZE && |dict| == BLOCK_SIZE
    requires |dict'| == BLOCK_SIZE && dict'[BLOCK_SIZE - bound..] == dict[BLOCK_SIZE - bound..]
    requires |cs| <= |offsets'| && offsets'[..|cs|] == offsets[..|cs|]
    ensures Stored(dict', buffers', limits', offsets', cs, bound')
  {
    forall r | 0 <= r < |cs|
      ensures offsets'[r] <= bound' && Holds(dict', buffers', limits', offsets'[r], cs[r])
    {
      assert offsets'[r] == offsets'[..|cs|][r];
      HoldsFrame(dict, dict', buffers, buffers', limits, limits', offsets[r], cs[r], BLOCK_SIZE - bound);
    }
  }

  /** One more row held at the next slot. */
  lemma StoredPush(dict: seq<Byte>, buffers: map<int, seq<Byte>>, limits: map<int, nat>, offsets: seq<int>,
                   cs: seq<StringValue>, bound: nat, v: StringValue)
    requires Stored(dict, buffers, limits, offsets, cs, bound)
    requires |cs| < |offsets| && offsets[|cs|] <= bound && Holds(dict, buffers, limits, offsets[|cs|], v)
    ensures Stored(dict, buffers, limits, offsets, cs + [v], bound)
  {
    forall r | 0 <= r < |cs| + 1
      ensures offsets[r] <= bound && Holds(dict, buffers, limits, offsets[r], (cs + [v])[r])
    {
      if r < |cs| {
        assert (cs + [v])[r] == cs[r];
      }
    }
  }

  /** Nothing written to the overflow blocks: they keep all their bytes. */
  lemma GrowsSame(buffers: map<int, seq<Byte>>, buffers': map<int, seq<Byte>>, limits: map<int, nat>)
    requires forall id :: id in limits ==> id in buffers && limits[id] <= |buffers[id]|
    requires forall id :: id in limits ==> id in buffers' && buffers'[id] == buffers[id]
    ensures Grows(buffers, buffers', limits, limits)
  {
  }

  /** A write to the segment's own block leaves the overflow blocks as they were. */
  lemma PrimaryWrite(overflow: seq<StringBlock>, buffers: map<int, seq<Byte>>, primary: int, pos: nat, bytes: seq<Byte>)
    requires OverflowValid(overflow, buffers, primary)
    requires primary in buffers && pos + |bytes| <= |buffers[primary]|
    ensures OverflowValid(overflow, buffers[primary := Splice(buffers[primary], pos, bytes)], primary)
    ensures Grows(buffers, buffers[primary := Splice(buffers[primary], pos, bytes)], Limits(overflow), Limits(overflow))
  {
    var buffers' := buffers[primary := Splice(buffers[primary], pos, bytes)];
    if overflow != [] {
      assert overflow[0].blockId in Limits(overflow);
    }
    GrowsSame(buffers, buffers', Limits(overflow));
  }

  /** The bytes of the dictionary, up to BLOCK_SIZE, kept from `low` on by a write below `low`. */
  lemma DictionaryKept(block: seq<Byte>, pos: nat, bytes: seq<Byte>, low: nat)
    requires BLOCK_SIZE <= |block| && pos + |bytes| <= low <= BLOCK_SIZE
    ensures Splice(block, pos, bytes)[..BLOCK_SIZE][low..] == block[..BLOCK_SIZE][low..]
  {
    var block' := Splice(block, pos, bytes);
    assert block'[pos + |bytes|..] == block[pos + |bytes|..];
    assert block'[..BLOCK_SIZE][low..] == block'[pos + |bytes|..][low - pos - |bytes|..BLOCK_SIZE - pos - |bytes|];
    assert block[..BLOCK_SIZE][low..] == block[pos + |bytes|..][low - pos - |bytes|..BLOCK_SIZE - pos - |bytes|];
  }

  /** What a dictionary write at `pos` leaves in the dictionary from `pos` on. */
  lemma DictionaryWritten(block: seq<Byte>, pos: nat, bytes: seq<Byte>)
    requires BLOCK_SIZE <= |block| && pos + |bytes| <= BLOCK_SIZE
    ensures Splice(block, pos, bytes)[..BLOCK_SIZE][pos..pos + |bytes|] == bytes
  {
    var block' := Splice(block, pos, bytes);
    assert block'[..BLOCK_SIZE][pos..pos + |bytes|] == block'[pos..pos + |bytes|];
  }

  /** The size of the buffer a new overflow block gets for a string entry of `total` bytes. */
  function AllocSize(total: nat): nat
  {
    if total > BLOCK_ALLOC_SIZE then total else BLOCK_ALLOC_SIZE
  }

  /** Whether an overflow entry of `total` bytes needs a new head block: there is no head, or the entry does not end before the head's end. */
  predicate NeedsBlock(overflow: seq<StringBlock>, total: nat)
  {
    overflow == [] || overflow[0].offset + total >= overflow[0].size
  }

  /** What a string segment keeps: the buffer manager's memory and id counter, the overflow list, and its vectors and dictionary. */
  datatype Image = Image(buffers: map<int, seq<Byte>>, nextId: int, overflow: seq<StringBlock>,
                         maxVectorCount: nat, dictionaryOffset: nat, nullmask: seq<bool>, offsets: seq<int>)

  /** The bytes between the last vector and the dictionary. */
  function Remaining(dictionaryOffset: nat, maxVectorCount: nat): int
  {
    BLOCK_SIZE - dictionaryOffset - maxVectorCount * VECTOR_SIZE
  }

  /** The segment's block and its overflow blocks are buffers of the buffer manager. */
  ghost predicate BlocksHold(im: Image, primary: int)
  {
    IdsBelow(im.buffers, im.nextId) && primary in im.buffers && |im.buffers[primary]| >= BLOCK_SIZE &&
    OverflowValid(im.overflow, im.buffers, primary)
  }

  /**
   * `n` rows fill all vectors but the last, and the free space can take a big-string marker for
   * every row the last vector still has room for: the dictionary never runs into the vectors.
   */
  ghost predicate SpaceHolds(im: Image, n: nat)
  {
    im.maxVectorCount >= 1 &&
    |im.nullmask| == im.maxVectorCount * STANDARD_VECTOR_SIZE && |im.offsets| == im.maxVectorCount * STANDARD_VECTOR_SIZE &&
    (im.maxVectorCount - 1) * STANDARD_VECTOR_SIZE <= n <= im.maxVectorCount * STANDARD_VECTOR_SIZE &&
    Remaining(im.dictionaryOffset, im.maxVectorCount) >= (im.maxVectorCount * STANDARD_VECTOR_SIZE - n) * BIG_STRING_MARKER_SIZE
  }

  /** The segment holds the rows `cs`, and every slot after them is not NULL. */
  ghost predicate Holding(im: Image, primary: int, n: nat, cs: seq<StringValue>)
  {
    BlocksHold(im, primary) && SpaceHolds(im, n) && |cs| == n &&
    Stored(im.buffers[primary][..BLOCK_SIZE], im.buffers, Limits(im.overflow), im.offsets, cs, im.dictionaryOffset) &&
    forall r :: n <= r < |im.nullmask| ==> !im.nullmask[r]
  }

  /** Null bits of rows the segment holds can change without the segment ceasing to hold its rows. */
  lemma HoldingNulls(im: Image, im': Image, primary: int, n: nat, cs: seq<StringValue>)
    requires Holding(im, primary, n, cs) && im' == im.(nullmask := im'.nullmask) && |im'.nullmask| == |im.nullmask|
    requires forall r :: n <= r < |im.nullmask| ==> im'.nullmask[r] == im.nullmask[r]
    ensures Holding(im', primary, n, cs)
  {
  }

  /** Restoring the bits of rows below `n` leaves the bits from `n` on as they were. */
  lemma MaskBeyond(mask: seq<bool>, base: nat, tuples: seq<int>, prior: seq<bool>, n: nat)
    requires |prior| == STANDARD_VECTOR_SIZE && InVector(tuples)
    requires forall t :: 0 <= t < |tuples| ==> base + tuples[t] < n
    ensures |RestoredMask(mask, base, tuples, prior)| == |mask|
    ensures forall r :: n <= r < |mask| ==> RestoredMask(mask, base, tuples, prior)[r] == mask[r]
  {
  }

  /** A new, empty head block of `size` bytes under the next id. */
  ghost function Pushed(im: Image, size: nat): Image
  {
    im.(buffers := im.buffers[im.nextId := seq(size, _ => 0)], nextId := im.nextId + 1,
        overflow := [StringBlock(im.nextId, 0, size)] + im.overflow)
  }

  /** The string's overflow entry copied to the head block's write position, which moves past it. */
  ghost function Copied(im: Image, s: seq<Byte>): Image
    requires im.overflow != [] && im.overflow[0].blockId in im.buffers && |s| < ArtKey.Pow256(4)
    requires im.overflow[0].offset + |s| + 5 <= |im.buffers[im.overflow[0].blockId]|
  {
    var head := im.overflow[0];
    im.(buffers := im.buffers[head.blockId := Splice(im.buffers[head.blockId], head.offset, OverflowBytes(s))],
        overflow := [head.(offset := head.offset + |s| + 5)] + im.overflow[1..])
  }

  /** WriteStringMemory over values: a new head when the entry does not fit, then the entry copied to the head. */
  ghost function WriteMemory(im: Image, s: seq<Byte>): Image
    requires im.overflow != [] ==> HeadValid(im.overflow[0], im.buffers)
    requires |s| + 5 < ArtKey.Pow256(4)
  {
    var total := |s| + 5;
    Copied(if NeedsBlock(im.overflow, total) then Pushed(im, AllocSize(total)) else im, s)
  }

  /** Where WriteStringMemory puts the string: the start of a new block, or the head's write position. */
  ghost function MemoryLocation(im: Image, s: seq<Byte>): StringLocation
  {
    if NeedsBlock(im.overflow, |s| + 5) then StringLocation(im.nextId, 0)
    else StringLocation(im.overflow[0].blockId, im.overflow[0].offset)
  }

  /** What WriteStringMemory promises about the state it leaves and the location it returns. */
  ghost predicate MemoryWritten(im: Image, im': Image, primary: int, location: StringLocation, s: seq<Byte>)
  {
    BlocksHold(im', primary) && Encodable(location) && location.blockId in Limits(im'.overflow) &&
    OverflowHolds(im'.buffers, Limits(im'.overflow), location, s) &&
    Grows(im.buffers, im'.buffers, Limits(im.overflow), Limits(im'.overflow)) &&
    primary in im'.buffers && primary in im.buffers && im'.buffers[primary] == im.buffers[primary] &&
    im'.nextId <= im.nextId + 1
  }

  /**
   * WriteStringMemory keeps the blocks valid, puts the string where MemoryLocation says, in a
   * location a marker can encode, and keeps every byte written before.
   */
  lemma MemoryStep(im: Image, primary: int, s: seq<Byte>)
    requires BlocksHold(im, primary) && im.nextId < ArtKey.Half(8) && |s| + 5 < ArtKey.Pow256(4)
    ensures MemoryWritten(im, WriteMemory(im, s), primary, MemoryLocation(im, s), s)
  {
    if NeedsBlock(im.overflow, |s| + 5) {
      MemoryStepNewHead(im, primary, s);
    } else {
      MemoryStepSameHead(im, primary, s);
    }
  }

  lemma MemoryStepNewHead(im: Image, primary: int, s: seq<Byte>)
    requires BlocksHold(im, primary) && im.nextId < ArtKey.Half(8) && |s| + 5 < ArtKey.Pow256(4)
    requires NeedsBlock(im.overflow, |s| + 5)
    ensures MemoryWritten(im, WriteMemory(im, s), primary, MemoryLocation(im, s), s)
  {
    var im1 := Pushed(im, AllocSize(|s| + 5));
    var im' := Copied(im1, s);
    assert im' == WriteMemory(im, s);
    NewHead(im.overflow, im.buffers, primary, im.nextId, AllocSize(|s| + 5));
    HeadWrite(im1.overflow, im1.buffers, primary, s);
    GrowsTrans(im.buffers, im1.buffers, im'.buffers, Limits(im.overflow), Limits(im1.overflow), Limits(im'.overflow));
    LimitsCons(im'.overflow[0], im'.overflow[1..]);
    assert [im'.overflow[0]] + im'.overflow[1..] == im'.overflow;
    SignedBounds();
  }

  lemma MemoryStepSameHead(im: Image, primary: int, s: seq<Byte>)
    requires BlocksHold(im, primary) && im.nextId < ArtKey.Half(8) && |s| + 5 < ArtKey.Pow256(4)
    requires !NeedsBlock(im.overflow, |s| + 5)
    ensures MemoryWritten(im, WriteMemory(im, s), primary, MemoryLocation(im, s), s)
  {
    var im' := Copied(im, s);
    assert im' == WriteMemory(im, s);
    assert im.overflow[0].blockId in Limits(im.overflow);
    HeadWrite(im.overflow, im.buffers, primary, s);
    LimitsCons(im'.overflow[0], im'.overflow[1..]);
    assert [im'.overflow[0]] + im'.overflow[1..] == im'.overflow;
    SignedBounds();
  }

  /** A NULL row: dictionary offset 0 and the null bit set. */
  ghost function NullStored(im: Image, n: nat): Image
    requires n < |im.offsets| && n < |im.nullmask|
  {
    im.(offsets := im.offsets[n := 0], nullmask := im.nullmask[n := true])
  }

  /** A dictionary entry written just below the dictionary, and the row's offset pointing at it. */
  ghost function Entered(im: Image, primary: int, n: nat, bytes: seq<Byte>): Image
    requires primary in im.buffers && n < |im.offsets|
    requires im.dictionaryOffset + |bytes| <= BLOCK_SIZE <= |im.buffers[primary]|
  {
    var d := im.dictionaryOffset + |bytes|;
    im.(buffers := im.buffers[primary := Splice(im.buffers[primary], BLOCK_SIZE - d, bytes)],
        dictionaryOffset := d, offsets := im.offsets[n := d])
  }

  /** An inline entry: the 16-bit length, the bytes and a 0. */
  ghost function InlineStored(im: Image, primary: int, n: nat, s: seq<Byte>): Image
    requires primary in im.buffers && |s| < BIG_STRING_MARKER && n < |im.offsets|
    requires im.dictionaryOffset + |s| + 3 <= BLOCK_SIZE <= |im.buffers[primary]|
  {
    Entered(im, primary, n, InlineBytes(s))
  }

  /** A big-string marker for `location`. */
  ghost function MarkerStored(im: Image, primary: int, n: nat, location: StringLocation): Image
    requires primary in im.buffers && Encodable(location) && n < |im.offsets|
    requires im.dictionaryOffset + BIG_STRING_MARKER_SIZE <= BLOCK_SIZE <= |im.buffers[primary]|
  {
    Entered(im, primary, n, MarkerBytes(location))
  }

  /**
   * Writing a dictionary entry for the next row keeps the rows before it and the space for the
   * rows after it, and leaves the entry's bytes at the row's new offset.
   */
  lemma EntryStep(im: Image, primary: int, n: nat, cs: seq<StringValue>, bytes: seq<Byte>)
    requires Holding(im, primary, n, cs) && n < im.maxVectorCount * STANDARD_VECTOR_SIZE
    requires im.dictionaryOffset + |bytes| <= BLOCK_SIZE
    requires Remaining(im.dictionaryOffset + |bytes|, im.maxVectorCount) >= (im.maxVectorCount * STANDARD_VECTOR_SIZE - (n + 1)) * BIG_STRING_MARKER_SIZE
    ensures var im' := Entered(im, primary, n, bytes);
      var d := im'.dictionaryOffset;
      var dict' := im'.buffers[primary][..BLOCK_SIZE];
      BlocksHold(im', primary) && SpaceHolds(im', n + 1) && im'.offsets[n] == d &&
      Stored(dict', im'.buffers, Limits(im'.overflow), im'.offsets, cs, d) &&
      im'.nullmask == im.nullmask &&
      dict'[BLOCK_SIZE - d..BLOCK_SIZE - d + |bytes|] == bytes &&
      Grows(im.buffers, im'.buffers, Limits(im.overflow), Limits(im'.overflow))
  {
    var im' := Entered(im, primary, n, bytes);
    var pos := BLOCK_SIZE - im'.dictionaryOffset;
    var block := im.buffers[primary];
    PrimaryWrite(im.overflow, im.buffers, primary, pos, bytes);
    DictionaryKept(block, pos, bytes, BLOCK_SIZE - im.dictionaryOffset);
    DictionaryWritten(block, pos, bytes);
    assert im'.offsets[..n] == im.offsets[..n];
    StoredFrame(block[..BLOCK_SIZE], im'.buffers[primary][..BLOCK_SIZE], im.buffers, im'.buffers, Limits(im.overflow),
                Limits(im.overflow), im.offsets, im'.offsets, cs, im.dictionaryOffset, im'.dictionaryOffset);
  }

  /** Writing an overflow entry keeps the rows held: the segment's block is untouched and the overflow blocks only grow. */
  lemma HoldingFrame(im: Image, im1: Image, primary: int, n: nat, cs: seq<StringValue>)
    requires Holding(im, primary, n, cs) && BlocksHold(im1, primary)
    requires Grows(im.buffers, im1.buffers, Limits(im.overflow), Limits(im1.overflow))
    requires im1.buffers[primary] == im.buffers[primary]
    requires im1 == im.(buffers := im1.buffers, nextId := im1.nextId, overflow := im1.overflow)
    ensures Holding(im1, primary, n, cs)
  {
    var dict := im.buffers[primary][..BLOCK_SIZE];
    StoredFrame(dict, dict, im.buffers, im1.buffers, Limits(im.overflow), Limits(im1.overflow), im.offsets, im1.offsets,
                cs, im.dictionaryOffset, im.dictionaryOffset);
  }

  /** Storing NULL as the next row keeps the segment holding its rows, and the new one. */
  lemma NullStep(im: Image, primary: int, n: nat, cs: seq<StringValue>)
    requires Holding(im, primary, n, cs) && n < im.maxVectorCount * STANDARD_VECTOR_SIZE
    ensures Holding(NullStored(im, n), primary, n + 1, cs + [None])
  {
    var im' := NullStored(im, n);
    var dict := im.buffers[primary][..BLOCK_SIZE];
    assert im'.offsets[..n] == im.offsets[..n];
    GrowsSame(im.buffers, im.buffers, Limits(im.overflow));
    StoredFrame(dict, dict, im.buffers, im.buffers, Limits(im.overflow), Limits(im.overflow), im.offsets, im'.offsets,
                cs, im.dictionaryOffset, im.dictionaryOffset);
    StoredPush(dict, im.buffers, Limits(im.overflow), im'.offsets, cs, im.dictionaryOffset, None);
  }

  /**
   * Storing a string inline keeps the segment holding its rows, and the new one: a short string
   * always leaves room for a marker per remaining row, and a longer one is kept inline only when
   * it does.
   */
  lemma InlineStep(im: Image, primary: int, n: nat, cs: seq<StringValue>, s: seq<Byte>, remaining: nat)
    requires Holding(im, primary, n, cs) && n < im.maxVectorCount * STANDARD_VECTOR_SIZE
    requires remaining == im.maxVectorCount * STANDARD_VECTOR_SIZE - n
    requires |s| + 3 <= BIG_STRING_MARKER_BASE_SIZE ||
             (|s| + 3 < STRING_BLOCK_LIMIT &&
              |s| + 3 + remaining * BIG_STRING_MARKER_SIZE <= Remaining(im.dictionaryOffset, im.maxVectorCount))
    ensures im.dictionaryOffset + |s| + 3 <= BLOCK_SIZE
    ensures Holding(InlineStored(im, primary, n, s), primary, n + 1, cs + [Some(s)])
  {
    EntrySpace(im, n, |s| + 3);
    EntryStep(im, primary, n, cs, InlineBytes(s));
    var im' := InlineStored(im, primary, n, s);
    StoredPush(im'.buffers[primary][..BLOCK_SIZE], im'.buffers, Limits(im'.overflow), im'.offsets, cs,
               im'.dictionaryOffset, Some(s));
  }

  /**
   * A dictionary entry of `total` bytes that is no longer than a marker, or that leaves room for a
   * marker per remaining row, keeps that room for the rows after it.
   */
  lemma EntrySpace(im: Image, n: nat, total: nat)
    requires SpaceHolds(im, n) && n < im.maxVectorCount * STANDARD_VECTOR_SIZE && BLOCK_SIZE >= im.dictionaryOffset
    requires total <= BIG_STRING_MARKER_SIZE ||
             total + (im.maxVectorCount * STANDARD_VECTOR_SIZE - n) * BIG_STRING_MARKER_SIZE <= Remaining(im.dictionaryOffset, im.maxVectorCount)
    ensures im.dictionaryOffset + total <= BLOCK_SIZE
    ensures Remaining(im.dictionaryOffset + total, im.maxVectorCount) >= (im.maxVectorCount * STANDARD_VECTOR_SIZE - (n + 1)) * BIG_STRING_MARKER_SIZE
  {
  }

  /** Storing a string in an overflow block, with a marker in the dictionary, keeps the segment holding its rows, and the new one. */
  lemma SpillStep(im: Image, primary: int, n: nat, cs: seq<StringValue>, s: seq<Byte>)
    requires Holding(im, primary, n, cs) && n < im.maxVectorCount * STANDARD_VECTOR_SIZE
    requires im.nextId < ArtKey.Half(8) && |s| + 5 < ArtKey.Pow256(4)
    ensures Encodable(MemoryLocation(im, s))
    ensures im.dictionaryOffset + BIG_STRING_MARKER_SIZE <= BLOCK_SIZE
    ensures Holding(MarkerStored(WriteMemory(im, s), primary, n, MemoryLocation(im, s)), primary, n + 1, cs + [Some(s)])
    ensures WriteMemory(im, s).nextId <= im.nextId + 1
  {
    MemoryStep(im, primary, s);
    MarkerStep(im, WriteMemory(im, s), primary, n, cs, s, MemoryLocation(im, s));
  }

  /** A marker for a location that holds the string, written below the dictionary, makes the string the next row. */
  lemma MarkerStep(im: Image, im1: Image, primary: int, n: nat, cs: seq<StringValue>, s: seq<Byte>, location: StringLocation)
    requires Holding(im, primary, n, cs) && n < im.maxVectorCount * STANDARD_VECTOR_SIZE
    requires MemoryWritten(im, im1, primary, location, s)
    requires im1 == im.(buffers := im1.buffers, nextId := im1.nextId, overflow := im1.overflow)
    ensures im.dictionaryOffset + BIG_STRING_MARKER_SIZE <= BLOCK_SIZE
    ensures Holding(MarkerStored(im1, primary, n, location), primary, n + 1, cs + [Some(s)])
  {
    HoldingFrame(im, im1, primary, n, cs);
    EntrySpace(im1, n, BIG_STRING_MARKER_SIZE);
    EntryStep(im1, primary, n, cs, MarkerBytes(location));
    var im' := MarkerStored(im1, primary, n, location);
    var pos := BLOCK_SIZE - im'.dictionaryOffset;
    var dict' := im'.buffers[primary][..BLOCK_SIZE];
    MarkerRoundTrip(dict', pos, location);
    OverflowFrame(im1.buffers, im'.buffers, Limits(im1.overflow), Limits(im'.overflow), location, s);
    StoredPush(dict', im'.buffers, Limits(im'.overflow), im'.offsets, cs, im'.dictionaryOffset, Some(s));
  }

  /** One more vector: its null bits cleared and its offsets zero. */
  ghost function Expanded(im: Image): Image
  {
    im.(maxVectorCount := im.maxVectorCount + 1, nullmask := im.nullmask + seq(STANDARD_VECTOR_SIZE, _ => false),
        offsets := im.offsets + seq(STANDARD_VECTOR_SIZE, _ => 0))
  }

  /**
   * A full segment with at least 32 bytes per row of a vector left between the vectors and the
   * dictionary takes another vector and still has room for a marker per row of it.
   */
  lemma ExpandStep(im: Image, primary: int, n: nat, cs: seq<StringValue>)
    requires Holding(im, primary, n, cs) && n == im.maxVectorCount * STANDARD_VECTOR_SIZE
    requires Remaining(im.dictionaryOffset, im.maxVectorCount) >= STANDARD_VECTOR_SIZE * 32
    ensures Holding(Expanded(im), primary, n, cs)
  {
    var im' := Expanded(im);
    var dict := im.buffers[primary][..BLOCK_SIZE];
    assert im'.offsets[..n] == im.offsets[..n];
    GrowsSame(im.buffers, im.buffers, Limits(im.overflow));
    StoredFrame(dict, dict, im.buffers, im.buffers, Limits(im.overflow), Limits(im.overflow), im.offsets, im'.offsets,
                cs, im.dictionaryOffset, im.dictionaryOffset);
  }

  /** Appending a slice of `data` in two parts. */
  lemma Concat<T>(xs: seq<T>, data: seq<T>, i: nat, j: nat, l: nat)
    requires i <= j <= l <= |data|
    ensures xs + data[i..l] == (xs + data[i..j]) + data[j..l]
    ensures l == j + 1 ==> xs + data[i..l] == (xs + data[i..j]) + [data[j]]
  {
    assert data[i..l] == data[i..j] + data[j..l];
  }

  /** A sequence that was `xs` with a slice of `data` appended, extended by the next slice. */
  lemma Extended<T>(xs: seq<T>, data: seq<T>, i: nat, j: nat, l: nat, previous: seq<T>, current: seq<T>)
    requires i <= j <= l <= |data|
    requires previous == xs + data[i..j] && current == previous + data[j..l]
    ensures current == xs + data[i..l]
  {
    Concat(xs, data, i, j, l);
  }

  /** A second write to the same buffer replaces the first. */
  lemma Overwrite(m: map<int, seq<Byte>>, k: int, a: seq<Byte>, b: seq<Byte>)
    ensures m[k := a][k := b] == m[k := b]
  {
  }

  /** The vector a row count points at: the one after the last when the vectors are full. */
  lemma VectorOf(n: nat, m: nat)
    requires n <= m * STANDARD_VECTOR_SIZE
    ensures n / STANDARD_VECTOR_SIZE == m ==> n == m * STANDARD_VECTOR_SIZE
    ensures n / STANDARD_VECTOR_SIZE != m ==> n < m * STANDARD_VECTOR_SIZE
  {
  }

  /**
   * Where a row's string is: at its update entry's location when the row has an entry, else at
   * the location its dictionary offset resolves to.
   */
  function LocationOf(dict: seq<Byte>, dictOffset: int, entries: seq<UpdateEntry>, id: int): StringLocation
    requires Resolvable(dict, dictOffset)
  {
    match Find(Ids(entries), id)
    case Some(u) => entries[u].location
    case None => FetchStringLocation(dict, dictOffset)
  }

  /** Each entry's location is NULL or an in-memory overflow string. */
  predicate EntriesReadable(buffers: map<int, seq<Byte>>, es: seq<UpdateEntry>)
  {
    forall u :: 0 <= u < |es| ==> es[u].location.blockId == INVALID_BLOCK || InMemory(buffers, es[u].location)
  }

  /** The first `count` rows of a vector, with dictionary offsets `base`, resolve and can be read. */
  predicate RowsRead(dict: seq<Byte>, buffers: map<int, seq<Byte>>, base: seq<int>, count: nat)
  {
    count <= |base| &&
    forall i :: 0 <= i < count ==> Resolvable(dict, base[i]) && Readable(dict, buffers, FetchStringLocation(dict, base[i]))
  }

  /** A row's string: its update entry's string, when it has one, else the string of its dictionary entry. */
  function ValueOf(dict: seq<Byte>, buffers: map<int, seq<Byte>>, dictOffset: int, es: seq<UpdateEntry>, id: int): StringValue
    requires Resolvable(dict, dictOffset) && Readable(dict, buffers, FetchStringLocation(dict, dictOffset))
    requires EntriesReadable(buffers, es)
  {
    match Find(Ids(es), id)
    case Some(u) => ReadString(buffers, es[u].location)
    case None => FetchString(dict, buffers, FetchStringLocation(dict, dictOffset))
  }

  /** The first |result| rows' strings are in `result`. */
  ghost predicate Fetched(result: seq<StringValue>, dict: seq<Byte>, buffers: map<int, seq<Byte>>, base: seq<int>, es: seq<UpdateEntry>)
  {
    RowsRead(dict, buffers, base, |result|) && EntriesReadable(buffers, es) &&
    forall k :: 0 <= k < |result| ==> result[k] == ValueOf(dict, buffers, base[k], es, k)
  }

  /** The first |cs| rows of a vector, with dictionary offsets `base`, read back as `cs`. */
  predicate RowsReadAs(dict: seq<Byte>, buffers: map<int, seq<Byte>>, base: seq<int>, cs: seq<StringValue>)
  {
    RowsRead(dict, buffers, base, |cs|) &&
    forall i :: 0 <= i < |cs| ==> FetchString(dict, buffers, FetchStringLocation(dict, base[i])) == cs[i]
  }

  /** The rows of a vector read back as their slice of the segment's rows. */
  lemma VectorReads(dict: seq<Byte>, buffers: map<int, seq<Byte>>, offsets: seq<int>, cs: seq<StringValue>, base: nat, count: nat)
    requires count <= STANDARD_VECTOR_SIZE && base + STANDARD_VECTOR_SIZE <= |offsets| && base + count <= |cs| <= |offsets|
    requires forall r :: 0 <= r < |cs| ==>
      Resolvable(dict, offsets[r]) && Readable(dict, buffers, FetchStringLocation(dict, offsets[r])) &&
      FetchString(dict, buffers, FetchStringLocation(dict, offsets[r])) == cs[r]
    ensures RowsReadAs(dict, buffers, offsets[base..base + STANDARD_VECTOR_SIZE], cs[base..base + count])
  {
    var vectorOffsets, vectorValues := offsets[base..base + STANDARD_VECTOR_SIZE], cs[base..base + count];
    forall i | 0 <= i < count
      ensures vectorOffsets[i] == offsets[base + i] && vectorValues[i] == cs[base + i]
    {
    }
  }

  /** Fetched rows hold their update entry's string, or else the string they read back as. */
  lemma FetchedMeans(result: seq<StringValue>, dict: seq<Byte>, buffers: map<int, seq<Byte>>, base: seq<int>, es: seq<UpdateEntry>,
                     cs: seq<StringValue>)
    requires Fetched(result, dict, buffers, base, es) && RowsReadAs(dict, buffers, base, cs) && |result| == |cs|
    ensures forall i :: 0 <= i < |cs| ==> result[i] == UpdatedValue(buffers, es, cs, i)
  {
  }

  /** Row `i` of a vector whose rows hold `cs` in the base table and whose update entries are `es`. */
  function UpdatedValue(buffers: map<int, seq<Byte>>, es: seq<UpdateEntry>, cs: seq<StringValue>, i: nat): StringValue
    requires EntriesReadable(buffers, es) && i < |cs|
  {
    match Find(Ids(es), i)
    case Some(u) => ReadString(buffers, es[u].location)
    case None => cs[i]
  }

  lemma FetchedPush(result: seq<StringValue>, dict: seq<Byte>, buffers: map<int, seq<Byte>>, base: seq<int>, es: seq<UpdateEntry>,
                    value: StringValue)
    requires Fetched(result, dict, buffers, base, es) && RowsRead(dict, buffers, base, |result| + 1)
    requires value == ValueOf(dict, buffers, base[|result|], es, |result|)
    ensures Fetched(result + [value], dict, buffers, base, es)
  {
  }

  /** The loop of FetchBaseData for a vector without update info: every row's dictionary string. */
  method BaseValues(dict: seq<Byte>, buffers: map<int, seq<Byte>>, base: seq<int>, count: nat) returns (result: seq<StringValue>)
    requires RowsRead(dict, buffers, base, count)
    ensures |result| == count && Fetched(result, dict, buffers, base, [])
  {
    result := [];
    var i := 0;
    while i < count
      invariant i <= count && |result| == i && Fetched(result, dict, buffers, base, [])
    {
      var value := FetchString(dict, buffers, FetchStringLocation(dict, base[i]));
      FetchedPush(result, dict, buffers, base, [], value);
      result := result + [value];
      i := i + 1;
    }
  }

  /**
   * The loop of FetchBaseData for a vector with update info: the rows are walked in order next
   * to the ascending entries, and a row whose entry is next reads the entry's string.
   */
  method MergeValues(dict: seq<Byte>, buffers: map<int, seq<Byte>>, base: seq<int>, count: nat, info: StringUpdateInfo)
    returns (result: seq<StringValue>)
    requires info.Valid() && EntriesReadable(buffers, info.Entries()) && RowsRead(dict, buffers, base, count)
    ensures |result| == count && Fetched(result, dict, buffers, base, info.Entries())
  {
    ghost var es := info.Entries();
    IdsOf(info.ids[..info.count], info.blockIds[..info.count], info.offsets[..info.count]);
    result := [];
    var updateIdx := 0;
    var i := 0;
    while i < count
      invariant i <= count && |result| == i && updateIdx <= info.count
      invariant forall v :: 0 <= v < updateIdx ==> es[v].id < i
      invariant updateIdx < info.count ==> es[updateIdx].id >= i
      invariant Fetched(result, dict, buffers, base, es)
    {
      FindAscending(Ids(es), updateIdx, i);
      var value;
      if updateIdx < info.count && info.ids[updateIdx] == i {
        assert es[updateIdx].location == StringLocation(info.blockIds[updateIdx], info.offsets[updateIdx]);
        value := ReadString(buffers, StringLocation(info.blockIds[updateIdx], info.offsets[updateIdx]));
        updateIdx := updateIdx + 1;
      } else {
        value := FetchString(dict, buffers, FetchStringLocation(dict, base[i]));
      }
      FetchedPush(result, dict, buffers, base, es, value);
      result := result + [value];
      i := i + 1;
    }
  }

  /** The rows `ids[i] - vectorOffset` of a vector with dictionary offsets `base`, and each resolves. */
  predicate RowsResolve(dict: seq<Byte>, base: seq<int>, ids: seq<int>, vectorOffset: int, count: nat)
  {
    count <= |ids| && forall i :: 0 <= i < count ==> 0 <= ids[i] - vectorOffset < |base| && Resolvable(dict, base[ids[i] - vectorOffset])
  }

  /** The loop of FetchStringLocations for a vector without update info: every row's dictionary location. */
  method BaseLocations(dict: seq<Byte>, base: seq<int>, ids: seq<int>, vectorOffset: int, count: nat) returns (result: seq<StringLocation>)
    requires RowsResolve(dict, base, ids, vectorOffset, count)
    ensures |result| == count
    ensures forall i :: 0 <= i < count ==> result[i] == LocationOf(dict, base[ids[i] - vectorOffset], [], ids[i] - vectorOffset)
  {
    result := [];
    var i := 0;
    while i < count
      invariant i <= count && |result| == i
      invariant forall k :: 0 <= k < i ==> result[k] == FetchStringLocation(dict, base[ids[k] - vectorOffset])
    {
      var id := ids[i] - vectorOffset;
      result := result + [FetchStringLocation(dict, base[id])];
      i := i + 1;
    }
  }

  /**
   * The loop of FetchStringLocations for a vector with update info: a walk along the ascending
   * entries next to the ascending rows; a row the walk finds gets its entry's location.
   */
  method MergeLocations(dict: seq<Byte>, base: seq<int>, ids: seq<int>, vectorOffset: int, count: nat, info: StringUpdateInfo)
    returns (result: seq<StringLocation>)
    requires info.Valid() && RowsResolve(dict, base, ids, vectorOffset, count) && Ascending(ids[..count])
    ensures |result| == count && Located(result, dict, base, ids, vectorOffset, info.Entries())
  {
    ghost var es := info.Entries();
    IdsOf(info.ids[..info.count], info.blockIds[..info.count], info.offsets[..info.count]);
    result := [];
    var updateIdx := 0;
    var i := 0;
    while i < count
      invariant i <= count && |result| == i && updateIdx <= info.count
      invariant forall v :: 0 <= v < updateIdx ==> i > 0 && es[v].id <= ids[i - 1] - vectorOffset
      invariant Located(result, dict, base, ids, vectorOffset, es)
    {
      var id := ids[i] - vectorOffset;
      if i > 0 {
        assert ids[..count][i - 1] < ids[..count][i];
      }
      var location;
      location, updateIdx := MergeStep(dict, base[id], info, es, id, updateIdx);
      LocatedPush(result, dict, base, ids, vectorOffset, es, location);
      result := result + [location];
      i := i + 1;
    }
  }

  /**
   * One row of the walk of FetchStringLocations: the entries below the row are passed, and the
   * row gets the next entry's location when that entry is the row's.
   */
  method MergeStep(dict: seq<Byte>, dictOffset: int, info: StringUpdateInfo, ghost es: seq<UpdateEntry>, id: int, updateIdx: nat)
    returns (location: StringLocation, next: nat)
    requires info.Shaped() && es == info.Entries() && Ascending(Ids(es)) && Resolvable(dict, dictOffset)
    requires updateIdx <= info.count && forall v :: 0 <= v < updateIdx ==> es[v].id < id
    ensures location == LocationOf(dict, dictOffset, es, id)
    ensures updateIdx <= next <= info.count && forall v :: 0 <= v < next ==> es[v].id <= id
  {
    next := updateIdx;
    while next < info.count && info.ids[next] < id
      invariant updateIdx <= next <= info.count
      invariant forall v :: 0 <= v < next ==> es[v].id < id
    {
      next := next + 1;
    }
    LocationStep(dict, dictOffset, es, id, next);
    if next < info.count && info.ids[next] == id {
      location := StringLocation(info.blockIds[next], info.offsets[next]);
      next := next + 1;
    } else {
      location := FetchStringLocation(dict, dictOffset);
    }
  }

  /** The first |result| rows' locations are in `result`. */
  ghost predicate Located(result: seq<StringLocation>, dict: seq<Byte>, base: seq<int>, ids: seq<int>, vectorOffset: int,
                          es: seq<UpdateEntry>)
  {
    RowsResolve(dict, base, ids, vectorOffset, |result|) &&
    forall k :: 0 <= k < |result| ==> result[k] == LocationOf(dict, base[ids[k] - vectorOffset], es, ids[k] - vectorOffset)
  }

  lemma LocatedPush(result: seq<StringLocation>, dict: seq<Byte>, base: seq<int>, ids: seq<int>, vectorOffset: int,
                    es: seq<UpdateEntry>, location: StringLocation)
    requires Located(result, dict, base, ids, vectorOffset, es)
    requires RowsResolve(dict, base, ids, vectorOffset, |result| + 1)
    requires location == LocationOf(dict, base[ids[|result|] - vectorOffset], es, ids[|result|] - vectorOffset)
    ensures Located(result + [location], dict, base, ids, vectorOffset, es)
  {
  }

  /** One row of the walk: the entry at `updateIdx` when it is the row's, else the dictionary location. */
  lemma LocationStep(dict: seq<Byte>, dictOffset: int, es: seq<UpdateEntry>, id: int, updateIdx: nat)
    requires Resolvable(dict, dictOffset) && Ascending(Ids(es)) && updateIdx <= |es|
    requires forall v :: 0 <= v < updateIdx ==> es[v].id < id
    requires updateIdx < |es| ==> es[updateIdx].id >= id
    ensures LocationOf(dict, dictOffset, es, id) ==
            if updateIdx < |es| && es[updateIdx].id == id then es[updateIdx].location else FetchStringLocation(dict, dictOffset)
  {
    FindAscending(Ids(es), updateIdx, id);
  }

  /** Where an update's value went: INVALID_BLOCK and 0 for NULL, else an overflow string holding it. */
  ghost predicate WrittenAs(buffers: map<int, seq<Byte>>, limits: map<int, nat>, v: StringValue, location: StringLocation)
  {
    match v
    case None => location == StringLocation(INVALID_BLOCK, 0)
    case Some(s) => OverflowHolds(buffers, limits, location, s)
  }

  /** Where each of an update's values went. */
  ghost predicate Written(buffers: map<int, seq<Byte>>, limits: map<int, nat>, values: seq<StringValue>, written: seq<StringLocation>)
  {
    |written| == |values| && forall i :: 0 <= i < |values| ==> WrittenAs(buffers, limits, values[i], written[i])
  }

  /** The update's strings stay where they went while the overflow blocks only grow. */
  lemma WrittenFrame(buffers: map<int, seq<Byte>>, buffers': map<int, seq<Byte>>, limits: map<int, nat>, limits': map<int, nat>,
                     values: seq<StringValue>, written: seq<StringLocation>)
    requires Written(buffers, limits, values, written) && Grows(buffers, buffers', limits, limits')
    ensures Written(buffers', limits', values, written)
  {
    forall i | 0 <= i < |values| && values[i].Some?
      ensures OverflowHolds(buffers', limits', written[i], values[i].value)
    {
      OverflowFrame(buffers, buffers', limits, limits', written[i], values[i].value);
    }
  }

  /** Where a value went, ReadString reads it back: NULL from INVALID_BLOCK, else the string. */
  lemma WrittenReadsBack(buffers: map<int, seq<Byte>>, limits: map<int, nat>, v: StringValue, location: StringLocation)
    requires WrittenAs(buffers, limits, v, location)
    ensures location.blockId == INVALID_BLOCK || InMemory(buffers, location)
    ensures ReadString(buffers, location) == v
  {
    if v.Some? {
      OverflowReadBack(buffers, limits, location, v.value);
    }
  }

  /**
   * After an update the vector's info has an entry for every row of the update and of the earlier
   * info; an updated row's entry reads back the update's value, NULL included, and every other
   * row keeps the entry it had.
   */
  lemma UpdatedRowsReadBack(buffers: map<int, seq<Byte>>, limits: map<int, nat>, rows: seq<int>, values: seq<StringValue>,
                            written: seq<StringLocation>, earlier: seq<UpdateEntry>, x: int)
    requires Ascending(rows) && InVector(rows) && |values| == |rows|
    requires Ascending(Ids(earlier)) && InVector(Ids(earlier))
    requires Written(buffers, limits, values, written)
    ensures var es := MergedEntries(StringPicks(rows, earlier), written, earlier);
      (x in Ids(es) <==> x in rows || x in Ids(earlier)) &&
      (x in rows ==>
        var location := es[Find(Ids(es), x).value].location;
        (location.blockId == INVALID_BLOCK || InMemory(buffers, location)) &&
        ReadString(buffers, location) == values[Find(rows, x).value]) &&
      (x !in rows && x in Ids(earlier) ==> es[Find(Ids(es), x).value] == earlier[Find(Ids(earlier), x).value])
  {
    MergedInfo(rows, written, earlier, x);
    if x in rows {
      var k := Find(rows, x).value;
      WrittenReadsBack(buffers, limits, values[k], written[k]);
    }
  }

  /** The rows of a vector an update's row ids name: each id less the id of the vector's first row. */
  function VectorRows(ids: seq<int>, vectorOffset: int): (r: seq<int>)
    ensures |r| == |ids| && forall i :: 0 <= i < |ids| ==> r[i] == ids[i] - vectorOffset
    ensures Ascending(ids) ==> Ascending(r)
  {
    seq(|ids|, i requires 0 <= i < |ids| => ids[i] - vectorOffset)
  }

  /** The null bits of an update's values. */
  function NullBits(values: seq<StringValue>): (r: seq<bool>)
    ensures |r| == |values| && forall i :: 0 <= i < |values| ==> (r[i] <==> values[i].None?)
  {
    seq(|values|, i requires 0 <= i < |values| => values[i].None?)
  }

  /** An undo record of vector `vectorIndex`: ascending rows of the vector, a location each, and a whole null mask. */
  predicate Recorded(version: UpdateVersion, vectorIndex: nat)
  {
    version.vectorIndex == vectorIndex && Ascending(version.tuples) && InVector(version.tuples) &&
    |version.locations| == |version.tuples| && |version.nullmask| == STANDARD_VECTOR_SIZE
  }

  /**
   * The undo record an update leaves: without one for the vector in the transaction, a new record
   * of the updated rows, their locations and the vector's null mask from before the update; else
   * the transaction's record with the update merged in (MergeUpdateInfo).
   */
  function UndoRecord(node: Option<UpdateVersion>, vectorIndex: nat, rows: seq<int>, prior: seq<StringLocation>,
                      original: seq<bool>): (r: UpdateVersion)
    requires node.Some? ==> Recorded(node.value, vectorIndex)
    requires Ascending(rows) && InVector(rows) && |prior| == |rows| && |original| == STANDARD_VECTOR_SIZE
    ensures Recorded(r, vectorIndex)
  {
    match node
    case None => UpdateVersion(vectorIndex, rows, original, prior)
    case Some(version) => MergedRecord(version, rows, prior, original, false)
  }

  /** Setting the bits of rows below `n` leaves the bits from `n` on as they were. */
  lemma NulledBeyond(mask: seq<bool>, base: nat, rows: seq<int>, nulls: seq<bool>, n: nat)
    requires |nulls| == |rows|
    requires forall t :: 0 <= t < |rows| ==> base + rows[t] < n
    ensures |NulledMask(mask, base, rows, nulls)| == |mask|
    ensures forall r :: n <= r < |mask| ==> NulledMask(mask, base, rows, nulls)[r] == mask[r]
  {
    forall r | n <= r < |mask|
      ensures NulledMask(mask, base, rows, nulls)[r] == mask[r]
    {
      assert forall t :: 0 <= t < |rows| ==> rows[t] != r - base;
    }
  }

  class StringSegment {
    const manager: BufferManager
    const rowStart: nat
    /** The segment's own block: vectors at the front, the dictionary at the back. */
    const blockId: int
    var maxVectorCount: nat
    /** How far the dictionary reaches back from BLOCK_SIZE. */
    var dictionaryOffset: nat
    var tupleCount: nat
    /** The null masks of the vectors, row by row. */
    var nullmask: seq<bool>
    /** The dictionary offsets of the vectors, row by row. */
    var offsets: seq<int>
    /** The version chain of each vector, when any vector has one. */
    var versions: Option<seq<Option<UpdateVersion>>>
    /** The update info of each vector, when any vector has one. */
    var stringUpdates: Option<seq<Option<StringUpdateInfo>>>
    /** The overflow blocks, the head (the one written to) first. */
    var overflow: seq<StringBlock>
    /** The strings the rows hold in the base table. */
    ghost var contents: seq<StringValue>

    /** The dictionary's bytes: the segment's block up to BLOCK_SIZE. */
    function Dict(): seq<Byte>
      reads manager`buffers
      requires blockId in manager.buffers && |manager.buffers[blockId]| >= BLOCK_SIZE
    {
      manager.buffers[blockId][..BLOCK_SIZE]
    }

    function RemainingSpace(): int
      reads this
    {
      Remaining(dictionaryOffset, maxVectorCount)
    }

    ghost function Snapshot(): Image
      reads manager`buffers, manager`nextId, this`overflow, this`maxVectorCount, this`dictionaryOffset, this`nullmask, this`offsets
    {
      Image(manager.buffers, manager.nextId, overflow, maxVectorCount, dictionaryOffset, nullmask, offsets)
    }

    /** A version slot and an update slot per vector, when there are any. */
    ghost predicate Slots()
      reads this`maxVectorCount, this`versions, this`stringUpdates
    {
      (versions.Some? ==> |versions.value| == maxVectorCount) &&
      (stringUpdates.Some? ==> |stringUpdates.value| == maxVectorCount)
    }

    ghost predicate ValidWith(n: nat, cs: seq<StringValue>)
      reads manager`buffers, manager`nextId, this`overflow, this`maxVectorCount, this`dictionaryOffset, this`nullmask, this`offsets
      reads this`versions, this`stringUpdates
    {
      Slots() && Holding(Snapshot(), blockId, n, cs)
    }

    ghost predicate Valid()
      reads manager`buffers, manager`nextId, this`overflow, this`maxVectorCount, this`dictionaryOffset, this`nullmask, this`offsets
      reads this`versions, this`stringUpdates, this`tupleCount, this`contents
    {
      ValidWith(tupleCount, contents)
    }

    /** A fresh segment: a new block of BLOCK_ALLOC_SIZE bytes with one empty vector. */
    constructor(manager: BufferManager, rowStart: nat)
      requires manager.Valid() && manager.nextId < ArtKey.Half(8)
      modifies manager
      ensures Valid() && this.manager == manager && this.rowStart == rowStart
      ensures blockId == old(manager.nextId) && manager.buffers == old(manager.buffers)[blockId := seq(BLOCK_ALLOC_SIZE, _ => 0)]
      ensures tupleCount == 0 && contents == [] && maxVectorCount == 1 && dictionaryOffset == 0 && overflow == []
      ensures versions == None && stringUpdates == None
    {
      this.manager := manager;
      this.rowStart := rowStart;
      var id := manager.Allocate(BLOCK_ALLOC_SIZE);
      blockId := id;
      maxVectorCount := 0;
      dictionaryOffset := 0;
      tupleCount := 0;
      nullmask := [];
      offsets := [];
      versions := None;
      stringUpdates := None;
      overflow := [];
      contents := [];
      new;
      ExpandStringSegment();
    }

    /**
     * ExpandStringSegment: one more vector, whose null mask is cleared; the versions and the
     * update infos, when there are any, get an empty slot for it.
     */
    method ExpandStringSegment()
      modifies this`maxVectorCount, this`nullmask, this`offsets, this`versions, this`stringUpdates
      ensures maxVectorCount == old(maxVectorCount) + 1
      ensures nullmask == old(nullmask) + seq(STANDARD_VECTOR_SIZE, _ => false)
      ensures offsets == old(offsets) + seq(STANDARD_VECTOR_SIZE, _ => 0)
      ensures versions == if old(versions).Some? then Some(old(versions).value + [None]) else None
      ensures stringUpdates == if old(stringUpdates).Some? then Some(old(stringUpdates).value + [None]) else None
    {
      nullmask := nullmask + seq(STANDARD_VECTOR_SIZE, _ => false);
      offsets := offsets + seq(STANDARD_VECTOR_SIZE, _ => 0);
      maxVectorCount := maxVectorCount + 1;
      if versions.Some? {
        versions := Some(versions.value + [None]);
      }
      if stringUpdates.Some? {
        stringUpdates := Some(stringUpdates.value + [None]);
      }
    }

    /**
     * WriteStringMemory: the string goes to the head overflow block at its write position, which
     * moves past the string; when there is no head or the string does not end before the end of
     * the head, a new head of max(total, BLOCK_ALLOC_SIZE) bytes is pushed first.
     */
    method WriteStringMemory(s: seq<Byte>) returns (location: StringLocation)
      requires BlocksHold(Snapshot(), blockId) && manager.nextId < ArtKey.Half(8) && |s| + 5 < ArtKey.Pow256(4)
      modifies this`overflow, manager
      ensures Snapshot() == WriteMemory(old(Snapshot()), s) && location == MemoryLocation(old(Snapshot()), s)
    {
      var total := |s| + 1 + 4;
      if overflow == [] || overflow[0].offset + total >= overflow[0].size {
        var allocSize := if total > BLOCK_ALLOC_SIZE then total else BLOCK_ALLOC_SIZE;
        PushBlock(allocSize);
      }
      location := StringLocation(overflow[0].blockId, overflow[0].offset);
      CopyToHead(s);
    }

    /** A new head block of `size` bytes from the buffer manager. */
    method PushBlock(size: nat)
      requires manager.Valid() && manager.nextId < ArtKey.Half(8)
      modifies this`overflow, manager
      ensures Snapshot() == Pushed(old(Snapshot()), size)
    {
      var id := manager.Allocate(size);
      overflow := [StringBlock(id, 0, size)] + overflow;
    }

    /** The string's 32-bit length, its bytes and a 0 copied to the head block's write position, which moves past them. */
    method CopyToHead(s: seq<Byte>)
      requires overflow != [] && overflow[0].blockId in manager.buffers && |s| < ArtKey.Pow256(4)
      requires overflow[0].offset + |s| + 5 <= |manager.buffers[overflow[0].blockId]|
      modifies this`overflow, manager`buffers
      ensures Snapshot() == Copied(old(Snapshot()), s)
    {
      var head := overflow[0];
      var block := manager.buffers[head.blockId];
      manager.Write(head.blockId, head.offset, LittleEndian(|s|, 4));
      manager.Write(head.blockId, head.offset + 4, s + [0]);
      OverflowSplice(block, head.offset, s);
      Overwrite(old(manager.buffers), head.blockId, Splice(block, head.offset, LittleEndian(|s|, 4)),
                Splice(block, head.offset, OverflowBytes(s)));
      overflow := [head.(offset := head.offset + |s| + 5)] + overflow[1..];
    }

    /** WriteStringMarker: the marker length, the block id and the offset, copied one after the other to `pos`. */
    method WriteStringMarker(pos: nat, location: StringLocation)
      requires blockId in manager.buffers && pos + BIG_STRING_MARKER_SIZE <= |manager.buffers[blockId]|
      requires Encodable(location)
      modifies manager`buffers
      ensures manager.buffers == old(manager.buffers)[blockId := Splice(old(manager.buffers)[blockId], pos, MarkerBytes(location))]
    {
      var block := manager.buffers[blockId];
      manager.Write(blockId, pos, LittleEndian(BIG_STRING_MARKER, 2));
      manager.Write(blockId, pos + 2, SignedBytes(location.blockId, 8));
      SpliceAdjacent(block, pos, LittleEndian(BIG_STRING_MARKER, 2), SignedBytes(location.blockId, 8));
      manager.Write(blockId, pos + 10, SignedBytes(location.offset, 4));
      SpliceAdjacent(block, pos, LittleEndian(BIG_STRING_MARKER, 2) + SignedBytes(location.blockId, 8), SignedBytes(location.offset, 4));
    }

    /**
     * Append: rows of `data` from `offset` on, vector by vector, adding a vector when the last one
     * is full and at least 32 bytes per row of a vector are left; stops early when they are not.
     */
    method Append(data: seq<StringValue>, offset: nat, count: nat) returns (appended: nat)
      requires Valid() && Appendable(data) && offset + count <= |data|
      requires manager.nextId + count <= ArtKey.Half(8)
      modifies this`tupleCount, this`contents, this`dictionaryOffset, this`offsets, this`nullmask, this`overflow
      modifies this`maxVectorCount, this`versions, this`stringUpdates, manager
      ensures Valid() && appended <= count && tupleCount == old(tupleCount) + appended
      ensures contents == old(contents) + data[offset..offset + appended]
      ensures appended < count ==>
                tupleCount == maxVectorCount * STANDARD_VECTOR_SIZE && RemainingSpace() < STANDARD_VECTOR_SIZE * 32
      ensures manager.nextId <= old(manager.nextId) + appended
    {
      var initialCount := tupleCount;
      ghost var initialContents := contents;
      var next: nat, left: nat := offset, count;
      while left > 0
        invariant Valid() && offset <= next && next + left == offset + count
        invariant tupleCount == initialCount + (next - offset)
        invariant contents == initialContents + data[offset..next]
        invariant manager.nextId <= old(manager.nextId) + (next - offset)
        decreases left
      {
        var appendCount, full := AppendStep(data, next, left, initialContents, offset);
        if full {
          break;
        }
        left := left - appendCount;
        next := next + appendCount;
      }
      appended := tupleCount - initialCount;
    }

    /**
     * The body of Append's loop: when the last vector is full, a new vector if at least 32 bytes
     * per row of a vector are left, or `full` otherwise; then as many rows as fit in the vector.
     */
    method AppendStep(data: seq<StringValue>, offset: nat, count: nat, ghost initial: seq<StringValue>, ghost start: nat)
      returns (appendCount: nat, full: bool)
      requires Valid() && Appendable(data) && offset + count <= |data| && count > 0
      requires start <= offset && contents == initial + data[start..offset]
      requires manager.nextId + count <= ArtKey.Half(8)
      modifies this`tupleCount, this`contents, this`dictionaryOffset, this`offsets, this`nullmask, this`overflow
      modifies this`maxVectorCount, this`versions, this`stringUpdates, manager
      ensures Valid() && appendCount <= count && tupleCount == old(tupleCount) + appendCount
      ensures contents == initial + data[start..offset + appendCount]
      ensures manager.nextId <= old(manager.nextId) + appendCount
      ensures full ==> (appendCount == 0 &&
                tupleCount == maxVectorCount * STANDARD_VECTOR_SIZE && RemainingSpace() < STANDARD_VECTOR_SIZE * 32)
      ensures !full ==> appendCount > 0
    {
      RowsFit();
      var vectorIndex := tupleCount / STANDARD_VECTOR_SIZE;
      VectorOf(tupleCount, maxVectorCount);
      if vectorIndex == maxVectorCount {
        if RemainingSpace() >= STANDARD_VECTOR_SIZE * 32 {
          ExpandFull();
        } else {
          return 0, true;
        }
      }
      appendCount := AppendVector(data, offset, count, initial, start);
      full := false;
    }

    lemma RowsFit()
      requires Valid()
      ensures tupleCount <= maxVectorCount * STANDARD_VECTOR_SIZE
    {
    }

    /** Append's expansion of a full segment: ExpandStringSegment, which keeps the rows held when there is room. */
    method ExpandFull()
      requires Valid() && tupleCount == maxVectorCount * STANDARD_VECTOR_SIZE
      requires RemainingSpace() >= STANDARD_VECTOR_SIZE * 32
      modifies this`maxVectorCount, this`nullmask, this`offsets, this`versions, this`stringUpdates
      ensures Valid() && maxVectorCount == old(maxVectorCount) + 1
    {
      ghost var before := Snapshot();
      ExpandStringSegment();
      ExpandStep(before, blockId, tupleCount, contents);
      assert Snapshot() == Expanded(before);
    }

    /**
     * The body of Append's loop once the last vector has room: as many rows as fit in it, or as
     * are left, appended by AppendData.
     */
    method AppendVector(data: seq<StringValue>, offset: nat, count: nat, ghost initial: seq<StringValue>, ghost start: nat)
      returns (appendCount: nat)
      requires Valid() && Appendable(data) && offset + count <= |data| && count > 0
      requires start <= offset && contents == initial + data[start..offset]
      requires tupleCount < maxVectorCount * STANDARD_VECTOR_SIZE
      requires manager.nextId + count <= ArtKey.Half(8)
      modifies this`tupleCount, this`contents, this`dictionaryOffset, this`offsets, this`nullmask, this`overflow, manager
      ensures Valid() && 0 < appendCount <= count && tupleCount == old(tupleCount) + appendCount
      ensures contents == initial + data[start..offset + appendCount]
      ensures manager.nextId <= old(manager.nextId) + appendCount
    {
      var vectorIndex := tupleCount / STANDARD_VECTOR_SIZE;
      var currentTupleCount := tupleCount - vectorIndex * STANDARD_VECTOR_SIZE;
      appendCount := if STANDARD_VECTOR_SIZE - currentTupleCount < count then STANDARD_VECTOR_SIZE - currentTupleCount else count;
      AppendData(vectorIndex, currentTupleCount, data, offset, appendCount);
      Extended(initial, data, start, offset, offset + appendCount, contents, contents + data[offset..offset + appendCount]);
      contents := contents + data[offset..offset + appendCount];
      tupleCount := tupleCount + appendCount;
    }

    /**
     * AppendData: the rows of `data` from `offset` on, into the last vector from `targetOffset`
     * on. A string goes to an overflow block when its dictionary entry is longer than a marker
     * and either reaches STRING_BLOCK_LIMIT or would not leave room for a marker per row still
     * free in the vector; otherwise it goes to the dictionary.
     */
    method AppendData(vectorIndex: nat, targetOffset: nat, data: seq<StringValue>, offset: nat, count: nat)
      requires Valid() && Appendable(data) && offset + count <= |data|
      requires vectorIndex + 1 == maxVectorCount && targetOffset < STANDARD_VECTOR_SIZE
      requires tupleCount == vectorIndex * STANDARD_VECTOR_SIZE + targetOffset && targetOffset + count <= STANDARD_VECTOR_SIZE
      requires manager.nextId + count <= ArtKey.Half(8)
      modifies this`dictionaryOffset, this`offsets, this`nullmask, this`overflow, manager
      ensures ValidWith(tupleCount + count, contents + data[offset..offset + count])
      ensures manager.nextId <= old(manager.nextId) + count
    {
      var remainingStrings := STANDARD_VECTOR_SIZE - tupleCount % STANDARD_VECTOR_SIZE;
      var k := offset;
      var n := tupleCount;
      ghost var cs := contents;
      ghost var ids := manager.nextId;
      while k < offset + count
        invariant offset <= k <= offset + count && n == tupleCount + (k - offset)
        invariant cs == contents + data[offset..k] && ValidWith(n, cs)
        invariant remainingStrings == STANDARD_VECTOR_SIZE - targetOffset - (k - offset)
        invariant manager.nextId <= ids + (k - offset)
        decreases offset + count - k
      {
        AppendValue(n, cs, data[k], remainingStrings);
        Concat(contents, data, offset, k, k + 1);
        cs := cs + [data[k]];
        n := n + 1;
        remainingStrings := remainingStrings - 1;
        k := k + 1;
      }
    }

    /** The body of AppendData's loop: one value as row `n`, with `remaining` rows left in its vector. */
    method AppendValue(n: nat, ghost cs: seq<StringValue>, v: StringValue, remaining: nat)
      requires ValidWith(n, cs) && n < maxVectorCount * STANDARD_VECTOR_SIZE
      requires remaining == maxVectorCount * STANDARD_VECTOR_SIZE - n
      requires manager.nextId < ArtKey.Half(8) && (v.Some? ==> |v.value| + 5 < ArtKey.Pow256(4))
      modifies this`dictionaryOffset, this`offsets, this`nullmask, this`overflow, manager
      ensures ValidWith(n + 1, cs + [v]) && manager.nextId <= old(manager.nextId) + 1
    {
      match v
      case None =>
        AppendNull(n, cs);
      case Some(s) =>
        var totalLength := |s| + 1 + 2;
        if totalLength > BIG_STRING_MARKER_BASE_SIZE &&
           (totalLength >= STRING_BLOCK_LIMIT || totalLength + remaining * BIG_STRING_MARKER_SIZE > RemainingSpace()) {
          AppendSpilled(n, cs, s);
        } else {
          AppendInline(n, cs, s, remaining);
        }
    }

    /** A NULL row: dictionary offset 0 and the null bit set. */
    method AppendNull(n: nat, ghost cs: seq<StringValue>)
      requires ValidWith(n, cs) && n < maxVectorCount * STANDARD_VECTOR_SIZE
      modifies this`offsets, this`nullmask
      ensures Snapshot() == NullStored(old(Snapshot()), n)
      ensures ValidWith(n + 1, cs + [None])
    {
      offsets := offsets[n := 0];
      nullmask := nullmask[n := true];
      NullStep(old(Snapshot()), blockId, n, cs);
    }

    /** A string stored in the dictionary: its 16-bit length, its bytes and a 0, just below the dictionary. */
    method AppendInline(n: nat, ghost cs: seq<StringValue>, s: seq<Byte>, remaining: nat)
      requires ValidWith(n, cs) && n < maxVectorCount * STANDARD_VECTOR_SIZE
      requires remaining == maxVectorCount * STANDARD_VECTOR_SIZE - n
      requires |s| + 3 <= BIG_STRING_MARKER_BASE_SIZE ||
               (|s| + 3 < STRING_BLOCK_LIMIT && |s| + 3 + remaining * BIG_STRING_MARKER_SIZE <= RemainingSpace())
      modifies this`dictionaryOffset, this`offsets, manager`buffers
      ensures Snapshot() == InlineStored(old(Snapshot()), blockId, n, s)
      ensures ValidWith(n + 1, cs + [Some(s)])
    {
      InlineStep(Snapshot(), blockId, n, cs, s, remaining);
      WriteInline(n, s);
    }

    /** The inline entry's two copies: the 16-bit length, then the bytes and a 0. */
    method WriteInline(n: nat, s: seq<Byte>)
      requires blockId in manager.buffers && |s| < BIG_STRING_MARKER && n < |offsets|
      requires dictionaryOffset + |s| + 3 <= BLOCK_SIZE <= |manager.buffers[blockId]|
      modifies this`dictionaryOffset, this`offsets, manager`buffers
      ensures Snapshot() == InlineStored(old(Snapshot()), blockId, n, s)
    {
      var total := |s| + 1 + 2;
      dictionaryOffset := dictionaryOffset + total;
      var pos := BLOCK_SIZE - dictionaryOffset;
      var block := manager.buffers[blockId];
      manager.Write(blockId, pos, LittleEndian(|s|, 2));
      manager.Write(blockId, pos + 2, s + [0]);
      offsets := offsets[n := dictionaryOffset];
      InlineSplice(block, pos, s);
      Overwrite(old(manager.buffers), blockId, Splice(block, pos, LittleEndian(|s|, 2)), Splice(block, pos, InlineBytes(s)));
    }

    /** A string stored in an overflow block, with a big-string marker just below the dictionary. */
    method AppendSpilled(n: nat, ghost cs: seq<StringValue>, s: seq<Byte>)
      requires ValidWith(n, cs) && n < maxVectorCount * STANDARD_VECTOR_SIZE
      requires manager.nextId < ArtKey.Half(8) && |s| + 5 < ArtKey.Pow256(4)
      modifies this`dictionaryOffset, this`offsets, this`overflow, manager
      ensures Encodable(MemoryLocation(old(Snapshot()), s))
      ensures old(dictionaryOffset) + BIG_STRING_MARKER_SIZE <= BLOCK_SIZE
      ensures Snapshot() == MarkerStored(WriteMemory(old(Snapshot()), s), blockId, n, MemoryLocation(old(Snapshot()), s))
      ensures ValidWith(n + 1, cs + [Some(s)])
      ensures manager.nextId <= old(manager.nextId) + 1
    {
      SpillStep(Snapshot(), blockId, n, cs, s);
      var location := WriteStringMemory(s);
      dictionaryOffset := dictionaryOffset + BIG_STRING_MARKER_SIZE;
      WriteStringMarker(BLOCK_SIZE - dictionaryOffset, location);
      offsets := offsets[n := dictionaryOffset];
    }

    /** The update info of a vector, when it has one. */
    function UpdateOf(vectorIndex: nat): Option<StringUpdateInfo>
      reads this`stringUpdates
    {
      if stringUpdates.Some? && vectorIndex < |stringUpdates.value| then stringUpdates.value[vectorIndex] else None
    }

    /** The objects the update info of a vector is made of. */
    ghost function UpdateFrame(vectorIndex: nat): (r: set<object>)
      reads this`stringUpdates
      ensures this !in r && manager !in r
    {
      match UpdateOf(vectorIndex)
      case None => {}
      case Some(info) => {info, info.ids, info.blockIds, info.offsets}
    }

    /** A vector's update info is valid, when it has one. */
    ghost predicate UpdateValid(vectorIndex: nat)
      reads this`stringUpdates, UpdateFrame(vectorIndex)
    {
      UpdateOf(vectorIndex).Some? ==> UpdateOf(vectorIndex).value.Valid()
    }

    /** The entries of a vector's update info; none when it has no info. */
    ghost function UpdateEntries(vectorIndex: nat): (es: seq<UpdateEntry>)
      reads this`stringUpdates, UpdateFrame(vectorIndex)
      requires UpdateValid(vectorIndex)
      ensures Ascending(Ids(es)) && InVector(Ids(es))
    {
      match UpdateOf(vectorIndex)
      case None => []
      case Some(info) => IdsOf(info.ids[..info.count], info.blockIds[..info.count], info.offsets[..info.count]); info.Entries()
    }

    /**
     * Every row appended reads back: its dictionary offset resolves to a location whose string is
     * the row's, or NULL for a NULL row (FetchStringFromDict after Append).
     */
    lemma ReadRow(r: nat)
      requires Valid() && r < tupleCount
      ensures Resolvable(Dict(), offsets[r]) && Readable(Dict(), manager.buffers, FetchStringLocation(Dict(), offsets[r]))
      ensures FetchString(Dict(), manager.buffers, FetchStringLocation(Dict(), offsets[r])) == contents[r]
    {
      ReadBack(Dict(), manager.buffers, Limits(overflow), offsets[r], contents[r]);
    }

    /** Every row appended reads back, as ReadRow says. */
    lemma ReadAll()
      requires Valid()
      ensures forall r :: 0 <= r < tupleCount ==>
        Resolvable(Dict(), offsets[r]) && Readable(Dict(), manager.buffers, FetchStringLocation(Dict(), offsets[r])) &&
        FetchString(Dict(), manager.buffers, FetchStringLocation(Dict(), offsets[r])) == contents[r]
    {
      forall r | 0 <= r < tupleCount
        ensures Resolvable(Dict(), offsets[r]) && Readable(Dict(), manager.buffers, FetchStringLocation(Dict(), offsets[r])) &&
                FetchString(Dict(), manager.buffers, FetchStringLocation(Dict(), offsets[r])) == contents[r]
      {
        ReadRow(r);
      }
    }

    /**
     * FetchStringLocations: the location of each of `count` rows of a vector, the rows given as
     * ascending row ids less `vectorOffset`; a row with an update entry gets the entry's location
     * and any other row the location its dictionary offset resolves to.
     */
    method FetchStringLocations(ids: seq<int>, vectorIndex: nat, vectorOffset: int, count: nat) returns (result: seq<StringLocation>)
      requires Valid() && vectorIndex < maxVectorCount && UpdateValid(vectorIndex)
      requires count <= |ids| && Ascending(ids[..count])
      requires forall i :: 0 <= i < count ==> 0 <= ids[i] - vectorOffset < STANDARD_VECTOR_SIZE &&
                                               vectorIndex * STANDARD_VECTOR_SIZE + (ids[i] - vectorOffset) < tupleCount
      ensures |result| == count
      ensures forall i :: 0 <= i < count ==>
        var row := vectorIndex * STANDARD_VECTOR_SIZE + (ids[i] - vectorOffset);
        Resolvable(Dict(), offsets[row]) &&
        result[i] == LocationOf(Dict(), offsets[row], UpdateEntries(vectorIndex), ids[i] - vectorOffset)
      ensures var base := vectorIndex * STANDARD_VECTOR_SIZE;
        Located(result, Dict(), offsets[base..base + STANDARD_VECTOR_SIZE], ids, vectorOffset, UpdateEntries(vectorIndex))
    {
      var base := vectorIndex * STANDARD_VECTOR_SIZE;
      var vectorOffsets := offsets[base..base + STANDARD_VECTOR_SIZE];
      ReadAll();
      if stringUpdates.Some? && stringUpdates.value[vectorIndex].Some? {
        result := MergeLocations(Dict(), vectorOffsets, ids, vectorOffset, count, stringUpdates.value[vectorIndex].value);
      } else {
        result := BaseLocations(Dict(), vectorOffsets, ids, vectorOffset, count);
      }
    }

    /**
     * FetchBaseData: the first `count` rows of a vector and the vector's null mask; a row with an
     * update entry reads the entry's string, any other row the string it was appended with.
     */
    method FetchBaseData(vectorIndex: nat, count: nat) returns (result: seq<StringValue>, resultNullmask: seq<bool>)
      requires Valid() && vectorIndex < maxVectorCount && UpdateValid(vectorIndex)
      requires EntriesReadable(manager.buffers, UpdateEntries(vectorIndex))
      requires count <= STANDARD_VECTOR_SIZE && vectorIndex * STANDARD_VECTOR_SIZE + count <= tupleCount
      ensures resultNullmask == nullmask[vectorIndex * STANDARD_VECTOR_SIZE..(vectorIndex + 1) * STANDARD_VECTOR_SIZE]
      ensures |result| == count
      ensures forall i :: 0 <= i < count ==>
        result[i] == UpdatedValue(manager.buffers, UpdateEntries(vectorIndex),
                                  contents[vectorIndex * STANDARD_VECTOR_SIZE..vectorIndex * STANDARD_VECTOR_SIZE + count], i)
    {
      var base := vectorIndex * STANDARD_VECTOR_SIZE;
      var vectorOffsets := offsets[base..base + STANDARD_VECTOR_SIZE];
      ghost var es := UpdateEntries(vectorIndex);
      ghost var cs := contents[base..base + count];
      ReadAll();
      VectorReads(Dict(), manager.buffers, offsets, contents, base, count);
      if stringUpdates.Some? && stringUpdates.value[vectorIndex].Some? {
        result := MergeValues(Dict(), manager.buffers, vectorOffsets, count, stringUpdates.value[vectorIndex].value);
      } else {
        result := BaseValues(Dict(), manager.buffers, vectorOffsets, count);
      }
      FetchedMeans(result, Dict(), manager.buffers, vectorOffsets, es, cs);
      resultNullmask := nullmask[base..base + STANDARD_VECTOR_SIZE];
    }

    /**
     * The loop of RollbackUpdate that puts back the null bit each updated row had before the
     * update; only rows the segment holds change, so it keeps holding them.
     */
    method RestoreNulls(base: nat, tuples: seq<int>, prior: seq<bool>)
      requires Valid() && |prior| == STANDARD_VECTOR_SIZE && InVector(tuples)
      requires forall t :: 0 <= t < |tuples| ==> base + tuples[t] < tupleCount
      modifies this`nullmask
      ensures Valid() && nullmask == RestoredMask(old(nullmask), base, tuples, prior)
    {
      ghost var im := Snapshot();
      nullmask := RestoreBits(nullmask, base, tuples, prior);
      MaskBeyond(old(nullmask), base, tuples, prior, tupleCount);
      HoldingNulls(im, Snapshot(), blockId, tupleCount, contents);
    }

    /** The segment still holds its rows when its image and its slots are as they were. */
    lemma StillValid(im: Image, n: nat, cs: seq<StringValue>)
      requires Slots() && Snapshot() == im && tupleCount == n && contents == cs && Holding(im, blockId, n, cs)
      ensures Valid()
    {
    }

    /**
     * The update-info half of RollbackUpdate: the vector's info is filtered in place, and removed
     * when no entry stays.
     */
    method RollbackInfo(version: UpdateVersion)
      requires version.vectorIndex < maxVectorCount && Valid()
      requires UpdateOf(version.vectorIndex).Some? && UpdateValid(version.vectorIndex)
      requires |version.locations| == |version.tuples| && Ascending(version.tuples)
      requires forall t :: 0 <= t < |version.tuples| ==> version.tuples[t] in Ids(UpdateEntries(version.vectorIndex))
      modifies this`stringUpdates, UpdateFrame(version.vectorIndex)
      ensures Valid() && UpdateValid(version.vectorIndex)
      ensures UpdateEntries(version.vectorIndex) ==
              RestoredUpTo(old(UpdateEntries(version.vectorIndex)), version.tuples, version.locations, |old(UpdateEntries(version.vectorIndex))|)
      ensures UpdateOf(version.vectorIndex).None? <==> UpdateEntries(version.vectorIndex) == []
      ensures forall v :: v != version.vectorIndex ==> UpdateOf(v) == old(UpdateOf(v))
    {
      var vectorIndex := version.vectorIndex;
      var info := stringUpdates.value[vectorIndex].value;
      ghost var im, n, cs := Snapshot(), tupleCount, contents;
      assert Holding(im, blockId, n, cs);
      var newCount := info.Rollback(version.tuples, version.locations);
      if newCount == 0 {
        stringUpdates := Some(stringUpdates.value[vectorIndex := None]);
      }
      StillValid(im, n, cs);
    }

    /**
     * RollbackUpdate: the rows of an update get their null bits from before it back, and the
     * vector's update info is filtered in place: an entry of a row the update did not touch
     * stays, an entry of a row it touched gets the location from before the update back when
     * that is an overflow string, and goes otherwise; an info left empty is removed.
     */
    method RollbackUpdate(version: UpdateVersion)
      requires Valid() && version.vectorIndex < maxVectorCount
      requires UpdateOf(version.vectorIndex).Some? && UpdateValid(version.vectorIndex)
      requires |version.locations| == |version.tuples| && |version.nullmask| == STANDARD_VECTOR_SIZE
      requires Ascending(version.tuples) && InVector(version.tuples)
      requires forall t :: 0 <= t < |version.tuples| ==> version.tuples[t] in Ids(UpdateEntries(version.vectorIndex))
      requires forall t :: 0 <= t < |version.tuples| ==> version.vectorIndex * STANDARD_VECTOR_SIZE + version.tuples[t] < tupleCount
      modifies this`nullmask, this`stringUpdates, UpdateFrame(version.vectorIndex)
      ensures Valid() && UpdateValid(version.vectorIndex)
      ensures nullmask == RestoredMask(old(nullmask), version.vectorIndex * STANDARD_VECTOR_SIZE, version.tuples, version.nullmask)
      ensures UpdateEntries(version.vectorIndex) ==
              RestoredUpTo(old(UpdateEntries(version.vectorIndex)), version.tuples, version.locations, |old(UpdateEntries(version.vectorIndex))|)
      ensures UpdateOf(version.vectorIndex).None? <==> UpdateEntries(version.vectorIndex) == []
      ensures forall v :: v != version.vectorIndex ==> UpdateOf(v) == old(UpdateOf(v))
    {
      RestoreNulls(version.vectorIndex * STANDARD_VECTOR_SIZE, version.tuples, version.nullmask);
      RollbackInfo(version);
    }

    /** The body of the string writes of an update: one value, after the values before it. */
    method WriteUpdateValue(v: StringValue, ghost prior: seq<StringValue>, ghost locations: seq<StringLocation>)
      returns (location: StringLocation)
      requires Valid() && manager.nextId < ArtKey.Half(8) && (v.Some? ==> |v.value| + 5 < ArtKey.Pow256(4))
      requires Written(manager.buffers, Limits(overflow), prior, locations)
      modifies this`overflow, manager
      ensures Valid() && Written(manager.buffers, Limits(overflow), prior + [v], locations + [location])
      ensures manager.nextId <= old(manager.nextId) + 1
    {
      if v.None? {
        location := StringLocation(INVALID_BLOCK, 0);
      } else {
        ghost var im := Snapshot();
        MemoryStep(im, blockId, v.value);
        location := WriteStringMemory(v.value);
        HoldingFrame(im, Snapshot(), blockId, tupleCount, contents);
        WrittenFrame(im.buffers, manager.buffers, Limits(im.overflow), Limits(overflow), prior, locations);
      }
    }

    /**
     * The string writes of CreateStringUpdate and MergeStringUpdate, in the order of the update:
     * a NULL goes nowhere, any other string to overflow memory by WriteStringMemory.
     */
    method WriteUpdateStrings(values: seq<StringValue>) returns (written: seq<StringLocation>)
      requires Valid() && manager.nextId + |values| <= ArtKey.Half(8)
      requires forall i :: 0 <= i < |values| && values[i].Some? ==> |values[i].value| + 5 < ArtKey.Pow256(4)
      modifies this`overflow, manager
      ensures Valid() && Written(manager.buffers, Limits(overflow), values, written)
      ensures manager.nextId <= old(manager.nextId) + |values|
    {
      written := [];
      var i := 0;
      while i < |values|
        invariant i <= |values| && Valid() && Written(manager.buffers, Limits(overflow), values[..i], written)
        invariant manager.nextId <= old(manager.nextId) + i
      {
        var location := WriteUpdateValue(values[i], values[..i], written);
        assert values[..i + 1] == values[..i] + [values[i]];
        written := written + [location];
        i := i + 1;
      }
      assert values[..i] == values;
    }

    /**
     * The new update info of a vector: the update's strings are written, and the info is
     * CreateStringUpdate's when the vector has none, else MergeStringUpdate's.
     */
    method NewUpdateInfo(vectorIndex: nat, rows: seq<int>, values: seq<StringValue>)
      returns (written: seq<StringLocation>, info: StringUpdateInfo)
      requires Valid() && Slots() && vectorIndex < maxVectorCount && UpdateValid(vectorIndex) && stringUpdates.Some?
      requires Ascending(rows) && InVector(rows) && |values| == |rows|
      requires forall i :: 0 <= i < |values| && values[i].Some? ==> |values[i].value| + 5 < ArtKey.Pow256(4)
      requires manager.nextId + |values| <= ArtKey.Half(8)
      modifies this`overflow, manager
      ensures Valid() && Written(manager.buffers, Limits(overflow), values, written)
      ensures fresh(info) && fresh(info.ids) && fresh(info.blockIds) && fresh(info.offsets) && info.Valid()
      ensures info.Entries() == MergedEntries(StringPicks(rows, UpdateEntries(vectorIndex)), written, UpdateEntries(vectorIndex))
    {
      written := WriteUpdateStrings(values);
      if stringUpdates.value[vectorIndex].None? {
        info := CreateStringUpdate(rows, written);
        CreateIsMerge(rows, written);
      } else {
        info := MergeStringUpdate(rows, written, stringUpdates.value[vectorIndex].value);
      }
    }

    /** The loop of Update that sets each updated row's null bit; only rows the segment holds change. */
    method SetNulls(base: nat, rows: seq<int>, nulls: seq<bool>)
      requires Valid() && |nulls| == |rows| && Ascending(rows)
      requires forall t :: 0 <= t < |rows| ==> 0 <= base + rows[t] < tupleCount
      modifies this`nullmask
      ensures Valid() && nullmask == NulledMask(old(nullmask), base, rows, nulls)
    {
      ghost var im := Snapshot();
      nullmask := SetNullBits(nullmask, base, rows, nulls);
      NulledBeyond(old(nullmask), base, rows, nulls, tupleCount);
      HoldingNulls(im, Snapshot(), blockId, tupleCount, contents);
    }

    /** Update's allocation of the update slots, one per vector, when the segment has none yet. */
    method AllocateUpdates()
      requires Valid()
      modifies this`stringUpdates
      ensures Valid() && stringUpdates.Some?
      ensures forall v :: UpdateOf(v) == old(UpdateOf(v))
    {
      if stringUpdates.None? {
        stringUpdates := Some(seq(maxVectorCount, _ => None));
      }
    }

    /** Update's last step: the new info replaces the vector's. */
    method InstallInfo(vectorIndex: nat, info: StringUpdateInfo)
      requires Valid() && stringUpdates.Some? && vectorIndex < maxVectorCount && info.Valid()
      modifies this`stringUpdates
      ensures Valid() && UpdateOf(vectorIndex) == Some(info) && UpdateValid(vectorIndex)
      ensures UpdateEntries(vectorIndex) == info.Entries()
      ensures forall v :: v != vectorIndex ==> UpdateOf(v) == old(UpdateOf(v))
    {
      stringUpdates := Some(stringUpdates.value[vectorIndex := Some(info)]);
    }

    /**
     * Update: the update's strings go to overflow memory; the vector's update info is created,
     * or merged with the one it has, and replaces it; the rows' null bits become the update's;
     * the undo record is a new one holding the rows' locations and the vector's null mask from
     * before the update, or the given record with the update merged in.
     */
    method Update(ids: seq<int>, values: seq<StringValue>, vectorIndex: nat, vectorOffset: int, node: Option<UpdateVersion>)
      returns (record: UpdateVersion, written: seq<StringLocation>, prior: seq<StringLocation>)
      requires Valid() && vectorIndex < maxVectorCount && UpdateValid(vectorIndex)
      requires |values| == |ids| && Ascending(ids)
      requires forall i :: 0 <= i < |ids| ==> 0 <= ids[i] - vectorOffset < STANDARD_VECTOR_SIZE &&
                                              vectorIndex * STANDARD_VECTOR_SIZE + (ids[i] - vectorOffset) < tupleCount
      requires forall i :: 0 <= i < |values| && values[i].Some? ==> |values[i].value| + 5 < ArtKey.Pow256(4)
      requires manager.nextId + |values| <= ArtKey.Half(8)
      requires node.Some? ==> Recorded(node.value, vectorIndex)
      modifies this`nullmask, this`stringUpdates, this`overflow, manager
      ensures Valid() && UpdateValid(vectorIndex) && UpdateOf(vectorIndex).Some?
      ensures forall v :: v != vectorIndex ==> UpdateOf(v) == old(UpdateOf(v))
      ensures Written(manager.buffers, Limits(overflow), values, written)
      ensures |prior| == |ids|
      ensures var base := vectorIndex * STANDARD_VECTOR_SIZE;
        old(Located(prior, Dict(), offsets[base..base + STANDARD_VECTOR_SIZE], ids, vectorOffset, UpdateEntries(vectorIndex)))
      ensures var rows, es := VectorRows(ids, vectorOffset), old(UpdateEntries(vectorIndex));
        UpdateEntries(vectorIndex) == MergedEntries(StringPicks(rows, es), written, es)
      ensures nullmask == NulledMask(old(nullmask), vectorIndex * STANDARD_VECTOR_SIZE, VectorRows(ids, vectorOffset), NullBits(values))
      ensures var base := vectorIndex * STANDARD_VECTOR_SIZE;
        record == UndoRecord(node, vectorIndex, VectorRows(ids, vectorOffset), prior, old(nullmask)[base..base + STANDARD_VECTOR_SIZE])
    {
      var base := vectorIndex * STANDARD_VECTOR_SIZE;
      var original := nullmask[base..base + STANDARD_VECTOR_SIZE];
      var rows := VectorRows(ids, vectorOffset);
      var info;
      written, prior, info := UpdateStrings(ids, values, vectorIndex, vectorOffset);
      record := UndoRecord(node, vectorIndex, rows, prior, original);
      FinishUpdate(vectorIndex, rows, NullBits(values), info);
    }

    /** The last steps of Update: the rows' null bits are set and the new info replaces the vector's. */
    method FinishUpdate(vectorIndex: nat, rows: seq<int>, nulls: seq<bool>, info: StringUpdateInfo)
      requires Valid() && stringUpdates.Some? && vectorIndex < maxVectorCount && info.Valid()
      requires |nulls| == |rows| && Ascending(rows)
      requires forall t :: 0 <= t < |rows| ==> 0 <= vectorIndex * STANDARD_VECTOR_SIZE + rows[t] < tupleCount
      modifies this`nullmask, this`stringUpdates
      ensures Valid() && UpdateOf(vectorIndex) == Some(info) && UpdateValid(vectorIndex)
      ensures UpdateEntries(vectorIndex) == info.Entries()
      ensures forall v :: v != vectorIndex ==> UpdateOf(v) == old(UpdateOf(v))
      ensures nullmask == NulledMask(old(nullmask), vectorIndex * STANDARD_VECTOR_SIZE, rows, nulls)
    {
      SetNulls(vectorIndex * STANDARD_VECTOR_SIZE, rows, nulls);
      InstallInfo(vectorIndex, info);
    }

    /**
     * The first steps of Update: the update slots are allocated when there are none, the rows'
     * locations fetched, the strings written and the new info built.
     */
    method UpdateStrings(ids: seq<int>, values: seq<StringValue>, vectorIndex: nat, vectorOffset: int)
      returns (written: seq<StringLocation>, prior: seq<StringLocation>, info: StringUpdateInfo)
      requires Valid() && vectorIndex < maxVectorCount && UpdateValid(vectorIndex)
      requires |values| == |ids| && Ascending(ids)
      requires forall i :: 0 <= i < |ids| ==> 0 <= ids[i] - vectorOffset < STANDARD_VECTOR_SIZE &&
                                              vectorIndex * STANDARD_VECTOR_SIZE + (ids[i] - vectorOffset) < tupleCount
      requires forall i :: 0 <= i < |values| && values[i].Some? ==> |values[i].value| + 5 < ArtKey.Pow256(4)
      requires manager.nextId + |values| <= ArtKey.Half(8)
      modifies this`stringUpdates, this`overflow, manager
      ensures Valid() && stringUpdates.Some? && forall v :: UpdateOf(v) == old(UpdateOf(v))
      ensures Written(manager.buffers, Limits(overflow), values, written)
      ensures |prior| == |ids|
      ensures var base := vectorIndex * STANDARD_VECTOR_SIZE;
        old(Located(prior, Dict(), offsets[base..base + STANDARD_VECTOR_SIZE], ids, vectorOffset, UpdateEntries(vectorIndex)))
      ensures fresh(info) && fresh(info.ids) && fresh(info.blockIds) && fresh(info.offsets) && info.Valid()
      ensures var rows, es := VectorRows(ids, vectorOffset), old(UpdateEntries(vectorIndex));
        info.Entries() == MergedEntries(StringPicks(rows, es), written, es)
    {
      var base := vectorIndex * STANDARD_VECTOR_SIZE;
      ghost var es := UpdateEntries(vectorIndex);
      AllocateUpdates();
      assert UpdateEntries(vectorIndex) == es;
      assert ids[..|ids|] == ids;
      prior := FetchStringLocations(ids, vectorIndex, vectorOffset, |ids|);
      written, info := NewUpdateInfo(vectorIndex, VectorRows(ids, vectorOffset), values);
    }
  }

}
