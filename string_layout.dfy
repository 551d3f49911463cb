/**
 * The layout of strings in a string segment's block and in its overflow blocks. The segment's
 * block ends in a dictionary that grows backward from BLOCK_SIZE: a row's dictionary offset o
 * names the entry that starts o bytes before the end of the block. An inline entry is a 16-bit
 * length, the string's bytes and a 0 terminator; a spilled entry is a big-string marker (the
 * length BIG_STRING_MARKER, an int64 block id and an int32 offset) that points at the string in
 * an overflow block, where it is stored as a 32-bit length, its bytes and a 0 terminator.
 * Offset 0 stands for NULL.
 */
module StringLayout {
  import opened Results
  import ArtKey
  import opened NativeBytes

  /** The bytes a block holds after its header. */
  const BLOCK_SIZE: nat := 262136
  /** The bytes the buffer manager is asked for when a block is made. */
  const BLOCK_ALLOC_SIZE: nat := 262144
  const INVALID_BLOCK: int := -1
  /** Block ids from MAXIMUM_BLOCK on name in-memory buffers rather than blocks on disk. */
  const MAXIMUM_BLOCK: int := 4611686018427388000
  /** The length value that marks a dictionary entry as a pointer to an overflow string. */
  const BIG_STRING_MARKER: nat := 65535
  /** A block id and an offset: what a marker holds besides its length field. */
  const BIG_STRING_MARKER_BASE_SIZE: nat := 12
  const BIG_STRING_MARKER_SIZE: nat := 14
  /** Strings whose dictionary entry would take this many bytes or more always go to overflow blocks. */
  const STRING_BLOCK_LIMIT: nat := 4096

  /** Where a string lives: an overflow block and an offset in it, or INVALID_BLOCK and a dictionary offset. */
  datatype StringLocation = StringLocation(blockId: int, offset: int)

  /** The assertion the update code makes on the locations it moves around. */
  predicate IsValidStringLocation(location: StringLocation)
  {
    location.offset < BLOCK_SIZE && (location.blockId == INVALID_BLOCK || location.blockId >= MAXIMUM_BLOCK)
  }

  /** `s` with the bytes from `pos` on replaced by `bytes`: what a memcpy to `pos` does. */
  function Splice(s: seq<Byte>, pos: nat, bytes: seq<Byte>): (r: seq<Byte>)
    requires pos + |bytes| <= |s|
    ensures |r| == |s| && r[pos..pos + |bytes|] == bytes
    ensures r[..pos] == s[..pos] && r[pos + |bytes|..] == s[pos + |bytes|..]
  {
    s[..pos] + bytes + s[pos + |bytes|..]
  }

  /** Two memcpys to adjacent places are one memcpy of both. */
  lemma SpliceAdjacent(s: seq<Byte>, pos: nat, a: seq<Byte>, b: seq<Byte>)
    requires pos + |a| + |b| <= |s|
    ensures Splice(Splice(s, pos, a), pos + |a|, b) == Splice(s, pos, a + b)
  {
    var r := Splice(Splice(s, pos, a), pos + |a|, b);
    var t := Splice(s, pos, a + b);
    assert r[..pos] == t[..pos];
    assert r[pos..pos + |a| + |b|] == t[pos..pos + |a| + |b|] by {
      assert r[pos..pos + |a|] == a;
    }
    assert r[pos + |a| + |b|..] == t[pos + |a| + |b|..];
    assert r == r[..pos] + r[pos..pos + |a| + |b|] + r[pos + |a| + |b|..];
    assert t == t[..pos] + t[pos..pos + |a| + |b|] + t[pos + |a| + |b|..];
  }

  lemma Associative(a: seq<Byte>, b: seq<Byte>, c: seq<Byte>)
    ensures a + (b + c) == a + b + c
  {
  }

  /** The two memcpys of an inline entry, its 16-bit length and then the bytes with their 0, write InlineBytes. */
  lemma InlineSplice(block: seq<Byte>, pos: nat, s: seq<Byte>)
    requires |s| < BIG_STRING_MARKER && pos + |s| + 3 <= |block|
    ensures Splice(Splice(block, pos, LittleEndian(|s|, 2)), pos + 2, s + [0]) == Splice(block, pos, InlineBytes(s))
  {
    var length := LittleEndian(|s|, 2);
    SpliceAdjacent(block, pos, length, s + [0]);
    Associative(length, s, [0]);
  }

  /** The two memcpys of an overflow entry, its 32-bit length and then the bytes with their 0, write OverflowBytes. */
  lemma OverflowSplice(block: seq<Byte>, pos: nat, s: seq<Byte>)
    requires |s| < ArtKey.Pow256(4) && pos + |s| + 5 <= |block|
    ensures Splice(Splice(block, pos, LittleEndian(|s|, 4)), pos + 4, s + [0]) == Splice(block, pos, OverflowBytes(s))
  {
    var length := LittleEndian(|s|, 4);
    SpliceAdjacent(block, pos, length, s + [0]);
    Associative(length, s, [0]);
  }

  /** The parts of a three-part concatenation, sliced back out. */
  lemma Parts<T>(a: seq<T>, b: seq<T>, c: seq<T>)
    ensures (a + b + c)[..|a|] == a && (a + b + c)[|a|..|a| + |b|] == b && (a + b + c)[|a| + |b|..] == c
  {
    var s := a + b + c;
    assert s[..|a|] == a;
    assert s[|a|..|a| + |b|] == b;
    assert s[|a| + |b|..] == c;
  }

  /** A slice of `bytes` read through a larger slice of it. */
  lemma Within(bytes: seq<Byte>, lo: nat, hi: nat, i: nat, j: nat)
    requires lo <= i <= j <= hi <= |bytes|
    ensures bytes[i..j] == bytes[lo..hi][i - lo..j - lo]
  {
    assert forall k :: 0 <= k < j - i ==> bytes[i..j][k] == bytes[lo..hi][i - lo..j - lo][k];
  }

  /** The 16-bit length field at `pos`. */
  function LengthAt(bytes: seq<Byte>, pos: nat): nat
    requires pos + 2 <= |bytes|
  {
    FromLittleEndian(bytes[pos..pos + 2])
  }

  /** The bytes of an inline dictionary entry. */
  function InlineBytes(s: seq<Byte>): (r: seq<Byte>)
    requires |s| < BIG_STRING_MARKER
    ensures |r| == |s| + 3
  {
    LittleEndian(|s|, 2) + s + [0]
  }

  /** Whether a location's block id and offset fit the int64 and int32 fields of a marker. */
  predicate Encodable(location: StringLocation)
  {
    ArtKey.InSignedRange(location.blockId, 8) && ArtKey.InSignedRange(location.offset, 4)
  }

  /** The bytes of a big-string marker, in the order WriteStringMarker copies them. */
  function MarkerBytes(location: StringLocation): (r: seq<Byte>)
    requires Encodable(location)
    ensures |r| == BIG_STRING_MARKER_SIZE
  {
    LittleEndian(BIG_STRING_MARKER, 2) + SignedBytes(location.blockId, 8) + SignedBytes(location.offset, 4)
  }

  /** ReadStringMarker: the block id and offset of the marker at `pos`. */
  function ReadStringMarker(bytes: seq<Byte>, pos: nat): StringLocation
    requires pos + BIG_STRING_MARKER_SIZE <= |bytes|
  {
    StringLocation(FromSignedBytes(bytes[pos + 2..pos + 10]), FromSignedBytes(bytes[pos + 10..pos + 14]))
  }

  /** Reading a marker where one was written gives back its length field, block id and offset. */
  lemma MarkerRoundTrip(bytes: seq<Byte>, pos: nat, location: StringLocation)
    requires Encodable(location) && pos + BIG_STRING_MARKER_SIZE <= |bytes|
    requires bytes[pos..pos + BIG_STRING_MARKER_SIZE] == MarkerBytes(location)
    ensures LengthAt(bytes, pos) == BIG_STRING_MARKER
    ensures ReadStringMarker(bytes, pos) == location
  {
    var a, b, c := LittleEndian(BIG_STRING_MARKER, 2), SignedBytes(location.blockId, 8), SignedBytes(location.offset, 4);
    Parts(a, b, c);
    Within(bytes, pos, pos + 14, pos, pos + 2);
    Within(bytes, pos, pos + 14, pos + 2, pos + 10);
    Within(bytes, pos, pos + 14, pos + 10, pos + 14);
    LittleEndianRoundTrip(BIG_STRING_MARKER, 2);
    SignedRoundTrip(location.blockId, 8);
    SignedRoundTrip(location.offset, 4);
  }

  /** An inline entry's length field is its string's length, which is never the marker. */
  lemma InlineLength(bytes: seq<Byte>, pos: nat, s: seq<Byte>)
    requires |s| < BIG_STRING_MARKER && pos + |s| + 3 <= |bytes|
    requires bytes[pos..pos + |s| + 3] == InlineBytes(s)
    ensures LengthAt(bytes, pos) == |s| && bytes[pos + 2..pos + 2 + |s|] == s
  {
    Parts(LittleEndian(|s|, 2), s, [0]);
    Within(bytes, pos, pos + |s| + 3, pos, pos + 2);
    Within(bytes, pos, pos + |s| + 3, pos + 2, pos + 2 + |s|);
    LittleEndianRoundTrip(|s|, 2);
  }

  /** Whether the dictionary offset can be resolved without reading outside the block. */
  predicate Resolvable(dict: seq<Byte>, dictOffset: int)
  {
    |dict| == BLOCK_SIZE && 0 <= dictOffset <= BLOCK_SIZE &&
    (dictOffset != 0 ==>
      (dictOffset >= 2 &&
       (LengthAt(dict, BLOCK_SIZE - dictOffset) == BIG_STRING_MARKER ==> dictOffset >= BIG_STRING_MARKER_SIZE)))
  }

  /**
   * FetchStringLocation: offset 0 is NULL; an entry whose length is the marker points at an
   * overflow string; any other entry is the string stored at that dictionary offset.
   */
  function FetchStringLocation(dict: seq<Byte>, dictOffset: int): StringLocation
    requires Resolvable(dict, dictOffset)
  {
    if dictOffset == 0 then StringLocation(INVALID_BLOCK, 0)
    else if LengthAt(dict, BLOCK_SIZE - dictOffset) == BIG_STRING_MARKER then
      ReadStringMarker(dict, BLOCK_SIZE - dictOffset)
    else StringLocation(INVALID_BLOCK, dictOffset)
  }

  /** Whether an overflow string can be read from the in-memory buffer of its block. */
  predicate InMemory(buffers: map<int, seq<Byte>>, location: StringLocation)
  {
    location.blockId >= MAXIMUM_BLOCK && location.blockId in buffers && 0 <= location.offset &&
    location.offset + 4 <= |buffers[location.blockId]| &&
    location.offset + 4 + FromLittleEndian(buffers[location.blockId][location.offset..location.offset + 4]) <=
      |buffers[location.blockId]|
  }

  /**
   * ReadString: INVALID_BLOCK is NULL; an in-memory overflow string is a 32-bit length and the
   * bytes after it.
   */
  function ReadString(buffers: map<int, seq<Byte>>, location: StringLocation): Option<seq<Byte>>
    requires location.blockId == INVALID_BLOCK || InMemory(buffers, location)
  {
    if location.blockId == INVALID_BLOCK then None
    else
      var buffer := buffers[location.blockId];
      var length := FromLittleEndian(buffer[location.offset..location.offset + 4]);
      Some(buffer[location.offset + 4..location.offset + 4 + length])
  }

  /** Whether the string at `location` can be read: an in-memory overflow string or a dictionary entry. */
  predicate Readable(dict: seq<Byte>, buffers: map<int, seq<Byte>>, location: StringLocation)
  {
    |dict| == BLOCK_SIZE &&
    if location.blockId != INVALID_BLOCK then InMemory(buffers, location)
    else
      location.offset == 0 ||
      (2 <= location.offset <= BLOCK_SIZE &&
       BLOCK_SIZE - location.offset + 2 + LengthAt(dict, BLOCK_SIZE - location.offset) <= BLOCK_SIZE)
  }

  /** FetchString: an overflow location is read from its block, a dictionary offset from the dictionary, and 0 is NULL. */
  function FetchString(dict: seq<Byte>, buffers: map<int, seq<Byte>>, location: StringLocation): Option<seq<Byte>>
    requires Readable(dict, buffers, location)
  {
    if location.blockId != INVALID_BLOCK then ReadString(buffers, location)
    else if location.offset == 0 then None
    else
      var pos := BLOCK_SIZE - location.offset;
      Some(dict[pos + 2..pos + 2 + LengthAt(dict, pos)])
  }

  /** The bytes of a string in an overflow block. */
  function OverflowBytes(s: seq<Byte>): (r: seq<Byte>)
    requires |s| < ArtKey.Pow256(4)
    ensures |r| == |s| + 5
  {
    LittleEndian(|s|, 4) + s + [0]
  }

  /**
   * The overflow block of `location` holds `s` below its write limit: `limits` maps the id of
   * every overflow block to the number of bytes written to it so far.
   */
  ghost predicate OverflowHolds(buffers: map<int, seq<Byte>>, limits: map<int, nat>, location: StringLocation, s: seq<Byte>)
  {
    location.blockId >= MAXIMUM_BLOCK && location.blockId in limits && location.blockId in buffers &&
    0 <= location.offset && |s| < ArtKey.Pow256(4) &&
    location.offset + |s| + 5 <= limits[location.blockId] <= |buffers[location.blockId]| &&
    buffers[location.blockId][location.offset..location.offset + |s| + 5] == OverflowBytes(s)
  }

  /**
   * The dictionary entry at `dictOffset` stands for `value`: NULL is offset 0, a string is an
   * inline entry or a marker pointing at the string in an overflow block.
   */
  ghost predicate Holds(dict: seq<Byte>, buffers: map<int, seq<Byte>>, limits: map<int, nat>, dictOffset: int,
                        value: Option<seq<Byte>>)
  {
    |dict| == BLOCK_SIZE && 0 <= dictOffset <= BLOCK_SIZE &&
    match value
    case None => dictOffset == 0
    case Some(s) =>
      var pos := BLOCK_SIZE - dictOffset;
      (|s| + 3 <= dictOffset && |s| < BIG_STRING_MARKER && dict[pos..pos + |s| + 3] == InlineBytes(s)) ||
      (BIG_STRING_MARKER_SIZE <= dictOffset && LengthAt(dict, pos) == BIG_STRING_MARKER &&
       OverflowHolds(buffers, limits, ReadStringMarker(dict, pos), s))
  }

  /** A field, a string and a terminator stored at `off` read back one by one. */
  lemma FieldParts(buffer: seq<Byte>, off: nat, field: seq<Byte>, s: seq<Byte>)
    requires off + |field| + |s| + 1 <= |buffer|
    requires buffer[off..off + |field| + |s| + 1] == field + s + [0]
    ensures buffer[off..off + |field|] == field && buffer[off + |field|..off + |field| + |s|] == s
  {
    var hi := off + |field| + |s| + 1;
    Parts(field, s, [0]);
    Within(buffer, off, hi, off, off + |field|);
    Within(buffer, off, hi, off + |field|, off + |field| + |s|);
  }

  /** The string after a 32-bit length field reads back through that field. */
  lemma LengthFieldReadBack(buffer: seq<Byte>, off: nat, s: seq<Byte>)
    requires |s| < ArtKey.Pow256(4) && off + |s| + 5 <= |buffer|
    requires buffer[off..off + |s| + 5] == OverflowBytes(s)
    ensures FromLittleEndian(buffer[off..off + 4]) == |s| && buffer[off + 4..off + 4 + |s|] == s
  {
    FieldParts(buffer, off, LittleEndian(|s|, 4), s);
    LittleEndianRoundTrip(|s|, 4);
  }

  /** A string stored in an overflow block reads back through its 32-bit length field. */
  lemma OverflowReadBack(buffers: map<int, seq<Byte>>, limits: map<int, nat>, location: StringLocation, s: seq<Byte>)
    requires OverflowHolds(buffers, limits, location, s)
    ensures location.offset + 4 + |s| <= |buffers[location.blockId]|
    ensures FromLittleEndian(buffers[location.blockId][location.offset..location.offset + 4]) == |s|
    ensures buffers[location.blockId][location.offset + 4..location.offset + 4 + |s|] == s
  {
    LengthFieldReadBack(buffers[location.blockId], location.offset, s);
  }

  /** An inline entry reads back as its string. */
  lemma InlineReadBack(dict: seq<Byte>, buffers: map<int, seq<Byte>>, dictOffset: int, s: seq<Byte>)
    requires |dict| == BLOCK_SIZE && |s| + 3 <= dictOffset <= BLOCK_SIZE && |s| < BIG_STRING_MARKER
    requires dict[BLOCK_SIZE - dictOffset..BLOCK_SIZE - dictOffset + |s| + 3] == InlineBytes(s)
    ensures Resolvable(dict, dictOffset)
    ensures FetchStringLocation(dict, dictOffset) == StringLocation(INVALID_BLOCK, dictOffset)
    ensures Readable(dict, buffers, StringLocation(INVALID_BLOCK, dictOffset))
    ensures FetchString(dict, buffers, StringLocation(INVALID_BLOCK, dictOffset)) == Some(s)
  {
    InlineLength(dict, BLOCK_SIZE - dictOffset, s);
  }

  /** A marker entry reads back as the overflow string it points at. */
  lemma MarkerReadBack(dict: seq<Byte>, buffers: map<int, seq<Byte>>, limits: map<int, nat>, dictOffset: int, s: seq<Byte>)
    requires |dict| == BLOCK_SIZE && BIG_STRING_MARKER_SIZE <= dictOffset <= BLOCK_SIZE
    requires LengthAt(dict, BLOCK_SIZE - dictOffset) == BIG_STRING_MARKER
    requires OverflowHolds(buffers, limits, ReadStringMarker(dict, BLOCK_SIZE - dictOffset), s)
    ensures Resolvable(dict, dictOffset)
    ensures FetchStringLocation(dict, dictOffset) == ReadStringMarker(dict, BLOCK_SIZE - dictOffset)
    ensures Readable(dict, buffers, ReadStringMarker(dict, BLOCK_SIZE - dictOffset))
    ensures FetchString(dict, buffers, ReadStringMarker(dict, BLOCK_SIZE - dictOffset)) == Some(s)
  {
    OverflowReadBack(buffers, limits, ReadStringMarker(dict, BLOCK_SIZE - dictOffset), s);
  }

  /**
   * What was stored reads back: resolving the dictionary offset of an entry that stands for a
   * value and fetching the string at the resulting location gives the value.
   */
  lemma ReadBack(dict: seq<Byte>, buffers: map<int, seq<Byte>>, limits: map<int, nat>, dictOffset: int,
                 value: Option<seq<Byte>>)
    requires Holds(dict, buffers, limits, dictOffset, value)
    ensures Resolvable(dict, dictOffset)
    ensures Readable(dict, buffers, FetchStringLocation(dict, dictOffset))
    ensures FetchString(dict, buffers, FetchStringLocation(dict, dictOffset)) == value
  {
    match value
    case None =>
    case Some(s) =>
      var pos := BLOCK_SIZE - dictOffset;
      if |s| + 3 <= dictOffset && |s| < BIG_STRING_MARKER && dict[pos..pos + |s| + 3] == InlineBytes(s) {
        InlineReadBack(dict, buffers, dictOffset, s);
      } else {
        MarkerReadBack(dict, buffers, limits, dictOffset, s);
      }
  }

  /**
   * Overflow blocks only grow: every block keeps the bytes below its old write limit, and its
   * limit does not go down.
   */
  ghost predicate Grows(buffers: map<int, seq<Byte>>, buffers': map<int, seq<Byte>>,
                        limits: map<int, nat>, limits': map<int, nat>)
  {
    forall id :: id in limits ==>
      id in limits' && limits[id] <= limits'[id] && id in buffers && id in buffers' &&
      limits[id] <= |buffers[id]| && limits'[id] <= |buffers'[id]| &&
      buffers'[id][..limits[id]] == buffers[id][..limits[id]]
  }

  /** Bytes kept from `low` on are kept in every slice above `low`. */
  lemma Kept(dict: seq<Byte>, dict': seq<Byte>, low: nat, i: nat, j: nat)
    requires |dict'| == |dict| && low <= i <= j <= |dict| && dict'[low..] == dict[low..]
    ensures dict'[i..j] == dict[i..j]
  {
    Within(dict', low, |dict|, i, j);
    Within(dict, low, |dict|, i, j);
  }

  /** A string in an overflow block stays intact while the blocks only grow. */
  lemma OverflowFrame(buffers: map<int, seq<Byte>>, buffers': map<int, seq<Byte>>,
                      limits: map<int, nat>, limits': map<int, nat>, location: StringLocation, s: seq<Byte>)
    requires OverflowHolds(buffers, limits, location, s)
    requires Grows(buffers, buffers', limits, limits')
    ensures OverflowHolds(buffers', limits', location, s)
  {
    var id, end := location.blockId, location.offset + |s| + 5;
    assert buffers'[id][..limits[id]] == buffers[id][..limits[id]];
    Within(buffers'[id], 0, limits[id], location.offset, end);
    Within(buffers[id], 0, limits[id], location.offset, end);
  }

  /** An entry stays intact when the dictionary from it to the end of the block and the overflow blocks' written bytes are kept. */
  lemma HoldsFrame(dict: seq<Byte>, dict': seq<Byte>, buffers: map<int, seq<Byte>>, buffers': map<int, seq<Byte>>,
                   limits: map<int, nat>, limits': map<int, nat>, dictOffset: int, value: Option<seq<Byte>>, low: nat)
    requires Holds(dict, buffers, limits, dictOffset, value)
    requires Grows(buffers, buffers', limits, limits')
    requires |dict'| == BLOCK_SIZE && low <= BLOCK_SIZE - dictOffset && dict'[low..] == dict[low..]
    ensures Holds(dict', buffers', limits', dictOffset, value)
  {
    match value
    case None =>
    case Some(s) =>
      var pos := BLOCK_SIZE - dictOffset;
      if |s| + 3 <= dictOffset && |s| < BIG_STRING_MARKER && dict[pos..pos + |s| + 3] == InlineBytes(s) {
        Kept(dict, dict', low, pos, pos + |s| + 3);
      } else {
        Kept(dict, dict', low, pos, pos + 2);
        Kept(dict, dict', low, pos + 2, pos + 10);
        Kept(dict, dict', low, pos + 10, pos + 14);
        OverflowFrame(buffers, buffers', limits, limits', ReadStringMarker(dict, pos), s);
      }
  }
}
