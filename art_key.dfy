/**
 * The binary-comparable keys of the ART index (src/execution/index/art/art_key.cpp).
 *
 * Signed integers of 1, 2, 4 or 8 bytes are written big-endian (byte-swapped first on a
 * little-endian machine) and the sign bit of byte 0 is flipped; strings are their bytes
 * followed by a terminating 0. Keys compare byte by byte, unsigned, and a key that is a
 * prefix of another is the smaller one. The lemmas show that this order is the order of
 * the encoded values.
 */
module ArtKey {
  import opened Results

  /** One byte of a key, compared as unsigned. */
  newtype Byte = x: int | 0 <= x < 256

  /** A key is the owned byte buffer of `Key`; its `len` is the length of the sequence. */
  type Key = seq<Byte>

  //===--------------------------------------------------------------------===//
  // Bit twiddling
  //===--------------------------------------------------------------------===//

  /**
   * Toggles bit 7 of a key byte. The source writes `key_byte ^ 128` on a uint8; on a byte,
   * xor with 128 and addition of 128 modulo 256 are the same operation (FlipSignIsXor).
   */
  function FlipSign(b: Byte): (r: Byte)
    ensures r as int == (b as int + 128) % 256
  {
    if b < 128 then b + 128 else b - 128
  }

  /** On an 8-bit word, xor with 0x80 is the wrapping addition of 0x80. */
  lemma FlipSignIsXor(x: bv8)
    ensures x ^ 128 == x + 128
  {
  }

  lemma FlipSignInvolutive(b: Byte)
    ensures FlipSign(FlipSign(b)) == b
  {
  }

  function BSwap16(x: bv16): bv16
  {
    ((x & 0xff00) >> 8) | ((x & 0x00ff) << 8)
  }

  function BSwap32(x: bv32): bv32
  {
    ((x & 0xff000000) >> 24) | ((x & 0x00ff0000) >> 8) |
    ((x & 0x0000ff00) << 8) | ((x & 0x000000ff) << 24)
  }

  function BSwap64(x: bv64): bv64
  {
    ((x & 0xff00000000000000) >> 56) | ((x & 0x00ff000000000000) >> 40) |
    ((x & 0x0000ff0000000000) >> 24) | ((x & 0x000000ff00000000) >> 8) |
    ((x & 0x00000000ff000000) << 8) | ((x & 0x0000000000ff0000) << 24) |
    ((x & 0x000000000000ff00) << 40) | ((x & 0x00000000000000ff) << 56)
  }

  /** BSWAP16 exchanges the two byte lanes of its argument and is its own inverse. */
  lemma BSwap16Lanes(x: bv16)
    ensures BSwap16(x) & 0xff == (x >> 8) & 0xff
    ensures (BSwap16(x) >> 8) & 0xff == x & 0xff
    ensures BSwap16(BSwap16(x)) == x
  {
  }

  /** BSWAP32 puts byte lane k of its argument in lane 3 - k and is its own inverse. */
  lemma BSwap32Lanes(x: bv32)
    ensures BSwap32(x) & 0xff == (x >> 24) & 0xff
    ensures (BSwap32(x) >> 8) & 0xff == (x >> 16) & 0xff
    ensures (BSwap32(x) >> 16) & 0xff == (x >> 8) & 0xff
    ensures (BSwap32(x) >> 24) & 0xff == x & 0xff
    ensures BSwap32(BSwap32(x)) == x
  {
  }

  /** BSWAP64 puts byte lane k of its argument in lane 7 - k and is its own inverse. */
  lemma BSwap64Lanes(x: bv64)
    ensures BSwap64(x) & 0xff == (x >> 56) & 0xff
    ensures (BSwap64(x) >> 8) & 0xff == (x >> 48) & 0xff
    ensures (BSwap64(x) >> 16) & 0xff == (x >> 40) & 0xff
    ensures (BSwap64(x) >> 24) & 0xff == (x >> 32) & 0xff
    ensures (BSwap64(x) >> 32) & 0xff == (x >> 24) & 0xff
    ensures (BSwap64(x) >> 40) & 0xff == (x >> 16) & 0xff
    ensures (BSwap64(x) >> 48) & 0xff == (x >> 8) & 0xff
    ensures (BSwap64(x) >> 56) & 0xff == x & 0xff
    ensures BSwap64(BSwap64(x)) == x
  {
  }

  //===--------------------------------------------------------------------===//
  // Numbers as byte strings
  //===--------------------------------------------------------------------===//

  function Pow256(n: nat): (r: nat)
    ensures r >= 1
  {
    if n == 0 then 1 else 256 * Pow256(n - 1)
  }

  /** The sizes of the integer types a key is made from: int8, int16, int32 and int64. */
  type Width = w: nat | w == 1 || w == 2 || w == 4 || w == 8 witness 1

  /** 2^(8w-1): the first value a signed integer of w bytes cannot hold. */
  function Half(w: nat): (h: nat)
    requires w >= 1
    ensures 2 * h == Pow256(w)
  {
    128 * Pow256(w - 1)
  }

  predicate InSignedRange(v: int, w: nat)
    requires w >= 1
  {
    -(Half(w) as int) <= v < Half(w)
  }

  /**
   * The bit pattern of v in two's complement, read as an unsigned number of w bytes: the
   * sign bit, worth 2^(8w-1), is set exactly for the negative values.
   */
  function TwosComplement(v: int, w: nat): (n: nat)
    requires w >= 1 && InSignedRange(v, w)
    ensures n < Pow256(w)
    ensures n >= Half(w) <==> v < 0
  {
    if v < 0 then v + Pow256(w) else v
  }

  /** The w bytes of n, most significant first. */
  function BigEndian(n: nat, w: nat): (r: Key)
    requires n < Pow256(w)
    ensures |r| == w
    decreases w
  {
    if w == 0 then [] else BigEndian(n / 256, w - 1) + [(n % 256) as Byte]
  }

  function Reverse<T>(s: seq<T>): (r: seq<T>)
    ensures |r| == |s|
  {
    if s == [] then [] else Reverse(s[1..]) + [s[0]]
  }

  /** Element i of the reversal is element |s|-1-i of the original. */
  lemma {:induction false} ReverseIndex<T>(s: seq<T>)
    ensures forall i :: 0 <= i < |s| ==> Reverse(s)[i] == s[|s| - 1 - i]
  {
    if s != [] {
      ReverseIndex(s[1..]);
    }
  }

  lemma ReverseFour<T>(s: seq<T>)
    requires |s| == 4
    ensures Reverse(s) == [s[3], s[2], s[1], s[0]]
  {
    ReverseIndex(s);
  }

  lemma ReverseEight<T>(s: seq<T>)
    requires |s| == 8
    ensures Reverse(s) == [s[7], s[6], s[5], s[4], s[3], s[2], s[1], s[0]]
  {
    ReverseIndex(s);
  }

  lemma ReverseInvolutive<T>(s: seq<T>)
    ensures Reverse(Reverse(s)) == s
  {
    ReverseIndex(s);
    ReverseIndex(Reverse(s));
    assert forall i :: 0 <= i < |s| ==> Reverse(Reverse(s))[i] == s[i];
  }

  /**
   * A machine register holding the w-byte number n, as its byte lanes from the least to the
   * most significant one.
   */
  function Lanes(n: nat, w: nat): seq<Byte>
    requires n < Pow256(w)
  {
    Reverse(BigEndian(n, w))
  }

  /**
   * BSWAP16/32/64 on a register: lane k moves to lane w-1-k (BSwap16Lanes .. BSwap64Lanes);
   * BSwap16IsByteSwap .. BSwap64IsByteSwap show that this is what the macros compute.
   */
  function ByteSwap(lanes: seq<Byte>): seq<Byte>
  {
    Reverse(lanes)
  }

  /** The number whose byte lanes, least significant first, are `lanes`. */
  function LaneValue(lanes: seq<Byte>): (n: nat)
    ensures n < Pow256(|lanes|)
  {
    if lanes == [] then 0 else lanes[0] as nat + 256 * LaneValue(lanes[1..])
  }

  /** The lanes of the number that lanes make up are those lanes. */
  lemma {:induction false} LanesOfValue(lanes: seq<Byte>)
    ensures Lanes(LaneValue(lanes), |lanes|) == lanes
    decreases |lanes|
  {
    if lanes != [] {
      var n := LaneValue(lanes);
      var rest := lanes[1..];
      LanesOfValue(rest);
      assert n / 256 == LaneValue(rest) && n % 256 == lanes[0] as int;
      var high := BigEndian(LaneValue(rest), |rest|);
      var big := BigEndian(n, |lanes|);
      assert big == high + [lanes[0]];
      ReverseIndex(big);
      ReverseIndex(high);
      forall i | 0 <= i < |lanes|
        ensures Reverse(big)[i] == lanes[i]
      {
        if i > 0 {
          assert Reverse(big)[i] == high[|high| - i];
          assert Reverse(high)[i - 1] == high[|high| - i];
        }
      }
    }
  }

  /** The low lanes count once, the high ones 256^|low| times. */
  lemma {:induction false} LaneValueAppend(low: seq<Byte>, high: seq<Byte>)
    ensures LaneValue(low + high) == LaneValue(low) + Pow256(|low|) * LaneValue(high)
    decreases |low|
  {
    if low == [] {
      assert low + high == high;
    } else {
      var a, rest, p, v := low[0] as nat, LaneValue(low[1..]), Pow256(|low| - 1), LaneValue(high);
      assert (low + high)[1..] == low[1..] + high;
      LaneValueAppend(low[1..], high);
      var whole := LaneValue(low[1..] + high);
      assert whole == rest + p * v;
      assert LaneValue(low + high) == a + 256 * whole;
      assert LaneValue(low) == a + 256 * rest;
      assert Pow256(|low|) == 256 * p;
      Distribute(a, rest, p, v, whole);
    }
  }

  lemma Distribute(a: nat, rest: nat, p: nat, v: nat, whole: nat)
    requires whole == rest + p * v
    ensures a + 256 * whole == (a + 256 * rest) + (256 * p) * v
  {
  }

  /** Two lanes make up lane 0 plus 256 times lane 1. */
  lemma LaneValueTwo(a: Byte, b: Byte)
    ensures LaneValue([a, b]) == a as nat + 256 * b as nat
  {
    assert [a, b][1..] == [b];
    assert [b][1..] == [];
  }

  function ByteOf(b: bv8): Byte
  {
    b as Byte
  }

  /** The lanes of a 16-bit register. */
  function Lanes16(x: bv16): seq<Byte>
  {
    [ByteOf((x & 0xff) as bv8), ByteOf((x >> 8) as bv8)]
  }

  /** The lanes of a 32-bit register: those of its low half, then those of its high half. */
  function Lanes32(x: bv32): seq<Byte>
  {
    Lanes16((x & 0xffff) as bv16) + Lanes16((x >> 16) as bv16)
  }

  /** The lanes of a 64-bit register: those of its low half, then those of its high half. */
  function Lanes64(x: bv64): seq<Byte>
  {
    Lanes32((x & 0xffff_ffff) as bv32) + Lanes32((x >> 32) as bv32)
  }

  /** Two byte halves side by side make up the low half plus 2^8 times the high half. */
  lemma Join16(lo: bv8, hi: bv8)
    ensures (((hi as bv16) << 8) | (lo as bv16)) as nat == lo as nat + 0x100 * hi as nat
  {
  }

  lemma Join32(lo: bv16, hi: bv16)
    ensures (((hi as bv32) << 16) | (lo as bv32)) as nat == lo as nat + 0x10000 * hi as nat
  {
  }

  lemma Join64(lo: bv32, hi: bv32)
    ensures (((hi as bv64) << 32) | (lo as bv64)) as nat == lo as nat + 0x1_0000_0000 * hi as nat
  {
  }

  lemma Compose16(x: bv16)
    ensures x as nat == ((x & 0xff) as bv8) as nat + 0x100 * ((x >> 8) as bv8) as nat
  {
    var lo, hi := (x & 0xff) as bv8, (x >> 8) as bv8;
    assert x == ((hi as bv16) << 8) | (lo as bv16);
    Join16(lo, hi);
  }

  lemma Compose32(x: bv32)
    ensures x as nat == ((x & 0xffff) as bv16) as nat + 0x10000 * ((x >> 16) as bv16) as nat
  {
    var lo, hi := (x & 0xffff) as bv16, (x >> 16) as bv16;
    assert x == ((hi as bv32) << 16) | (lo as bv32);
    Join32(lo, hi);
  }

  lemma Compose64(x: bv64)
    ensures x as nat == ((x & 0xffff_ffff) as bv32) as nat + 0x1_0000_0000 * ((x >> 32) as bv32) as nat
  {
    var lo, hi := (x & 0xffff_ffff) as bv32, (x >> 32) as bv32;
    assert x == ((hi as bv64) << 32) | (lo as bv64);
    Join64(lo, hi);
  }

  /** The unsigned number a register holds. */
  function Unsigned16(x: bv16): nat
  {
    x as nat
  }

  function Unsigned32(x: bv32): nat
  {
    x as nat
  }

  function Unsigned64(x: bv64): nat
  {
    x as nat
  }

  lemma Word16Value(x: bv16)
    ensures Unsigned16(x) == LaneValue(Lanes16(x))
  {
    Compose16(x);
    var lanes := Lanes16(x);
    LaneValueTwo(lanes[0], lanes[1]);
  }

  lemma Word32Value(x: bv32)
    ensures Unsigned32(x) == LaneValue(Lanes32(x))
  {
    var lo, hi := (x & 0xffff) as bv16, (x >> 16) as bv16;
    Compose32(x);
    Word16Value(lo);
    Word16Value(hi);
    LaneValueAppend(Lanes16(lo), Lanes16(hi));
    assert Pow256(2) == 0x10000;
  }

  lemma Word64Value(x: bv64)
    ensures Unsigned64(x) == LaneValue(Lanes64(x))
  {
    var lo, hi := (x & 0xffff_ffff) as bv32, (x >> 32) as bv32;
    Compose64(x);
    Word32Value(lo);
    Word32Value(hi);
    LaneValueAppend(Lanes32(lo), Lanes32(hi));
    assert Pow256(4) == 0x1_0000_0000;
  }

  /** The lanes of a 32-bit register, each taken out by a shift and a mask. */
  function Flat32(x: bv32): seq<Byte>
  {
    [ByteOf((x & 0xff) as bv8), ByteOf(((x >> 8) & 0xff) as bv8),
     ByteOf(((x >> 16) & 0xff) as bv8), ByteOf(((x >> 24) & 0xff) as bv8)]
  }

  function Flat64(x: bv64): seq<Byte>
  {
    [ByteOf((x & 0xff) as bv8), ByteOf(((x >> 8) & 0xff) as bv8),
     ByteOf(((x >> 16) & 0xff) as bv8), ByteOf(((x >> 24) & 0xff) as bv8),
     ByteOf(((x >> 32) & 0xff) as bv8), ByteOf(((x >> 40) & 0xff) as bv8),
     ByteOf(((x >> 48) & 0xff) as bv8), ByteOf(((x >> 56) & 0xff) as bv8)]
  }

  lemma HalfLanes32(x: bv32)
    ensures var lo, hi := (x & 0xffff) as bv16, (x >> 16) as bv16;
      (lo & 0xff) as bv8 == (x & 0xff) as bv8 && (lo >> 8) as bv8 == ((x >> 8) & 0xff) as bv8 &&
      (hi & 0xff) as bv8 == ((x >> 16) & 0xff) as bv8 && (hi >> 8) as bv8 == ((x >> 24) & 0xff) as bv8
  {
  }

  lemma Lanes32Are(x: bv32)
    ensures Lanes32(x) == Flat32(x)
  {
    HalfLanes32(x);
  }

  lemma HalfLanes64(x: bv64)
    ensures var lo, hi := (x & 0xffff_ffff) as bv32, (x >> 32) as bv32;
      (lo & 0xff) as bv8 == (x & 0xff) as bv8 && ((lo >> 8) & 0xff) as bv8 == ((x >> 8) & 0xff) as bv8 &&
      ((lo >> 16) & 0xff) as bv8 == ((x >> 16) & 0xff) as bv8 && ((lo >> 24) & 0xff) as bv8 == ((x >> 24) & 0xff) as bv8 &&
      (hi & 0xff) as bv8 == ((x >> 32) & 0xff) as bv8 && ((hi >> 8) & 0xff) as bv8 == ((x >> 40) & 0xff) as bv8 &&
      ((hi >> 16) & 0xff) as bv8 == ((x >> 48) & 0xff) as bv8 && ((hi >> 24) & 0xff) as bv8 == ((x >> 56) & 0xff) as bv8
  {
  }

  lemma Lanes64Are(x: bv64)
    ensures Lanes64(x) == Flat64(x)
  {
    var lo, hi := (x & 0xffff_ffff) as bv32, (x >> 32) as bv32;
    Lanes32Are(lo);
    Lanes32Are(hi);
    HalfLanes64(x);
  }

  /** BSWAP16 on the register holding x is ByteSwap on the lanes of x. */
  lemma BSwap16IsByteSwap(x: bv16)
    ensures Unsigned16(x) < Pow256(2) && Unsigned16(BSwap16(x)) < Pow256(2)
    ensures Lanes(Unsigned16(BSwap16(x)), 2) == ByteSwap(Lanes(Unsigned16(x), 2))
  {
    Word16Value(x);
    Word16Value(BSwap16(x));
    assert Lanes16(BSwap16(x)) == Reverse(Lanes16(x));
    LanesOfValue(Lanes16(x));
    LanesOfValue(Lanes16(BSwap16(x)));
  }

  /** BSWAP32 on the register holding x is ByteSwap on the lanes of x. */
  lemma BSwap32IsByteSwap(x: bv32)
    ensures Unsigned32(x) < Pow256(4) && Unsigned32(BSwap32(x)) < Pow256(4)
    ensures Lanes(Unsigned32(BSwap32(x)), 4) == ByteSwap(Lanes(Unsigned32(x), 4))
  {
    var y := BSwap32(x);
    Word32Value(x);
    Word32Value(y);
    SwappedLanes32(x);
    LanesOfValue(Lanes32(x));
    LanesOfValue(Lanes32(y));
  }

  lemma SwappedBytes32(x: bv32)
    ensures var y := BSwap32(x);
      (y & 0xff) as bv8 == ((x >> 24) & 0xff) as bv8 && ((y >> 8) & 0xff) as bv8 == ((x >> 16) & 0xff) as bv8 &&
      ((y >> 16) & 0xff) as bv8 == ((x >> 8) & 0xff) as bv8 && ((y >> 24) & 0xff) as bv8 == (x & 0xff) as bv8
  {
  }

  lemma SwappedLanes32(x: bv32)
    ensures Lanes32(BSwap32(x)) == Reverse(Lanes32(x))
  {
    SwappedBytes32(x);
    ReversedLanes32(x, BSwap32(x));
  }

  /** When the bytes of y are those of x in reverse, so are its lanes. */
  lemma ReversedLanes32(x: bv32, y: bv32)
    requires (y & 0xff) as bv8 == ((x >> 24) & 0xff) as bv8 && ((y >> 8) & 0xff) as bv8 == ((x >> 16) & 0xff) as bv8
    requires ((y >> 16) & 0xff) as bv8 == ((x >> 8) & 0xff) as bv8 && ((y >> 24) & 0xff) as bv8 == (x & 0xff) as bv8
    ensures Lanes32(y) == Reverse(Lanes32(x))
  {
    var f := Flat32(x);
    ReverseFour(f);
    assert Flat32(y) == [f[3], f[2], f[1], f[0]];
    Lanes32Are(x);
    Lanes32Are(y);
  }


  /** BSWAP64 on the register holding x is ByteSwap on the lanes of x. */
  lemma BSwap64IsByteSwap(x: bv64)
    ensures Unsigned64(x) < Pow256(8) && Unsigned64(BSwap64(x)) < Pow256(8)
    ensures Lanes(Unsigned64(BSwap64(x)), 8) == ByteSwap(Lanes(Unsigned64(x), 8))
  {
    var y := BSwap64(x);
    Word64Value(x);
    Word64Value(y);
    SwappedLanes64(x);
    LanesOfValue(Lanes64(x));
    LanesOfValue(Lanes64(y));
  }

  lemma SwappedBytes64(x: bv64)
    ensures var y := BSwap64(x);
      (y & 0xff) as bv8 == ((x >> 56) & 0xff) as bv8 && ((y >> 8) & 0xff) as bv8 == ((x >> 48) & 0xff) as bv8 &&
      ((y >> 16) & 0xff) as bv8 == ((x >> 40) & 0xff) as bv8 && ((y >> 24) & 0xff) as bv8 == ((x >> 32) & 0xff) as bv8 &&
      ((y >> 32) & 0xff) as bv8 == ((x >> 24) & 0xff) as bv8 && ((y >> 40) & 0xff) as bv8 == ((x >> 16) & 0xff) as bv8 &&
      ((y >> 48) & 0xff) as bv8 == ((x >> 8) & 0xff) as bv8 && ((y >> 56) & 0xff) as bv8 == (x & 0xff) as bv8
  {
  }

  lemma SwappedLanes64(x: bv64)
    ensures Lanes64(BSwap64(x)) == Reverse(Lanes64(x))
  {
    SwappedBytes64(x);
    ReversedLanes64(x, BSwap64(x));
  }

  /** When the bytes of y are those of x in reverse, so are its lanes. */
  lemma ReversedLanes64(x: bv64, y: bv64)
    requires (y & 0xff) as bv8 == ((x >> 56) & 0xff) as bv8 && ((y >> 8) & 0xff) as bv8 == ((x >> 48) & 0xff) as bv8
    requires ((y >> 16) & 0xff) as bv8 == ((x >> 40) & 0xff) as bv8 && ((y >> 24) & 0xff) as bv8 == ((x >> 32) & 0xff) as bv8
    requires ((y >> 32) & 0xff) as bv8 == ((x >> 24) & 0xff) as bv8 && ((y >> 40) & 0xff) as bv8 == ((x >> 16) & 0xff) as bv8
    requires ((y >> 48) & 0xff) as bv8 == ((x >> 8) & 0xff) as bv8 && ((y >> 56) & 0xff) as bv8 == (x & 0xff) as bv8
    ensures Lanes64(y) == Reverse(Lanes64(x))
  {
    var f := Flat64(x);
    ReverseEight(f);
    assert Flat64(y) == [f[7], f[6], f[5], f[4], f[3], f[2], f[1], f[0]];
    Lanes64Are(x);
    Lanes64Are(y);
  }





  /**
   * The bytes that storing a register writes to memory, lowest address first: the lanes in
   * order on a little-endian machine, reversed on a big-endian one.
   */
  function Store(lanes: seq<Byte>, littleEndian: bool): seq<Byte>
  {
    if littleEndian then lanes else Reverse(lanes)
  }

  /**
   * Key::CreateData for a w-byte word n: the word is stored into the new buffer, byte-swapped
   * first on a little-endian machine (the int8 case stores its single byte as it is), and
   * byte 0 then has its sign bit flipped. The buffer does not depend on the machine's byte
   * order: it is n big-endian with byte 0 flipped.
   */
  function CreateDataWord(n: nat, w: Width, littleEndian: bool): (r: Key)
    requires n < Pow256(w)
    ensures r == [FlipSign(BigEndian(n, w)[0])] + BigEndian(n, w)[1..]
  {
    var word := Lanes(n, w);
    var image := Store(if w > 1 && littleEndian then ByteSwap(word) else word, littleEndian);
    ReverseInvolutive(BigEndian(n, w));
    assert image == BigEndian(n, w) by {
      if w == 1 {
        assert Reverse(word) == word;
      }
    }
    [FlipSign(image[0])] + image[1..]
  }

  /**
   * Key::CreateData for a signed integer of w bytes. The key is the big-endian form of
   * v + 2^(8w-1): flipping the sign bit turns the two's-complement order into the unsigned
   * order, so the key of the smallest value is all zeroes.
   */
  function CreateData(v: int, w: Width, littleEndian: bool): (r: Key)
    requires InSignedRange(v, w)
    ensures |r| == w
    ensures r == BigEndian(v + Half(w), w)
  {
    SignFlipShifts(v, w);
    CreateDataWord(TwosComplement(v, w), w, littleEndian)
  }

  /** Adding 2^(8w-1) to a number below it sets the top bit of its big-endian form. */
  lemma {:induction false} FlipTop(x: nat, w: nat)
    requires w >= 1 && x < Half(w)
    ensures x + Half(w) < Pow256(w)
    ensures BigEndian(x + Half(w), w) == [FlipSign(BigEndian(x, w)[0])] + BigEndian(x, w)[1..]
  {
    if w == 1 {
      assert x / 256 == 0 && (x + 128) / 256 == 0;
    } else {
      var h := Half(w - 1);
      assert Half(w) == 256 * h;
      assert (x + 256 * h) / 256 == x / 256 + h;
      assert (x + 256 * h) % 256 == x % 256;
      FlipTop(x / 256, w - 1);
      var low := BigEndian(x / 256, w - 1);
      assert BigEndian(x, w) == low + [(x % 256) as Byte];
      assert BigEndian(x, w)[1..] == low[1..] + [(x % 256) as Byte];
    }
  }

  lemma SignFlipShifts(v: int, w: nat)
    requires w >= 1 && InSignedRange(v, w)
    ensures v + Half(w) < Pow256(w)
    ensures var u := TwosComplement(v, w);
      [FlipSign(BigEndian(u, w)[0])] + BigEndian(u, w)[1..] == BigEndian(v + Half(w), w)
  {
    var u := TwosComplement(v, w);
    if v >= 0 {
      FlipTop(v, w);
    } else {
      var s := v + Half(w);
      FlipTop(s, w);
      assert u == s + Half(w);
      var b := BigEndian(s, w);
      FlipSignInvolutive(b[0]);
      assert [FlipSign(FlipSign(b[0]))] + b[1..] == b;
    }
  }

  /** Key::CreateKey<string>: the bytes of the string and then the terminating 0 of c_str(). */
  function CreateStringKey(value: seq<Byte>): (r: Key)
    ensures |r| == |value| + 1
    ensures r[..|value|] == value && r[|value|] == 0
  {
    value + [0]
  }

  //===--------------------------------------------------------------------===//
  // Comparison
  //===--------------------------------------------------------------------===//

  /**
   * What Key::operator> answers: the first differing byte decides, and when the shorter key
   * is a prefix of the longer one, the longer one is greater.
   */
  predicate Greater(a: Key, b: Key)
  {
    if |a| == 0 || |b| == 0 then |a| > |b|
    else if a[0] > b[0] then true
    else if a[0] < b[0] then false
    else Greater(a[1..], b[1..])
  }

  /** What Key::operator>= answers: as Greater, but a tie in length counts as greater-or-equal. */
  predicate GreaterOrEqual(a: Key, b: Key)
  {
    if |a| == 0 || |b| == 0 then |a| >= |b|
    else if a[0] > b[0] then true
    else if a[0] < b[0] then false
    else GreaterOrEqual(a[1..], b[1..])
  }

  /** Key::operator>: scans the common prefix and returns at the first differing byte. */
  method KeyGreater(a: Key, b: Key) returns (r: bool)
    ensures r == Greater(a, b)
  {
    var n := if |a| < |b| then |a| else |b|;
    var i := 0;
    while i < n
      invariant 0 <= i <= n
      invariant Greater(a, b) == Greater(a[i..], b[i..])
    {
      assert a[i..][1..] == a[i + 1..] && b[i..][1..] == b[i + 1..];
      if a[i] > b[i] {
        return true;
      } else if a[i] < b[i] {
        return false;
      }
      i := i + 1;
    }
    r := |a| > |b|;
  }

  /** Key::operator>=: the same scan, with `len >= k.len` deciding a tie. */
  method KeyGreaterOrEqual(a: Key, b: Key) returns (r: bool)
    ensures r == GreaterOrEqual(a, b)
  {
    var n := if |a| < |b| then |a| else |b|;
    var i := 0;
    while i < n
      invariant 0 <= i <= n
      invariant GreaterOrEqual(a, b) == GreaterOrEqual(a[i..], b[i..])
    {
      assert a[i..][1..] == a[i + 1..] && b[i..][1..] == b[i + 1..];
      if a[i] > b[i] {
        return true;
      } else if a[i] < b[i] {
        return false;
      }
      i := i + 1;
    }
    r := |a| >= |b|;
  }

  /** Key::operator==: equal lengths and equal bytes, that is, the same key. */
  method KeyEquals(a: Key, b: Key) returns (r: bool)
    ensures r <==> a == b
  {
    if |a| != |b| {
      return false;
    }
    var i := 0;
    while i < |a|
      invariant 0 <= i <= |a|
      invariant a[..i] == b[..i]
    {
      if a[i] != b[i] {
        return false;
      }
      i := i + 1;
    }
    assert a == a[..i] && b == b[..i];
    r := true;
  }

  /** operator>= is operator> or operator==. */
  lemma {:induction false} GreaterOrEqualIsGreaterOrEquals(a: Key, b: Key)
    ensures GreaterOrEqual(a, b) <==> Greater(a, b) || a == b
  {
    if |a| > 0 && |b| > 0 && a[0] == b[0] {
      GreaterOrEqualIsGreaterOrEquals(a[1..], b[1..]);
      assert a == [a[0]] + a[1..] && b == [b[0]] + b[1..];
    }
  }

  lemma {:induction false} GreaterIrreflexive(a: Key)
    ensures !Greater(a, a)
  {
    if |a| > 0 {
      GreaterIrreflexive(a[1..]);
    }
  }

  lemma {:induction false} GreaterTransitive(a: Key, b: Key, c: Key)
    requires Greater(a, b) && Greater(b, c)
    ensures Greater(a, c)
  {
    if |a| > 0 && |b| > 0 && |c| > 0 && a[0] == b[0] && b[0] == c[0] {
      GreaterTransitive(a[1..], b[1..], c[1..]);
    }
  }

  /** Two different keys are ordered one way or the other: operator> is a strict total order. */
  lemma {:induction false} GreaterConnected(a: Key, b: Key)
    requires a != b
    ensures Greater(a, b) || Greater(b, a)
  {
    if |a| > 0 && |b| > 0 && a[0] == b[0] {
      assert a == [a[0]] + a[1..] && b == [b[0]] + b[1..];
      GreaterConnected(a[1..], b[1..]);
    }
  }

  lemma {:induction false} GreaterAsymmetric(a: Key, b: Key)
    requires Greater(a, b)
    ensures !Greater(b, a)
  {
    if |a| > 0 && |b| > 0 && a[0] == b[0] {
      GreaterAsymmetric(a[1..], b[1..]);
    }
  }

  /** Appending one byte to keys of one length: the earlier bytes decide, then the new one. */
  lemma {:induction false} GreaterSnoc(a: Key, b: Key, x: Byte, y: Byte)
    requires |a| == |b|
    ensures Greater(a + [x], b + [y]) <==> Greater(a, b) || (a == b && x > y)
  {
    if |a| > 0 {
      assert (a + [x])[1..] == a[1..] + [x] && (b + [y])[1..] == b[1..] + [y];
      GreaterSnoc(a[1..], b[1..], x, y);
      if a[0] == b[0] && a[1..] == b[1..] {
        assert a == [a[0]] + a[1..] && b == [b[0]] + b[1..];
      }
    }
  }

  /** Big-endian byte strings of one length are ordered as the numbers they hold. */
  lemma {:induction false} BigEndianOrder(n: nat, m: nat, w: nat)
    requires n < Pow256(w) && m < Pow256(w)
    ensures n < m <==> Greater(BigEndian(m, w), BigEndian(n, w))
    ensures n == m <==> BigEndian(n, w) == BigEndian(m, w)
  {
    if w > 0 {
      var a, b := BigEndian(n / 256, w - 1), BigEndian(m / 256, w - 1);
      var x, y := (n % 256) as Byte, (m % 256) as Byte;
      BigEndianOrder(n / 256, m / 256, w - 1);
      GreaterSnoc(b, a, y, x);
      if a + [x] == b + [y] {
        assert a == (a + [x])[..w - 1] && b == (b + [y])[..w - 1];
        assert x == (a + [x])[w - 1] && y == (b + [y])[w - 1];
      }
    }
  }

  /** Keys that are the big-endian forms of a + 2^(8w-1) and b + 2^(8w-1) are ordered as a and b. */
  lemma ShiftedKeyOrder(a: int, b: int, w: nat, ka: Key, kb: Key)
    requires w >= 1 && InSignedRange(a, w) && InSignedRange(b, w)
    requires ka == BigEndian(a + Half(w), w) && kb == BigEndian(b + Half(w), w)
    ensures a < b <==> Greater(kb, ka)
    ensures a == b <==> ka == kb
  {
    ShiftedInRange(a, w);
    ShiftedInRange(b, w);
    BigEndianOrder(a + Half(w), b + Half(w), w);
  }

  /** Adding 2^(8w-1) to a signed w-byte value gives an unsigned w-byte value. */
  lemma ShiftedInRange(v: int, w: nat)
    requires w >= 1 && InSignedRange(v, w)
    ensures 0 <= v + Half(w) < Pow256(w)
  {
  }

  /**
   * Integer keys preserve the order of their values: for two signed integers of one width,
   * a < b exactly when key(b) > key(a), and equal keys mean equal values.
   */
  lemma IntegerKeyOrder(a: int, b: int, w: Width, littleEndian: bool)
    requires InSignedRange(a, w) && InSignedRange(b, w)
    ensures a < b <==> Greater(CreateData(b, w, littleEndian), CreateData(a, w, littleEndian))
    ensures a == b <==> CreateData(a, w, littleEndian) == CreateData(b, w, littleEndian)
  {
    ShiftedKeyOrder(a, b, w, CreateData(a, w, littleEndian), CreateData(b, w, littleEndian));
  }

  /** String keys preserve the order of the strings, the terminator included. */
  lemma {:induction false} StringKeyOrder(s: seq<Byte>, t: seq<Byte>)
    ensures Greater(CreateStringKey(t), CreateStringKey(s)) <==> Greater(t, s)
    ensures CreateStringKey(s) == CreateStringKey(t) <==> s == t
  {
    var ks, kt := CreateStringKey(s), CreateStringKey(t);
    if |s| == 0 && |t| > 0 {
      if t[0] == 0 {
        assert kt[1..] == t[1..] + [0] && ks[1..] == [];
      }
    } else if |s| > 0 && |t| == 0 {
      if s[0] == 0 {
        assert ks[1..] == s[1..] + [0] && kt[1..] == [];
      }
    } else if |s| > 0 && |t| > 0 {
      assert ks[1..] == CreateStringKey(s[1..]) && kt[1..] == CreateStringKey(t[1..]);
      StringKeyOrder(s[1..], t[1..]);
      if s[0] == t[0] && s[1..] == t[1..] {
        assert s == [s[0]] + s[1..] && t == [t[0]] + t[1..];
      }
    }
    if ks == kt {
      assert s == ks[..|s|] && t == kt[..|t|];
    }
  }

  //===--------------------------------------------------------------------===//
  // Floating-point sentinels
  //===--------------------------------------------------------------------===//

  /**
   * The cases EncodeFloat and EncodeDouble tell apart. `Zero` is x == 0, which holds for
   * +0.0 and -0.0 alike; `Finite` is every other non-NaN value below the largest finite one,
   * which the source converts numerically and which is not modelled here.
   */
  datatype FloatClass = Zero | PositiveInfinity | NegativeInfinity | NotANumber | Finite

  /**
   * The value `1 << 31` takes when or-ed into a 64-bit `unsigned long`: the int is negative,
   * so the conversion sign-extends it.
   */
  const SIGN_BIT_31_WIDENED: bv64 := 0xFFFF_FFFF_8000_0000

  /** EncodeFloat on its special cases; `None` for the finite values it converts numerically. */
  function EncodeFloat(c: FloatClass): (r: Option<bv32>)
    ensures c == Zero <==> r == Some(0)
    ensures c == Finite <==> r == None
    ensures c != Zero && c != Finite ==> r.Some? && (r.value >> 23) & 0xff == 0xff
    ensures r.Some? && r.value >> 31 == 1 <==> c == NegativeInfinity
    ensures r.Some? && r.value & 0x7f_ffff != 0 <==> c == NotANumber
  {
    var expbits := 8;
    var sentinel: bv64 := (128 + ((1 << (expbits - 1)) - 1)) << (31 - expbits);
    match c
    case Zero => Some(0)
    case PositiveInfinity => Some((sentinel & 0xFFFF_FFFF) as bv32)
    case NegativeInfinity => Some(((sentinel | SIGN_BIT_31_WIDENED) & 0xFFFF_FFFF) as bv32)
    case NotANumber => Some(((sentinel | 1234) & 0xFFFF_FFFF) as bv32)
    case Finite => None
  }

  /** EncodeDouble on its special cases; `None` for the finite values it converts numerically. */
  function EncodeDouble(c: FloatClass): (r: Option<bv64>)
    ensures c == Zero <==> r == Some(0)
    ensures c == Finite <==> r == None
    ensures c != Zero && c != Finite ==> r.Some? && (r.value >> 52) & 0x7ff == 0x7ff
    ensures r.Some? && r.value >> 63 == 1 <==> c == NegativeInfinity
    ensures r.Some? && r.value & 0xf_ffff_ffff_ffff != 0 <==> c == NotANumber
  {
    var expbits := 11;
    var hilong: bv64 := (1024 + ((1 << (expbits - 1)) - 1)) << (31 - expbits);
    match c
    case Zero => Some(0)
    case PositiveInfinity => Some((hilong << 32) + 0)
    case NegativeInfinity => Some(((hilong | SIGN_BIT_31_WIDENED) << 32) + 0)
    case NotANumber => Some((hilong << 32) + 1234)
    case Finite => None
  }

  /** The four special words EncodeFloat produces, as numbers. */
  lemma EncodeFloatWords()
    ensures EncodeFloat(Zero) == Some(0)
    ensures EncodeFloat(NegativeInfinity) == Some(0xFF80_0000)
    ensures EncodeFloat(PositiveInfinity) == Some(0x7F80_0000)
    ensures EncodeFloat(NotANumber) == Some(0x7F80_04D2)
  {
  }

  /** Key::CreateData<float> on a special case: the encoded word goes through the integer path. */
  function FloatKey(c: FloatClass, littleEndian: bool): (r: Key)
    requires c != Finite
    ensures |r| == 4
  {
    CreateDataWord(EncodeFloat(c).value as int, 4, littleEndian)
  }

  /** The big-endian bytes of a 32-bit number written with its four digits in base 256. */
  lemma BigEndian4(d0: Byte, d1: Byte, d2: Byte, d3: Byte)
    ensures var n := d0 as int * 0x100_0000 + d1 as int * 0x1_0000 + d2 as int * 0x100 + d3 as int;
      0 <= n < Pow256(4) && BigEndian(n, 4) == [d0, d1, d2, d3]
  {
    var n := d0 as int * 0x100_0000 + d1 as int * 0x1_0000 + d2 as int * 0x100 + d3 as int;
    var n1 := d0 as int * 0x1_0000 + d1 as int * 0x100 + d2 as int;
    var n2 := d0 as int * 0x100 + d1 as int;
    assert n / 256 == n1 && n % 256 == d3 as int;
    assert n1 / 256 == n2 && n1 % 256 == d2 as int;
    assert n2 / 256 == d0 as int && n2 % 256 == d1 as int;
    assert BigEndian(d0 as int, 1) == [d0];
  }

  /** The key of a 32-bit word whose big-endian bytes are d0..d3. */
  lemma WordKey(n: nat, littleEndian: bool, d0: Byte, d1: Byte, d2: Byte, d3: Byte)
    requires n < Pow256(4) && BigEndian(n, 4) == [d0, d1, d2, d3]
    ensures CreateDataWord(n, 4, littleEndian) == [FlipSign(d0), d1, d2, d3]
  {
  }

  /** The keys of the four special cases. */
  lemma FloatKeys(c: FloatClass, littleEndian: bool)
    requires c != Finite
    ensures c == Zero ==> FloatKey(c, littleEndian) == [0x80, 0, 0, 0]
    ensures c == NegativeInfinity ==> FloatKey(c, littleEndian) == [0x7F, 0x80, 0, 0]
    ensures c == PositiveInfinity ==> FloatKey(c, littleEndian) == [0xFF, 0x80, 0, 0]
    ensures c == NotANumber ==> FloatKey(c, littleEndian) == [0xFF, 0x80, 0x04, 0xD2]
  {
    EncodeFloatWords();
    match c
    case Zero =>
      BigEndian4(0, 0, 0, 0);
      WordKey(0, littleEndian, 0, 0, 0, 0);
    case NegativeInfinity =>
      BigEndian4(0xFF, 0x80, 0, 0);
      WordKey(0xFF80_0000, littleEndian, 0xFF, 0x80, 0, 0);
    case PositiveInfinity =>
      BigEndian4(0x7F, 0x80, 0, 0);
      WordKey(0x7F80_0000, littleEndian, 0x7F, 0x80, 0, 0);
    case NotANumber =>
      BigEndian4(0x7F, 0x80, 0x04, 0xD2);
      WordKey(0x7F80_04D2, littleEndian, 0x7F, 0x80, 0x04, 0xD2);
  }

  /**
   * The float sentinels sort as -inf < 0 < +inf < NaN; +0.0 and -0.0 share the key of 0.
   */
  lemma FloatSentinelOrder(littleEndian: bool)
    ensures Greater(FloatKey(Zero, littleEndian), FloatKey(NegativeInfinity, littleEndian))
    ensures Greater(FloatKey(PositiveInfinity, littleEndian), FloatKey(Zero, littleEndian))
    ensures Greater(FloatKey(NotANumber, littleEndian), FloatKey(PositiveInfinity, littleEndian))
  {
    FloatKeys(Zero, littleEndian);
    FloatKeys(NegativeInfinity, littleEndian);
    FloatKeys(PositiveInfinity, littleEndian);
    FloatKeys(NotANumber, littleEndian);
  }
}
