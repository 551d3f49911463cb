/**
 * Integers as the bytes a memcpy of a native integer produces on a little-endian machine, and
 * reading them back: the layout of the length fields and big-string markers that the string
 * segment writes into its blocks.
 */
module NativeBytes {
  import ArtKey

  type Byte = ArtKey.Byte

  /** The w bytes of n, least significant first. */
  function LittleEndian(n: nat, w: nat): (r: seq<Byte>)
    requires n < ArtKey.Pow256(w)
    ensures |r| == w
    decreases w
  {
    if w == 0 then [] else [(n % 256) as Byte] + LittleEndian(n / 256, w - 1)
  }

  /** The number whose little-endian bytes are `bs`. */
  function FromLittleEndian(bs: seq<Byte>): (n: nat)
    ensures n < ArtKey.Pow256(|bs|)
    decreases |bs|
  {
    if bs == [] then 0 else bs[0] as nat + 256 * FromLittleEndian(bs[1..])
  }

  /** Reading back the bytes of a number gives the number. */
  lemma {:induction false} LittleEndianRoundTrip(n: nat, w: nat)
    requires n < ArtKey.Pow256(w)
    ensures FromLittleEndian(LittleEndian(n, w)) == n
    decreases w
  {
    if w > 0 {
      var r := LittleEndian(n, w);
      assert r[1..] == LittleEndian(n / 256, w - 1);
      LittleEndianRoundTrip(n / 256, w - 1);
    }
  }

  /** The w bytes of a signed integer in two's complement, least significant first. */
  function SignedBytes(v: int, w: nat): (r: seq<Byte>)
    requires w >= 1 && ArtKey.InSignedRange(v, w)
    ensures |r| == w
  {
    LittleEndian(ArtKey.TwosComplement(v, w), w)
  }

  /** The signed integer whose two's-complement bytes are `bs`. */
  function FromSignedBytes(bs: seq<Byte>): (v: int)
    requires |bs| >= 1
    ensures ArtKey.InSignedRange(v, |bs|)
  {
    var n := FromLittleEndian(bs);
    if n >= ArtKey.Half(|bs|) then n - ArtKey.Pow256(|bs|) else n
  }

  /** Reading back the bytes of a signed integer gives the integer. */
  lemma SignedRoundTrip(v: int, w: nat)
    requires w >= 1 && ArtKey.InSignedRange(v, w)
    ensures FromSignedBytes(SignedBytes(v, w)) == v
  {
    LittleEndianRoundTrip(ArtKey.TwosComplement(v, w), w);
  }
}
