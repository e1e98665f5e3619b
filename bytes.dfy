/** Byte-level vocabulary of the decoder: bytes, the little-endian signed
    integers a BinaryReader reads, the four bytes BitConverter.GetBytes gives
    for an int (taken to be little-endian: GetBytes follows the host's byte
    order, and the model assumes a little-endian host),
    C#'s unchecked 32-bit int arithmetic, and the concatenation of chunks. */
module Bytes {

  type byte = x: int | 0 <= x < 0x100
  type int32 = x: int | -0x8000_0000 <= x < 0x8000_0000

  /** The signed 16-bit value of two bytes stored low byte first. */
  function Int16LE(lo: byte, hi: byte): (v: int)
    ensures -0x8000 <= v < 0x8000
    ensures (v - (lo + 0x100 * hi)) % 0x1_0000 == 0
  {
    var u := lo + 0x100 * hi;
    if u < 0x8000 then u else u - 0x1_0000
  }

  /** The unsigned value of four bytes stored low byte first. */
  function Unsigned32(b: seq<byte>): (u: int)
    requires |b| == 4
    ensures 0 <= u < 0x1_0000_0000
  {
    b[0] as int + 0x100 * (b[1] as int) + 0x1_0000 * (b[2] as int) + 0x100_0000 * (b[3] as int)
  }

  /** The signed 32-bit value of four bytes stored low byte first. */
  function Int32LE(b: seq<byte>): (v: int32)
    requires |b| == 4
    ensures (v - Unsigned32(b)) % 0x1_0000_0000 == 0
  {
    var u := Unsigned32(b);
    if u < 0x8000_0000 then u else u - 0x1_0000_0000
  }

  /** BitConverter.GetBytes(int) on a little-endian host: the four bytes of
      v, low byte first. */
  function Int32Bytes(v: int32): (b: seq<byte>)
    ensures |b| == 4 && Int32LE(b) == v
  {
    var u: int := if v < 0 then v + 0x1_0000_0000 else v;
    var b0, r0 := u % 0x100, u / 0x100;
    var b1, r1 := r0 % 0x100, r0 / 0x100;
    var b2, b3 := r1 % 0x100, r1 / 0x100;
    assert u == b0 + 0x100 * r0 && r0 == b1 + 0x100 * r1 && r1 == b2 + 0x100 * b3;
    assert Unsigned32([b0, b1, b2, b3]) == u;
    [b0, b1, b2, b3]
  }

  /** Re-encoding the value read from four bytes gives back those bytes. */
  lemma Int32BytesOfLE(b: seq<byte>)
    requires |b| == 4
    ensures Int32Bytes(Int32LE(b)) == b
  {
    var u := Unsigned32(b);
    var r1 := b[2] as int + 0x100 * (b[3] as int);
    var r0 := b[1] as int + 0x100 * r1;
    assert u == b[0] as int + 0x100 * r0;
    assert u % 0x100 == b[0] && u / 0x100 == r0;
    assert r0 % 0x100 == b[1] && r0 / 0x100 == r1;
    assert r1 % 0x100 == b[2] && r1 / 0x100 == b[3];
  }

  /** C#'s unchecked int arithmetic: the int32 congruent to x modulo 2^32. */
  function Wrap32(x: int): (r: int32)
    ensures (r - x) % 0x1_0000_0000 == 0
    ensures -0x8000_0000 <= x < 0x8000_0000 ==> r == x
  {
    (x + 0x8000_0000) % 0x1_0000_0000 - 0x8000_0000
  }

  /** The concatenation of a list of chunks, in order. */
  function Flatten<T>(chunks: seq<seq<T>>): (r: seq<T>)
    ensures |chunks| == 0 ==> r == []
  {
    if |chunks| == 0 then [] else chunks[0] + Flatten(chunks[1..])
  }

  lemma {:induction false} FlattenAppend<T>(a: seq<seq<T>>, b: seq<seq<T>>)
    ensures Flatten(a + b) == Flatten(a) + Flatten(b)
  {
    if |a| == 0 {
      assert a + b == b;
    } else {
      assert (a + b)[1..] == a[1..] + b;
      FlattenAppend(a[1..], b);
    }
  }

  /** Two adjacent slices of a sequence join into one slice. */
  lemma SliceJoin<T>(s: seq<T>, i: nat, j: nat, k: nat)
    requires i <= j <= k <= |s|
    ensures s[i..j] + s[j..k] == s[i..k]
  {
  }
}
