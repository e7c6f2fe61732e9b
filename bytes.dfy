/** Byte-level view of the disk image: fixed-width integers, little-endian
    fields and zero-padded windows into the image. */
module Bytes {

  /** One byte of the image, as the unsigned value 0..255. */
  type Byte = x: int | 0 <= x < 0x100
  type U16 = x: int | 0 <= x < 0x1_0000
  type U32 = x: int | 0 <= x < 0x1_0000_0000

  /** The byte at offset k, or 0 outside the image. Specifications use it to
      stay total; the methods never read outside the image. */
  function ByteAt(image: seq<Byte>, k: int): Byte
  {
    if 0 <= k < |image| then image[k] else 0
  }

  /** The n bytes at off, reading 0 outside the image. */
  function Window(image: seq<Byte>, off: int, n: nat): (w: seq<Byte>)
    ensures |w| == n
    ensures forall i :: 0 <= i < n ==> w[i] == ByteAt(image, off + i)
  {
    seq<Byte>(n, i => ByteAt(image, off + i))
  }

  /** Inside the image a window is exactly the bytes fread returns there. */
  lemma WindowIsSlice(image: seq<Byte>, off: int, n: nat)
    requires 0 <= off && off + n <= |image|
    ensures Window(image, off, n) == image[off..off + n]
  {
    var w, v := Window(image, off, n), image[off..off + n];
    forall i | 0 <= i < n
      ensures w[i] == v[i]
    {
      assert v[i] == image[off + i];
    }
  }

  /** A piece of a window is the window over that piece. */
  lemma WindowOfWindow(image: seq<Byte>, off: int, n: nat, a: nat, b: nat)
    requires a <= b <= n
    ensures Window(image, off, n)[a..b] == Window(image, off + a, b - a)
  {
    var w, v := Window(image, off, n)[a..b], Window(image, off + a, b - a);
    forall i | 0 <= i < b - a
      ensures w[i] == v[i]
    {
      assert w[i] == Window(image, off, n)[a + i];
    }
  }

  /** A 16-bit little-endian field at offset i. */
  function LE16(b: seq<Byte>, i: nat): (v: U16)
    requires i + 2 <= |b|
  {
    b[i] as int + 0x100 * b[i + 1] as int
  }

  /** A 32-bit little-endian field at offset i. */
  function LE32(b: seq<Byte>, i: nat): (v: U32)
    requires i + 4 <= |b|
  {
    LE16(b, i) + 0x1_0000 * LE16(b, i + 2)
  }
}
