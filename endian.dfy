/**
  Byte order of 64-bit words (endian.h).

  A word is viewed as eight bytes in big-endian order: byte 0 is the most
  significant one. `ForceBigEndian` is the little-endian host's byte swap
  that turns a word read from memory into that big-endian view and back.
 */
module Endian {

  /** Big-endian byte `k` of `x`: byte 0 holds bits 63..56, byte 7 bits 7..0. */
  function ByteAt(x: bv64, k: nat): bv8
    requires k < 8
  {
    if k == 0 then (x >> 56) as bv8
    else if k == 1 then ((x >> 48) & 0xff) as bv8
    else if k == 2 then ((x >> 40) & 0xff) as bv8
    else if k == 3 then ((x >> 32) & 0xff) as bv8
    else if k == 4 then ((x >> 24) & 0xff) as bv8
    else if k == 5 then ((x >> 16) & 0xff) as bv8
    else if k == 6 then ((x >> 8) & 0xff) as bv8
    else (x & 0xff) as bv8
  }

  /** Little-endian host branch: reverse the byte order of `x`. */
  function ForceBigEndian(x: bv64): bv64
  {
    ((0x00000000000000ff & x) << 56)
    | ((0x000000000000ff00 & x) << 40)
    | ((0x0000000000ff0000 & x) << 24)
    | ((0x00000000ff000000 & x) << 8)
    | ((0x000000ff00000000 & x) >> 8)
    | ((0x0000ff0000000000 & x) >> 24)
    | ((0x00ff000000000000 & x) >> 40)
    | ((0xff00000000000000 & x) >> 56)
  }

  /** Byte `k` of the swapped word is byte `7 - k` of the original. */
  lemma ForceBigEndianBytes(x: bv64)
    ensures forall k | 0 <= k < 8 :: ByteAt(ForceBigEndian(x), k) == ByteAt(x, 7 - k)
  {
    ForceBigEndianFirstHalf(x);
    ForceBigEndianSecondHalf(x);
  }

  lemma ForceBigEndianFirstHalf(x: bv64)
    ensures ByteAt(ForceBigEndian(x), 0) == ByteAt(x, 7)
    ensures ByteAt(ForceBigEndian(x), 1) == ByteAt(x, 6)
    ensures ByteAt(ForceBigEndian(x), 2) == ByteAt(x, 5)
    ensures ByteAt(ForceBigEndian(x), 3) == ByteAt(x, 4)
  {
  }

  lemma ForceBigEndianSecondHalf(x: bv64)
    ensures ByteAt(ForceBigEndian(x), 4) == ByteAt(x, 3)
    ensures ByteAt(ForceBigEndian(x), 5) == ByteAt(x, 2)
    ensures ByteAt(ForceBigEndian(x), 6) == ByteAt(x, 1)
    ensures ByteAt(ForceBigEndian(x), 7) == ByteAt(x, 0)
  {
  }

  /** Swapping twice gives the word back. */
  lemma ForceBigEndianInvolution(x: bv64)
    ensures ForceBigEndian(ForceBigEndian(x)) == x
  {
  }

  /** The swap moves bytes without combining them, so it commutes with a mask. */
  lemma ForceBigEndianAnd(a: bv64, b: bv64)
    ensures ForceBigEndian(a & b) == ForceBigEndian(a) & ForceBigEndian(b)
  {
  }
}
