// The round functions of section 3.4 of RFC 1321 and the rotation of section 2
// on bit vectors, and what they do to each bit.

module Md5Bits {
  function RotateBits(x: bv32, n: bv5): bv32 {
    (x << n) | (x >> (32 - n as bv6))
  }

  function FBits(x: bv32, y: bv32, z: bv32): bv32 {
    (x & y) | (!x & z)
  }

  function GBits(x: bv32, y: bv32, z: bv32): bv32 {
    (x & z) | (y & !z)
  }

  function HBits(x: bv32, y: bv32, z: bv32): bv32 {
    x ^ y ^ z
  }

  function IBits(x: bv32, y: bv32, z: bv32): bv32 {
    y ^ (x | !z)
  }

  /** F takes y where x has ones, and z elsewhere. */
  lemma FSelects(x: bv32, y: bv32, z: bv32)
    ensures FBits(x, y, z) & x == y & x
    ensures FBits(x, y, z) & !x == z & !x
  {
  }

  /** G takes x where z has ones, and y elsewhere. */
  lemma GSelects(x: bv32, y: bv32, z: bv32)
    ensures GBits(x, y, z) & z == x & z
    ensures GBits(x, y, z) & !z == y & !z
  {
  }

  /** H is the parity of the three bits: x where y and z agree, and the complement elsewhere. */
  lemma HParity(x: bv32, y: bv32, z: bv32)
    ensures var same := (y & z) | (!y & !z);
            HBits(x, y, z) & same == x & same && HBits(x, y, z) & !same == !x & !same
  {
  }

  /** I is the complement of y where x has ones or z zeros, and y elsewhere. */
  lemma IMeaning(x: bv32, y: bv32, z: bv32)
    ensures IBits(x, y, z) & x == !y & x
    ensures IBits(x, y, z) & !x & !z == !y & !x & !z
    ensures IBits(x, y, z) & !x & z == y & !x & z
  {
  }

  /** The n high-order bits become the low-order ones, and the others move up by n places. */
  lemma RotationMeaning(x: bv32, n: bv5)
    ensures RotateBits(x, n) & ((1 << n) - 1) == x >> (32 - n as bv6)
    ensures RotateBits(x, n) >> n == x & (0xffff_ffff >> n)
  {
  }
}
