/** CRC-32 as the PNG Specification (ISO/IEC 15948, section 5.5) defines it and as
    `zlib.crc32(...) & 0xffffffff` computes it: the ISO 3309 polynomial in reflected
    form, register preset to all ones, result complemented.

    The chunk reader and writer take the checksum as a parameter of type `Checksum`
    (tinyxmp calls into zlib for it), so that what is proved about them holds for
    any checksum function; the metadata handle passes `Crc32`. */
module Checksum {
  import opened Bytes

  type uint32 = x: int | 0 <= x < 0x1_0000_0000

  /** A function from bytes to an unsigned 32-bit checksum. */
  type Checksum = seq<byte> -> uint32

  const POLYNOMIAL: bv32 := 0xEDB8_8320

  /** The register after shifting in the bits of `s`, least significant bit of each
      byte first, starting at bit `bit` of its first byte. A byte is combined into
      the register before its first bit is shifted. */
  function Feed(c: bv32, s: seq<byte>, bit: nat): bv32
    requires bit < 8
    decreases |s|, 8 - bit
  {
    if s == [] then c
    else
      var x := if bit == 0 then c ^ (s[0] as int as bv32) else c;
      var shifted := if x & 1 == 1 then (x >> 1) ^ POLYNOMIAL else x >> 1;
      if bit == 7 then Feed(shifted, s[1..], 0) else Feed(shifted, s, bit + 1)
  }

  /** The CRC-32 of `s`. */
  function Crc32(s: seq<byte>): uint32 {
    (Feed(0xFFFF_FFFF, s, 0) ^ 0xFFFF_FFFF) as int
  }
}
