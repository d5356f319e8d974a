/** CRC-32 with the IEEE polynomial (section 8 of RFC 1952), as crc32.ChecksumIEEE computes it.
    `Corruption` says what it detects. */
module Checksum {
  import opened Bytes

  function WithBit(x: bv32, odd: bool): bv32 { (x << 1) | (if odd then 1 else 0) }

  /** A byte as a word of bits. */
  function Bits(b: nat): bv32 {
    if b == 0 then 0 else WithBit(Bits(b / 2), b % 2 == 1)
  }

  function Xor(a: bv32, b: bv32): bv32 { a ^ b }

  function ShiftOne(crc: bv32): bv32 { if crc & 1 == 1 then (crc >> 1) ^ 0xEDB8_8320 else crc >> 1 }

  function Shift(crc: bv32, bits: nat): bv32
    decreases bits
  {
    if bits == 0 then crc else Shift(ShiftOne(crc), bits - 1)
  }

  /** One byte more. */
  function Absorb(crc: bv32, b: byte): bv32 { Shift(Xor(crc, Bits(b)), 8) }

  function Update(crc: bv32, data: seq<byte>): bv32
    decreases |data|
  {
    if data == [] then crc else Update(Absorb(crc, data[0]), data[1..])
  }

  function Inverted(crc: bv32): uint32 { Xor(crc, 0xFFFF_FFFF) as int }

  function Crc32(data: seq<byte>): uint32 { Inverted(Update(0xFFFF_FFFF, data)) }
}
