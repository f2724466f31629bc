/** The default ring hash, `crc32.ChecksumIEEE`: the reflected CRC-32 with polynomial
    0xEDB88320, initial value and final mask 0xFFFFFFFF, computed bit by bit. Nothing in
    the model depends on which hash is used; this is only the value of the default. */
module Crc32 {
  import opened ByteStrings

  const Polynomial: bv32 := 0xEDB8_8320

  /** `n` rounds of shifting one bit out of the register. */
  function Shift(crc: bv32, n: nat): bv32
    decreases n
  {
    if n == 0 then crc
    else Shift(if crc & 1 == 1 then (crc >> 1) ^ Polynomial else crc >> 1, n - 1)
  }

  /** The register after feeding `data`, first byte first. */
  function Update(crc: bv32, data: Bytes): bv32
    decreases |data|
  {
    if |data| == 0 then crc else Update(Shift(crc ^ (data[0] as bv32), 8), data[1..])
  }

  /** The checksum, a 32-bit unsigned value widened to an integer as the ring does with `int(...)`. */
  function ChecksumIEEE(data: Bytes): (r: nat)
    ensures r < 0x1_0000_0000
  {
    (Update(0xFFFF_FFFF, data) ^ 0xFFFF_FFFF) as nat
  }
}
