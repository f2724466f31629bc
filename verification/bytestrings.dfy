/** Go strings and byte slices. A Go `string` is an immutable sequence of bytes and
    `len(s)` counts bytes, so both strings and `[]byte` are modelled as `Bytes`. */
module ByteStrings {

  type uint8 = x: int | 0 <= x < 256

  type Bytes = seq<uint8>

  /** True when every character of `s` fits in one byte. */
  predicate IsAscii(s: string) {
    forall i | 0 <= i < |s| :: s[i] as int < 256
  }

  /** The bytes of a one-byte-per-character literal, such as "/_kaicache/". */
  function Ascii(s: string): (r: Bytes)
    requires IsAscii(s)
    ensures |r| == |s|
    ensures forall i | 0 <= i < |s| :: r[i] == s[i] as int
  {
    if |s| == 0 then [] else [s[0] as int as uint8] + Ascii(s[1..])
  }

  /** The byte code of '/'. */
  const Slash: uint8 := 47

  /** Decimal rendering of a non-negative integer, as `strconv.Itoa` prints it. */
  function Itoa(i: nat): (r: Bytes)
    ensures |r| > 0
    ensures forall j | 0 <= j < |r| :: 48 <= r[j] <= 57
  {
    if i < 10 then [48 + i] else Itoa(i / 10) + [48 + i % 10]
  }
}
