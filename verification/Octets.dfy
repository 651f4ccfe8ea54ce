/** Octets, fixed-width words and the small vocabulary every other module shares. */
module Octets {
  datatype Option<+T> = None | Some(value: T)

  datatype Result<+T, +E> = Ok(value: T) | Err(error: E)

  type Octet = x: int | 0 <= x < 0x100
  type Word16 = x: int | 0 <= x < 0x1_0000
  type Word32 = x: int | 0 <= x < 0x1_0000_0000
  type Bytes = seq<Octet>

  /** Most significant octet first, as PPP and IP transmit numbers. */
  function BigEndian16(w: Word16): Bytes { [w / 0x100, w % 0x100] }

  function ReadBigEndian16(high: Octet, low: Octet): Word16 { high * 0x100 + low }

  function BigEndian32(w: Word32): Bytes {
    BigEndian16(w / 0x1_0000) + BigEndian16(w % 0x1_0000)
  }

  function ReadBigEndian32(b: Bytes): Word32
    requires |b| == 4
  {
    ReadBigEndian16(b[0], b[1]) * 0x1_0000 + ReadBigEndian16(b[2], b[3])
  }

  lemma BigEndian32RoundTrip(w: Word32)
    ensures |BigEndian32(w)| == 4 && ReadBigEndian32(BigEndian32(w)) == w
  {
  }

  function Min(x: int, y: int): int { if x < y then x else y }

  function Max(x: int, y: int): int { if x < y then y else x }
}
