/** Machine word types and the little-endian byte order used by the packed C structures. */
module Words {
  type u8 = x: int | 0 <= x < 0x100
  type u16 = x: int | 0 <= x < 0x1_0000
  type u32 = x: int | 0 <= x < 0x1_0000_0000

  type Bytes = seq<u8>

  function Le16(x: u16): Bytes {
    [x % 0x100, x / 0x100]
  }

  function Le32(x: u32): Bytes {
    [x % 0x100, x / 0x100 % 0x100, x / 0x1_0000 % 0x100, x / 0x100_0000]
  }

  function FromLe16(b0: u8, b1: u8): u16 {
    b0 + 0x100 * b1
  }

  function FromLe32(b0: u8, b1: u8, b2: u8, b3: u8): u32 {
    b0 + 0x100 * b1 + 0x1_0000 * b2 + 0x100_0000 * b3
  }

  lemma Le32RoundTrip(x: u32)
    ensures var b := Le32(x); FromLe32(b[0], b[1], b[2], b[3]) == x
  {
    assert x == x % 0x100 + 0x100 * (x / 0x100);
    assert x / 0x100 == x / 0x100 % 0x100 + 0x100 * (x / 0x100 / 0x100);
    assert x / 0x100 / 0x100 == x / 0x1_0000;
    assert x / 0x1_0000 == x / 0x1_0000 % 0x100 + 0x100 * (x / 0x1_0000 / 0x100);
    assert x / 0x1_0000 / 0x100 == x / 0x100_0000;
  }
}
