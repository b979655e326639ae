/** Bytes and the little-endian words the target reads them as. */
module Bytes {
  newtype Byte = n: int | 0 <= n < 0x100 witness 0

  const LIMIT_16: nat := 0x1_0000
  const LIMIT_32: nat := 0x1_0000_0000

  type Natural32 = n: nat | n < LIMIT_32

  // Addition of 32-bit words that drops the carry.
  function Add32(a: Natural32, b: Natural32): Natural32 {
    if a + b < LIMIT_32 then a + b else a + b - LIMIT_32
  }

  function Low32(x: nat): Natural32 {
    x % LIMIT_32
  }

  function LittleWord16(low: Byte, high: Byte): (w: nat)
    ensures w < LIMIT_16
  {
    low as nat + 0x100 * high as nat
  }

  function Swap16(w: nat): (r: nat)
    requires w < LIMIT_16
    ensures r < LIMIT_16
  {
    w % 0x100 * 0x100 + w / 0x100
  }

  function LittleWord32(b0: Byte, b1: Byte, b2: Byte, b3: Byte): (w: nat)
    ensures w < LIMIT_32
  {
    b0 as nat + 0x100 * b1 as nat + 0x1_0000 * b2 as nat + 0x100_0000 * b3 as nat
  }

  function LittleBytes16(w: nat): (bs: seq<Byte>)
    requires w < LIMIT_16
    ensures |bs| == 2 && LittleWord16(bs[0], bs[1]) == w
  {
    [(w % 0x100) as Byte, (w / 0x100) as Byte]
  }

  function LittleBytes32(w: nat): (bs: seq<Byte>)
    requires w < LIMIT_32
    ensures |bs| == 4 && LittleWord32(bs[0], bs[1], bs[2], bs[3]) == w
  {
    var w1 := w / 0x100;
    var w2 := w1 / 0x100;
    [(w % 0x100) as Byte, (w1 % 0x100) as Byte, (w2 % 0x100) as Byte, (w2 / 0x100) as Byte]
  }

  lemma AddModulo(a: nat, b: nat)
    ensures (a % LIMIT_32 + b) % LIMIT_32 == (a + b) % LIMIT_32
  {
  }
}
