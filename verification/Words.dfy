/**
  The machine integers of the original and their wrapping arithmetic. A word is an
  `int` in range; every wrapping operation is written out as a remainder.
 */
module Words {
  const TWO_32: int := 0x1_0000_0000

  type u8 = x: int | 0 <= x < 0x100
  type u16 = x: int | 0 <= x < 0x1_0000
  type u32 = x: int | 0 <= x < 0x1_0000_0000
  type u64 = x: int | 0 <= x < 0x1_0000_0000_0000_0000

  function Wrap32(x: int): u32 { x % TWO_32 }

  function WrappingAdd(a: u32, b: u32): u32 { Wrap32(a + b) }

  function WrappingSub(a: u32, b: u32): u32 { Wrap32(a - b) }

  function WrappingMul(a: u32, b: u32): u32 { Wrap32(a * b) }

  function SaturatingSub(a: int, b: int): nat { if a < b then 0 else a - b }

  lemma WrapDropsMultiples(x: int, k: int)
    ensures Wrap32(x + TWO_32 * k) == Wrap32(x)
  {
  }

  lemma WrapAdd(a: int, b: int)
    ensures Wrap32(Wrap32(a) + b) == Wrap32(a + b)
  {
  }

  lemma WrapMul(a: int, b: int)
    ensures Wrap32(Wrap32(a) * b) == Wrap32(a * b)
  {
    var k := a / TWO_32;
    assert Wrap32(a) == a - TWO_32 * k;
    assert a * b == (a - TWO_32 * k) * b + TWO_32 * (k * b);
    WrapDropsMultiples((a - TWO_32 * k) * b, k * b);
  }

  lemma WrapSub(a: int, b: int)
    ensures Wrap32(Wrap32(a) - Wrap32(b)) == Wrap32(a - b)
  {
  }

  lemma WrapAddBoth(a: int, b: int)
    ensures Wrap32(Wrap32(a) + Wrap32(b)) == Wrap32(a + b)
  {
    WrapAdd(a, Wrap32(b));
    WrapAdd(b, a);
  }
}
