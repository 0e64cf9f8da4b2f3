/** Fixed-width machine integers, written out over the unbounded ones. */
module MachineWords {

  const TWO_16 := 0x1_0000
  const TWO_32 := 0x1_0000_0000
  const TWO_62 := 0x4000_0000_0000_0000
  const TWO_63 := 0x8000_0000_0000_0000
  const TWO_64 := 0x1_0000_0000_0000_0000

  type uint32 = x: int | 0 <= x < TWO_32
  type uint64 = x: int | 0 <= x < TWO_64
  type int32 = x: int | -0x8000_0000 <= x < 0x8000_0000
  type int64 = x: int | -TWO_63 <= x < TWO_63

  const INT64_MAX: int64 := TWO_63 - 1
  const INT64_MIN: int64 := -TWO_63

  /** The casts and the wrap-around of unsigned arithmetic. */
  function U16(x: int): (u: nat)
    ensures 0 <= x < TWO_16 ==> u == x
  {
    x % TWO_16
  }

  function U32(x: int): (u: uint32)
    ensures 0 <= x < TWO_32 ==> u == x
  {
    x % TWO_32
  }

  function U64(x: int): (u: uint64)
    ensures 0 <= x < TWO_64 ==> u == x
  {
    x % TWO_64
  }

  const TWO_31 := 0x8000_0000

  /** Two's complement: the int32 that shares its low 32 bits with `x`. */
  function S32(x: int): (s: int32)
    ensures -TWO_31 <= x < TWO_31 ==> s == x
  {
    (x + TWO_31) % TWO_32 - TWO_31
  }

  /** A running sum may wrap at every step or once at the end. */
  lemma S32Sum(a: int, b: int)
    ensures S32(S32(a) + b) == S32(a + b)
  {
    var k := (a + TWO_31) / TWO_32;
    assert S32(a) == a - TWO_32 * k;
    ModMultiple(TWO_32, -k, a + b + TWO_31);
  }

  /** Two's complement: the int64 that shares its low 64 bits with `x`. */
  function S64(x: int): (s: int64)
    ensures -TWO_63 <= x < TWO_63 ==> s == x
  {
    (x + TWO_63) % TWO_64 - TWO_63
  }

  /** `x | 3`. */
  function Or3(x: nat): nat { x - x % 4 + 3 }

  /** Division and remainder that round toward zero, as C++ does. */
  function TruncDiv(a: int, b: int): int
    requires b > 0
  {
    if a >= 0 then a / b else -((-a) / b)
  }

  function TruncMod(a: int, b: int): int
    requires b > 0
  {
    if a >= 0 then a % b else -((-a) % b)
  }

  /** `x >> 63` on an int64: all sign bits. */
  function SignFill(x: int64): int { if x < 0 then -1 else 0 }

  lemma ProductBound(d: int, k: int)
    requires 0 < d
    ensures k >= 1 ==> d * k >= d
    ensures k <= -1 ==> d * k <= -d
  {
    if k >= 1 {
      assert d * (k - 1) >= 0;
    } else if k <= -1 {
      assert d * (-1 - k) >= 0;
    }
  }

  /** Quotient and remainder are the only ones with a remainder in range. */
  lemma DivModIs(x: int, d: int, q: int, r: int)
    requires 0 < d && x == d * q + r && 0 <= r < d
    ensures x / d == q && x % d == r
  {
    var k := x / d - q;
    assert d * k == r - x % d;
    ProductBound(d, k);
  }

  lemma ModMultiple(w: int, k: int, r: int)
    requires w > 0
    ensures (w * k + r) % w == r % w
  {
    DivModIs(w * k + r, w, k + r / w, r % w);
  }
}
