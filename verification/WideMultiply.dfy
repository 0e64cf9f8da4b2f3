/** 64 x 64 to 128 bit multiplication from four 32-bit half products, and its signed form. */
module WideMultiply {
  import opened MachineWords

  /** The high and low words from the products of the halves; every step wraps at 64 bits. */
  function CarryChain(ll: nat, hl: nat, lh: nat, hh: nat): (nat, nat) {
    var mull := U64(ll);
    var t := U64(hl + mull / TWO_32);
    var tl := U64(lh + U32(t));
    (U64(hh + t / TWO_32 + tl / TWO_32), U64(tl * TWO_32) + U32(mull))
  }

  /** The unsigned product's high and low words. */
  function BigMul(a: uint64, b: uint64): (nat, nat) {
    var al, ah: int := U32(a), U32(a / TWO_32);
    var bl, bh: int := U32(b), U32(b / TWO_32);
    NonNegativeProduct(al, bl);
    NonNegativeProduct(ah, bl);
    NonNegativeProduct(al, bh);
    NonNegativeProduct(ah, bh);
    CarryChain(al * bl, ah * bl, al * bh, ah * bh)
  }

  /** `fill & x` for an all-ones or all-zeros `fill`. */
  function Masked(fill: int, x: int64): int64 {
    if fill == 0 then 0 else x
  }

  /** The signed product: two corrections turn the unsigned high word into the signed one. */
  function BigMulSigned(a: int64, b: int64): (int64, int64) {
    var (high, ulow) := BigMul(U64(a), U64(b));
    (S64(S64(S64(high) - Masked(SignFill(a), b)) - Masked(SignFill(b), a)), S64(ulow))
  }

  lemma NonNegativeProduct(x: int, y: int)
    requires 0 <= x && 0 <= y
    ensures 0 <= x * y
  {
  }

  lemma ProductAtMost(x: int, y: int, m: int)
    requires -m <= x <= m && -m <= y <= m
    ensures -(m * m) <= x * y <= m * m
  {
    NonNegativeProduct(m - x, m + y);
    NonNegativeProduct(m + x, m - y);
    NonNegativeProduct(m - x, m - y);
    NonNegativeProduct(m + x, m + y);
    assert (m - x) * (m + y) + (m + x) * (m - y) == 2 * (m * m) - 2 * (x * y);
    assert (m - x) * (m - y) + (m + x) * (m + y) == 2 * (m * m) + 2 * (x * y);
  }

  lemma Halves(x: uint64)
    ensures U32(x / TWO_32) == x / TWO_32 && x == TWO_32 * U32(x / TWO_32) + U32(x)
  {
  }

  lemma Expand(ah: int, al: int, bh: int, bl: int)
    ensures (TWO_32 * ah + al) * (TWO_32 * bh + bl)
         == TWO_64 * (ah * bh) + TWO_32 * (ah * bl) + TWO_32 * (al * bh) + al * bl
  {
    assert (TWO_32 * ah + al) * (TWO_32 * bh + bl)
        == TWO_32 * ah * (TWO_32 * bh + bl) + al * (TWO_32 * bh + bl);
    assert TWO_32 * ah * (TWO_32 * bh + bl) == TWO_64 * (ah * bh) + TWO_32 * (ah * bl);
    assert al * (TWO_32 * bh + bl) == TWO_32 * (al * bh) + al * bl;
  }

  const MAX_HALF_PRODUCT := (TWO_32 - 1) * (TWO_32 - 1)

  /** No step of the carry chain wraps, and it loses nothing. */
  lemma CarryChainExact(ll: nat, hl: nat, lh: nat, hh: nat)
    requires ll <= MAX_HALF_PRODUCT && hl <= MAX_HALF_PRODUCT
    requires lh <= MAX_HALF_PRODUCT && hh <= MAX_HALF_PRODUCT
    ensures hl + ll / TWO_32 < TWO_64 && lh + U32(hl + ll / TWO_32) < TWO_64
    ensures var (high, low) := CarryChain(ll, hl, lh, hh);
            && high < TWO_64 && low < TWO_64
            && high * TWO_64 + low == TWO_64 * hh + TWO_32 * hl + TWO_32 * lh + ll
  {
    hide U32, U64;
    var t := hl + ll / TWO_32;
    var tl := lh + U32(t);
    NoStepWraps(ll, hl, lh, hh);
    SplitAt32(ll);
    SplitAt32(t);
    SplitAt32(tl);
    LowWords(tl, ll);
  }

  lemma SplitAt32(x: nat)
    ensures x == TWO_32 * (x / TWO_32) + U32(x)
  {
  }

  lemma NoStepWraps(ll: nat, hl: nat, lh: nat, hh: nat)
    requires ll <= MAX_HALF_PRODUCT && hl <= MAX_HALF_PRODUCT
    requires lh <= MAX_HALF_PRODUCT && hh <= MAX_HALF_PRODUCT
    ensures var t := hl + ll / TWO_32;
            var tl := lh + U32(t);
            && ll < TWO_64 && t < TWO_64 && tl < TWO_64
            && t / TWO_32 < TWO_32 && tl / TWO_32 < TWO_32
            && hh + t / TWO_32 + tl / TWO_32 < TWO_64
  {
  }

  /** `tl << 32 | (uint)mull`. */
  lemma LowWords(tl: nat, mull: nat)
    ensures U64(tl * TWO_32) == TWO_32 * U32(tl)
    ensures TWO_32 * U32(tl) + U32(mull) < TWO_64
  {
    DivModIs(tl * TWO_32, TWO_64, tl / TWO_32, TWO_32 * U32(tl));
  }

  /** The two words are the exact 128-bit product. */
  lemma BigMulExact(a: uint64, b: uint64)
    ensures var (high, low) := BigMul(a, b);
            high < TWO_64 && low < TWO_64 && high * TWO_64 + low == a * b
  {
    hide U32, CarryChain;
    var al, ah: int := U32(a), U32(a / TWO_32);
    var bl, bh: int := U32(b), U32(b / TWO_32);
    Halves(a);
    Halves(b);
    Expand(ah, al, bh, bl);
    NonNegativeProduct(al, bl);
    NonNegativeProduct(ah, bl);
    NonNegativeProduct(al, bh);
    NonNegativeProduct(ah, bh);
    ProductAtMost(al, bl, TWO_32 - 1);
    ProductAtMost(ah, bl, TWO_32 - 1);
    ProductAtMost(al, bh, TWO_32 - 1);
    ProductAtMost(ah, bh, TWO_32 - 1);
    CarryChainExact(al * bl, ah * bl, al * bh, ah * bh);
  }

  /** The high word of a number in two's complement; its low word is `U64`. */
  function HighWord(p: int): int { p / TWO_64 }

  lemma SignOfProduct(a: int, b: int)
    ensures (a < 0) != (b < 0) ==> a * b <= 0
    ensures (a < 0) == (b < 0) ==> a * b >= 0
  {
  }

  lemma SignedHighBounds(a: int64, b: int64)
    ensures -TWO_62 <= HighWord(a * b) <= TWO_62
    ensures (a < 0) != (b < 0) ==> HighWord(a * b) <= 0
    ensures (a < 0) == (b < 0) ==> HighWord(a * b) >= 0
  {
    ProductAtMost(a, b, TWO_63);
    SignOfProduct(a, b);
    var p := a * b;
    assert p == TWO_64 * (p / TWO_64) + p % TWO_64;
  }

  lemma ShiftedProduct(a: int, b: int, x: int, y: int)
    requires (x == 0 || x == TWO_64) && (y == 0 || y == TWO_64)
    ensures (a + x) * (b + y) == a * b
              + TWO_64 * ((if x == 0 then 0 else b) + (if y == 0 then 0 else a)
                          + (if x == 0 || y == 0 then 0 else TWO_64))
  {
    assert (a + x) * (b + y) == a * b + a * y + x * b + x * y;
  }

  lemma UnsignedOf(a: int64)
    ensures U64(a) == a + if a < 0 then TWO_64 else 0
  {
  }

  /** What the unsigned words of two's complement operands hold: the signed high word, raised by
      each operand whose partner is negative. */
  lemma UnsignedWords(a: int64, b: int64)
    ensures var (high, low) := BigMul(U64(a), U64(b));
            && low == U64(a * b)
            && 0 <= high < TWO_64
            && high == HighWord(a * b) + Masked(SignFill(a), b) + Masked(SignFill(b), a)
                       + if a < 0 && b < 0 then TWO_64 else 0
  {
    hide BigMul, U64;
    var (high, low) := BigMul(U64(a), U64(b));
    BigMulExact(U64(a), U64(b));
    UnsignedOf(a);
    UnsignedOf(b);
    ShiftedProduct(a, b, if a < 0 then TWO_64 else 0, if b < 0 then TWO_64 else 0);
    var h := high - Masked(SignFill(a), b) - Masked(SignFill(b), a) - if a < 0 && b < 0 then TWO_64 else 0;
    assert a * b == TWO_64 * h + low;
    LowWord(a * b, h, low);
  }

  lemma LowWord(p: int, high: int, low: int)
    requires p == TWO_64 * high + low && 0 <= low < TWO_64
    ensures HighWord(p) == high && U64(p) == low
  {
    DivModIs(p, TWO_64, high, low);
  }

  /** The signed words are the exact two's complement product: the high word keeps its sign and the
      low word's bits are unsigned. */
  lemma BigMulSignedExact(a: int64, b: int64)
    ensures var (high, low) := BigMulSigned(a, b); high * TWO_64 + U64(low) == a * b
  {
    hide BigMul, HighWord;
    UnsignedWords(a, b);
    SignedHighBounds(a, b);
    HighAndLow(a * b);
    SignedStep(BigMul(U64(a), U64(b)).0, HighWord(a * b), a, b);
  }

  lemma HighAndLow(p: int)
    ensures p == TWO_64 * HighWord(p) + U64(p)
    ensures U64(S64(U64(p))) == U64(p)
  {
  }

  lemma SignedStep(high: int, h: int, a: int64, b: int64)
    requires -TWO_62 <= h <= TWO_62 && 0 <= high < TWO_64
    requires if (a < 0) == (b < 0) then h >= 0 else h <= 0
    requires high == h + Masked(SignFill(a), b) + Masked(SignFill(b), a) + if a < 0 && b < 0 then TWO_64 else 0
    ensures S64(S64(S64(high) - Masked(SignFill(a), b)) - Masked(SignFill(b), a)) == h
    ensures S64(high) - Masked(SignFill(a), b) > INT64_MAX <==> a < 0 && b < 0 && a + b + h < INT64_MIN
    ensures S64(high) - Masked(SignFill(a), b) >= INT64_MIN
  {
  }

  /** The first correction itself can leave the int64 range, upward and only for two negative
      operands: exactness there rests on wrap-around. */
  lemma FirstCorrectionWraps(a: int64, b: int64)
    ensures var first := S64(BigMul(U64(a), U64(b)).0) - Masked(SignFill(a), b);
            && first >= INT64_MIN
            && (first > INT64_MAX <==> a < 0 && b < 0 && a + b + a * b / TWO_64 < INT64_MIN)
  {
    hide BigMul;
    UnsignedWords(a, b);
    SignedHighBounds(a, b);
    SignedStep(BigMul(U64(a), U64(b)).0, HighWord(a * b), a, b);
  }
}
