/** The arithmetic unit: `alu_exec` on two's complement numbers. */
module Alu {
  import Words

  const TWO_31: int := 0x8000_0000
  const TWO_32: int := 0x1_0000_0000
  const TWO_63: int := 0x8000_0000_0000_0000
  const TWO_64: int := Words.TWO_64
  const TWO_128: int := TWO_64 * TWO_64

  /** A register value, as the signed number the source computes with. */
  type I64 = x: int | -0x8000_0000_0000_0000 <= x < 0x8000_0000_0000_0000

  const LONG_MIN: I64 := -0x8000_0000_0000_0000

  datatype Op =
    | Add | Sub | Sll | Slt | Sltu | Xor | Srl | Sra | Or | And
    | Mul | Mulh | Mulhu | Mulhsu | Div | Divu | Rem | Remu

  // ----- Conversions

  /** The value modulo 2^64 as a signed 64-bit number. */
  function Wrap(x: int): I64 {
    (x + TWO_63) % TWO_64 - TWO_63
  }

  /** A cast to `uint64_t`. */
  function U64(x: int): (u: nat)
    ensures u < TWO_64
  {
    x % TWO_64
  }

  /** A cast to `int32_t`. */
  function I32(x: int): (r: I64)
    ensures -TWO_31 <= r < TWO_31
  {
    (x + TWO_31) % TWO_32 - TWO_31
  }

  /** A cast to `uint32_t`. */
  function U32(x: int): (u: nat)
    ensures u < TWO_32
  {
    x % TWO_32
  }

  function Pow2(n: nat): (p: nat)
    ensures p >= 1
  {
    if n == 0 then 1 else 2 * Pow2(n - 1)
  }

  /** Division of C: the quotient is truncated toward zero. */
  function TruncDiv(a: int, b: int): int
    requires b != 0
  {
    if a >= 0 then (if b > 0 then a / b else -(a / -b))
    else (if b > 0 then -(-a / b) else -a / -b)
  }

  /** Remainder of C: a minus b times the truncated quotient. */
  function TruncRem(a: int, b: int): int
    requires b != 0
  {
    a - b * TruncDiv(a, b)
  }

  function Bits(x: I64): bv64 {
    U64(x) as bv64
  }

  function FromBits(w: bv64): I64 {
    Wrap(w as int)
  }

  /** The shift amount: the low five or six bits of b. */
  function ShiftBy(b: I64, op32: bool): nat {
    if op32 then b % 32 else b % 64
  }

  // ----- The operation switch

  function Quotient(a: I64, b: I64): I64 {
    if b == 0 then -1
    else if a == LONG_MIN && b == -1 then LONG_MIN
    else Wrap(TruncDiv(a, b))
  }

  function Remainder(a: I64, b: I64): I64 {
    if b == 0 then a
    else if a == LONG_MIN && b == -1 then 0
    else Wrap(TruncRem(a, b))
  }

  /** Unsigned division; in 32 bits the operands are cast to 32 bits again. */
  function UQuotient(a: I64, b: I64, op32: bool): I64
    requires op32 ==> -TWO_31 <= b < TWO_31
  {
    if b == 0 then -1
    else if op32 then Wrap(U32(a) / U32(b))
    else Wrap(U64(a) / U64(b))
  }

  function URemainder(a: I64, b: I64, op32: bool): I64
    requires op32 ==> -TWO_31 <= b < TWO_31
  {
    if b == 0 then a
    else if op32 then Wrap(U32(a) % U32(b))
    else Wrap(U64(a) % U64(b))
  }

  /** MULH shifts a 128-bit product right, arithmetically. */
  function HighSigned(a: I64, b: I64): I64 {
    Wrap(a * b / TWO_64)
  }

  function HighUnsigned(a: I64, b: I64): I64 {
    Wrap(U64(a) * U64(b) / TWO_64)
  }

  /** MULHSU multiplies in 128 bits unsigned. */
  function HighMixed(a: I64, b: I64): I64 {
    Wrap((a % TWO_128) * U64(b) % TWO_128 / TWO_64)
  }

  /** The result before the final cast, on operands already cast. */
  function Compute(a: I64, b: I64, op: Op, op32: bool): I64
    requires op32 ==> -TWO_31 <= b < TWO_31
  {
    match op
    case Add => Wrap(a + b)
    case Sub => Wrap(a - b)
    case Sll => Wrap(a * Pow2(ShiftBy(b, op32)))
    case Slt => if a < b then 1 else 0
    case Sltu => if U64(a) < U64(b) then 1 else 0
    case Xor => FromBits(Bits(a) ^ Bits(b))
    case Srl => Wrap((if op32 then U32(a) else U64(a)) / Pow2(ShiftBy(b, op32)))
    case Sra => Wrap(a / Pow2(ShiftBy(b, op32)))
    case Or => FromBits(Bits(a) | Bits(b))
    case And => FromBits(Bits(a) & Bits(b))
    case Mul => Wrap(a * b)
    case Mulh => HighSigned(a, b)
    case Mulhu => HighUnsigned(a, b)
    case Mulhsu => HighMixed(a, b)
    case Div => Quotient(a, b)
    case Divu => UQuotient(a, b, op32)
    case Rem => Remainder(a, b)
    case Remu => URemainder(a, b, op32)
  }

  /** `alu_exec`: with op32 both operands and the result are cut to 32 bits. */
  function AluExec(a: I64, b: I64, op: Op, op32: bool): I64 {
    if op32 then I32(Compute(I32(a), I32(b), op, true)) else Compute(a, b, op, false)
  }

  // ----- Modular arithmetic

  lemma WrapCongruent(x: int)
    ensures U64(Wrap(x)) == x % TWO_64
    ensures -TWO_63 <= x < TWO_63 ==> Wrap(x) == x
  {
  }

  lemma ShiftedFactor(x: int, y: int, k: int, m: int)
    requires m > 0
    ensures (x + k * m) * y % m == x * y % m
  {
    assert (x + k * m) * y == x * y + k * y * m;
    MultipleVanishes(x * y, k * y, m);
  }

  lemma MultipleVanishes(x: int, k: int, m: int)
    requires m > 0
    ensures (x + k * m) % m == x % m
  {
    var q, r := x / m, x % m;
    assert x + k * m == (q + k) * m + r;
    QuotientIs(x + k * m, m, q + k, r);
  }

  lemma MulMonotone(x: int, y: int, z: int)
    requires x <= y && z >= 0
    ensures x * z <= y * z
  {
    assert (y - x) * z >= 0;
  }

  /** Only zero times m is smaller than m. */
  lemma SmallMultiple(k: int, m: int)
    requires m > 0 && -m < k * m < m
    ensures k == 0
  {
    if k >= 1 {
      MulMonotone(1, k, m);
      assert false;
    }
    if k <= -1 {
      MulMonotone(k, -1, m);
      assert false;
    }
  }

  /** Quotient and remainder are the only ones in range. */
  lemma QuotientIs(x: int, m: int, q: int, r: int)
    requires m > 0 && 0 <= r < m && x == q * m + r
    ensures x / m == q && x % m == r
  {
    var q', r' := x / m, x % m;
    assert x == q' * m + r';
    assert (q - q') * m == r' - r;
    SmallMultiple(q - q', m);
  }

  lemma ProductBound(x: int, y: int, lo: int, hi: int)
    requires -lo <= x <= lo && -hi <= y <= hi
    ensures -(lo * hi) <= x * y <= lo * hi
  {
    if x >= 0 {
      MulMonotone(y, hi, x);
      MulMonotone(-hi, y, x);
      MulMonotone(x, lo, hi);
    } else {
      MulMonotone(y, hi, -x);
      MulMonotone(-hi, y, -x);
      MulMonotone(-x, lo, hi);
    }
  }

  // ----- Multiplication

  /** MULH and MUL are the halves of the exact signed product. */
  lemma SignedProduct(a: I64, b: I64)
    ensures a * b == AluExec(a, b, Mulh, false) * TWO_64 + U64(AluExec(a, b, Mul, false))
  {
    ProductBound(a, b, TWO_63, TWO_63);
    WrapCongruent(a * b);
    WrapCongruent(a * b / TWO_64);
  }

  /** MULHU and MUL are the halves of the exact unsigned product. */
  lemma UnsignedProduct(a: I64, b: I64)
    ensures U64(a) * U64(b) == U64(AluExec(a, b, Mulhu, false)) * TWO_64 + U64(AluExec(a, b, Mul, false))
  {
    ProductBound(U64(a), U64(b), TWO_64 - 1, TWO_64 - 1);
    MulMonotone(0, U64(a), U64(b));
    UnsignedHalves(U64(a) * U64(b));
    LowHalf(a, b);
    WrapCongruent(a * b);
  }

  lemma UnsignedHalves(p: int)
    requires 0 <= p < TWO_128
    ensures p == U64(Wrap(p / TWO_64)) * TWO_64 + p % TWO_64
  {
    WrapCongruent(p / TWO_64);
    assert 0 <= p / TWO_64 < TWO_64;
  }

  /** The low half does not depend on how the operands are read. */
  lemma LowHalf(a: I64, b: I64)
    ensures U64(a) * U64(b) % TWO_64 == a * b % TWO_64
    ensures a * U64(b) % TWO_64 == a * b % TWO_64
  {
    var ka, kb := if a < 0 then 1 else 0, if b < 0 then 1 else 0;
    var x, y := a + ka * TWO_64, b + kb * TWO_64;
    assert U64(a) == x && U64(b) == y;
    ShiftedFactor(b, a, kb, TWO_64);
    ShiftedFactor(a, y, ka, TWO_64);
  }

  /** MULHSU and MUL are the halves of the exact signed by unsigned product,
      though the source multiplies modulo 2^128. */
  lemma MixedProduct(a: I64, b: I64)
    ensures a * U64(b) == AluExec(a, b, Mulhsu, false) * TWO_64 + U64(AluExec(a, b, Mul, false))
  {
    LowHalf(a, b);
    HighMixedIsHigh(a, b);
    WrapCongruent(a * b);
    HalvesMake(a * U64(b));
  }

  lemma HalvesMake(p: int)
    ensures p == p / TWO_64 * TWO_64 + p % TWO_64
  {
  }

  lemma HighMixedIsHigh(a: I64, b: I64)
    ensures HighMixed(a, b) == a * U64(b) / TWO_64
  {
    MixedBound(a, U64(b));
    var k := (a % TWO_128 - a) / TWO_128;
    assert a % TWO_128 == a + k * TWO_128;
    ShiftedFactor(a, U64(b), k, TWO_128);
    HighHalf(a * U64(b));
  }

  /** The high half of p survives arithmetic modulo 2^128. */
  lemma HighHalf(p: int)
    requires -TWO_63 * TWO_64 <= p < TWO_63 * TWO_64
    ensures Wrap(p % TWO_128 / TWO_64) == p / TWO_64
  {
    var m := p % TWO_128;
    if p >= 0 {
      assert m == p;
    } else {
      assert m == p + TWO_128;
      assert m / TWO_64 == p / TWO_64 + TWO_64;
    }
    assert -TWO_63 <= p / TWO_64 < TWO_63;
  }

  lemma MixedBound(x: int, u: int)
    requires -TWO_63 <= x < TWO_63 && 0 <= u < TWO_64
    ensures -TWO_63 * TWO_64 <= x * u < TWO_63 * TWO_64
  {
    MulMonotone(-TWO_63, x, u);
    MulMonotone(x, TWO_63 - 1, u);
  }

  // ----- Division

  /** What truncated division is: the remainder is small and has the sign of the
      dividend. */
  lemma Truncation(a: int, b: int)
    requires b != 0
    ensures a == TruncDiv(a, b) * b + TruncRem(a, b)
    ensures -Abs(b) < TruncRem(a, b) < Abs(b)
    ensures a >= 0 ==> TruncRem(a, b) >= 0
    ensures a <= 0 ==> TruncRem(a, b) <= 0
    ensures -Abs(a) <= TruncRem(a, b) <= Abs(a)
  {
    var n, d := Abs(a), Abs(b);
    assert n == d * (n / d) + n % d;
    RemainderFits(n, d);
  }

  function Abs(x: int): int {
    if x >= 0 then x else -x
  }

  lemma SmallerQuotient(n: int, d: int)
    requires n >= 0 && d > 0
    ensures 0 <= n / d <= n
    ensures d >= 2 ==> 2 * (n / d) <= n
  {
    assert n == d * (n / d) + n % d;
    MulMonotone(1, d, n / d);
    if d >= 2 {
      MulMonotone(2, d, n / d);
    }
  }

  /** A quotient is no larger than its dividend, and smaller unless the divisor
      is a unit. */
  lemma QuotientBound(a: int, b: int)
    requires b != 0
    ensures -Abs(a) <= TruncDiv(a, b) <= Abs(a)
    ensures a < 0 && TruncDiv(a, b) == Abs(a) ==> b == -1
  {
    SmallerQuotient(Abs(a), Abs(b));
  }

  predicate Overflows(a: int, b: int, min: int) {
    a == min && b == -1
  }

  /** The contract of signed division on `bits` bits: quotient times divisor plus
      remainder is the dividend, modulo 2^bits always and exactly otherwise. */
  predicate SignedDivision(a: int, b: int, q: int, r: int, min: int)
    requires min < 0
  {
    (q * b + r - a) % (-2 * min) == 0 &&
    (b == 0 ==> q == -1 && r == a) &&
    (Overflows(a, b, min) ==> q == min && r == 0) &&
    (b != 0 && !Overflows(a, b, min) ==>
       q * b + r == a && -Abs(b) < r < Abs(b) && (a >= 0 ==> r >= 0) && (a <= 0 ==> r <= 0))
  }

  lemma DivRem(a: I64, b: I64)
    ensures SignedDivision(a, b, AluExec(a, b, Div, false), AluExec(a, b, Rem, false), LONG_MIN)
  {
    QuotientDivides(a, b);
  }

  lemma QuotientDivides(a: I64, b: I64)
    ensures SignedDivision(a, b, Quotient(a, b), Remainder(a, b), LONG_MIN)
  {
    if b != 0 && !Overflows(a, b, LONG_MIN) {
      Truncation(a, b);
      QuotientBound(a, b);
      WrapCongruent(TruncDiv(a, b));
      WrapCongruent(TruncRem(a, b));
    }
  }

  /** The word forms divide the low 32 bits. */
  lemma DivRemWord(a: I64, b: I64)
    ensures SignedDivision(I32(a), I32(b), AluExec(a, b, Div, true), AluExec(a, b, Rem, true), -TWO_31)
  {
    QuotientDividesWord(I32(a), I32(b));
  }

  lemma QuotientDividesWord(x: I64, y: I64)
    requires -TWO_31 <= x < TWO_31 && -TWO_31 <= y < TWO_31
    ensures SignedDivision(x, y, I32(Quotient(x, y)), I32(Remainder(x, y)), -TWO_31)
  {
    if y == 0 {
      assert Quotient(x, y) == -1 && Remainder(x, y) == x;
    } else if Overflows(x, y, -TWO_31) {
      assert TruncDiv(x, y) == TWO_31;
    } else {
      WordQuotient(x, y);
      ExactWordDivision(x, y, I32(Quotient(x, y)), I32(Remainder(x, y)));
    }
  }

  /** Outside the special cases the casts keep quotient and remainder. */
  lemma WordQuotient(x: I64, y: I64)
    requires -TWO_31 <= x < TWO_31 && -TWO_31 <= y < TWO_31 && y != 0 && !Overflows(x, y, -TWO_31)
    ensures I32(Quotient(x, y)) == TruncDiv(x, y) && I32(Remainder(x, y)) == TruncRem(x, y)
  {
    hide TruncDiv, TruncRem, I32, Wrap;
    Truncation(x, y);
    QuotientBound(x, y);
    WordResult(x, TruncDiv(x, y));
    WordResult(x, TruncRem(x, y));
  }

  lemma ExactWordDivision(x: int, y: int, q: int, r: int)
    requires y != 0 && !Overflows(x, y, -TWO_31) && q == TruncDiv(x, y) && r == TruncRem(x, y)
    ensures SignedDivision(x, y, q, r, -TWO_31)
  {
    hide TruncDiv, TruncRem;
    Truncation(x, y);
    assert q * y + r - x == 0;
  }

  /** A result no larger than a 32-bit dividend survives the casts. */
  lemma WordResult(x: int, q: int)
    requires -TWO_31 <= x < TWO_31 && -Abs(x) <= q <= Abs(x) && q != TWO_31
    ensures I32(Wrap(q)) == q
  {
    WrapCongruent(q);
  }

  /** The contract of unsigned division, on the casts of operands and results. */
  predicate UnsignedDivision(a: nat, b: nat, q: nat, r: nat, max: nat) {
    if b == 0 then q == max && r == a else q * b + r == a && r < b
  }

  lemma DivuRemu(a: I64, b: I64)
    ensures
      UnsignedDivision(U64(a), U64(b), U64(AluExec(a, b, Divu, false)), U64(AluExec(a, b, Remu, false)), TWO_64 - 1)
  {
    UQuotientDivides(a, b);
  }

  lemma UQuotientDivides(a: I64, b: I64)
    ensures UnsignedDivision(U64(a), U64(b), U64(UQuotient(a, b, false)), U64(URemainder(a, b, false)), TWO_64 - 1)
  {
    if b != 0 {
      DivisionFits(U64(a), U64(b));
    }
  }

  /** Quotient and remainder of unsigned numbers survive the casts. */
  lemma DivisionFits(n: int, d: int)
    requires 0 <= n < TWO_64 && d > 0
    ensures n == U64(Wrap(n / d)) * d + U64(Wrap(n % d)) && U64(Wrap(n % d)) < d
    ensures U64(Wrap(n / d)) == n / d && U64(Wrap(n % d)) == n % d
  {
    assert n == n / d * d + n % d;
    SmallerQuotient(n, d);
    RemainderFits(n, d);
    WrapCongruent(n / d);
    WrapCongruent(n % d);
  }

  lemma RemainderFits(n: int, d: int)
    requires n >= 0 && d > 0
    ensures 0 <= n % d <= n
  {
    assert n == n / d * d + n % d;
    SmallerQuotient(n, d);
    MulMonotone(0, n / d, d);
  }

  lemma DivuRemuWord(a: I64, b: I64)
    ensures UnsignedDivision(U32(a), U32(b), U32(AluExec(a, b, Divu, true)), U32(AluExec(a, b, Remu, true)), TWO_32 - 1)
  {
    CastKeepsLow(a);
    CastKeepsLow(b);
    UQuotientDividesWord(I32(a), I32(b));
  }

  lemma UQuotientDividesWord(x: I64, y: I64)
    requires -TWO_31 <= x < TWO_31 && -TWO_31 <= y < TWO_31
    ensures
      UnsignedDivision(U32(x), U32(y), U32(I32(UQuotient(x, y, true))), U32(I32(URemainder(x, y, true))), TWO_32 - 1)
  {
    if y != 0 {
      DivisionFits(U32(x), U32(y));
      CastKeepsLow(Wrap(U32(x) / U32(y)));
      CastKeepsLow(Wrap(U32(x) % U32(y)));
      SmallerQuotient(U32(x), U32(y));
      RemainderFits(U32(x), U32(y));
    }
  }

  lemma CastKeepsLow(x: I64)
    ensures U32(I32(x)) == U32(x)
    ensures U64(x) < TWO_32 ==> U32(x) == U64(x)
  {
  }

  // ----- Word forms

  /** A word form sees the low 32 bits of its operands only, and its result is a
      sign-extended 32-bit value. */
  lemma WordFormSeesLowHalf(a: I64, b: I64, a': I64, b': I64, op: Op)
    requires U32(a) == U32(a') && U32(b) == U32(b')
    ensures AluExec(a, b, op, true) == AluExec(a', b', op, true) == I32(AluExec(a, b, op, true))
  {
    CastSeesLow(a, a');
    CastSeesLow(b, b');
    CastTwice(Compute(I32(a), I32(b), op, true));
  }

  lemma CastSeesLow(x: int, y: int)
    requires U32(x) == U32(y)
    ensures I32(x) == I32(y)
  {
    MultipleVanishes(y + TWO_31, x / TWO_32 - y / TWO_32, TWO_32);
  }

  lemma CastTwice(x: int)
    ensures I32(I32(x)) == I32(x)
  {
  }

  /** ADDW, SUBW and MULW are the low 32 bits of the 64-bit operations. */
  lemma AddWordTruncates(a: I64, b: I64)
    ensures AluExec(a, b, Add, true) == I32(AluExec(a, b, Add, false))
  {
    LowSum(a, b);
    CastOfCongruent(a + b, I32(a) + I32(b));
  }

  lemma SubWordTruncates(a: I64, b: I64)
    ensures AluExec(a, b, Sub, true) == I32(AluExec(a, b, Sub, false))
  {
    LowDifference(a, b);
    CastOfCongruent(a - b, I32(a) - I32(b));
  }

  lemma MulWordTruncates(a: I64, b: I64)
    ensures AluExec(a, b, Mul, true) == I32(AluExec(a, b, Mul, false))
  {
    LowProduct(a, b);
    CastOfCongruent(a * b, I32(a) * I32(b));
  }

  lemma LowSum(a: int, b: int)
    ensures (a + b) % TWO_32 == (I32(a) + I32(b)) % TWO_32
  {
    CastDiffers(a);
    CastDiffers(b);
    MultipleVanishes(I32(a) + I32(b), (a + TWO_31) / TWO_32 + (b + TWO_31) / TWO_32, TWO_32);
  }

  lemma LowDifference(a: int, b: int)
    ensures (a - b) % TWO_32 == (I32(a) - I32(b)) % TWO_32
  {
    CastDiffers(a);
    CastDiffers(b);
    MultipleVanishes(I32(a) - I32(b), (a + TWO_31) / TWO_32 - (b + TWO_31) / TWO_32, TWO_32);
  }

  lemma LowProduct(a: int, b: int)
    ensures a * b % TWO_32 == I32(a) * I32(b) % TWO_32
  {
    var x, y := I32(a) as int, I32(b) as int;
    var ka, kb := (a + TWO_31) / TWO_32, (b + TWO_31) / TWO_32;
    CastDiffers(a);
    CastDiffers(b);
    ShiftedFactor(x, b, ka, TWO_32);
    ShiftedFactor(y, x, kb, TWO_32);
  }

  lemma CastDiffers(a: int)
    ensures a == I32(a) + (a + TWO_31) / TWO_32 * TWO_32
  {
  }

  lemma CastOfCongruent(x: int, y: int)
    requires x % TWO_32 == y % TWO_32
    ensures I32(Wrap(x)) == I32(Wrap(y))
  {
    WrapKeepsLow(x);
    WrapKeepsLow(y);
    var k := x / TWO_32 - y / TWO_32;
    assert x == y + k * TWO_32;
    MultipleVanishes(y + TWO_31, k, TWO_32);
  }

  lemma WrapKeepsLow(x: int)
    ensures I32(Wrap(x)) == I32(x)
  {
    var k := (x + TWO_63) / TWO_64;
    assert x + TWO_31 == Wrap(x) + TWO_31 + k * TWO_32 * TWO_32;
    MultipleVanishes(Wrap(x) + TWO_31, k * TWO_32, TWO_32);
  }
}
