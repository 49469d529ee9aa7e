/** What sums, comparisons, logical operations and shifts of the arithmetic unit
    compute, as integer arithmetic on the signed and unsigned register values. */
module AluLaws {
  import opened Alu
  import opened BitLaws
  import Privilege

  // ----- Sums and comparisons

  lemma UnsignedOf(x: I64)
    ensures U64(x) == if x >= 0 then x else x + TWO_64
  {
  }

  lemma SumIsModular(a: I64, b: I64)
    ensures U64(AluExec(a, b, Add, false)) == (U64(a) + U64(b)) % TWO_64
  {
    WrapCongruent(a + b);
    UnsignedOf(a);
    UnsignedOf(b);
    MultipleVanishes(a + b, (if a < 0 then 1 else 0) + (if b < 0 then 1 else 0), TWO_64);
  }

  /** Subtraction undoes addition, and addition subtraction. */
  lemma SubUndoesAdd(a: I64, b: I64)
    ensures AluExec(AluExec(a, b, Sub, false), b, Add, false) == a
    ensures AluExec(AluExec(a, b, Add, false), b, Sub, false) == a
  {
    AddUndoesSub(a, b);
    SubUndoes(a, b);
  }

  lemma AddUndoesSub(a: I64, b: I64)
    ensures AluExec(AluExec(a, b, Sub, false), b, Add, false) == a
  {
  }

  lemma SubUndoes(a: I64, b: I64)
    ensures AluExec(AluExec(a, b, Add, false), b, Sub, false) == a
  {
  }

  lemma ComparisonsOrder(a: I64, b: I64)
    ensures AluExec(a, b, Slt, false) == if a < b then 1 else 0
    ensures AluExec(a, b, Sltu, false) == if U64(a) < U64(b) then 1 else 0
  {
  }

  // ----- Logical operations

  function WordOf(x: I64): Privilege.Word {
    Privilege.W(Bits(x))
  }

  lemma BitsNumber(x: I64)
    ensures Number64(WordOf(x)) == U64(x)
  {
    CastBack(U64(x));
  }

  lemma BackInt(n: int)
    requires 0 <= n < TWO_64
    ensures U64(Wrap(n)) == n
  {
    WrapCongruent(n);
  }

  lemma BackNumber(w: Privilege.Word)
    ensures U64(FromBits(w.bits)) == Number64(w)
  {
    hide U64, Wrap;
    BackInt(Number64(w));
  }

  lemma AndWords(a: I64, b: I64, x: Privilege.Word, y: Privilege.Word)
    requires x == WordOf(a) && y == WordOf(b)
    ensures AluExec(a, b, And, false) == FromBits(Both(x, y).bits)
  {
    hide FromBits, Bits;
  }

  lemma OrWords(a: I64, b: I64, x: Privilege.Word, y: Privilege.Word)
    requires x == WordOf(a) && y == WordOf(b)
    ensures AluExec(a, b, Or, false) == FromBits(Either(x, y).bits)
  {
    hide FromBits, Bits;
  }

  lemma XorWords(a: I64, b: I64, x: Privilege.Word, y: Privilege.Word)
    requires x == WordOf(a) && y == WordOf(b)
    ensures AluExec(a, b, Xor, false) == FromBits(Differ(x, y).bits)
  {
    hide FromBits, Bits;
  }

  /** AND, OR and XOR bit by bit. */
  lemma LogicIsBitwise(a: I64, b: I64, k: nat)
    ensures BitAt(U64(AluExec(a, b, And, false)), k) <==> BitAt(U64(a), k) && BitAt(U64(b), k)
    ensures BitAt(U64(AluExec(a, b, Or, false)), k) <==> BitAt(U64(a), k) || BitAt(U64(b), k)
    ensures BitAt(U64(AluExec(a, b, Xor, false)), k) <==> BitAt(U64(a), k) != BitAt(U64(b), k)
  {
    hide AluExec, U64, FromBits, WordOf, Both, Either, Differ, BitAt, Number64;
    var x, y := WordOf(a), WordOf(b);
    AndWords(a, b, x, y);
    OrWords(a, b, x, y);
    XorWords(a, b, x, y);
    BackNumber(Both(x, y));
    BackNumber(Either(x, y));
    BackNumber(Differ(x, y));
    BitsNumber(a);
    BitsNumber(b);
    LogicBits(x, y, k);
  }

  // ----- Shifts

  /** The low six bits of the shift operand, or five for the word forms. */
  function Amount(b: I64, op32: bool): nat {
    if op32 then U32(b) % 32 else U64(b) % 64
  }

  lemma AmountIs(b: I64)
    ensures ShiftBy(b, false) == Amount(b, false)
    ensures ShiftBy(I32(b), true) == Amount(b, true)
  {
    MultipleVanishes(b, -(b / TWO_64) * 0x400_0000_0000_0000, 64);
    CastDiffers(b);
    MultipleVanishes(I32(b), (b + TWO_31) / TWO_32 * 0x800_0000, 32);
    MultipleVanishes(b, -(b / TWO_32) * 0x800_0000, 32);
  }

  lemma LeftShift(a: I64, b: I64)
    ensures U64(AluExec(a, b, Sll, false)) == U64(a) * Pow2(Amount(b, false)) % TWO_64
  {
    AmountIs(b);
    var p := Pow2(Amount(b, false));
    WrapCongruent(a * p);
    UnsignedOf(a);
    ShiftedFactor(a, p, if a < 0 then 1 else 0, TWO_64);
  }

  lemma FloorBounds(n: int, p: nat)
    requires p > 0
    ensures n / p * p <= n < (n / p + 1) * p
  {
    assert n == n / p * p + n % p;
  }

  lemma QuotientFits(n: nat, p: nat)
    requires p > 0
    ensures 0 <= n / p <= n
  {
    SmallerQuotient(n, p);
  }

  lemma RightShift(a: I64, b: I64)
    ensures
      var q, p := U64(AluExec(a, b, Srl, false)), Pow2(Amount(b, false));
      q * p <= U64(a) < (q + 1) * p
  {
    hide Pow2, U64, Wrap;
    AmountIs(b);
    var p := Pow2(Amount(b, false));
    FloorBounds(U64(a), p);
    QuotientFits(U64(a), p);
    BackInt(U64(a) / p);
  }

  /** A floored quotient lies between its dividend and 0, or -1. */
  lemma SignedQuotientFits(n: int, p: nat)
    requires p > 0
    ensures if n >= 0 then 0 <= n / p <= n else n <= n / p < 0
  {
    FloorBounds(n, p);
    if n >= 0 {
      QuotientFits(n, p);
    } else {
      NegativeQuotient(n, p, n / p);
    }
  }

  lemma NegativeQuotient(n: int, p: nat, q: int)
    requires p > 0 && n < 0 && q * p <= n < (q + 1) * p
    ensures n <= q < 0
  {
    if q >= 0 {
      MulMonotone(0, q, p);
      assert false;
    }
    MulMonotone(1, p, -(q + 1));
  }

  lemma ArithmeticShift(a: I64, b: I64)
    ensures
      var q, p := AluExec(a, b, Sra, false), Pow2(Amount(b, false));
      q * p <= a < (q + 1) * p
  {
    hide Pow2;
    AmountIs(b);
    var p := Pow2(Amount(b, false));
    FloorBounds(a, p);
    SignedQuotientFits(a, p);
    WrapCongruent(a / p);
  }

  // ----- Word shifts

  lemma LeftShiftWord(a: I64, b: I64)
    ensures U32(AluExec(a, b, Sll, true)) == U32(a) * Pow2(Amount(b, true)) % TWO_32
  {
    AmountIs(b);
    var p := Pow2(Amount(b, true));
    WrapKeepsLow(I32(a) * p);
    CastKeepsLow(I32(I32(a) * p));
    CastDiffers(I32(a) * p);
    MultipleVanishes(I32(I32(a) * p), (I32(a) * p + TWO_31) / TWO_32, TWO_32);
    CastDiffers(a);
    WordFactor(a, p);
  }

  lemma WordFactor(a: I64, p: int)
    ensures I32(a) * p % TWO_32 == U32(a) * p % TWO_32
  {
    CastKeepsLow(a);
    var x := I32(a) as int;
    assert U32(a) == x + (if x < 0 then 1 else 0) * TWO_32;
    ShiftedFactor(x, p, if x < 0 then 1 else 0, TWO_32);
  }

  lemma RightShiftWord(a: I64, b: I64)
    ensures
      var q, p := U32(AluExec(a, b, Srl, true)), Pow2(Amount(b, true));
      q * p <= U32(a) < (q + 1) * p
  {
    hide Pow2, U32, Wrap, I32, Amount, ShiftBy;
    AmountIs(b);
    var p := Pow2(Amount(b, true));
    CastKeepsLow(a);
    UnsignedWord(a);
    FloorBounds(U32(a), p);
    QuotientFits(U32(a), p);
    WordFits(U32(a) / p);
  }

  lemma UnsignedWord(a: I64)
    ensures 0 <= U32(a) < TWO_32
  {
  }

  lemma WordFits(q: int)
    requires 0 <= q < TWO_32
    ensures U32(I32(Wrap(q))) == q
  {
    WrapCongruent(q);
    CastKeepsLow(q);
  }

  lemma ArithmeticShiftWord(a: I64, b: I64)
    ensures
      var q, p := AluExec(a, b, Sra, true), Pow2(Amount(b, true));
      q * p <= I32(a) < (q + 1) * p
  {
    hide Pow2, Wrap;
    AmountIs(b);
    var p := Pow2(Amount(b, true));
    FloorBounds(I32(a), p);
    SignedQuotientFits(I32(a), p);
    WordBack(I32(a) / p);
  }

  lemma WordBack(q: int)
    requires -TWO_31 <= q < TWO_31
    ensures I32(Wrap(q)) == q
  {
    WrapCongruent(q);
  }
}
