/** Machine words as numbers: what the bits, sums and casts of 64-bit words mean in
    integer arithmetic. */
module BitLaws {
  import opened Words
  import opened Privilege
  import Alu

  /** Bit k of a number. */
  predicate BitAt(n: nat, k: nat) {
    n / Alu.Pow2(k) % 2 == 1
  }

  function Number64(w: Word): (n: nat)
    ensures n < TWO_64
  {
    w.bits as nat
  }

  const ONE: bv64 := 1

  // ----- One bit at a time

  function Half(w: Word): Word {
    W(w.bits >> ONE)
  }

  predicate Odd(w: Word) {
    w.bits & 1 == 1
  }

  lemma JoinBit(high: bv63, low: bv1)
    ensures (((high as bv64) << 1) | (low as bv64)) as int == 2 * (high as int) + low as int
  {
  }

  lemma JoinedWord(x: bv64, high: bv63, low: bv1)
    requires x == ((high as bv64) << 1) | (low as bv64)
    ensures x as int == 2 * (high as int) + low as int
  {
    JoinBit(high, low);
  }

  lemma WideNumber(x: bv64, high: bv63)
    requires x == high as bv64
    ensures x as int == high as int
  {
  }

  lemma LowNumber(low: bv1)
    ensures low as int == if low == 1 then 1 else 0
  {
  }

  lemma SplitWord(x: bv64) returns (high: bv63, low: bv1, half: bv64)
    ensures x == ((high as bv64) << 1) | (low as bv64)
    ensures half == high as bv64
  {
    high, low := (x >> ONE) as bv63, (x & 1) as bv1;
    half := high as bv64;
  }

  lemma ShiftedBack(high: bv63, low: bv1)
    ensures (((high as bv64) << 1) | (low as bv64)) >> ONE == high as bv64
  {
  }

  lemma ShiftedWord(x: bv64, high: bv63, low: bv1, half: bv64)
    requires x == ((high as bv64) << 1) | (low as bv64) && half == high as bv64
    ensures x >> ONE == half
  {
    ShiftedBack(high, low);
  }

  lemma HalfIs(w: Word, half: bv64)
    requires w.bits >> ONE == half
    ensures Half(w) == W(half)
  {
  }

  lemma LowerPart(w: Word, high: bv63, low: bv1)
    requires w.bits == ((high as bv64) << 1) | (low as bv64)
    ensures low == 1 <==> Odd(w)
  {
  }

  /** A word is twice its upper bits plus its lowest one. */
  lemma Halves(w: Word)
    ensures Number64(w) == 2 * Number64(Half(w)) + if Odd(w) then 1 else 0
  {
    hide Number64, Half, Odd;
    var high, low, half := SplitWord(w.bits);
    ShiftedWord(w.bits, high, low, half);
    HalfIs(w, half);
    LowerPart(w, high, low);
    HalvesOf(w, half, high, low);
  }

  lemma HalvesOf(w: Word, half: bv64, high: bv63, low: bv1)
    requires w.bits == ((high as bv64) << 1) | (low as bv64) && half == high as bv64
    requires Half(w) == W(half) && (low == 1 <==> Odd(w))
    ensures Number64(w) == 2 * Number64(Half(w)) + if Odd(w) then 1 else 0
  {
    hide Half, Odd;
    JoinedWord(w.bits, high, low);
    WideNumber(half, high);
    LowNumber(low);
  }

  // ----- Bits

  /** The word without its low k bits. */
  function Drop(w: Word, k: nat): Word {
    if k == 0 then w else Half(Drop(w, k - 1))
  }

  lemma DivideOnce(n: nat, k: nat)
    ensures n / Alu.Pow2(k) / 2 == n / Alu.Pow2(k + 1)
  {
    var p := Alu.Pow2(k);
    var q := n / p;
    assert n == p * q + n % p;
    Alu.MulMonotone(q % 2, 1, p);
    assert n == q / 2 * (2 * p) + (p * (q % 2) + n % p) by {
      assert q == 2 * (q / 2) + q % 2;
    }
    Alu.QuotientIs(n, 2 * p, q / 2, p * (q % 2) + n % p);
  }

  lemma {:induction false} DropIsDivision(w: Word, k: nat)
    ensures Number64(Drop(w, k)) == Number64(w) / Alu.Pow2(k)
    decreases k
  {
    hide Half, Odd, Number64;
    if k > 0 {
      DropIsDivision(w, k - 1);
      Halves(Drop(w, k - 1));
      DivideOnce(Number64(w), k - 1);
    }
  }

  /** The bits of a word are those of its number. */
  lemma BitIsOdd(w: Word, k: nat)
    ensures BitAt(Number64(w), k) <==> Odd(Drop(w, k))
  {
    hide Half, Odd, Drop, Number64;
    DropIsDivision(w, k);
    Halves(Drop(w, k));
  }

  function Both(x: Word, y: Word): Word {
    W(x.bits & y.bits)
  }

  function Either(x: Word, y: Word): Word {
    W(x.bits | y.bits)
  }

  function Differ(x: Word, y: Word): Word {
    W(x.bits ^ y.bits)
  }

  lemma HalfOfBoth(x: Word, y: Word)
    ensures Half(Both(x, y)) == Both(Half(x), Half(y))
  {
  }

  lemma HalfOfEither(x: Word, y: Word)
    ensures Half(Either(x, y)) == Either(Half(x), Half(y))
  {
  }

  lemma HalfOfDiffer(x: Word, y: Word)
    ensures Half(Differ(x, y)) == Differ(Half(x), Half(y))
  {
  }

  lemma OddOfBoth(x: Word, y: Word)
    ensures Odd(Both(x, y)) <==> Odd(x) && Odd(y)
  {
  }

  lemma OddOfEither(x: Word, y: Word)
    ensures Odd(Either(x, y)) <==> Odd(x) || Odd(y)
  {
  }

  lemma OddOfDiffer(x: Word, y: Word)
    ensures Odd(Differ(x, y)) <==> Odd(x) != Odd(y)
  {
  }

  lemma {:induction false} DropOfLogic(x: Word, y: Word, k: nat)
    ensures Drop(Both(x, y), k) == Both(Drop(x, k), Drop(y, k))
    ensures Drop(Either(x, y), k) == Either(Drop(x, k), Drop(y, k))
    ensures Drop(Differ(x, y), k) == Differ(Drop(x, k), Drop(y, k))
    decreases k
  {
    hide Half, Both, Either, Differ;
    if k > 0 {
      DropOfLogic(x, y, k - 1);
      HalfOfBoth(Drop(x, k - 1), Drop(y, k - 1));
      HalfOfEither(Drop(x, k - 1), Drop(y, k - 1));
      HalfOfDiffer(Drop(x, k - 1), Drop(y, k - 1));
    }
  }

  /** The logical operations work bit by bit. */
  lemma LogicBits(x: Word, y: Word, k: nat)
    ensures BitAt(Number64(Both(x, y)), k) <==> BitAt(Number64(x), k) && BitAt(Number64(y), k)
    ensures BitAt(Number64(Either(x, y)), k) <==> BitAt(Number64(x), k) || BitAt(Number64(y), k)
    ensures BitAt(Number64(Differ(x, y)), k) <==> BitAt(Number64(x), k) != BitAt(Number64(y), k)
  {
    hide Odd, Drop, BitAt, Number64, Both, Either, Differ;
    BitIsOdd(x, k);
    BitIsOdd(y, k);
    BitIsOdd(Both(x, y), k);
    BitIsOdd(Either(x, y), k);
    BitIsOdd(Differ(x, y), k);
    DropOfLogic(x, y, k);
    OddOfBoth(Drop(x, k), Drop(y, k));
    OddOfEither(Drop(x, k), Drop(y, k));
    OddOfDiffer(Drop(x, k), Drop(y, k));
  }

  // ----- Numbers as words

  function Twice(w: Word, odd: bool): Word {
    W((w.bits << 1) | (if odd then 1 else 0))
  }

  lemma HalfOfTwice(w: Word, odd: bool)
    requires w.bits < 0x8000_0000_0000_0000
    ensures Half(Twice(w, odd)) == w && (Odd(Twice(w, odd)) <==> odd)
  {
  }

  /** The word of a number, one bit at a time. */
  lemma {:induction false} WordExists(n: nat) returns (w: Word)
    requires n < TWO_64
    ensures Number64(w) == n
    decreases n
  {
    hide Half, Odd, Twice, Number64;
    if n == 0 {
      w := ZERO;
      ZeroNumber();
    } else {
      var high := WordExists(n / 2);
      UpperIsClear(high);
      w := Twice(high, n % 2 == 1);
      HalfOfTwice(high, n % 2 == 1);
      Halves(w);
    }
  }

  lemma ZeroNumber()
    ensures Number64(ZERO) == 0
  {
  }

  lemma UpperIsClear(w: Word)
    requires Number64(w) < TWO_64 / 2
    ensures w.bits < 0x8000_0000_0000_0000
  {
  }

  /** Casting a number to a word and back keeps it. */
  lemma CastBack(n: nat)
    requires n < TWO_64
    ensures Number64(W(n as bv64)) == n
  {
    var w := WordExists(n);
    CastOfNumber(w, n);
  }

  lemma CastOfNumber(w: Word, n: nat)
    requires Number64(w) == n
    ensures n < TWO_64 && W(n as bv64) == w
  {
    assert (w.bits as int) as bv64 == w.bits;
  }

  // ----- Small steps

  function Next(w: Word): Word {
    W(w.bits + ONE)
  }

  const LAST: Word := W(0xffff_ffff_ffff_ffff)

  lemma NextOfEven(w: Word)
    requires !Odd(w)
    ensures Half(Next(w)) == Half(w) && Odd(Next(w))
  {
  }

  lemma NextOfOdd(w: Word)
    requires Odd(w) && w != LAST
    ensures Half(Next(w)) == Next(Half(w))
  {
  }

  lemma NextOfOddIsEven(w: Word)
    requires Odd(w)
    ensures !Odd(Next(w))
  {
  }

  lemma HalfIsNotLast(w: Word)
    ensures Half(w) != LAST
  {
  }

  lemma {:induction false} NextNumber(w: Word)
    requires w != LAST
    ensures Number64(Next(w)) == Number64(w) + 1
    decreases Number64(w)
  {
    hide Half, Odd, Next, Number64;
    Halves(w);
    Halves(Next(w));
    if Odd(w) {
      NextOfOdd(w);
      NextOfOddIsEven(w);
      HalfIsNotLast(w);
      NextNumber(Half(w));
    } else {
      NextOfEven(w);
    }
  }

  lemma LastNumber()
    ensures Number64(LAST) == TWO_64 - 1 && Next(LAST) == ZERO
  {
  }

  /** Adding one is adding one modulo 2^64. */
  lemma NextIsModular(w: Word)
    ensures Number64(Next(w)) == (Number64(w) + 1) % TWO_64
  {
    hide Next, Number64;
    LastNumber();
    ZeroNumber();
    if w != LAST {
      NextNumber(w);
    }
  }

  function Previous(w: Word): Word {
    W(w.bits - ONE)
  }

  lemma NextOfPrevious(w: Word)
    ensures Next(Previous(w)) == w
  {
  }

  lemma NextBits(w: Word)
    ensures Next(w).bits == w.bits + ONE
  {
  }

  lemma PlusIs(x: bv64, y: bv64)
    ensures Plus(x, y) == x + y
  {
  }

  lemma PlusNext(x: bv64, y: bv64, next: bv64, sum: bv64)
    requires next == y + ONE && sum == x + y
    ensures Plus(x, next) == sum + ONE
  {
  }

  lemma SumBits(w: Word, x: bv64)
    ensures Sum(w, x).bits == Plus(w.bits, x)
  {
  }

  lemma SameBits(x: Word, y: Word)
    requires x.bits == y.bits
    ensures x == y
  {
  }

  lemma SumOfNext(w: Word, y: Word)
    ensures Sum(w, Next(y).bits) == Next(Sum(w, y.bits))
  {
    hide Sum, Next, Plus;
    SumBits(w, Next(y).bits);
    SumBits(w, y.bits);
    NextBits(y);
    NextBits(Sum(w, y.bits));
    PlusIs(w.bits, y.bits);
    PlusNext(w.bits, y.bits, Next(y).bits, Plus(w.bits, y.bits));
    SameBits(Sum(w, Next(y).bits), Next(Sum(w, y.bits)));
  }

  lemma SumOfZero(w: Word)
    ensures Sum(w, ZERO.bits) == w
  {
  }

  lemma OneMore(n: nat)
    ensures (n % TWO_64 + 1) % TWO_64 == (n + 1) % TWO_64
  {
    var q := n / TWO_64;
    assert n == q * TWO_64 + n % TWO_64;
    Alu.MultipleVanishes(n % TWO_64 + 1, q, TWO_64);
  }

  lemma Fits(w: Word)
    ensures Number64(w) % TWO_64 == Number64(w)
  {
    hide Number64;
    Alu.QuotientIs(Number64(w), TWO_64, 0, Number64(w));
  }

  /** The sum of two words is the sum of their numbers modulo 2^64. */
  lemma {:induction false} SumNumber(w: Word, x: Word)
    ensures Number64(Sum(w, x.bits)) == (Number64(w) + Number64(x)) % TWO_64
    decreases Number64(x)
  {
    hide Next, Previous, Number64, Sum;
    if x == ZERO {
      SumOfZero(w);
      ZeroNumber();
      Fits(w);
    } else {
      var y := Previous(x);
      NextOfPrevious(x);
      LastNumber();
      NextNumber(y);
      SumNumber(w, y);
      SumOfNext(w, y);
      NextIsModular(Sum(w, y.bits));
      OneMore(Number64(w) + Number64(y));
    }
  }
}
