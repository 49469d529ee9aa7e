/** Atomic operations on words: the emulator computes them in 64 bits.  When that
    is the 32-bit operation of chapter 8 of the RISC-V Unprivileged ISA. */
module Atomics {
  import opened Isa
  import opened Exec
  import Alu

  predicate Ordering(op: AmoOp) {
    op.AmoMin? || op.AmoMax? || op.AmoMinu? || op.AmoMaxu?
  }

  /** The operation on 32-bit operands, given sign-extended. */
  function StandardWord(op: AmoOp, src: Alu.I64, was: Alu.I64): Alu.I64
    requires op.AmoSwap? || op.AmoAdd? || Ordering(op)
  {
    match op
    case AmoSwap => src
    case AmoAdd => Alu.I32(src + was)
    case AmoMin => if src < was then src else was
    case AmoMax => if src > was then src else was
    case AmoMinu => if Alu.U32(src) < Alu.U32(was) then src else was
    case AmoMaxu => if Alu.U32(src) > Alu.U32(was) then src else was
  }

  /** Does the loaded word come before the register, in 64 bits? */
  predicate BeforeIn64(op: AmoOp, src: Alu.I64, was: Alu.I64)
    requires Ordering(op)
  {
    if op.AmoMin? || op.AmoMax? then was < src else Alu.U64(was) < Alu.U64(src)
  }

  /** And in 32 bits? */
  predicate BeforeIn32(op: AmoOp, src: Alu.I64, was: Alu.I64)
    requires Ordering(op)
  {
    if op.AmoMin? || op.AmoMax? then was < Alu.I32(src) else Alu.U32(was) < Alu.U32(src)
  }

  /** The upper half of the register does not change the comparison. */
  predicate ComparesAlike(op: AmoOp, src: Alu.I64, was: Alu.I64)
    requires Ordering(op)
  {
    BeforeIn64(op, src, was) == BeforeIn32(op, src, was)
  }

  lemma WordOf(x: Alu.I64)
    ensures Alu.U32(x) == Alu.U32(Alu.I32(x))
  {
    Alu.CastKeepsLow(x);
  }

  lemma WordsDiffer(x: Alu.I64, y: Alu.I64)
    requires Alu.I32(x) == x && Alu.I32(y) == y && x != y
    ensures Alu.U32(x) != Alu.U32(y)
  {
    if Alu.U32(x) == Alu.U32(y) {
      Alu.CastSeesLow(x, y);
    }
  }

  /** The operand that an order picks: the smaller or the larger one. */
  function Picked(op: AmoOp, before: bool, src: Alu.I64, was: Alu.I64): Alu.I64 {
    if (op.AmoMin? || op.AmoMinu?) == before then was else src
  }

  lemma CodePicks(op: AmoOp, src: Alu.I64, was: Alu.I64)
    requires Ordering(op)
    ensures AmoResult(op, src, was) == Picked(op, BeforeIn64(op, src, was), src, was)
  {
    if op.AmoMaxu? && Alu.U64(src) == Alu.U64(was) {
      SameUnsigned(src, was);
    }
  }

  lemma SameUnsigned(x: Alu.I64, y: Alu.I64)
    requires Alu.U64(x) == Alu.U64(y)
    ensures x == y
  {
  }

  lemma StandardPicks(op: AmoOp, src: Alu.I64, was: Alu.I64)
    requires Ordering(op) && Alu.I32(was) == was
    ensures StandardWord(op, Alu.I32(src), was) == Picked(op, BeforeIn32(op, src, was), Alu.I32(src), was)
  {
    WordOf(src);
    if Alu.U32(src) == Alu.U32(was) {
      Alu.CastSeesLow(src, was);
    }
  }

  /** For the signed pair: the register is sign-extended, or the word lies on the
      side of its low half that its sign points away from. */
  predicate SignedAgrees(src: Alu.I64, was: Alu.I64) {
    Alu.I32(src) == src || (if src >= 0 then was <= Alu.I32(src) else was >= Alu.I32(src))
  }

  /** For the unsigned pair, where the loaded word is sign-extended to 64 bits. */
  predicate UnsignedAgrees(src: Alu.I64, was: Alu.I64) {
    Alu.I32(src) == src || Alu.I32(src) == was || (was >= 0 <==> Alu.U32(was) < Alu.U32(src))
  }

  predicate Agrees(op: AmoOp, src: Alu.I64, was: Alu.I64)
    requires Ordering(op)
  {
    if op.AmoMin? || op.AmoMax? then SignedAgrees(src, was) else UnsignedAgrees(src, was)
  }

  lemma SignedComparison(op: AmoOp, src: Alu.I64, was: Alu.I64)
    requires (op.AmoMin? || op.AmoMax?) && Alu.I32(was) == was
    ensures ComparesAlike(op, src, was) || Alu.I32(src) == was <==> SignedAgrees(src, was)
  {
  }

  lemma UnsignedComparison(op: AmoOp, src: Alu.I64, was: Alu.I64)
    requires (op.AmoMinu? || op.AmoMaxu?) && Alu.I32(was) == was
    ensures ComparesAlike(op, src, was) || Alu.I32(src) == was <==> UnsignedAgrees(src, was)
  {
    if Alu.I32(src) == src {
      SignedWordsCompareAlike(op, src, was);
    } else {
      WideRegister(src, was);
    }
  }

  /** A register that is no sign-extended word lies between the words that are not
      negative and those that are, as unsigned numbers. */
  lemma WideRegister(src: Alu.I64, was: Alu.I64)
    requires Alu.I32(was) == was && Alu.I32(src) != src
    ensures Alu.U64(was) < Alu.U64(src) <==> was >= 0
  {
  }

  lemma SignedWordsCompareAlike(op: AmoOp, src: Alu.I64, was: Alu.I64)
    requires Ordering(op) && Alu.I32(was) == was && Alu.I32(src) == src
    ensures ComparesAlike(op, src, was)
  {
  }

  /** Minimum and maximum of words store the standard's word exactly when the
      register is a sign-extended word or lies on the right side of the loaded one. */
  lemma OrderingMeetsStandard(op: AmoOp, src: Alu.I64, was: Alu.I64)
    requires Ordering(op) && Alu.I32(was) == was
    ensures Alu.U32(AmoResult(op, src, was)) == Alu.U32(StandardWord(op, Alu.I32(src), was)) <==> Agrees(op, src, was)
  {
    CodePicks(op, src, was);
    StandardPicks(op, src, was);
    PicksAgree(op, BeforeIn64(op, src, was), BeforeIn32(op, src, was), src, was);
    if op.AmoMin? || op.AmoMax? {
      SignedComparison(op, src, was);
    } else {
      UnsignedComparison(op, src, was);
    }
  }

  /** A wide register: the standard keeps 5, the code stores 6. */
  lemma WideMinimumParts()
    ensures Alu.U32(StandardWord(AmoMin, Alu.I32(0x1_0000_0005), 6)) == 5
    ensures Alu.U32(AmoResult(AmoMin, 0x1_0000_0005, 6)) == 6
  {
  }

  lemma PicksAgree(op: AmoOp, before64: bool, before32: bool, src: Alu.I64, was: Alu.I64)
    requires Alu.I32(was) == was
    ensures Alu.U32(Picked(op, before64, src, was)) == Alu.U32(Picked(op, before32, Alu.I32(src), was)) <==>
              before64 == before32 || Alu.I32(src) == was
  {
    WordOf(src);
    Alu.CastTwice(src);
    if Alu.I32(src) != was {
      WordsDiffer(Alu.I32(src), was);
    }
  }

  /** A sign-extended register needs no further condition. */
  lemma SignExtendedMeetsStandard(op: AmoOp, src: Alu.I64, was: Alu.I64)
    requires Ordering(op) && Alu.I32(was) == was && Alu.I32(src) == src
    ensures Alu.U32(AmoResult(op, src, was)) == Alu.U32(StandardWord(op, src, was))
  {
    OrderingMeetsStandard(op, src, was);
  }

  /** Swaps and additions need no premise. */
  lemma SumMeetsStandard(op: AmoOp, src: Alu.I64, was: Alu.I64)
    requires op.AmoSwap? || op.AmoAdd?
    ensures Alu.U32(AmoResult(op, src, was)) == Alu.U32(StandardWord(op, Alu.I32(src), was))
  {
    WordOf(src);
    if op.AmoAdd? {
      SumKeepsLow(src, was);
    }
  }

  lemma SumKeepsLow(src: Alu.I64, was: Alu.I64)
    ensures Alu.U32(Alu.Wrap(src + was)) == Alu.U32(Alu.I32(Alu.I32(src) + was))
  {
    Alu.CastDiffers(src);
    Alu.MultipleVanishes(Alu.I32(src) + was, (src + Alu.TWO_31) / Alu.TWO_32, Alu.TWO_32);
    WrapKeepsWord(src + was);
    CastKeepsWord(Alu.I32(src) + was);
  }

  lemma WrapKeepsWord(x: int)
    ensures Alu.U32(Alu.Wrap(x)) == Alu.U32(x)
  {
    var k := (x + Alu.TWO_63) / Alu.TWO_64;
    assert x == Alu.Wrap(x) + k * Alu.TWO_32 * Alu.TWO_32;
    Alu.MultipleVanishes(Alu.Wrap(x), k * Alu.TWO_32, Alu.TWO_32);
  }

  lemma CastKeepsWord(x: int)
    ensures Alu.U32(Alu.I32(x)) == Alu.U32(x)
  {
    Alu.CastDiffers(x);
    Alu.MultipleVanishes(Alu.I32(x), (x + Alu.TWO_31) / Alu.TWO_32, Alu.TWO_32);
  }
}
