/** Which interrupt a step takes, from the four lines to the cause register: the
    rule by rank that the nested tests of `preExec` implement. */
module InterruptLaws {
  import opened Words
  import opened StatusBits
  import opened Privilege
  import opened Csr
  import opened CsrLaws

  // ----- Sampling

  /** All bits but those of the four lines. */
  const OTHERS: bv64 := 0xffff_ffff_ffff_f577

  /** Interrupt k is asserted: by its line, or for SSI and STI by its bit in mip. */
  predicate Asserted(mip: Word, l: Lines, k: bv64) {
    if k == INT_M_SW then l.msip
    else if k == INT_M_TIMER then l.mtip
    else if k == INT_M_EXT then l.meip
    else if k == INT_S_EXT then l.seip
    else BitSet(mip, k)
  }

  /** Each line sets its own pending bit: software 3, timer 7, external 11 and 9. */
  lemma LinesArePending(mip: Word, l: Lines)
    ensures BitSet(SampledMip(mip, l), 3) <==> l.msip
    ensures BitSet(SampledMip(mip, l), 7) <==> l.mtip
    ensures BitSet(SampledMip(mip, l), 11) <==> l.meip
    ensures BitSet(SampledMip(mip, l), 9) <==> l.seip
  {
  }

  /** One line into its bit. */
  function WithLine(w: Word, mask: bv64, on: bool): Word {
    W(WithBit(w.bits, mask, on))
  }

  predicate SameOthers(x: Word, y: Word) {
    x.bits & OTHERS == y.bits & OTHERS
  }

  lemma LineKeepsOthers(w: Word, mask: bv64, on: bool)
    requires mask & OTHERS == 0
    ensures SameOthers(WithLine(w, mask, on), w)
  {
  }

  lemma LineByLine(mip: Word, l: Lines)
    ensures SampledMip(mip, l)
         == WithLine(WithLine(WithLine(WithLine(mip, 0x800, l.meip), 0x8, l.msip), 0x80, l.mtip), 0x200, l.seip)
  {
    hide WithBit;
  }

  lemma SameOthersChain(x: Word, y: Word, z: Word)
    requires SameOthers(x, y) && SameOthers(y, z)
    ensures SameOthers(x, z)
  {
  }

  /** And no other bit changes. */
  lemma OtherBitsStay(mip: Word, l: Lines)
    ensures SameOthers(SampledMip(mip, l), mip)
  {
    hide WithLine, SameOthers, SampledMip;
    LineByLine(mip, l);
    var w1 := WithLine(mip, 0x800, l.meip);
    var w2 := WithLine(w1, 0x8, l.msip);
    var w3 := WithLine(w2, 0x80, l.mtip);
    LineKeepsOthers(mip, 0x800, l.meip);
    LineKeepsOthers(w1, 0x8, l.msip);
    LineKeepsOthers(w2, 0x80, l.mtip);
    LineKeepsOthers(w3, 0x200, l.seip);
    SameOthersChain(w2, w1, mip);
    SameOthersChain(w3, w2, mip);
    SameOthersChain(SampledMip(mip, l), w3, mip);
  }

  lemma SameBit(x: Word, y: Word, k: bv64)
    requires SameOthers(x, y) && k < 64 && k != 3 && k != 7 && k != 9 && k != 11
    ensures BitSet(x, k) <==> BitSet(y, k)
  {
  }

  /** After sampling, the pending bits are the asserted interrupts. */
  lemma PendingIsAsserted(mip: Word, l: Lines, k: bv64)
    requires k < 64
    ensures BitSet(SampledMip(mip, l), k) <==> Asserted(mip, l, k)
  {
    hide SampledMip, BitSet, SameOthers;
    LinesArePending(mip, l);
    OtherBitsStay(mip, l);
    if k != 3 && k != 7 && k != 9 && k != 11 {
      SameBit(SampledMip(mip, l), mip, k);
    }
  }

  // ----- Selection

  /** The order of section 3.1.9: MEI, MSI, MTI, SEI, SSI, STI. */
  function Rank(k: bv64): nat {
    if k == INT_M_EXT then 0
    else if k == INT_M_SW then 1
    else if k == INT_M_TIMER then 2
    else if k == INT_S_EXT then 3
    else if k == INT_S_SW then 4
    else 5
  }

  /** An interrupt of the word. */
  predicate Member(w: Word, k: bv64) {
    RealInterrupt(k) && BitSet(w, k)
  }

  /** The highest interrupt of the word. */
  ghost predicate Highest(w: Word, k: bv64) {
    Member(w, k) && forall j :: Member(w, j) ==> Rank(k) <= Rank(j)
  }

  lemma NoneAbove(w: Word, j: bv64)
    requires Member(w, j)
    ensures Member(w, BitsToIntType(w.bits)) && Rank(BitsToIntType(w.bits)) <= Rank(j)
  {
  }

  lemma NothingSelected(w: Word)
    ensures BitsToIntType(w.bits) == INT_NO_INT || Member(w, BitsToIntType(w.bits))
    ensures !RealInterrupt(INT_NO_INT)
  {
  }

  lemma OneOfRank(j: bv64, k: bv64)
    requires RealInterrupt(j) && RealInterrupt(k) && Rank(j) == Rank(k)
    ensures j == k
  {
  }

  /** The chain of tests finds the interrupt of highest rank, if there is one. */
  lemma SelectionIsHighest(w: Word, k: bv64)
    ensures k != INT_NO_INT ==> (BitsToIntType(w.bits) == k <==> Highest(w, k))
    ensures BitsToIntType(w.bits) == INT_NO_INT ==> !Member(w, k)
  {
    hide BitSet, RealInterrupt, BitsToIntType, Rank;
    var s := BitsToIntType(w.bits);
    NothingSelected(w);
    forall j | Member(w, j)
      ensures Member(w, s) && Rank(s) <= Rank(j)
    {
      NoneAbove(w, j);
    }
    if Highest(w, k) {
      OneOfRank(s, k);
    }
  }

  // ----- The rule

  /** Interrupt k competes in a step from h: asserted, enabled in mie and, in M-mode,
      not delegated. */
  predicate Candidate(h: Hart, l: Lines, k: bv64) {
    RealInterrupt(k) && Asserted(h.mip, l, k) && BitSet(h.mie, k) &&
    (h.nextPriv == M_MODE ==> !BitSet(h.m.ideleg, k))
  }

  ghost predicate First(h: Hart, l: Lines, k: bv64) {
    Candidate(h, l, k) && forall j :: Candidate(h, l, j) ==> Rank(k) <= Rank(j)
  }

  ghost predicate SomeDelegated(h: Hart, l: Lines) {
    exists j :: Candidate(h, l, j) && BitSet(h.m.ideleg, j)
  }

  /** M-mode asks for MIE; below it S-mode asks for SIE when a delegated interrupt
      competes. */
  ghost predicate Open(h: Hart, l: Lines) {
    if h.nextPriv == M_MODE then h.status.mie == 1
    else SomeDelegated(h, l) ==> h.nextPriv < S_MODE || h.status.sie == 1
  }

  lemma BitsOfBoth(x: bv64, y: bv64, k: bv64)
    ensures BitSet(W(x & y), k) <==> BitSet(W(x), k) && BitSet(W(y), k)
  {
  }

  lemma BitsOfRest(x: bv64, y: bv64, k: bv64)
    ensures BitSet(W(x & !y), k) <==> BitSet(W(x), k) && !BitSet(W(y), k)
  {
  }

  lemma RealIsSmall(k: bv64)
    ensures RealInterrupt(k) ==> k < 64
  {
  }

  lemma PendingMembers(h: Hart, l: Lines, k: bv64)
    ensures Member(W(EnabledPending(Sampled(h, l))), k)
       <==> RealInterrupt(k) && Asserted(h.mip, l, k) && BitSet(h.mie, k)
  {
    hide BitSet, RealInterrupt, Asserted, SampledMip;
    RealIsSmall(k);
    if RealInterrupt(k) {
      PendingIsAsserted(h.mip, l, k);
      BitsOfBoth(SampledMip(h.mip, l).bits, h.mie.bits, k);
    }
  }

  lemma UndelegatedMembers(h: Hart, l: Lines, k: bv64)
    ensures Member(W(Undelegated(Sampled(h, l))), k)
       <==> RealInterrupt(k) && Asserted(h.mip, l, k) && BitSet(h.mie, k) && !BitSet(h.m.ideleg, k)
  {
    hide BitSet, RealInterrupt, Asserted, EnabledPending, SampledMip;
    PendingMembers(h, l, k);
    BitsOfRest(EnabledPending(Sampled(h, l)), h.m.ideleg.bits, k);
  }

  lemma DelegatedMembers(h: Hart, l: Lines, k: bv64)
    ensures Member(W(DelegatedPending(Sampled(h, l))), k)
       <==> RealInterrupt(k) && Asserted(h.mip, l, k) && BitSet(h.mie, k) && BitSet(h.m.ideleg, k)
  {
    hide BitSet, RealInterrupt, Asserted, EnabledPending, SampledMip;
    PendingMembers(h, l, k);
    BitsOfBoth(EnabledPending(Sampled(h, l)), h.m.ideleg.bits, k);
  }

  lemma PartFits(bits: bv64, part: bv64)
    requires bits & !M_MODE_INT_MASK == 0
    ensures bits & part & !M_MODE_INT_MASK == 0
  {
  }

  lemma PendingFits(s: Hart)
    requires IntEnableFits(s)
    ensures EnabledPending(s) & !M_MODE_INT_MASK == 0
    ensures Undelegated(s) & !M_MODE_INT_MASK == 0
    ensures DelegatedPending(s) & !M_MODE_INT_MASK == 0
  {
    MaskedPart(s.mip.bits, s.mie.bits);
    PartFits(EnabledPending(s), s.m.ideleg.bits);
    PartFits(EnabledPending(s), !s.m.ideleg.bits);
  }

  lemma TakenInM(s: Hart, k: bv64)
    requires IntEnableFits(s) && s.priv == M_MODE
    ensures InterruptTaken(s) == Some(k) <==> s.status.mie == 1 && Highest(W(Undelegated(s)), k)
  {
    hide BitsToIntType, Highest, Member;
    PendingFits(s);
    NothingToSelect(EnabledPending(s));
    NothingToSelect(Undelegated(s));
    NothingInParts(!s.m.ideleg.bits);
    NotHighest(W(Undelegated(s)));
    if k != INT_NO_INT {
      SelectionIsHighest(W(Undelegated(s)), k);
    }
  }

  lemma NotHighest(w: Word)
    ensures !Highest(w, INT_NO_INT)
  {
    NothingSelected(w);
  }

  lemma TakenBelowM(s: Hart, k: bv64)
    requires IntEnableFits(s) && s.priv != M_MODE
    ensures InterruptTaken(s) == Some(k)
       <==> Highest(W(EnabledPending(s)), k) && (DelegatedPending(s) == 0 || s.priv < S_MODE || s.status.sie == 1)
  {
    hide BitsToIntType, Highest, Member;
    PendingFits(s);
    NothingToSelect(EnabledPending(s));
    NotHighest(W(EnabledPending(s)));
    if k != INT_NO_INT {
      SelectionIsHighest(W(EnabledPending(s)), k);
    }
  }

  lemma AnyMember(bits: bv64)
    requires bits & !M_MODE_INT_MASK == 0
    ensures bits != 0 <==> exists j :: Member(W(bits), j)
  {
    hide BitsToIntType, BitSet, RealInterrupt;
    NothingToSelect(bits);
    NothingSelected(W(bits));
    forall j
      ensures bits == 0 ==> !Member(W(bits), j)
    {
      if bits == 0 {
        SelectionIsHighest(W(bits), j);
      }
    }
  }

  /** A step takes interrupt k exactly when k is the first candidate and the mode is
      open to it. */
  lemma RuleOfInterrupts(h: Hart, l: Lines, k: bv64)
    requires IntEnableFits(h)
    ensures InterruptTaken(Sampled(h, l)) == Some(k) <==> First(h, l, k) && Open(h, l)
  {
    hide InterruptTaken, Member, Asserted, BitSet, RealInterrupt, Rank, Undelegated, DelegatedPending, EnabledPending;
    var s := Sampled(h, l);
    if h.nextPriv == M_MODE {
      TakenInM(s, k);
      forall j
        ensures Member(W(Undelegated(s)), j) <==> Candidate(h, l, j)
      {
        UndelegatedMembers(h, l, j);
      }
    } else {
      TakenBelowM(s, k);
      PendingFits(s);
      AnyMember(DelegatedPending(s));
      forall j
        ensures Member(W(EnabledPending(s)), j) <==> Candidate(h, l, j)
        ensures Member(W(DelegatedPending(s)), j) <==> Candidate(h, l, j) && BitSet(h.m.ideleg, j)
      {
        PendingMembers(h, l, j);
        DelegatedMembers(h, l, j);
      }
    }
  }

  // ----- From the lines to the registers

  /** The hart in the mode that the step starts in. */
  function Entering(h: Hart): Hart {
    h.(priv := h.nextPriv)
  }

  lemma SampledEnters(h: Hart, l: Lines, c: Cause)
    ensures EntersS(Sampled(h, l), c) <==> EntersS(Entering(h), c)
  {
    hide BitSet, SampledMip, CsrRead;
    TrapRegisters(Sampled(h, l));
    TrapRegisters(Entering(h));
  }

  lemma SampledVectors(h: Hart, l: Lines)
    ensures CsrRead(Sampled(h, l), 0x105) == CsrRead(h, 0x105)
    ensures CsrRead(Sampled(h, l), 0x305) == CsrRead(h, 0x305)
  {
    hide SampledMip, CsrRead;
    TrapRegisters(Sampled(h, l));
    TrapRegisters(h);
  }

  /** What a step that takes interrupt k leaves to the handler: the code under the
      interrupt bit, no trap value, and the pc of the instruction that was not run. */
  predicate Interrupted(h: Hart, k: bv64, n: Hart) {
    n.pc == h.pc && Entered(Entering(h), Cause(k, true), ZERO, n)
  }

  lemma EnteredFrom(h: Hart, l: Lines, c: Cause, n: Hart)
    requires Entered(Sampled(h, l), c, ZERO, n)
    ensures Entered(Entering(h), c, ZERO, n)
  {
    hide EntersS, Recorded, Handler, CsrRead, SampledMip;
    SampledEnters(h, l, c);
    SampledVectors(Entering(h), l);
  }

  lemma InterruptShows(h: Hart, l: Lines, k: bv64)
    requires IntEnableFits(h) && First(h, l, k) && Open(h, l)
    ensures Interrupted(h, k, PreExec(h, l))
  {
    hide InterruptTaken, First, Open, TrapsToS, TrapVector, SampledMip, CauseWord, EnterSStatus, EnterMStatus, Entered;
    RuleOfInterrupts(h, l, k);
    SelectedInterruptIsReal(Sampled(h, l));
    TrapShows(Sampled(h, l), Cause(k, true), ZERO);
    EnteredFrom(h, l, Cause(k, true), PreExec(h, l));
  }

  lemma NothingTaken(h: Hart, l: Lines)
    requires IntEnableFits(h) && forall k :: !(First(h, l, k) && Open(h, l))
    ensures PreExec(h, l) == Sampled(h, l)
  {
    hide InterruptTaken, First, Open;
    if InterruptTaken(Sampled(h, l)).Some? {
      RuleOfInterrupts(h, l, InterruptTaken(Sampled(h, l)).value);
    }
  }

  /** And what one leaves that takes none: the cycle count and the sampled bits of mip. */
  lemma NoInterruptShows(h: Hart, l: Lines)
    requires IntEnableFits(h) && forall k :: !(First(h, l, k) && Open(h, l))
    ensures !PreExec(h, l).needTrap && PreExec(h, l).pc == h.pc && PreExec(h, l).priv == h.nextPriv
    ensures CsrRead(PreExec(h, l), 0x344) == Some(SampledMip(h.mip, l))
    ensures CsrRead(PreExec(h, l), 0xb00) == Some(Sum(h.mcycle, 1))
  {
    hide InterruptTaken, First, Open, SampledMip, PackM, PackS, SStatusRead, RegisterAt, Masked, PreExec;
    NothingTaken(h, l);
    CounterNumbers(0x344);
  }

  /** Every other register reads as before. */
  lemma NoInterruptSpares(h: Hart, l: Lines, i: Csr.Index)
    requires IntEnableFits(h) && forall k :: !(First(h, l, k) && Open(h, l))
    requires i !in {0x144, 0x344, 0xb00, 0xc00}
    ensures SameRegister(Entering(h), PreExec(h, l), i)
  {
    hide InterruptTaken, First, Open, SampledMip, PackM, PackS, SStatusRead, RegisterAt, Masked, PreExec;
    NothingTaken(h, l);
    CounterNumbers(i);
  }

  /** The sampled step: the first candidate is taken if the mode is open, and otherwise
      nothing. */
  ghost predicate Wakes(h: Hart, l: Lines, n: Hart) {
    (forall k :: First(h, l, k) && Open(h, l) ==> Interrupted(h, k, n)) &&
    ((forall k :: !(First(h, l, k) && Open(h, l))) ==>
       !n.needTrap && n.pc == h.pc && n.priv == h.nextPriv && CsrRead(n, 0x344) == Some(SampledMip(h.mip, l)))
  }

  lemma PreExecWakes(h: Hart, l: Lines)
    requires IntEnableFits(h)
    ensures Wakes(h, l, PreExec(h, l))
  {
    hide PreExec, First, Open, Interrupted, CsrRead, SampledMip;
    forall k | First(h, l, k) && Open(h, l)
      ensures Interrupted(h, k, PreExec(h, l))
    {
      InterruptShows(h, l, k);
    }
    if forall k :: !(First(h, l, k) && Open(h, l)) {
      NoInterruptShows(h, l);
    }
  }

  lemma CounterNumbers(i: Csr.Index)
    ensures RegisterAt(i) == Some(Mip) <==> i == 0x344
    ensures RegisterAt(i) == Some(Sip) <==> i == 0x144
    ensures RegisterAt(i) == Some(Mcycle) <==> i == 0xb00
    ensures RegisterAt(i) == Some(Cycle) <==> i == 0xc00
    ensures RegisterAt(0x344) == Some(Mip) && RegisterAt(0xb00) == Some(Mcycle)
  {
  }
}
