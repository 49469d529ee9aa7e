/** What software sees of the control and status registers: trap entry, trap return,
    reset and register writes as the values that later reads give, bit by bit. */
module CsrLaws {
  import opened Words
  import opened StatusBits
  import opened Privilege
  import opened Csr

  const LOW_63: bv64 := 0x7fff_ffff_ffff_ffff

  // ----- The registers that traps use

  lemma TrapNames()
    ensures RegisterAt(0x105) == Some(Stvec) && RegisterAt(0x305) == Some(Mtvec)
    ensures RegisterAt(0x141) == Some(Sepc) && RegisterAt(0x341) == Some(Mepc)
    ensures RegisterAt(0x142) == Some(Scause) && RegisterAt(0x342) == Some(Mcause)
    ensures RegisterAt(0x143) == Some(Stval) && RegisterAt(0x343) == Some(Mtval)
    ensures RegisterAt(0x302) == Some(Medeleg) && RegisterAt(0x303) == Some(Mideleg)
    ensures RegisterAt(0x300) == Some(Mstatus)
  {
  }

  lemma SupervisorTrapRegisters(h: Hart)
    ensures CsrRead(h, 0x105) == Some(h.s.tvec) && CsrRead(h, 0x141) == Some(h.s.epc)
    ensures CsrRead(h, 0x142) == Some(h.s.cause) && CsrRead(h, 0x143) == Some(h.s.tval)
  {
    hide PackM, PackS, Masked, SStatusRead, RegisterAt;
    TrapNames();
  }

  lemma MachineTrapRegisters(h: Hart)
    ensures CsrRead(h, 0x305) == Some(h.m.tvec) && CsrRead(h, 0x341) == Some(h.m.epc)
    ensures CsrRead(h, 0x342) == Some(h.m.cause) && CsrRead(h, 0x343) == Some(h.m.tval)
  {
    hide PackM, PackS, Masked, SStatusRead, RegisterAt;
    TrapNames();
  }

  lemma DelegationRegisters(h: Hart)
    ensures CsrRead(h, 0x302) == Some(h.m.edeleg) && CsrRead(h, 0x303) == Some(h.m.ideleg)
    ensures CsrRead(h, 0x300) == Some(W(PackM(h.status)))
  {
    hide PackM, PackS, Masked, SStatusRead, RegisterAt;
    TrapNames();
  }

  lemma TrapRegisters(h: Hart)
    ensures CsrRead(h, 0x105) == Some(h.s.tvec) && CsrRead(h, 0x305) == Some(h.m.tvec)
    ensures CsrRead(h, 0x141) == Some(h.s.epc) && CsrRead(h, 0x341) == Some(h.m.epc)
    ensures CsrRead(h, 0x142) == Some(h.s.cause) && CsrRead(h, 0x342) == Some(h.m.cause)
    ensures CsrRead(h, 0x143) == Some(h.s.tval) && CsrRead(h, 0x343) == Some(h.m.tval)
    ensures CsrRead(h, 0x302) == Some(h.m.edeleg) && CsrRead(h, 0x303) == Some(h.m.ideleg)
    ensures CsrRead(h, 0x300) == Some(W(PackM(h.status)))
  {
    hide CsrRead, PackM;
    SupervisorTrapRegisters(h);
    MachineTrapRegisters(h);
    DelegationRegisters(h);
  }

  lemma TrapNumbers(i: Csr.Index)
    ensures RegisterAt(i) == Some(Sstatus) <==> i == 0x100
    ensures RegisterAt(i) == Some(Mstatus) <==> i == 0x300
    ensures RegisterAt(i) == Some(Sepc) <==> i == 0x141
    ensures RegisterAt(i) == Some(Mepc) <==> i == 0x341
    ensures RegisterAt(i) == Some(Scause) <==> i == 0x142
    ensures RegisterAt(i) == Some(Mcause) <==> i == 0x342
    ensures RegisterAt(i) == Some(Stval) <==> i == 0x143
    ensures RegisterAt(i) == Some(Mtval) <==> i == 0x343
  {
  }

  // ----- Trap entry

  /** The trap goes to S-mode: from below M-mode, with the bit of its code set in
      mideleg (0x303) or medeleg (0x302). */
  predicate EntersS(h: Hart, c: Cause) {
    var delegation := CsrRead(h, if c.interrupt then 0x303 else 0x302);
    h.priv != M_MODE && delegation.Some? && BitSet(delegation.value, c.code)
  }

  /** A cause register: the code under the interrupt bit. */
  predicate CauseIs(w: Word, c: Cause) {
    (BitSet(w, 63) <==> c.interrupt) && w.bits & LOW_63 == c.code & LOW_63
  }

  /** epc, cause and tval are registers 0x41 to 0x43 of each level. */
  predicate Recorded(h: Hart, level: Csr.Index, pc: Word, c: Cause, tval: Word) {
    CsrRead(h, level + 0x41) == Some(pc) && CsrRead(h, level + 0x43) == Some(tval) &&
    CsrRead(h, level + 0x42).Some? && CauseIs(CsrRead(h, level + 0x42).value, c)
  }

  predicate SameRegister(h: Hart, n: Hart, i: Csr.Index) {
    CsrRead(n, i) == CsrRead(h, i)
  }

  /** Bit `to` takes the value of bit `from`. */
  function Copied(w: bv64, from: bv64, to: bv64): bv64
    requires from < 64 && to < 64
  {
    ((w >> from) & 1) << to
  }

  /** SPIE (5) takes SIE (1), SIE is cleared, SPP (8) is the mode left. */
  function EnteredS(w: bv64, priv: Mode): bv64 {
    (w & !0x122) | Copied(w, 1, 5) | ((priv as bv64 & 1) << 8)
  }

  /** MPIE (7) takes MIE (3), MIE is cleared, MPP (11 and 12) is the mode left. */
  function EnteredM(w: bv64, priv: Mode): bv64 {
    (w & !0x1888) | Copied(w, 3, 7) | (priv as bv64 << 11)
  }

  lemma EnterSWord(m: MStatus, priv: Mode)
    ensures PackM(EnterSStatus(m, priv)) == EnteredS(PackM(m), priv)
  {
  }

  lemma EnterMWord(m: MStatus, priv: Mode)
    ensures PackM(EnterMStatus(m, priv)) == EnteredM(PackM(m), priv)
  {
  }

  lemma CauseBits(c: Cause)
    ensures CauseIs(CauseWord(c), c)
  {
  }

  /** The two low bits of tvec are its mode. */
  function Base(tvec: bv64): Word {
    W(tvec & !3)
  }

  /** Four bytes for each code. */
  function Slot(code: bv64): bv64 {
    (code & LOW_63) * 4
  }

  /** The handler: the base with its two mode bits cleared, and the slot of the code
      in vectored mode. */
  function Handler(tvec: bv64, code: bv64): Word {
    Sum(Base(tvec), if tvec & 3 == 1 then Slot(code) else 0)
  }

  lemma SlotBits(c: Cause)
    ensures CauseWord(c).bits & LOW_63 == c.code & LOW_63
  {
  }

  lemma FourTimes(x: bv64, y: bv64)
    requires x == y
    ensures x * 4 == y * 4
  {
  }

  lemma HandlerIs(tvec: Word, c: Cause)
    ensures TrapVector(tvec, c) == Handler(tvec.bits, c.code)
  {
    hide VectorSlot, Slot, Sum, VectorBase, Base;
    SlotIs(c);
    BaseIs(tvec);
  }

  lemma BaseIs(tvec: Word)
    ensures VectorBase(tvec) == Base(tvec.bits)
  {
  }

  lemma SlotIs(c: Cause)
    ensures VectorSlot(c) == Slot(c.code)
  {
    hide CauseWord;
    SlotBits(c);
    FourTimes(CauseWord(c).bits & LOW_63, c.code & LOW_63);
  }

  lemma EntersSIs(h: Hart, c: Cause)
    ensures EntersS(h, c) <==> TrapsToS(h, c)
  {
    var i: Csr.Index := if c.interrupt then 0x303 else 0x302;
    assert CsrRead(h, i) == Some(if c.interrupt then h.m.ideleg else h.m.edeleg);
  }

  /** A trap as later reads show it: the level entered has cause, value and old program
      counter, and the handler is the one that stvec (0x105) or mtvec (0x305) names. */
  predicate Entered(h: Hart, c: Cause, tval: Word, n: Hart) {
    var level: Csr.Index := if EntersS(h, c) then 0x100 else 0x300;
    n.needTrap && Recorded(n, level, h.pc, c, tval) && n.nextPriv == (if level == 0x100 then S_MODE else M_MODE) &&
    CsrRead(h, level + 5).Some? && n.trapPc == Handler(CsrRead(h, level + 5).value.bits, c.code)
  }

  lemma TrapShows(h: Hart, c: TrapCause, tval: Word)
    requires !h.needTrap
    ensures Entered(h, c, tval, RaiseTrap(h, c, tval))
  {
    hide CauseIs, CauseWord, TrapVector, Handler, EntersS, BitSet, PackM, CsrRead, EnterSStatus, EnterMStatus;
    EntersSIs(h, c);
    TrapRegisters(h);
    TrapRegisters(RaiseTrap(h, c, tval));
    CauseBits(c);
    HandlerIs(h.s.tvec, c);
    HandlerIs(h.m.tvec, c);
  }

  /** The status word after a trap. */
  lemma TrapStatus(h: Hart, c: TrapCause, tval: Word, w: Word)
    requires !h.needTrap && CsrRead(h, 0x300) == Some(w)
    ensures
      CsrRead(RaiseTrap(h, c, tval), 0x300)
        == Some(W(if EntersS(h, c) then EnteredS(w.bits, h.priv) else EnteredM(w.bits, h.priv)))
  {
    hide EntersS, BitSet, PackM, EnteredS, EnteredM, CauseWord, TrapVector, CsrRead;
    TrapRegisters(h);
    TrapRegisters(RaiseTrap(h, c, tval));
    EntersSIs(h, c);
    EnterSWord(h.status, h.priv);
    EnterMWord(h.status, h.priv);
  }

  lemma EntryKeepsTvm(h: Hart, c: TrapCause, tval: Word)
    requires !h.needTrap
    ensures RaiseTrap(h, c, tval).status.tvm == h.status.tvm
  {
    hide TrapsToS, CauseWord, TrapVector;
  }

  /** Every other register reads as before. */
  lemma TrapSpares(h: Hart, c: TrapCause, tval: Word, i: Csr.Index)
    requires !h.needTrap && i != 0x100 && i != 0x300
    requires
      var level: Csr.Index := if EntersS(h, c) then 0x100 else 0x300;
      i != level + 0x41 && i != level + 0x42 && i != level + 0x43
    ensures SameRegister(h, RaiseTrap(h, c, tval), i)
  {
    hide EntersS, BitSet, PackM, CauseWord, TrapVector, RegisterAt, EnterSStatus, EnterMStatus;
    EntersSIs(h, c);
    TrapNumbers(i);
    EntryKeepsTvm(h, c, tval);
  }

  // ----- Trap return

  /** MIE (3) takes MPIE (7), which is set; MPP is cleared, and MPRV (17) too unless
      the return stays in M-mode. */
  function LeftM(w: bv64): bv64 {
    (w & !0x1888 & !(if (w >> 11) & 3 == 3 then 0 else 0x2_0000)) | Copied(w, 7, 3) | 0x80
  }

  /** SIE (1) takes SPIE (5), which is set; SPP and MPRV are cleared. */
  function LeftS(w: bv64): bv64 {
    (w & !0x2_0122) | Copied(w, 5, 1) | 0x20
  }

  /** Where a return leads, and what it leaves: the mode that the status word holds,
      and the program counter in `level` + 0x41. */
  predicate ReturnShows(h: Hart, n: Hart, level: Csr.Index, mode: Mode, status: bv64) {
    n.needTrap && n.nextPriv == mode && CsrRead(h, level + 0x41) == Some(n.trapPc) &&
    CsrRead(n, 0x300) == Some(W(status))
  }

  lemma LeaveMBelow(m: MStatus)
    requires m.mpp != M_MODE
    ensures PackM(m.(mie := m.mpie, mpie := 1, mpp := U_MODE, mprv := 0)) == LeftM(PackM(m))
  {
  }

  lemma LeaveMWithin(m: MStatus)
    requires m.mpp == M_MODE
    ensures PackM(m.(mie := m.mpie, mpie := 1, mpp := U_MODE)) == LeftM(PackM(m))
  {
  }

  lemma LeaveMWord(m: MStatus, n: MStatus)
    requires n == m.(mie := m.mpie, mpie := 1, mpp := U_MODE, mprv := if m.mpp != M_MODE then 0 else m.mprv)
    ensures PackM(n) == LeftM(PackM(m))
  {
    hide PackM, LeftM;
    if m.mpp == M_MODE {
      LeaveMWithin(m);
    } else {
      LeaveMBelow(m);
    }
  }

  lemma LeaveSWord(m: MStatus)
    ensures PackM(LeaveSStatus(m).(mprv := 0)) == LeftS(PackM(m))
  {
  }

  lemma StatusModes(m: MStatus)
    ensures m.mpp == ((PackM(m) >> 11) & 3) as bv2
    ensures m.spp == ((PackM(m) >> 8) & 1) as bv1
    ensures m.tsr == ((PackM(m) >> 22) & 1) as bv1
  {
  }

  /** `mret` is refused below M-mode. */
  lemma MretShows(h: Hart, w: Word)
    requires CsrRead(h, 0x300) == Some(w)
    ensures Mret(h).None? <==> h.priv != M_MODE
    ensures Mret(h).Some? ==>
              ReturnShows(h, Mret(h).value, 0x300, ((w.bits >> 11) & 3) as bv2, LeftM(w.bits))
  {
    hide PackM, LeftM, CsrRead;
    TrapRegisters(h);
    StatusModes(h.status);
    if Mret(h).Some? {
      TrapRegisters(Mret(h).value);
      LeaveMWord(h.status, Mret(h).value.status);
    }
  }

  /** `sret` is refused below S-mode, and with TSR (22) set. */
  lemma SretShows(h: Hart, w: Word)
    requires CsrRead(h, 0x300) == Some(w)
    ensures Sret(h).None? <==> h.priv == U_MODE || BitSet(w, 22)
    ensures Sret(h).Some? ==>
              ReturnShows(h, Sret(h).value, 0x100, ((w.bits >> 8) & 1) as bv2, LeftS(w.bits))
  {
    hide PackM, LeftS, CsrRead;
    TrapRegisters(h);
    StatusModes(h.status);
    LeaveSWord(h.status);
    if Sret(h).Some? {
      TrapRegisters(Sret(h).value);
    }
  }

  /** A return changes no register but the two views of the status word. */
  lemma ReturnSpares(h: Hart, i: Csr.Index)
    requires i != 0x100 && i != 0x300
    ensures Mret(h).Some? ==> SameRegister(h, Mret(h).value, i)
    ensures Sret(h).Some? ==> SameRegister(h, Sret(h).value, i)
  {
    hide PackM, RegisterAt;
    TrapNumbers(i);
  }
}
