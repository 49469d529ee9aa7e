/** The privileged architecture of the core as functions on its state: control
    and status registers, trap entry, trap return and interrupt selection. */
module Privilege {
  import opened Words
  import opened StatusBits

  /** A 64-bit register. */
  datatype Word = W(bits: bv64)

  const ZERO: Word := W(0)

  /** The three privilege modes; 2 is reserved. */
  predicate Level(p: Mode) {
    p == U_MODE || p == S_MODE || p == M_MODE
  }

  const S_MODE_INT_MASK: bv64 := 0x222
  const M_MODE_INT_MASK: bv64 := 0xaaa
  const S_MODE_EXC_MASK: bv64 := 0xf7ff
  const COUNTER_MASK: bv64 := 0x5

  // Exception codes
  const INSTR_MISALIGN: bv64 := 0
  const INSTR_ACC_FAULT: bv64 := 1
  const ILLEGAL_INSTR: bv64 := 2
  const BREAKPOINT: bv64 := 3
  const LOAD_MISALIGN: bv64 := 4
  const LOAD_ACC_FAULT: bv64 := 5
  const STORE_MISALIGN: bv64 := 6
  const STORE_ACC_FAULT: bv64 := 7
  const INSTR_PGFAULT: bv64 := 12
  const LOAD_PGFAULT: bv64 := 13
  const STORE_PGFAULT: bv64 := 15
  const EXEC_OK: bv64 := 24

  // Interrupt codes
  const INT_S_SW: bv64 := 1
  const INT_M_SW: bv64 := 3
  const INT_S_TIMER: bv64 := 5
  const INT_M_TIMER: bv64 := 7
  const INT_S_EXT: bv64 := 9
  const INT_M_EXT: bv64 := 11
  const INT_NO_INT: bv64 := 24

  datatype Cause = Cause(code: bv64, interrupt: bool)

  /** What may be raised: the source asserts the code is not `exec_ok`. */
  type TrapCause = c: Cause | c.code != EXEC_OK witness Cause(0, false)

  /** The cause register's word: a 63-bit code under the interrupt bit. */
  function CauseWord(c: Cause): Word {
    W((c.code & 0x7fff_ffff_ffff_ffff) | (if c.interrupt then 0x8000_0000_0000_0000 else 0))
  }

  /** mideleg, medeleg, mtval, mcause, mepc, mtvec, mcounteren, mscratch. */
  datatype MachineRegs = MachineRegs(
    ideleg: Word, edeleg: Word, tval: Word, cause: Word, epc: Word, tvec: Word, counteren: Word, scratch: Word)

  /** stval, scause, sepc, stvec, scounteren, sscratch, satp. */
  datatype SupervisorRegs = SupervisorRegs(
    tval: Word, cause: Word, epc: Word, tvec: Word, counteren: Word, scratch: Word, satp: Word)

  /** Everything in the core but the general registers. */
  datatype Hart = Hart(
    pc: Word, trapPc: Word, needTrap: bool, priv: Mode, nextPriv: Mode,
    status: MStatus, m: MachineRegs, s: SupervisorRegs, mip: Word, mie: Word,
    mcycle: Word, minstret: Word, hartId: Word, misa: Word)

  const RESET_STATUS: MStatus :=
    MStatus(0, 0, 0, 0, 0, 0, 0, 0, 0, 0, 0, 0, 0, 0, 0, 0, 0, 0, 0, 0, 2, 2, 0, 0, 0, 0)

  /** The registers after `reset`; the program counter and hart id keep. */
  function Reset(h: Hart): Hart {
    Hart(h.pc, ZERO, false, M_MODE, M_MODE, RESET_STATUS,
         MachineRegs(ZERO, ZERO, ZERO, ZERO, ZERO, ZERO, ZERO, ZERO),
         SupervisorRegs(ZERO, ZERO, ZERO, ZERO, ZERO, ZERO, ZERO), ZERO, ZERO,
         ZERO, ZERO, h.hartId, W(0x8000_0000_0014_1105))
  }

  // ----- Trap entry

  /** Bit k of a word; the source shifts by codes below 32 only. */
  predicate BitSet(w: Word, k: bv64) {
    k < 64 && (w.bits >> k) & 1 == 1
  }

  predicate Delegated(h: Hart, c: Cause) {
    BitSet(if c.interrupt then h.m.ideleg else h.m.edeleg, c.code)
  }

  /** Traps from below M-mode go to S-mode when their code is delegated. */
  predicate TrapsToS(h: Hart, c: Cause) {
    h.priv != M_MODE && Delegated(h, c)
  }

  function Plus(x: bv64, y: bv64): bv64 {
    x + y
  }

  function Sum(base: Word, offset: bv64): Word {
    W(Plus(base.bits, offset))
  }

  function VectorBase(tvec: Word): Word {
    W(tvec.bits & 0xffff_ffff_ffff_fffc)
  }

  function VectorSlot(c: Cause): bv64 {
    (CauseWord(c).bits & 0x7fff_ffff_ffff_ffff) * 4
  }

  predicate Vectored(tvec: Word) {
    tvec.bits & 3 == 1
  }

  /** Where a handler starts: the base, plus the cause slot in vectored mode.
      The source vectors exceptions too. */
  function TrapVector(tvec: Word, c: Cause): Word {
    Sum(VectorBase(tvec), if Vectored(tvec) then VectorSlot(c) else 0)
  }

  /** Section 3.1.7: only interrupts are vectored. */
  function StandardVector(tvec: Word, c: Cause): Word {
    Sum(VectorBase(tvec), if Vectored(tvec) && c.interrupt then VectorSlot(c) else 0)
  }

  /** The two agree exactly in direct mode, for interrupts and for code 0. */
  lemma VectorMeetsStandard(tvec: Word, c: Cause)
    requires c.code < 64
    ensures TrapVector(tvec, c) == StandardVector(tvec, c) <==> !Vectored(tvec) || c.interrupt || c.code == 0
  {
    SlotOf(c);
    OffsetShows(VectorBase(tvec), VectorSlot(c));
  }

  /** A load page fault in vectored mode goes 4 * 13 bytes past the base. */
  lemma ExceptionIsVectored()
    ensures TrapVector(W(0x8000_0001), Cause(LOAD_PGFAULT, false)) == W(0x8000_0034)
    ensures StandardVector(W(0x8000_0001), Cause(LOAD_PGFAULT, false)) == W(0x8000_0000)
  {
  }

  lemma SlotOf(c: Cause)
    requires c.code < 64
    ensures VectorSlot(c) == 0 <==> c.code == 0
  {
  }

  lemma OffsetShows(base: Word, offset: bv64)
    ensures Sum(base, offset) == Sum(base, 0) <==> offset == 0
  {
  }

  /** Entry to S-mode. */
  function EnterSStatus(m: MStatus, priv: Mode): MStatus {
    m.(spie := m.sie, sie := 0, spp := (priv & 1) as bv1)
  }

  /** The source stores these fields through the sstatus layout: the same. */
  lemma EnterSThroughLayout(m: MStatus, priv: Mode)
    ensures FromS(SView(m).(spie := SView(m).sie, sie := 0, spp := (priv & 1) as bv1)) == EnterSStatus(m, priv)
  {
    SViewFields(m);
    SStoreIsMStore(m, 0, m.sie, (priv & 1) as bv1, m.sum, m.mxr);
  }

  function EnterMStatus(m: MStatus, priv: Mode): MStatus {
    m.(mpie := m.mie, mie := 0, mpp := priv)
  }

  /** `raiseTrap`.  Its entry assertions are the precondition and the type of c. */
  function RaiseTrap(h: Hart, c: TrapCause, tval: Word): Hart
    requires !h.needTrap
  {
    if TrapsToS(h, c) then
      h.(needTrap := true, s := h.s.(tval := tval, cause := CauseWord(c), epc := h.pc),
         status := EnterSStatus(h.status, h.priv),
         trapPc := TrapVector(h.s.tvec, c), nextPriv := S_MODE)
    else
      h.(needTrap := true, m := h.m.(tval := tval, cause := CauseWord(c), epc := h.pc),
         status := EnterMStatus(h.status, h.priv),
         trapPc := TrapVector(h.m.tvec, c), nextPriv := M_MODE)
  }

  // ----- Trap return

  function Mret(h: Hart): Option<Hart> {
    if h.priv != M_MODE then None
    else
      var st := h.status.(mie := h.status.mpie, mpie := 1);
      var st' := if st.mpp != M_MODE then st.(mprv := 0) else st;
      Some(h.(nextPriv := st.mpp, status := st'.(mpp := U_MODE), needTrap := true, trapPc := h.m.epc))
  }

  /** The sstatus part of a return from S-mode. */
  function LeaveSStatus(m: MStatus): MStatus {
    m.(sie := m.spie, spie := 1, spp := 0)
  }

  lemma LeaveSThroughLayout(m: MStatus)
    ensures FromS(SView(m).(sie := SView(m).spie, spie := 1, spp := 0)) == LeaveSStatus(m)
  {
    SViewFields(m);
    SStoreIsMStore(m, m.spie, 1, 0, m.sum, m.mxr);
  }

  /** spp is one bit wide and never equals M_MODE, so mprv is always cleared. */
  function Sret(h: Hart): Option<Hart> {
    if h.priv < S_MODE then None
    else if h.status.tsr == 1 then None
    else
      Some(h.(nextPriv := h.status.spp as bv2, status := LeaveSStatus(h.status).(mprv := 0),
              needTrap := true, trapPc := h.s.epc))
  }

  // ----- Interrupts

  /** The interrupt lines sampled at the start of a step. */
  datatype Lines = Lines(meip: bool, msip: bool, mtip: bool, seip: bool)

  function WithBit(w: bv64, mask: bv64, on: bool): bv64 {
    if on then w | mask else w & !mask
  }

  function SampledMip(mip: Word, l: Lines): Word {
    W(WithBit(WithBit(WithBit(WithBit(mip.bits, 0x800, l.meip), 0x8, l.msip), 0x80, l.mtip), 0x200, l.seip))
  }

  /** The pending interrupt of highest rank: MEI, MSI, MTI, SEI, SSI, STI. */
  function BitsToIntType(bits: bv64): bv64 {
    if bits & 0x800 != 0 then INT_M_EXT
    else if bits & 0x8 != 0 then INT_M_SW
    else if bits & 0x80 != 0 then INT_M_TIMER
    else if bits & 0x200 != 0 then INT_S_EXT
    else if bits & 0x2 != 0 then INT_S_SW
    else if bits & 0x20 != 0 then INT_S_TIMER
    else INT_NO_INT
  }

  /** The interrupts that are both pending and enabled. */
  function EnabledPending(h: Hart): bv64 {
    h.mip.bits & h.mie.bits
  }

  /** Those of them that are not delegated to S-mode. */
  function Undelegated(h: Hart): bv64 {
    EnabledPending(h) & !h.m.ideleg.bits
  }

  /** The interrupt that a step takes before fetching, if any. */
  function InterruptTaken(h: Hart): Option<bv64> {
    var bits := EnabledPending(h);
    if BitsToIntType(bits) == INT_NO_INT then None
    else if h.priv == M_MODE then
      if h.status.mie == 1 && Undelegated(h) != 0 then Some(BitsToIntType(Undelegated(h))) else None
    else if bits & h.m.ideleg.bits != 0 then
      if h.priv < S_MODE || h.status.sie == 1 then Some(BitsToIntType(bits)) else None
    else Some(BitsToIntType(bits))
  }

  /** Interrupts that are delegated, pending and enabled. */
  function DelegatedPending(h: Hart): bv64 {
    EnabledPending(h) & h.m.ideleg.bits
  }

  /** The rule of section 3.1.9: an interrupt that is not delegated traps from any
      mode below M, and from M with MIE; a delegated one from any mode below S, and
      from S with SIE; those for M-mode come first. */
  function StandardInterrupt(h: Hart): Option<bv64> {
    if Undelegated(h) != 0 && (h.priv != M_MODE || h.status.mie == 1) then Some(BitsToIntType(Undelegated(h)))
    else if DelegatedPending(h) != 0 && (h.priv < S_MODE || (h.priv == S_MODE && h.status.sie == 1)) then
      Some(BitsToIntType(DelegatedPending(h)))
    else None
  }

  /** The highest pending interrupt is not delegated. */
  predicate FirstStaysInM(h: Hart) {
    !BitSet(h.m.ideleg, BitsToIntType(EnabledPending(h)))
  }

  /** Delegated and other interrupts do not compete: there is one kind only, or
      the highest of all is not delegated and delegated ones may be taken. */
  predicate NoContest(h: Hart) {
    h.priv == M_MODE || DelegatedPending(h) == 0 || Undelegated(h) == 0 ||
    ((h.priv < S_MODE || h.status.sie == 1) && FirstStaysInM(h))
  }

  lemma PartsOfPending(bits: bv64, part: bv64)
    ensures bits & part == 0 ==> bits & !part == bits
  {
  }

  lemma WholeInPart(bits: bv64, part: bv64)
    ensures bits & !part == 0 ==> bits & part == bits
  {
  }

  lemma NothingInParts(part: bv64)
    ensures 0 & part == 0
  {
  }

  /** In M-mode only interrupts that are not delegated count. */
  lemma MachineModeMeetsStandard(h: Hart)
    requires IntEnableFits(h) && h.priv == M_MODE
    ensures InterruptTaken(h) == StandardInterrupt(h)
  {
    MaskedPart(h.mip.bits, h.mie.bits);
    NothingToSelect(EnabledPending(h));
    NothingInParts(!h.m.ideleg.bits);
  }

  /** Below M-mode with interrupts of one kind only. */
  lemma OneKindMeetsStandard(h: Hart)
    requires IntEnableFits(h) && (h.priv == U_MODE || h.priv == S_MODE)
    requires DelegatedPending(h) == 0 || Undelegated(h) == 0
    ensures InterruptTaken(h) == StandardInterrupt(h)
  {
    var bits := EnabledPending(h);
    MaskedPart(h.mip.bits, h.mie.bits);
    NothingToSelect(bits);
    PartsOfPending(bits, h.m.ideleg.bits);
    WholeInPart(bits, h.m.ideleg.bits);
  }

  /** Dropping delegated bits changes the selection exactly when the highest bit is
      one of them. */
  lemma SelectionWithout(bits: bv64, ideleg: bv64)
    requires bits & !M_MODE_INT_MASK == 0 && bits & !ideleg != 0
    ensures BitsToIntType(bits) == BitsToIntType(bits & !ideleg) <==> !BitSet(W(ideleg), BitsToIntType(bits))
  {
  }

  /** Below M-mode with both kinds. */
  lemma BothKindsContest(h: Hart)
    requires IntEnableFits(h) && (h.priv == U_MODE || h.priv == S_MODE)
    requires DelegatedPending(h) != 0 && Undelegated(h) != 0
    ensures InterruptTaken(h) == StandardInterrupt(h) <==>
              (h.priv < S_MODE || h.status.sie == 1) && FirstStaysInM(h)
  {
    MaskedPart(h.mip.bits, h.mie.bits);
    NothingToSelect(EnabledPending(h));
    NothingInParts(!h.m.ideleg.bits);
    SelectionWithout(EnabledPending(h), h.m.ideleg.bits);
  }

  /** With mideleg in its mask, any pending M-level interrupt is the highest and is
      not delegated. */
  lemma MachineInterruptsLead(h: Hart)
    requires IntEnableFits(h) && h.m.ideleg.bits & !S_MODE_INT_MASK == 0
    requires EnabledPending(h) & 0x888 != 0
    ensures FirstStaysInM(h)
  {
    MachineBitLeads(EnabledPending(h), h.m.ideleg.bits);
  }

  lemma MachineBitLeads(bits: bv64, ideleg: bv64)
    requires ideleg & !S_MODE_INT_MASK == 0 && bits & 0x888 != 0
    ensures !BitSet(W(ideleg), BitsToIntType(bits))
  {
  }

  /** A contest: SEI delegated, SSI not, both pending in U-mode.  The code takes SEI,
      the standard SSI. */
  lemma DelegatedGoesFirst(h: Hart)
    requires h.priv == U_MODE && h.mip == W(0x202) && h.mie == W(0x202) && h.m.ideleg == W(0x200)
    ensures InterruptTaken(h) == Some(INT_S_EXT) && StandardInterrupt(h) == Some(INT_S_SW)
  {
    assert EnabledPending(h) == 0x202 && Undelegated(h) == 0x2;
  }

  /** The code meets the standard exactly when there is no contest: otherwise it
      takes a delegated interrupt first, or lets it mask the others. */
  lemma InterruptsMeetStandard(h: Hart)
    requires IntEnableFits(h) && Level(h.priv)
    ensures InterruptTaken(h) == StandardInterrupt(h) <==> NoContest(h)
  {
    if h.priv == M_MODE {
      MachineModeMeetsStandard(h);
    } else if DelegatedPending(h) == 0 || Undelegated(h) == 0 {
      OneKindMeetsStandard(h);
    } else {
      BothKindsContest(h);
    }
  }

  /** The updates of `preExec` before it looks at interrupts. */
  function Sampled(h: Hart, l: Lines): Hart {
    h.(mcycle := W(h.mcycle.bits + 1), mip := SampledMip(h.mip, l), needTrap := false, priv := h.nextPriv)
  }

  /** No enabled bit lies outside the six interrupts. */
  predicate IntEnableFits(h: Hart) {
    h.mie.bits & !M_MODE_INT_MASK == 0
  }

  predicate RealInterrupt(code: bv64) {
    code == INT_S_SW || code == INT_M_SW || code == INT_S_TIMER ||
    code == INT_M_TIMER || code == INT_S_EXT || code == INT_M_EXT
  }

  /** Selecting among any part of the pending bits finds a pending interrupt. */
  lemma SelectionIsPending(bits: bv64, part: bv64)
    requires bits & !M_MODE_INT_MASK == 0 && bits & part != 0
    ensures RealInterrupt(BitsToIntType(bits & part)) && BitSet(W(bits), BitsToIntType(bits & part))
  {
  }

  lemma NothingToSelect(bits: bv64)
    requires bits & !M_MODE_INT_MASK == 0
    ensures BitsToIntType(bits) == INT_NO_INT <==> bits == 0
  {
  }

  lemma WholePart(bits: bv64)
    ensures bits & 0xffff_ffff_ffff_ffff == bits
  {
  }

  /** With mie in its mask the selected interrupt is one of the six, pending and
      enabled. */
  lemma SelectedInterruptIsReal(h: Hart)
    requires IntEnableFits(h) && InterruptTaken(h).Some?
    ensures RealInterrupt(InterruptTaken(h).value)
    ensures BitSet(W(EnabledPending(h)), InterruptTaken(h).value)
  {
    var bits := EnabledPending(h);
    MaskedPart(h.mip.bits, h.mie.bits);
    NothingToSelect(bits);
    if h.priv == M_MODE {
      SelectionIsPending(bits, !h.m.ideleg.bits);
    } else {
      WholePart(bits);
      SelectionIsPending(bits, 0xffff_ffff_ffff_ffff);
    }
  }

  lemma MaskedPart(w: bv64, mie: bv64)
    requires mie & !M_MODE_INT_MASK == 0
    ensures w & mie & !M_MODE_INT_MASK == 0
  {
  }

  function PreExec(h: Hart, l: Lines): Hart
    requires IntEnableFits(h)
  {
    var s := Sampled(h, l);
    var i := InterruptTaken(s);
    if i.None? then s
    else SelectedInterruptIsReal(s); RaiseTrap(s, Cause(i.value, true), ZERO)
  }
}
