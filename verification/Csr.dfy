/** Control and status registers: reads, writes and the permission test. */
module Csr {
  import opened Words
  import opened StatusBits
  import opened Privilege

  type Index = bv12

  /** The registers that the core implements. */
  datatype Register =
    | Sstatus | Sie | Stvec | Scounteren | Sscratch | Sepc | Scause | Stval | Sip | Satp
    | Mstatus | Misa | Medeleg | Mideleg | Mie | Mtvec | Mcounteren | Mscratch
    | Mepc | Mcause | Mtval | Mip | Tselect | Tdata1 | Mcycle | Minstret
    | Cycle | Mvendorid | Marchid | Mimpid | Mhartid | Mconfigptr

  /** The register at an index, if there is one. */
  function RegisterAt(i: Index): Option<Register> {
    if i == 0x100 then Some(Sstatus)
    else if i == 0x104 then Some(Sie)
    else if i == 0x105 then Some(Stvec)
    else if i == 0x106 then Some(Scounteren)
    else if i == 0x140 then Some(Sscratch)
    else if i == 0x141 then Some(Sepc)
    else if i == 0x142 then Some(Scause)
    else if i == 0x143 then Some(Stval)
    else if i == 0x144 then Some(Sip)
    else if i == 0x180 then Some(Satp)
    else if i == 0x300 then Some(Mstatus)
    else if i == 0x301 then Some(Misa)
    else if i == 0x302 then Some(Medeleg)
    else if i == 0x303 then Some(Mideleg)
    else if i == 0x304 then Some(Mie)
    else if i == 0x305 then Some(Mtvec)
    else if i == 0x306 then Some(Mcounteren)
    else if i == 0x340 then Some(Mscratch)
    else if i == 0x341 then Some(Mepc)
    else if i == 0x342 then Some(Mcause)
    else if i == 0x343 then Some(Mtval)
    else if i == 0x344 then Some(Mip)
    else if i == 0x7a0 then Some(Tselect)
    else if i == 0x7a1 then Some(Tdata1)
    else if i == 0xb00 then Some(Mcycle)
    else if i == 0xb02 then Some(Minstret)
    else if i == 0xc00 then Some(Cycle)
    else if i == 0xf11 then Some(Mvendorid)
    else if i == 0xf12 then Some(Marchid)
    else if i == 0xf13 then Some(Mimpid)
    else if i == 0xf14 then Some(Mhartid)
    else if i == 0xf15 then Some(Mconfigptr)
    else None
  }

  /** None where the source refuses the access. */
  function ReadRegister(h: Hart, r: Register): Option<Word> {
    match r
    case Mvendorid | Marchid | Mimpid | Mconfigptr | Tdata1 => Some(ZERO)
    case Tselect => Some(W(1))
    case Mhartid => Some(h.hartId)
    case Mstatus => Some(W(PackM(h.status)))
    case Misa => Some(h.misa)
    case Medeleg => Some(h.m.edeleg)
    case Mideleg => Some(h.m.ideleg)
    case Mie => Some(h.mie)
    case Mtvec => Some(h.m.tvec)
    case Mcounteren => Some(h.m.counteren)
    case Mscratch => Some(h.m.scratch)
    case Mepc => Some(h.m.epc)
    case Mcause => Some(h.m.cause)
    case Mtval => Some(h.m.tval)
    case Mip => Some(h.mip)
    case Mcycle => Some(h.mcycle)
    case Minstret => Some(h.minstret)
    case Sstatus => Some(W(PackS(SStatusRead(h.status))))
    case Sie => Some(Masked(h.mie, S_MODE_INT_MASK))
    case Stvec => Some(h.s.tvec)
    case Scounteren => Some(h.s.counteren)
    case Sscratch => Some(h.s.scratch)
    case Sepc => Some(h.s.epc)
    case Scause => Some(h.s.cause)
    case Stval => Some(h.s.tval)
    case Sip => Some(Masked(h.mip, S_MODE_INT_MASK))
    case Satp => if h.priv == S_MODE && h.status.tvm == 1 then None else Some(h.s.satp)
    case Cycle =>
      if h.priv <= S_MODE && (h.m.counteren.bits & 1 == 0 || h.s.counteren.bits & 1 == 0) then None else Some(h.mcycle)
  }

  function CsrRead(h: Hart, i: Index): Option<Word> {
    var r := RegisterAt(i);
    if r.None? then None else ReadRegister(h, r.value)
  }

  /** A written word, and how it looks through the two status layouts. */
  datatype Data = Data(word: Word, asM: MStatus, asS: SStatus)

  function Seen(word: Word): Data {
    Data(word, UnpackM(word.bits), UnpackS(word.bits))
  }

  /** The fields of mstatus that a write replaces. */
  function WriteMStatus(m: MStatus, n: MStatus): MStatus {
    m.(sie := n.sie, mie := n.mie, spie := n.spie, mpie := n.mpie, spp := n.spp, mpp := n.mpp,
       mprv := n.mprv, sum := n.sum, mxr := n.mxr, tvm := n.tvm, tw := n.tw, tsr := n.tsr)
  }

  /** The fields of sstatus that a write replaces. */
  function WriteSStatus(m: MStatus, n: SStatus): MStatus {
    m.(sie := n.sie, spie := n.spie, spp := n.spp, sum := n.sum, mxr := n.mxr)
  }

  /** The source stores these fields through the sstatus layout: the same. */
  lemma WriteSThroughLayout(m: MStatus, n: SStatus)
    ensures FromS(SView(m).(sie := n.sie, spie := n.spie, spp := n.spp, sum := n.sum, mxr := n.mxr))
         == WriteSStatus(m, n)
  {
    SStoreIsMStore(m, n.sie, n.spie, n.spp, n.sum, n.mxr);
  }

  function Masked(w: Word, mask: bv64): Word {
    W(w.bits & mask)
  }

  /** The supervisor's bits of data over the rest of w. */
  function Merged(w: Word, data: Word): Word {
    W((w.bits & !S_MODE_INT_MASK) | (data.bits & S_MODE_INT_MASK))
  }

  function LegalTvec(data: Word): Word {
    if data.bits & 3 > 1 then W(data.bits & 0xffff_ffff_ffff_fffc) else data
  }

  function LegalSatp(data: Word): Word {
    if data.bits >> 60 != 0 && data.bits >> 60 != 8 then W(data.bits & 0x0fff_ffff_ffff_ffff) else data
  }

  /** The registers that are S-mode's alone. */
  predicate OwnRegister(r: Register) {
    r.Stvec? || r.Scounteren? || r.Sscratch? || r.Sepc? || r.Scause? || r.Stval? || r.Satp?
  }

  /** The registers that are M-mode's alone. */
  predicate MachineRegister(r: Register) {
    r.Medeleg? || r.Mideleg? || r.Mtvec? || r.Mcounteren? || r.Mscratch? || r.Mepc? || r.Mcause? || r.Mtval?
  }

  function WriteOwn(s: SupervisorRegs, r: Register, data: Word): SupervisorRegs
    requires OwnRegister(r)
  {
    match r
    case Stvec => s.(tvec := LegalTvec(data))
    case Scounteren => s.(counteren := Masked(data, COUNTER_MASK))
    case Sscratch => s.(scratch := data)
    case Sepc => s.(epc := data)
    case Scause => s.(cause := data)
    case Stval => s.(tval := data)
    case Satp => s.(satp := LegalSatp(data))
  }

  function WriteMachine(m: MachineRegs, r: Register, data: Word): MachineRegs
    requires MachineRegister(r)
  {
    match r
    case Medeleg => m.(edeleg := Masked(data, S_MODE_EXC_MASK))
    case Mideleg => m.(ideleg := Masked(data, S_MODE_INT_MASK))
    case Mtvec => m.(tvec := data)
    case Mcounteren => m.(counteren := Masked(data, COUNTER_MASK))
    case Mscratch => m.(scratch := data)
    case Mepc => m.(epc := data)
    case Mcause => m.(cause := data)
    case Mtval => m.(tval := data)
  }

  /** The interrupt registers and their supervisor views. */
  predicate InterruptRegister(r: Register) {
    r.Mie? || r.Sie? || r.Mip? || r.Sip?
  }

  function WriteInterrupt(h: Hart, r: Register, data: Word): Hart
    requires InterruptRegister(r)
  {
    match r
    case Mie => h.(mie := Masked(data, M_MODE_INT_MASK))
    case Sie => h.(mie := Merged(h.mie, data))
    case Mip => h.(mip := Masked(data, M_MODE_INT_MASK))
    case Sip => h.(mip := Merged(h.mip, data))
  }

  /** The two views of the status word. */
  predicate StatusRegister(r: Register) {
    r.Mstatus? || r.Sstatus?
  }

  function WriteStatus(m: MStatus, r: Register, data: Data): MStatus
    requires StatusRegister(r)
  {
    if r.Mstatus? then WriteMStatus(m, data.asM) else WriteSStatus(m, data.asS)
  }

  /** The registers that both modes see, and the few that stand alone. */
  function WriteShared(h: Hart, r: Register, data: Data): Option<Hart> {
    if InterruptRegister(r) then Some(WriteInterrupt(h, r, data.word))
    else if StatusRegister(r) then Some(h.(status := WriteStatus(h.status, r, data)))
    else
      match r
      case Mcycle => Some(h.(mcycle := data.word))
      case Misa | Tselect | Tdata1 => Some(h)
      case _ => None
  }

  /** None where the source refuses the access.  (A write of mtvec also asserts that
      the mode, its two low bits, is at most 1.) */
  function WriteRegister(h: Hart, r: Register, data: Data): Option<Hart> {
    if r.Satp? && h.priv == S_MODE && h.status.tvm == 1 then None
    else if OwnRegister(r) then Some(h.(s := WriteOwn(h.s, r, data.word)))
    else if MachineRegister(r) then Some(h.(m := WriteMachine(h.m, r, data.word)))
    else WriteShared(h, r, data)
  }

  function CsrWrite(h: Hart, i: Index, data: Word): Option<Hart> {
    var r := RegisterAt(i);
    if r.None? then None else WriteRegister(h, r.value, Seen(data))
  }

  /** Bits 9 and 8: the lowest privilege that may use the register. */
  function LevelOf(i: Index): bv2 {
    ((i >> 8) & 3) as bv2
  }

  predicate Permitted(h: Hart, i: Index, write: bool) {
    LevelOf(i) <= h.priv && !((i >> 10) & 3 == 3 && write)
  }

  // ----- Laws

  /** The bits of a shared register that S-mode does not see. */
  function OutsideS(w: Word): Word {
    Masked(w, !S_MODE_INT_MASK)
  }

  /** No register write changes the flow of control, or the count of instructions. */
  lemma CsrWriteKeepsControl(h: Hart, i: Index, data: Word)
    requires CsrWrite(h, i, data).Some?
    ensures SameControl(h, CsrWrite(h, i, data).value)
  {
  }

  predicate SameControl(h: Hart, n: Hart) {
    n.pc == h.pc && n.trapPc == h.trapPc && n.needTrap == h.needTrap && n.priv == h.priv &&
    n.nextPriv == h.nextPriv && n.minstret == h.minstret
  }

  predicate SameOutsideS(w: Word, n: Word) {
    OutsideS(w) == OutsideS(n)
  }

  /** Only supervisor registers, and the supervisor's fields of the shared ones,
      differ between h and n. */
  predicate MachineUntouched(h: Hart, n: Hart) {
    n.status == h.status.(sie := n.status.sie, spie := n.status.spie, spp := n.status.spp,
                          sum := n.status.sum, mxr := n.status.mxr) &&
    SameOutsideS(h.mie, n.mie) && SameOutsideS(h.mip, n.mip) &&
    n == h.(status := n.status, mie := n.mie, mip := n.mip, s := n.s)
  }

  predicate SupervisorRegister(r: Register) {
    OwnRegister(r) || r.Sstatus? || r.Sie? || r.Sip?
  }

  lemma LevelsSeparate(i: Index)
    requires RegisterAt(i).Some? && LevelOf(i) <= S_MODE
    ensures SupervisorRegister(RegisterAt(i).value) || RegisterAt(i).value.Cycle?
    ensures SupervisorRegister(RegisterAt(i).value) ==> LevelOf(i) == S_MODE
  {
  }

  /** A write that S-mode is allowed leaves every M-only register and field as
      it was. */
  lemma SupervisorWritesStayInS(h: Hart, i: Index, data: Word)
    requires h.priv <= S_MODE && Permitted(h, i, true) && CsrWrite(h, i, data).Some?
    ensures MachineUntouched(h, CsrWrite(h, i, data).value)
  {
    LevelsSeparate(i);
    SupervisorRegisterWrite(h, RegisterAt(i).value, Seen(data));
  }

  lemma SupervisorRegisterWrite(h: Hart, r: Register, data: Data)
    requires SupervisorRegister(r) && WriteRegister(h, r, data).Some?
    ensures MachineUntouched(h, WriteRegister(h, r, data).value)
  {
    if OwnRegister(r) {
      OwnRegisterWrite(h, r, data);
    } else {
      SstatusWrite(h, data.asS);
      SieWrite(h, data.word);
      SipWrite(h, data.word);
    }
  }

  lemma SstatusWrite(h: Hart, n: SStatus)
    ensures MachineUntouched(h, h.(status := WriteSStatus(h.status, n)))
  {
  }

  lemma SieWrite(h: Hart, data: Word)
    ensures MachineUntouched(h, h.(mie := Merged(h.mie, data)))
  {
    MergeKeepsOutside(h.mie, data);
  }

  lemma SipWrite(h: Hart, data: Word)
    ensures MachineUntouched(h, h.(mip := Merged(h.mip, data)))
  {
    MergeKeepsOutside(h.mip, data);
  }

  lemma OwnRegisterWrite(h: Hart, r: Register, data: Data)
    requires OwnRegister(r) && WriteRegister(h, r, data).Some?
    ensures MachineUntouched(h, WriteRegister(h, r, data).value)
  {
  }

  lemma MergeKeepsOutside(w: Word, data: Word)
    ensures SameOutsideS(w, Merged(w, data))
  {
    MergedBits(w.bits, data.bits, !S_MODE_INT_MASK);
    assert !!S_MODE_INT_MASK == S_MODE_INT_MASK;
  }

  lemma MergedBits(w: bv64, data: bv64, keep: bv64)
    ensures ((w & keep) | (data & !keep)) & keep == w & keep
  {
  }

  /** U-mode may write no register at all. */
  lemma UserWritesNothing(h: Hart, i: Index, data: Word)
    requires h.priv == U_MODE && Permitted(h, i, true)
    ensures CsrWrite(h, i, data).None?
  {
    if RegisterAt(i).Some? {
      LevelsSeparate(i);
    }
  }

  /** A read of sstatus is the masked word of mstatus, and writing it back
      changes nothing. */
  lemma SStatusRoundTrip(h: Hart, word: Word)
    requires ReadRegister(h, Sstatus) == Some(word)
    ensures word.bits == PackM(h.status) & SSTATUS_MASK
    ensures WriteRegister(h, Sstatus, Seen(word)) == Some(h)
  {
    SStatusReadIsMasked(h.status);
    UnpackOfPackS(SStatusRead(h.status));
  }

  lemma MStatusRoundTrip(h: Hart, word: Word)
    requires ReadRegister(h, Mstatus) == Some(word)
    ensures WriteRegister(h, Mstatus, Seen(word)) == Some(h)
  {
    UnpackOfPackM(h.status);
  }
}
