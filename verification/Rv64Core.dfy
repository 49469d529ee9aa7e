/** The core as the source has it: an object whose methods update its registers
    in place, and which fetches, loads, stores and fences through the MMU object
    with its two caches.  Every method is proved against the functions on values,
    which know no cache. */
module Rv64Core {
  import opened Words
  import opened StatusBits
  import opened Privilege
  import opened Csr
  import opened Isa
  import opened Exec
  import opened CoreStep
  import opened CoreRuns
  import opened CoreSoftware
  import opened CoreUses
  import opened Sv39Uses
  import Alu
  import CsrLaws
  import InterruptLaws
  import Rvc
  import StepLaws
  import Sv39Access
  import Sv39Mmu
  import Sv39Software
  import Sv39Tlb

  /** A register as the debugger sees it. */
  datatype RegItem = RegItem(id: nat, size: nat, val: U64)

  const REG_NUM := 33

  /** General registers, then the program counter, eight bytes each. */
  function Dumped(gpr: seq<Alu.I64>, pc: Word): (items: seq<RegItem>)
    requires |gpr| == 32
    ensures |items| == REG_NUM
  {
    seq(REG_NUM, i requires 0 <= i < REG_NUM => RegItem(i, 8, if i < 32 then Alu.U64(gpr[i]) else AddressOf(pc)))
  }

  class RV64Core {
    var currentProgramCounter: Word
    var trapProgramCounter: Word
    var needTrap: bool
    var currentPrivMode: Mode
    var nextPrivMode: Mode
    var status: MStatus
    var m: MachineRegs
    var s: SupervisorRegs
    var csrIntPending: Word
    var csrIntEnable: Word
    var csrMCycleNum: Word
    var minstret: Word
    var rvHartID: Word
    var csrMachineISA: Word
    const gpr: array<Alu.I64>
    const mmu: Sv39Mmu.RV64Sv39Mmu
    var reserved: Reservation

    ghost predicate Valid() {
      gpr.Length == 32
    }

    /** The MMU's caches are consistent with the translations in use. */
    ghost predicate Ready()
      reads mmu, mmu.tlb
    {
      Valid() && mmu.Valid()
    }

    /** All registers but the general ones. */
    function Registers(): Hart
      reads this
    {
      Hart(currentProgramCounter, trapProgramCounter, needTrap, currentPrivMode, nextPrivMode, status, m, s,
           csrIntPending, csrIntEnable, csrMCycleNum, minstret, rvHartID, csrMachineISA)
    }

    ghost function State(): Machine
      reads this, gpr, mmu.bus
    {
      Machine(Registers(), gpr[..], mmu.bus.mem, reserved)
    }

    /** The core is ready and may make the access, if it is one. */
    ghost predicate ReadyFor(u: Option<Use>)
      reads this, gpr, mmu, mmu.tlb, mmu.bus
    {
      Ready() && MayUse(State(), mmu.history, u)
    }

    constructor (hart: Word, bus: Sv39Mmu.SystemBus)
      ensures Ready() && mmu.history == {} && mmu.bus == bus
      ensures fresh(gpr) && fresh(mmu) && fresh(mmu.tlb) && fresh(mmu.regs)
      ensures State() == Machine(Reset(Registers()), seq<Alu.I64>(32, _ => 0), bus.mem, Reservation(false, 0, 0))
      ensures rvHartID == hart
    {
      currentProgramCounter, trapProgramCounter, needTrap := ZERO, ZERO, false;
      currentPrivMode, nextPrivMode, status := M_MODE, M_MODE, RESET_STATUS;
      m := MachineRegs(ZERO, ZERO, ZERO, ZERO, ZERO, ZERO, ZERO, ZERO);
      s := SupervisorRegs(ZERO, ZERO, ZERO, ZERO, ZERO, ZERO, ZERO);
      csrIntPending, csrIntEnable, csrMCycleNum, minstret := ZERO, ZERO, ZERO, ZERO;
      rvHartID, csrMachineISA := hart, W(0x8000_0000_0014_1105);
      gpr := new Alu.I64[32](_ => 0);
      reserved := Reservation(false, 0, 0);
      var regs := new Sv39Mmu.CoreRegisters();
      var slots := new Sv39Tlb.TlbEntry[Sv39Tlb.TLB_SIZE];
      mmu := new Sv39Mmu.RV64Sv39Mmu(regs, bus, slots);
    }

    /** The registers that the MMU reads by reference, as they are now. */
    method Share()
      modifies mmu.regs
      ensures mmu.regs.Context() == ContextOf(Registers())
    {
      var c := ContextOf(Registers());
      mmu.regs.satp := c.satp;
      mmu.regs.status := c.status;
      mmu.regs.currentPrivMode := c.priv;
    }

    method WriteProgramCounter(pc: Word)
      modifies `currentProgramCounter
      ensures currentProgramCounter == pc
    {
      currentProgramCounter := pc;
    }

    method SetGpr(r: Reg, value: Alu.I64)
      requires Valid()
      modifies gpr
      ensures State() == Exec.SetGpr(old(State()), r, value)
    {
      if r != 0 {
        gpr[r as int] := value;
      }
    }

    // ----- Traps

    /** The sstatus fields, stored through their own layout of the status word. */
    method EnterSStatus()
      modifies `status
      ensures status == Privilege.EnterSStatus(old(status), currentPrivMode)
    {
      EnterSThroughLayout(status, currentPrivMode);
      var sstatus := SView(status);
      sstatus := sstatus.(spie := sstatus.sie);
      sstatus := sstatus.(sie := 0);
      sstatus := sstatus.(spp := (currentPrivMode & 1) as bv1);
      status := FromS(sstatus);
    }

    method EnterMStatus()
      modifies `status
      ensures status == Privilege.EnterMStatus(old(status), currentPrivMode)
    {
      status := status.(mpie := status.mie);
      status := status.(mie := 0);
      status := status.(mpp := currentPrivMode);
    }

    method TrapToS(cause: TrapCause, tval: Word)
      requires !needTrap && TrapsToS(Registers(), cause)
      modifies `needTrap, `s, `status, `trapProgramCounter, `nextPrivMode
      ensures Registers() == Privilege.RaiseTrap(old(Registers()), cause, tval)
    {
      hide CauseWord, TrapVector, Privilege.EnterSStatus;
      needTrap := true;
      s := s.(tval := tval, cause := CauseWord(cause), epc := currentProgramCounter);
      EnterSStatus();
      trapProgramCounter := TrapVector(s.tvec, cause);
      nextPrivMode := S_MODE;
    }

    method TrapToM(cause: TrapCause, tval: Word)
      requires !needTrap && !TrapsToS(Registers(), cause)
      modifies `needTrap, `m, `status, `trapProgramCounter, `nextPrivMode
      ensures Registers() == Privilege.RaiseTrap(old(Registers()), cause, tval)
    {
      hide CauseWord, TrapVector, Privilege.EnterMStatus;
      needTrap := true;
      m := m.(tval := tval, cause := CauseWord(cause), epc := currentProgramCounter);
      EnterMStatus();
      trapProgramCounter := TrapVector(m.tvec, cause);
      nextPrivMode := M_MODE;
    }

    method RaiseTrap(cause: TrapCause, tval: Word)
      requires !needTrap
      modifies `needTrap, `m, `s, `status, `trapProgramCounter, `nextPrivMode
      ensures Registers() == Privilege.RaiseTrap(old(Registers()), cause, tval)
      ensures CsrLaws.Entered(old(Registers()), cause, tval, Registers())
    {
      CsrLaws.TrapShows(Registers(), cause, tval);
      if TrapsToS(Registers(), cause) {
        TrapToS(cause, tval);
      } else {
        TrapToM(cause, tval);
      }
    }

    method Mret() returns (ok: bool)
      modifies `needTrap, `status, `trapProgramCounter, `nextPrivMode
      ensures ok == Privilege.Mret(old(Registers())).Some?
      ensures Registers() == if ok then Privilege.Mret(old(Registers())).value else old(Registers())
    {
      if currentPrivMode != M_MODE {
        return false;
      }
      status := status.(mie := status.mpie);
      nextPrivMode := status.mpp;
      status := status.(mpie := 1);
      if status.mpp != M_MODE {
        status := status.(mprv := 0);
      }
      status := status.(mpp := U_MODE);
      needTrap := true;
      trapProgramCounter := m.epc;
      ok := true;
    }

    /** The sstatus fields, stored through their own layout of the status word. */
    method LeaveSStatus()
      modifies `status
      ensures status == Privilege.LeaveSStatus(old(status))
    {
      LeaveSThroughLayout(status);
      var sstatus := SView(status);
      sstatus := sstatus.(sie := sstatus.spie);
      sstatus := sstatus.(spie := 1);
      sstatus := sstatus.(spp := 0);
      status := FromS(sstatus);
    }

    method Sret() returns (ok: bool)
      modifies `needTrap, `status, `trapProgramCounter, `nextPrivMode
      ensures ok == Privilege.Sret(old(Registers())).Some?
      ensures Registers() == if ok then Privilege.Sret(old(Registers())).value else old(Registers())
    {
      if currentPrivMode < S_MODE || status.tsr == 1 {
        return false;
      }
      nextPrivMode := SView(status).spp as bv2;
      LeaveSStatus();
      status := status.(mprv := 0);
      needTrap := true;
      trapProgramCounter := s.epc;
      ok := true;
    }

    // ----- Interrupts

    /** The part of `preExec` before interrupts are considered. */
    method Sample(l: Lines)
      modifies `csrMCycleNum, `csrIntPending, `needTrap, `currentPrivMode
      ensures Registers() == Sampled(old(Registers()), l)
    {
      csrMCycleNum := W(csrMCycleNum.bits + 1);
      csrIntPending := SampledMip(csrIntPending, l);
      needTrap := false;
      currentPrivMode := nextPrivMode;
    }

    method PreExec(l: Lines)
      requires IntEnableFits(Registers())
      modifies `csrMCycleNum, `csrIntPending, `currentPrivMode
      modifies `needTrap, `m, `s, `status, `trapProgramCounter, `nextPrivMode
      ensures Registers() == Privilege.PreExec(old(Registers()), l)
      ensures InterruptLaws.Wakes(old(Registers()), l, Registers())
    {
      InterruptLaws.PreExecWakes(Registers(), l);
      Sample(l);
      var choice := InterruptTaken(Registers());
      if choice.Some? {
        SelectedInterruptIsReal(Registers());
        RaiseTrap(Cause(choice.value, true), ZERO);
      }
    }

    // ----- Control and status registers

    method WriteOwnRegister(r: Register, data: Word)
      requires OwnRegister(r)
      modifies `s
      ensures s == WriteOwn(old(s), r, data)
    {
      match r
      case Stvec => s := s.(tvec := LegalTvec(data));
      case Scounteren => s := s.(counteren := Masked(data, COUNTER_MASK));
      case Sscratch => s := s.(scratch := data);
      case Sepc => s := s.(epc := data);
      case Scause => s := s.(cause := data);
      case Stval => s := s.(tval := data);
      case Satp => s := s.(satp := LegalSatp(data));
    }

    method WriteMachineRegister(r: Register, data: Word)
      requires MachineRegister(r)
      modifies `m
      ensures m == WriteMachine(old(m), r, data)
    {
      match r
      case Medeleg => m := m.(edeleg := Masked(data, S_MODE_EXC_MASK));
      case Mideleg => m := m.(ideleg := Masked(data, S_MODE_INT_MASK));
      case Mtvec => m := m.(tvec := data);
      case Mcounteren => m := m.(counteren := Masked(data, COUNTER_MASK));
      case Mscratch => m := m.(scratch := data);
      case Mepc => m := m.(epc := data);
      case Mcause => m := m.(cause := data);
      case Mtval => m := m.(tval := data);
    }

    method WriteInterruptRegister(r: Register, data: Word)
      requires InterruptRegister(r)
      modifies `csrIntPending, `csrIntEnable
      ensures Registers() == WriteInterrupt(old(Registers()), r, data)
    {
      match r
      case Mie => csrIntEnable := Masked(data, M_MODE_INT_MASK);
      case Sie => csrIntEnable := Merged(csrIntEnable, data);
      case Mip => csrIntPending := Masked(data, M_MODE_INT_MASK);
      case Sip => csrIntPending := Merged(csrIntPending, data);
    }

    /** The sstatus fields, stored through their own layout of the status word. */
    method WriteSStatusFields(n: SStatus)
      modifies `status
      ensures status == WriteSStatus(old(status), n)
    {
      WriteSThroughLayout(status, n);
      var sstatus := SView(status);
      sstatus := sstatus.(sie := n.sie, spie := n.spie);
      sstatus := sstatus.(spp := n.spp);
      sstatus := sstatus.(sum := n.sum, mxr := n.mxr);
      status := FromS(sstatus);
    }

    method WriteStatusRegister(r: Register, data: Data)
      requires StatusRegister(r)
      modifies `status
      ensures status == WriteStatus(old(status), r, data)
    {
      if r.Mstatus? {
        status := WriteMStatus(status, data.asM);
      } else {
        WriteSStatusFields(data.asS);
      }
    }

    method WriteSharedRegister(r: Register, data: Data) returns (ok: bool)
      modifies `status, `csrIntPending, `csrIntEnable, `csrMCycleNum
      ensures WriteShared(old(Registers()), r, data) == if ok then Some(Registers()) else None
      ensures !ok ==> Registers() == old(Registers())
    {
      ok := true;
      if InterruptRegister(r) {
        WriteInterruptRegister(r, data.word);
      } else if StatusRegister(r) {
        WriteStatusRegister(r, data);
      } else {
        match r
        case Mcycle => csrMCycleNum := data.word;
        case Misa | Tselect | Tdata1 =>
        case _ => ok := false;
      }
    }

    method WriteCsrRegister(r: Register, data: Data) returns (ok: bool)
      modifies `status, `m, `s, `csrIntPending, `csrIntEnable, `csrMCycleNum
      ensures WriteRegister(old(Registers()), r, data) == if ok then Some(Registers()) else None
      ensures !ok ==> Registers() == old(Registers())
    {
      if r.Satp? && currentPrivMode == S_MODE && status.tvm == 1 {
        return false;
      }
      ok := true;
      if OwnRegister(r) {
        WriteOwnRegister(r, data.word);
      } else if MachineRegister(r) {
        WriteMachineRegister(r, data.word);
      } else {
        ok := WriteSharedRegister(r, data);
      }
    }

    method WriteCsr(i: Csr.Index, data: Word) returns (ok: bool)
      modifies `status, `m, `s, `csrIntPending, `csrIntEnable, `csrMCycleNum
      ensures CsrWrite(old(Registers()), i, data) == if ok then Some(Registers()) else None
      ensures !ok ==> Registers() == old(Registers())
    {
      var r := RegisterAt(i);
      if r.None? {
        return false;
      }
      ok := WriteCsrRegister(r.value, Seen(data));
    }

    /** An exception. */
    method Trap(code: bv64, tval: Word)
      requires Valid() && !needTrap && code != EXEC_OK
      modifies `needTrap, `m, `s, `status, `trapProgramCounter, `nextPrivMode
      ensures State() == Exec.Trap(old(State()), code, tval)
    {
      RaiseTrap(Cause(code, false), tval);
    }

    // ----- Memory

    method ReadThrough(addr: U64, size: nat) returns (fb: Sv39Access.Feedback, bytes: seq<Byte>)
      requires size >= 1 && ReadyFor(Some(Use(Sv39Access.Load, addr, size)))
      modifies mmu, mmu.tlb, mmu.regs
      ensures Ready() && State() == old(State())
      ensures mmu.history == Used(State(), old(mmu.history), Some(Use(Sv39Access.Load, addr, size)))
      ensures (fb, bytes) == Read(State(), addr, size)
    {
      hide ContextOf, Touched, MayAccess, Sv39Access.PlainRead, Sv39Tlb.Inv;
      Share();
      fb, bytes := mmu.VAddrRead(addr, size);
    }

    method WriteThrough(addr: U64, bytes: seq<Byte>) returns (fb: Sv39Access.Feedback)
      requires |bytes| >= 1 && ReadyFor(Some(Use(Sv39Access.Store, addr, |bytes|)))
      modifies mmu, mmu.tlb, mmu.regs, mmu.bus
      ensures Ready() && State() == old(State()).(mem := mmu.bus.mem)
      ensures mmu.history == Used(old(State()), old(mmu.history), Some(Use(Sv39Access.Store, addr, |bytes|)))
      ensures (fb, mmu.bus.mem) == Written(old(State()), addr, bytes)
    {
      hide ContextOf, Touched, MayAccess, Sv39Access.PlainWrite, Sv39Tlb.Inv;
      Share();
      fb := mmu.VAddrWrite(addr, bytes);
    }

    method LoadTarget(addr: U64, size: nat) returns (target: Sv39Access.Target)
      requires ReadyFor(Some(Use(Sv39Access.Load, addr, size)))
      modifies mmu, mmu.tlb, mmu.regs
      ensures Ready() && State() == old(State())
      ensures mmu.history == Used(State(), old(mmu.history), Some(Use(Sv39Access.Load, addr, size)))
      ensures target == TargetFor(State(), Use(Sv39Access.Load, addr, size))
    {
      hide ContextOf, Touched, MayAccess, Sv39Access.TargetOf, Sv39Tlb.Inv;
      Share();
      target := mmu.LoadTarget(addr, size);
    }

    method StoreTarget(addr: U64, size: nat) returns (target: Sv39Access.Target)
      requires ReadyFor(Some(Use(Sv39Access.Store, addr, size)))
      modifies mmu, mmu.tlb, mmu.regs
      ensures Ready() && State() == old(State())
      ensures mmu.history == Used(State(), old(mmu.history), Some(Use(Sv39Access.Store, addr, size)))
      ensures target == TargetFor(State(), Use(Sv39Access.Store, addr, size))
    {
      hide ContextOf, Touched, MayAccess, Sv39Access.TargetOf, Sv39Tlb.Inv;
      Share();
      target := mmu.StoreTarget(addr, size);
    }

    method MemRead(addr: U64, size: nat) returns (bytes: Option<seq<Byte>>)
      requires !needTrap && size >= 1 && ReadyFor(Aligned(Sv39Access.Load, addr, size))
      modifies `needTrap, `m, `s, `status, `trapProgramCounter, `nextPrivMode, mmu, mmu.tlb, mmu.regs
      ensures Ready() && (State(), bytes) == Exec.MemRead(old(State()), addr, size)
      ensures mmu.history == Used(old(State()), old(mmu.history), Aligned(Sv39Access.Load, addr, size))
    {
      hide ContextOf, Touched, MayAccess, Sv39Access.PlainRead, Exec.Trap, Sv39Tlb.Inv;
      if addr % size != 0 {
        Trap(LOAD_MISALIGN, AddressWord(addr));
        return None;
      }
      var fb, read := ReadThrough(addr, size);
      if fb == Sv39Access.AccessOk {
        return Some(read);
      }
      Trap(LoadFaultCode(fb), AddressWord(addr));
      bytes := None;
    }

    method MemWrite(addr: U64, bytes: seq<Byte>)
      requires !needTrap && |bytes| >= 1 && ReadyFor(Aligned(Sv39Access.Store, addr, |bytes|))
      modifies `needTrap, `m, `s, `status, `trapProgramCounter, `nextPrivMode, mmu, mmu.tlb, mmu.regs, mmu.bus
      ensures Ready() && State() == Exec.MemWrite(old(State()), addr, bytes)
      ensures mmu.history == Used(old(State()), old(mmu.history), Aligned(Sv39Access.Store, addr, |bytes|))
    {
      hide ContextOf, Touched, MayAccess, Sv39Access.PlainWrite, Exec.Trap, Sv39Tlb.Inv;
      if addr % |bytes| != 0 {
        Trap(STORE_MISALIGN, AddressWord(addr));
        return;
      }
      var fb := WriteThrough(addr, bytes);
      if fb == Sv39Access.AccessOk {
        return;
      }
      FailedWrite(old(State()), addr, bytes);
      Trap(StoreFaultCode(fb), AddressWord(addr));
    }

    // ----- Instructions

    method JumpTo(npc: Word, link: Reg, back: Alu.I64) returns (jumped: bool)
      requires Valid() && !needTrap
      modifies `needTrap, `m, `s, `status, `trapProgramCounter, `nextPrivMode, `currentProgramCounter, gpr
      ensures Outcome(State(), jumped, false) == Exec.JumpTo(old(State()), npc, link, back)
    {
      if npc.bits & 1 != 0 {
        Trap(INSTR_MISALIGN, npc);
        return false;
      }
      SetGpr(link, back);
      currentProgramCounter := npc;
      jumped := true;
    }

    method Branch(taken: bool, imm: bv64) returns (jumped: bool)
      requires Valid() && !needTrap
      modifies `needTrap, `m, `s, `status, `trapProgramCounter, `nextPrivMode, `currentProgramCounter
      ensures Outcome(State(), jumped, false) == ExecBranch(old(State()), taken, imm)
    {
      jumped := taken;
      if taken {
        var npc := Sum(currentProgramCounter, imm);
        if npc.bits & 1 != 0 {
          Trap(INSTR_MISALIGN, npc);
        } else {
          currentProgramCounter := npc;
        }
      }
    }

    method Load(width: nat, signed: bool, rd: Reg, addr: U64)
      requires !needTrap && width >= 1 && ReadyFor(Aligned(Sv39Access.Load, addr, width))
      modifies `needTrap, `m, `s, `status, `trapProgramCounter, `nextPrivMode, mmu, mmu.tlb, mmu.regs, gpr
      ensures Ready() && Went(State()) == ExecLoad(old(State()), width, signed, rd, addr)
      ensures mmu.history == Used(old(State()), old(mmu.history), Aligned(Sv39Access.Load, addr, width))
    {
      hide Used, MayUse;
      var bytes := MemRead(addr, width);
      if bytes.Some? {
        SetGpr(rd, Extended(bytes.value, signed));
      }
    }

    method Store(width: nat, addr: U64, value: Alu.I64)
      requires !needTrap && width >= 1 && ReadyFor(Aligned(Sv39Access.Store, addr, width))
      modifies `needTrap, `m, `s, `status, `trapProgramCounter, `nextPrivMode, mmu, mmu.tlb, mmu.regs, mmu.bus
      ensures Ready() && Went(State()) == ExecStore(old(State()), width, addr, value)
      ensures mmu.history == Used(old(State()), old(mmu.history), Aligned(Sv39Access.Store, addr, width))
    {
      hide Used, MayUse;
      MemWrite(addr, LowBytes(Alu.U64(value), width));
    }

    method Ecall()
      requires Valid() && !needTrap
      modifies `needTrap, `m, `s, `status, `trapProgramCounter, `nextPrivMode
      ensures Went(State()) == ExecEcall(old(State()))
    {
      EcallCode(currentPrivMode);
      Trap(currentPrivMode as bv64 + 8, ZERO);
    }

    method CsrInstruction(op: CsrOp, writes: bool, operand: bv64, index: bv12, rd: Reg) returns (illegal: bool)
      requires Valid() && !needTrap
      modifies `status, `m, `s, `csrIntPending, `csrIntEnable, `csrMCycleNum, gpr
      ensures Outcome(State(), false, illegal) == CsrAccess(old(State()), op, writes, operand, index, rd)
    {
      var was := CsrRead(Registers(), index);
      if !Permitted(Registers(), index, writes) || was.None? {
        return true;
      }
      if writes {
        var ok := WriteCsr(index, CsrOperand(op, was.value, operand));
        if !ok {
          return true;
        }
      }
      SetGpr(rd, ToReg(was.value));
      illegal := false;
    }

    method Reserve(width: nat, rd: Reg, addr: U64, pa: nat)
      requires Valid() && !needTrap && width >= 1
      modifies `needTrap, `m, `s, `status, `trapProgramCounter, `nextPrivMode, `reserved, gpr
      ensures Went(State()) == Exec.Reserve(old(State()), width, rd, addr, pa)
    {
      hide Exec.Trap, Extended;
      reserved := Reservation(true, addr, width);
      var ok, bytes := mmu.bus.Read(pa, width);
      if ok {
        SetGpr(rd, Extended(bytes, true));
      } else {
        Trap(STORE_ACC_FAULT, AddressWord(addr));
      }
    }

    method LoadReserved(width: nat, rd: Reg, addr: U64)
      requires !needTrap && width >= 1 && ReadyFor(Some(Use(Sv39Access.Load, addr, width)))
      modifies `needTrap, `m, `s, `status, `trapProgramCounter, `nextPrivMode, `reserved
      modifies mmu, mmu.tlb, mmu.regs, gpr
      ensures Ready() && Went(State()) == ExecLoadReserved(old(State()), width, rd, addr)
      ensures mmu.history == Used(old(State()), old(mmu.history), Some(Use(Sv39Access.Load, addr, width)))
    {
      hide ContextOf, Used, MayUse, Sv39Access.TargetOf, Exec.Trap, Exec.SetGpr, Sv39Tlb.Inv, Extended;
      var target := LoadTarget(addr, width);
      if target.Refused? {
        var fb := target.feedback;
        Trap(if fb == Sv39Access.AccessFault then STORE_ACC_FAULT else AmoFaultCode(fb), AddressWord(addr));
        return;
      }
      Reserve(width, rd, addr, target.addr);
    }

    method StoreConditional(width: nat, rd: Reg, addr: U64, value: Alu.I64)
      requires !needTrap && width >= 1 && ReadyFor(Some(Use(Sv39Access.Store, addr, width)))
      modifies `needTrap, `m, `s, `status, `trapProgramCounter, `nextPrivMode, `reserved
      modifies mmu, mmu.tlb, mmu.regs, mmu.bus, gpr
      ensures Ready() && Went(State()) == ExecStoreConditional(old(State()), width, rd, addr, value)
      ensures mmu.history == Used(old(State()), old(mmu.history), Some(Use(Sv39Access.Store, addr, width)))
    {
      hide ContextOf, Used, MayUse, Sv39Access.TargetOf, Exec.Trap, Exec.SetGpr, Sv39Tlb.Inv, Extended;
      var target := StoreTarget(addr, width);
      if target.Refused? {
        Trap(AmoFaultCode(target.feedback), AddressWord(addr));
        return;
      }
      var held := reserved == Reservation(true, addr, width);
      reserved := reserved.(valid := false);
      if !held {
        SetGpr(rd, 1);
        return;
      }
      var bare := Sv39Access.Bare(ContextOf(Registers()));
      var ok := mmu.bus.Write(target.addr, LowBytes(Alu.U64(value), width));
      if ok {
        SetGpr(rd, 0);
      } else {
        Trap(if bare then STORE_ACC_FAULT else STORE_PGFAULT, AddressWord(addr));
      }
    }

    method AtomicOperation(op: AmoOp, width: nat, rd: Reg, addr: U64, src: Alu.I64)
      requires !needTrap && width >= 1 && ReadyFor(Some(Use(Sv39Access.Store, addr, width)))
      modifies `needTrap, `m, `s, `status, `trapProgramCounter, `nextPrivMode
      modifies mmu, mmu.tlb, mmu.regs, mmu.bus, gpr
      ensures Ready() && Went(State()) == ExecAmo(old(State()), op, width, rd, addr, src)
      ensures mmu.history == Used(old(State()), old(mmu.history), Some(Use(Sv39Access.Store, addr, width)))
    {
      hide ContextOf, Used, MayUse, Sv39Access.TargetOf, Exec.Trap, Exec.SetGpr, Sv39Tlb.Inv, Extended;
      var target := StoreTarget(addr, width);
      if target.Refused? {
        Trap(AmoFaultCode(target.feedback), AddressWord(addr));
        return;
      }
      var ok, bytes := mmu.bus.Read(target.addr, width);
      if !ok {
        Trap(STORE_ACC_FAULT, AddressWord(addr));
        return;
      }
      var was := Extended(bytes, true);
      ok := mmu.bus.Write(target.addr, LowBytes(Alu.U64(AmoResult(op, src, was)), width));
      SetGpr(rd, was);
    }

    /** The upper-immediate operations of the 32-bit tree. */
    method ComputeUpper(i: Instr)
      requires Valid() && !needTrap && (i.Lui? || i.Auipc?)
      modifies gpr
      ensures Went(State()) == Exec.Execute(old(State()), i, 4)
    {
      hide Alu.FromBits, Sum, ToReg, Exec.SetGpr;
      if i.Lui? {
        SetGpr(i.rd, Alu.FromBits(i.imm));
      } else {
        SetGpr(i.rd, ToReg(Sum(currentProgramCounter, i.imm)));
      }
    }

    /** The register operations of the 32-bit tree. */
    method Compute(i: Instr)
      requires Valid() && !needTrap && (i.OpImm? || i.OpReg?)
      modifies gpr
      ensures Went(State()) == Exec.Execute(old(State()), i, 4)
    {
      hide Alu.AluExec, Alu.FromBits, Exec.SetGpr;
      if i.OpImm? {
        SetGpr(i.rd, Alu.AluExec(gpr[i.rs1 as int], Alu.FromBits(i.imm), i.op, i.word));
      } else {
        SetGpr(i.rd, Alu.AluExec(gpr[i.rs1 as int], gpr[i.rs2 as int], i.op, i.word));
      }
    }

    /** Jumps and branches of the 32-bit tree. */
    method Transfer(i: Instr) returns (jumped: bool)
      requires Valid() && !needTrap && (i.Jal? || i.Jalr? || i.Branch?)
      modifies `needTrap, `m, `s, `status, `trapProgramCounter, `nextPrivMode, `currentProgramCounter, gpr
      ensures Outcome(State(), jumped, false) == Exec.Execute(old(State()), i, 4)
    {
      var back := ToReg(Sum(currentProgramCounter, 4));
      if i.Jal? {
        jumped := JumpTo(Sum(currentProgramCounter, i.imm), i.rd, back);
      } else if i.Jalr? {
        jumped := JumpTo(Sum(ToWord(gpr[i.rs1 as int]), i.imm), i.rd, back);
      } else {
        jumped := Branch(Holds(i.cond, gpr[i.rs1 as int], gpr[i.rs2 as int]), i.imm);
      }
    }

    /** Plain accesses of the 32-bit tree. */
    method AccessMemory(i: Instr)
      requires !needTrap && WidthsPositive(i) && (i.Load? || i.Store?)
      requires Valid() && ReadyFor(InstrUse(State(), i))
      modifies `needTrap, `m, `s, `status, `trapProgramCounter, `nextPrivMode
      modifies mmu, mmu.tlb, mmu.regs, mmu.bus, gpr
      ensures Ready() && Went(State()) == Exec.Execute(old(State()), i, 4)
      ensures mmu.history == Used(old(State()), old(mmu.history), InstrUse(old(State()), i))
    {
      hide Used, MayUse, ExecLoad, ExecStore, Aligned, Address, Exec.SetGpr;
      if i.Load? {
        Load(i.width, i.signed, i.rd, Address(gpr[i.rs1 as int], i.imm));
      } else {
        Store(i.width, Address(gpr[i.rs1 as int], i.imm), gpr[i.rs2 as int]);
      }
    }

    /** Atomic accesses of the 32-bit tree. */
    method AccessAtomically(i: Instr)
      requires !needTrap && WidthsPositive(i) && (i.LoadReserved? || i.StoreConditional? || i.Amo?)
      requires Valid() && ReadyFor(InstrUse(State(), i))
      modifies `needTrap, `m, `s, `status, `trapProgramCounter, `nextPrivMode, `reserved
      modifies mmu, mmu.tlb, mmu.regs, mmu.bus, gpr
      ensures Ready() && Went(State()) == Exec.Execute(old(State()), i, 4)
      ensures mmu.history == Used(old(State()), old(mmu.history), InstrUse(old(State()), i))
    {
      hide Used, MayUse, ExecLoadReserved, ExecStoreConditional, ExecAmo, Alu.U64, Exec.Execute, InstrUse;
      AtomicParts(State(), i);
      var addr := Alu.U64(gpr[i.rs1 as int]);
      if i.LoadReserved? {
        LoadReserved(i.width, i.rd, addr);
      } else if i.StoreConditional? {
        StoreConditional(i.width, i.rd, addr, gpr[i.rs2 as int]);
      } else {
        AtomicOperation(i.amo, i.width, i.rd, addr, gpr[i.rs2 as int]);
      }
    }

    method Return(i: Instr) returns (illegal: bool)
      requires Valid() && !needTrap && (i.Sret? || i.Mret?)
      modifies `needTrap, `status, `trapProgramCounter, `nextPrivMode
      ensures Outcome(State(), false, illegal) ==
        ExecReturn(old(State()), if i.Sret? then Privilege.Sret(old(Registers())) else Privilege.Mret(old(Registers())))
    {
      var ok;
      if i.Sret? {
        ok := Sret();
      } else {
        ok := Mret();
      }
      illegal := !ok;
    }

    method Csr(i: Instr) returns (illegal: bool)
      requires Valid() && !needTrap && i.Csr?
      modifies `status, `m, `s, `csrIntPending, `csrIntEnable, `csrMCycleNum, gpr
      ensures Outcome(State(), false, illegal) == ExecCsr(old(State()), i.csrOp, i.source, i.index, i.rd)
    {
      var operand := match i.source case FromReg(rs1) => Alu.Bits(gpr[rs1 as int]) case Immediate(uimm) => uimm as bv64;
      illegal := CsrInstruction(i.csrOp, Writes(i.csrOp, i.source), operand, i.index, i.rd);
    }

    /** `sfence.vma`, its operands at hand. */
    method SfenceVma(vaddr: U64, asid: nat) returns (illegal: bool)
      requires Ready()
      modifies mmu, mmu.tlb
      ensures Ready() && State() == old(State())
      ensures illegal == !FenceAllowed(Registers())
      ensures mmu.history == if illegal then old(mmu.history) else Sv39Tlb.Forget(old(mmu.history), vaddr, asid)
    {
      hide Sv39Tlb.Inv, Sv39Tlb.Fence, Sv39Tlb.Forget;
      if currentPrivMode < S_MODE || (currentPrivMode == S_MODE && status.tvm == 1) {
        return true;
      }
      mmu.FlushTlb(vaddr, asid);
      illegal := false;
    }

    /** The fence of the 32-bit tree: its second operand is cut to 16 bits. */
    method FenceMemory(i: Instr) returns (illegal: bool)
      requires Ready() && !needTrap && i.SfenceVma?
      modifies mmu, mmu.tlb
      ensures Ready() && Outcome(State(), false, illegal) == Exec.Execute(old(State()), i, 4)
      ensures mmu.history == InstrHistory(old(State()), old(mmu.history), i)
    {
      hide Sv39Tlb.Inv, Sv39Tlb.Forget, Alu.U64, FenceAllowed, InstrUse, Used;
      illegal := SfenceVma(Alu.U64(gpr[i.rs1 as int]), Alu.U64(gpr[i.rs2 as int]) % 0x1_0000);
    }

    /** The SYSTEM group of the 32-bit tree, the fence apart. */
    method System(i: Instr) returns (illegal: bool)
      requires Valid() && !needTrap && (i.Ecall? || i.Ebreak? || i.Sret? || i.Mret? || i.Csr?)
      modifies `needTrap, `m, `s, `status, `trapProgramCounter, `nextPrivMode
      modifies `csrIntPending, `csrIntEnable, `csrMCycleNum, gpr
      ensures Outcome(State(), false, illegal) == Exec.Execute(old(State()), i, 4)
    {
      illegal := false;
      if i.Ecall? {
        Ecall();
      } else if i.Ebreak? {
        Trap(BREAKPOINT, ZERO);
      } else if i.Csr? {
        illegal := Csr(i);
      } else {
        illegal := Return(i);
      }
    }

    /** The operations that need no MMU. */
    method ExecuteInside(i: Instr) returns (jumped: bool, illegal: bool)
      requires Ready() && !needTrap && WidthsPositive(i) && !i.SfenceVma?
      requires !i.Load? && !i.Store? && !i.LoadReserved? && !i.StoreConditional? && !i.Amo?
      modifies this, gpr
      ensures Ready() && Outcome(State(), jumped, illegal) == Exec.Execute(old(State()), i, 4)
    {
      jumped, illegal := false, false;
      if i.Lui? || i.Auipc? {
        ComputeUpper(i);
      } else if i.OpImm? || i.OpReg? {
        Compute(i);
      } else if i.Jal? || i.Jalr? || i.Branch? {
        jumped := Transfer(i);
      } else if i.Illegal? {
        illegal := true;
      } else if !i.Nop? {
        illegal := System(i);
      }
    }

    /** The 32-bit tree: the flags it sets, and everything it does. */
    method Execute(i: Instr) returns (jumped: bool, illegal: bool)
      requires Valid() && !needTrap && WidthsPositive(i) && ReadyFor(InstrUse(State(), i))
      modifies this, gpr, mmu, mmu.tlb, mmu.regs, mmu.bus
      ensures Ready() && Outcome(State(), jumped, illegal) == Exec.Execute(old(State()), i, 4)
      ensures mmu.history == InstrHistory(old(State()), old(mmu.history), i)
    {
      hide MayUse, Touched, InstrUse, Exec.Execute;
      jumped, illegal := false, false;
      if i.Load? || i.Store? {
        AccessMemory(i);
      } else if i.LoadReserved? || i.StoreConditional? || i.Amo? {
        AccessAtomically(i);
      } else if i.SfenceVma? {
        illegal := FenceMemory(i);
      } else {
        InsideUses(State(), i);
        jumped, illegal := ExecuteInside(i);
      }
    }

    // ----- Compressed instructions

    method OperateUnlessZero(op: Alu.Op, rd: Reg, imm: bv64)
      requires Valid()
      modifies gpr
      ensures Went(State()) == Rvc.OperateUnlessZero(old(State()), op, rd, imm)
    {
      if imm != 0 {
        SetGpr(rd, Alu.AluExec(gpr[rd as int], Alu.FromBits(imm), op, false));
      }
    }

    method RegReg(op: Alu.Op, word: bool, rd: Reg, rs2: Reg)
      requires Valid()
      modifies gpr
      ensures Went(State()) == Rvc.ExecRegReg(old(State()), op, word, rd, rs2)
    {
      SetGpr(rd, Alu.AluExec(gpr[rd as int], gpr[rs2 as int], op, word));
    }

    method CompressedAlu(w: bv32) returns (illegal: bool)
      requires Valid() && !needTrap
      modifies gpr
      ensures Outcome(State(), false, illegal) == Rvc.ExecCAlu(old(State()), w)
    {
      illegal := false;
      var rs1, rs2 := Rvc.Short(w, 7), Rvc.Short(w, 2);
      if Rvc.BinaryConcat(w, 11, 11, 0) == 0 {
        OperateUnlessZero(if Rvc.BinaryConcat(w, 10, 10, 0) != 0 then Alu.Sra else Alu.Srl, rs1, Rvc.Shamt(w));
      } else if Rvc.BinaryConcat(w, 10, 10, 0) == 0 {
        SetGpr(rs1, Alu.AluExec(gpr[rs1 as int], Alu.FromBits(Rvc.Imm6(w)), Alu.And, false));
      } else {
        var funct2, bit12 := Rvc.BinaryConcat(w, 6, 5, 0), Rvc.BinaryConcat(w, 12, 12, 0) != 0;
        if funct2 == 0 {
          RegReg(Alu.Sub, bit12, rs1, rs2);
        } else if funct2 == 1 {
          RegReg(if bit12 then Alu.Add else Alu.Xor, bit12, rs1, rs2);
        } else if bit12 {
          illegal := true;
        } else {
          RegReg(if funct2 == 2 then Alu.Or else Alu.And, false, rs1, rs2);
        }
      }
    }

    method JumpRegister(rs1: Reg, link: Reg) returns (jumped: bool)
      requires Valid() && !needTrap
      modifies `needTrap, `m, `s, `status, `trapProgramCounter, `nextPrivMode, `currentProgramCounter, gpr
      ensures Outcome(State(), jumped, false) == Rvc.JumpRegister(old(State()), rs1, link)
    {
      var npc := Rvc.Rounded(ToWord(gpr[rs1 as int]));
      jumped := JumpTo(npc, link, ToReg(Sum(currentProgramCounter, 2)));
    }

    method JrMv(w: bv32) returns (jumped: bool, illegal: bool)
      requires Valid() && !needTrap
      modifies `needTrap, `m, `s, `status, `trapProgramCounter, `nextPrivMode, `currentProgramCounter, gpr
      ensures Outcome(State(), jumped, illegal) == Rvc.ExecJrMv(old(State()), w)
    {
      jumped, illegal := false, false;
      var rs1, rs2 := Rvc.Full(w, 7), Rvc.Full(w, 2);
      if Rvc.BinaryConcat(w, 12, 12, 0) != 0 {
        if rs2 != 0 {
          RegReg(Alu.Add, false, rs1, rs2);
        } else if rs1 == 0 {
          Trap(BREAKPOINT, ZERO);
        } else {
          jumped := JumpRegister(rs1, 1);
        }
      } else if rs2 != 0 {
        SetGpr(rs1, gpr[rs2 as int]);
      } else if rs1 == 0 {
        illegal := true;
      } else {
        jumped := JumpRegister(rs1, 0);
      }
    }

    method Addi16spLui(w: bv32)
      requires Valid() && !needTrap
      modifies gpr
      ensures Went(State()) == Rvc.ExecAddi16spLui(old(State()), w)
    {
      var rd := Rvc.Full(w, 7);
      if rd == 2 {
        if Rvc.ImmAddi16sp(w) != 0 {
          SetGpr(rd, Alu.Wrap(gpr[rd as int] + Alu.FromBits(Rvc.ImmAddi16sp(w))));
        }
      } else if Rvc.ImmLui(w) != 0 {
        SetGpr(rd, Alu.FromBits(Rvc.ImmLui(w)));
      }
    }

    method Addi4spn(w: bv32) returns (illegal: bool)
      requires Valid() && !needTrap
      modifies gpr
      ensures Outcome(State(), false, illegal) == Rvc.ExecAddi4spn(old(State()), w)
    {
      if Rvc.ImmAddi4spn(w) == 0 {
        return true;
      }
      SetGpr(Rvc.Short(w, 2), Alu.Wrap(gpr[2] + Alu.FromBits(Rvc.ImmAddi4spn(w))));
      illegal := false;
    }

    method Quadrant0(w: bv32) returns (illegal: bool)
      requires Valid() && !needTrap && w & 3 == 0 && ReadyFor(CompressedUse(State(), w))
      modifies `needTrap, `m, `s, `status, `trapProgramCounter, `nextPrivMode
      modifies mmu, mmu.tlb, mmu.regs, mmu.bus, gpr
      ensures Ready() && Outcome(State(), false, illegal) == Rvc.ExecQuadrant0(old(State()), w)
      ensures mmu.history == Used(old(State()), old(mmu.history), CompressedUse(old(State()), w))
    {
      hide Touched, MayUse, ExecLoad, ExecStore, Rvc.ExecAddi4spn, Rvc.ImmWord, Rvc.ImmDouble, Rvc.Short;
      illegal := false;
      var o, rd, rs1 := Rvc.RvcOpcode(w), Rvc.Short(w, 2), Rvc.Short(w, 7);
      if o == 0x00 {
        illegal := Addi4spn(w);
      } else if o == 0x02 {
        Load(4, true, rd, Address(gpr[rs1 as int], Rvc.ImmWord(w)));
      } else if o == 0x03 {
        Load(8, true, rd, Address(gpr[rs1 as int], Rvc.ImmDouble(w)));
      } else if o == 0x06 {
        Store(4, Address(gpr[rs1 as int], Rvc.ImmWord(w)), gpr[rd as int]);
      } else if o == 0x07 {
        Store(8, Address(gpr[rs1 as int], Rvc.ImmDouble(w)), gpr[rd as int]);
      } else {
        illegal := true;
      }
    }

    /** Compressed jumps and branches go without an alignment check. */
    method JumpBy(taken: bool, imm: bv64) returns (jumped: bool)
      requires Valid()
      modifies `currentProgramCounter
      ensures Outcome(State(), jumped, false) == if taken then Rvc.JumpBy(old(State()), imm) else Went(old(State()))
    {
      if taken {
        currentProgramCounter := Sum(currentProgramCounter, imm);
      }
      jumped := taken;
    }

    method Quadrant1(w: bv32) returns (jumped: bool, illegal: bool)
      requires Valid() && !needTrap
      modifies `currentProgramCounter, gpr
      ensures Outcome(State(), jumped, illegal) == Rvc.ExecQuadrant1(old(State()), w)
    {
      jumped, illegal := false, false;
      var o, rd, rs1 := Rvc.RvcOpcode(w), Rvc.Full(w, 7), Rvc.Short(w, 7);
      if o == 0x08 {
        OperateUnlessZero(Alu.Add, rd, Rvc.Imm6(w));
      } else if o == 0x09 {
        SetGpr(rd, Alu.AluExec(gpr[rd as int], Alu.FromBits(Rvc.Imm6(w)), Alu.Add, true));
      } else if o == 0x0a {
        SetGpr(rd, Alu.FromBits(Rvc.Imm6(w)));
      } else if o == 0x0b {
        Addi16spLui(w);
      } else if o == 0x0c {
        illegal := CompressedAlu(w);
      } else if o == 0x0d {
        jumped := JumpBy(true, Rvc.ImmJump(w));
      } else if o == 0x0e {
        jumped := JumpBy(gpr[rs1 as int] == 0, Rvc.ImmBranch(w));
      } else {
        jumped := JumpBy(gpr[rs1 as int] != 0, Rvc.ImmBranch(w));
      }
    }

    method Quadrant2(w: bv32) returns (jumped: bool, illegal: bool)
      requires Valid() && !needTrap && w & 3 == 2 && ReadyFor(CompressedUse(State(), w))
      modifies `needTrap, `m, `s, `status, `trapProgramCounter, `nextPrivMode, `currentProgramCounter
      modifies mmu, mmu.tlb, mmu.regs, mmu.bus, gpr
      ensures Ready() && Outcome(State(), jumped, illegal) == Rvc.ExecQuadrant2(old(State()), w)
      ensures mmu.history == Used(old(State()), old(mmu.history), CompressedUse(old(State()), w))
    {
      hide Touched, MayUse, ExecLoad, ExecStore, Rvc.ExecJrMv, Rvc.OperateUnlessZero;
      hide Rvc.ImmLwsp, Rvc.ImmLdsp, Rvc.ImmSwsp, Rvc.ImmSdsp, Rvc.Full, Rvc.Shamt, Address, Aligned;
      jumped, illegal := false, false;
      var o, rd, rs2 := Rvc.RvcOpcode(w), Rvc.Full(w, 7), Rvc.Full(w, 2);
      if o == 0x10 {
        OperateUnlessZero(Alu.Sll, rd, Rvc.Shamt(w));
      } else if o == 0x12 {
        Load(4, true, rd, Address(gpr[2], Rvc.ImmLwsp(w)));
      } else if o == 0x13 {
        Load(8, true, rd, Address(gpr[2], Rvc.ImmLdsp(w)));
      } else if o == 0x14 {
        jumped, illegal := JrMv(w);
      } else if o == 0x16 {
        Store(4, Address(gpr[2], Rvc.ImmSwsp(w)), gpr[rs2 as int]);
      } else if o == 0x17 {
        Store(8, Address(gpr[2], Rvc.ImmSdsp(w)), gpr[rs2 as int]);
      } else {
        illegal := true;
      }
    }

    method ExecuteCompressed(w: bv32) returns (jumped: bool, illegal: bool)
      requires Valid() && !needTrap && w & 3 != 3 && ReadyFor(CompressedUse(State(), w))
      modifies this, gpr, mmu, mmu.tlb, mmu.regs, mmu.bus
      ensures Ready() && Outcome(State(), jumped, illegal) == Rvc.ExecCompressed(old(State()), w)
      ensures mmu.history == Used(old(State()), old(mmu.history), CompressedUse(old(State()), w))
    {
      hide Touched, MayUse, Rvc.ExecQuadrant0, Rvc.ExecQuadrant1, Rvc.ExecQuadrant2;
      jumped := false;
      if w & 3 == 0 {
        illegal := Quadrant0(w);
      } else if w & 3 == 1 {
        Quadrant1Uses(State(), w);
        jumped, illegal := Quadrant1(w);
      } else {
        jumped, illegal := Quadrant2(w);
      }
    }

    // ----- One step

    /** The fetch, through the MMU. */
    method FetchWord() returns (fb: Sv39Access.Feedback, inst: bv32)
      requires Ready() && AddressOf(currentProgramCounter) % 2 == 0 && MayFetchAt(State(), mmu.history)
      modifies mmu, mmu.tlb, mmu.regs
      ensures Ready() && CoreStep.Fetched(fb, inst) == Fetch(State())
      ensures mmu.history == FetchHistory(State(), old(mmu.history))
    {
      hide ContextOf, MayFetch, FetchTouched, Sv39Access.PlainFetch;
      Share();
      var bytes;
      fb, bytes := mmu.VAddrInstFetch(AddressOf(currentProgramCounter), 4);
      inst := InstructionWord(bytes);
    }

    /** Either tree. */
    method ExecuteFetched(inst: bv32) returns (jumped: bool, illegal: bool)
      requires Ready() && !needTrap && MayExecute(State(), mmu.history, inst)
      modifies this, gpr, mmu, mmu.tlb, mmu.regs, mmu.bus
      ensures Ready() && Outcome(State(), jumped, illegal) == ExecuteWord(old(State()), inst)
      ensures mmu.history == WordHistory(old(State()), old(mmu.history), inst)
    {
      hide Used, MayUse, Exec.Execute, Rvc.ExecCompressed, InstrUse, CompressedUse, InstrHistory;
      if IsCompressed(inst) {
        jumped, illegal := ExecuteCompressed(inst);
      } else {
        DecodedWidths(inst);
        jumped, illegal := Execute(Decode(inst));
      }
    }

    /** From the alignment check to the end of either tree. */
    method FetchAndExecute() returns (inst: bv32, jumped: bool, illegal: bool)
      requires Ready() && !needTrap && MayProceed(State(), mmu.history)
      modifies this, gpr, mmu, mmu.tlb, mmu.regs, mmu.bus
      ensures Ready() && (Outcome(State(), jumped, illegal), inst) == Instruction(old(State()))
      ensures mmu.history == ProceedHistory(old(State()), old(mmu.history))
    {
      hide MayFetchAt, FetchHistory, MayExecute, WordHistory, ExecuteWord, Fetch;
      jumped, illegal := false, false;
      if AddressOf(currentProgramCounter) % 2 != 0 {
        Trap(INSTR_MISALIGN, currentProgramCounter);
        return 3, false, false;
      }
      var fb;
      fb, inst := FetchWord();
      FetchIsOneOfThree(State());
      if fb != Sv39Access.AccessOk {
        Trap(FetchFaultCode(fb), currentProgramCounter);
        return 3, false, false;
      }
      jumped, illegal := ExecuteFetched(inst);
    }

    /** The end of a step. */
    method Epilogue(jumped: bool, len: bv64)
      modifies `currentProgramCounter, `minstret, `needTrap
      ensures Registers() == Retire(old(Registers()), jumped, len)
    {
      if needTrap {
        currentProgramCounter := trapProgramCounter;
      } else if !jumped {
        currentProgramCounter := Sum(currentProgramCounter, len);
      }
      if !needTrap {
        minstret := Sum(minstret, 1);
      }
      needTrap := false;
    }

    /** An illegal word traps; then the step ends. */
    method Conclude(inst: bv32, jumped: bool, illegal: bool, len: bv64)
      requires Valid() && OneTrap(Outcome(State(), jumped, illegal))
      modifies this
      ensures State() == CoreStep.Conclude(Outcome(old(State()), jumped, illegal), inst, len)
    {
      if illegal {
        Trap(ILLEGAL_INSTR, W(inst as bv64));
      }
      Epilogue(jumped, len);
    }

    /** A step that no interrupt preempts. */
    method Proceed()
      requires Ready() && !needTrap && MayProceed(State(), mmu.history)
      modifies this, gpr, mmu, mmu.tlb, mmu.regs, mmu.bus
      ensures Ready() && State() == CoreStep.Proceed(old(State()))
      ensures mmu.history == ProceedHistory(old(State()), old(mmu.history))
    {
      hide MayProceed, ProceedHistory, Instruction;
      var inst, jumped, illegal := FetchAndExecute();
      Conclude(inst, jumped, illegal, if IsCompressed(inst) then 2 else 4);
    }

    /** One step of the core with its MMU is one step of the core without caches,
        and leaves the history that the step without caches defines. */
    method Step(l: Lines)
      requires Ready() && IntEnableFits(Registers()) && MayStep(State(), mmu.history, l)
      modifies this, gpr, mmu, mmu.tlb, mmu.regs, mmu.bus
      ensures Ready() && State() == CoreStep.Step(old(State()), l)
      ensures mmu.history == StepHistory(old(State()), old(mmu.history), l)
      ensures StepLaws.GoesOn(old(State()), l, Registers())
    {
      hide MayProceed, ProceedHistory, CoreStep.Proceed, Privilege.PreExec, Retire, StepLaws.GoesOn, IntEnableFits,
           InterruptLaws.Wakes;
      StepLaws.StepGoesOn(State(), l);
      PreExec(l);
      if needTrap {
        Epilogue(false, 4);
      } else {
        Proceed();
      }
    }

    /** Any number of steps, with other harts and devices writing memory between
        them: both caches stay invisible for the whole run. */
    method Run(inputs: seq<Input>)
      requires Ready() && Sound(State()) && MayRun(State(), mmu.history, inputs)
      modifies this, gpr, mmu, mmu.tlb, mmu.regs, mmu.bus
      ensures Ready() && State() == After(old(State()), inputs)
      ensures mmu.history == RunHistory(old(State()), old(mmu.history), inputs)
    {
      hide CoreStep.Step, MayStep, StepHistory;
      ghost var last := After(State(), inputs);
      ghost var left := RunHistory(State(), mmu.history, inputs);
      for i := 0 to |inputs|
        invariant Ready() && Sound(State()) && MayRun(State(), mmu.history, inputs[i..])
        invariant After(State(), inputs[i..]) == last
        invariant RunHistory(State(), mmu.history, inputs[i..]) == left
      {
        mmu.bus.mem := inputs[i].mem;
        StepKeepsSound(State(), inputs[i].lines);
        Step(inputs[i].lines);
      }
    }

    // ----- What the debugger does

    method DumpRegister() returns (items: seq<RegItem>)
      requires Valid()
      ensures items == Dumped(gpr[..], currentProgramCounter)
    {
      items := [];
      for i := 0 to 32
        invariant items == Dumped(gpr[..], currentProgramCounter)[..i]
      {
        items := items + [RegItem(i, 8, Alu.U64(gpr[i]))];
      }
      items := items + [RegItem(32, 8, AddressOf(currentProgramCounter))];
    }

    /** The source writes register 0 like the others. */
    method WriteAllRegister(items: seq<RegItem>) returns (ok: bool)
      requires Valid()
      modifies `currentProgramCounter, gpr
      ensures ok <==> |items| == REG_NUM
      ensures ok ==> currentProgramCounter == AddressWord(items[32].val)
      ensures ok ==> forall i :: 0 <= i < 32 ==> gpr[i] == Alu.Wrap(items[i].val)
      ensures !ok ==> currentProgramCounter == old(currentProgramCounter) && gpr[..] == old(gpr[..])
    {
      if |items| != REG_NUM {
        return false;
      }
      for i := 0 to 32
        invariant forall k :: 0 <= k < i ==> gpr[k] == Alu.Wrap(items[k].val)
      {
        gpr[i] := Alu.Wrap(items[i].val);
      }
      currentProgramCounter := AddressWord(items[32].val);
      ok := true;
    }
  }

  /** From power-on, at the program counter that the loader chose: if software obeys
      its rule, the core with both caches ends where the core without them does. */
  method Boot(hartId: Word, pc: Word, bus: Sv39Mmu.SystemBus, inputs: seq<Input>, ghost roots: Sv39Software.Spaces)
    returns (core: RV64Core)
    requires
      var m := PoweredOn(hartId, pc, bus.mem);
      RunObeys(m, FirstWorld(m, roots), inputs)
    modifies bus
    ensures core.Ready() && core.mmu.bus == bus
    ensures core.State() == After(PoweredOn(hartId, pc, old(bus.mem)), inputs)
  {
    hide RunObeys, FirstWorld, MayRun;
    core := new RV64Core(hartId, bus);
    core.WriteProgramCounter(pc);
    assert core.State() == PoweredOn(hartId, pc, bus.mem);
    ObedientFromPower(hartId, pc, bus.mem, roots, inputs);
    core.Run(inputs);
  }
}
