/** Every instruction word does one thing at most to the hart: each branch of both
    decode trees is one of five deeds. */
module Deeds {
  import opened Words
  import opened StatusBits
  import opened Privilege
  import opened Csr
  import opened Isa
  import opened Exec
  import opened CoreStep
  import Rvc
  import Alu
  import Sv39Access
  import Sv39Walk

  // ----- The five things an instruction can do to the hart

  datatype Deed =
    | Moved(pc: Word)
    | Trapped(cause: TrapCause, tval: Word)
    | MReturned
    | SReturned
    | Wrote(index: Csr.Index, data: Word)

  function Apply(h: Hart, d: Deed): Option<Hart>
    requires !h.needTrap
  {
    match d
    case Moved(pc) => Some(h.(pc := pc))
    case Trapped(c, tval) => Some(RaiseTrap(h, c, tval))
    case MReturned => Privilege.Mret(h)
    case SReturned => Privilege.Sret(h)
    case Wrote(i, data) => if Permitted(h, i, true) then CsrWrite(h, i, data) else None
  }

  predicate Did(h: Hart, d: Deed, n: Hart) {
    !h.needTrap && Apply(h, d) == Some(n)
  }

  /** One deed at most, none with an illegal word, x0 untouched, and the program counter
      too unless the outcome says that it jumped or trapped. */
  ghost predicate OneDeed(m: Machine, o: Outcome) {
    Formed(m) && Formed(o.m) && o.m.gpr[0] == m.gpr[0] && (o.illegal ==> o.m == m) &&
    (o.jumped || o.m.hart.needTrap || o.m.hart.pc == m.hart.pc) &&
    exists d :: Did(m.hart, d, o.m.hart)
  }

  lemma Untouched(m: Machine, n: Machine, jumped: bool)
    requires Formed(m) && !m.hart.needTrap && Formed(n) && n.gpr[0] == m.gpr[0]
    requires n.hart == m.hart.(pc := n.hart.pc) && (jumped || n.hart.pc == m.hart.pc)
    ensures OneDeed(m, Outcome(n, jumped, false))
  {
    assert Did(m.hart, Moved(n.hart.pc), n.hart);
  }

  lemma Trapping(m: Machine, n: Machine, code: bv64, tval: Word, jumped: bool)
    requires Formed(m) && !m.hart.needTrap && code != EXEC_OK && Formed(n) && n.gpr == m.gpr && n.hart == m.hart
    ensures OneDeed(m, Outcome(Trap(n, code, tval), jumped, false))
  {
    assert Did(m.hart, Trapped(Cause(code, false), tval), Trap(n, code, tval).hart);
  }

  lemma Refusing(m: Machine)
    requires Formed(m) && !m.hart.needTrap
    ensures OneDeed(m, Refuse(m))
  {
    assert Did(m.hart, Moved(m.hart.pc), m.hart);
  }

  lemma ZeroKept(m: Machine, r: Reg, value: Alu.I64)
    requires Formed(m)
    ensures SetGpr(m, r, value).gpr[0] == m.gpr[0]
  {
  }

  lemma Setting(m: Machine, n: Machine, r: Reg, value: Alu.I64)
    requires Formed(m) && !m.hart.needTrap && Formed(n) && n.gpr == m.gpr && n.hart == m.hart
    ensures OneDeed(m, Went(SetGpr(n, r, value)))
  {
    ZeroKept(n, r, value);
    Untouched(m, SetGpr(n, r, value), false);
  }

  lemma JumpDeed(m: Machine, npc: Word, link: Reg, back: Alu.I64)
    requires Formed(m) && !m.hart.needTrap
    ensures OneDeed(m, JumpTo(m, npc, link, back))
  {
    if npc.bits & 1 != 0 {
      Trapping(m, m, INSTR_MISALIGN, npc, false);
    } else {
      ZeroKept(m, link, back);
      var n := SetGpr(m, link, back);
      Untouched(m, n.(hart := n.hart.(pc := npc)), true);
    }
  }

  lemma BranchDeed(m: Machine, taken: bool, imm: bv64)
    requires Formed(m) && !m.hart.needTrap
    ensures OneDeed(m, ExecBranch(m, taken, imm))
  {
    if !taken {
      Untouched(m, m, false);
    } else if PcPlus(m, imm).bits & 1 != 0 {
      Trapping(m, m, INSTR_MISALIGN, PcPlus(m, imm), true);
    } else {
      Untouched(m, m.(hart := m.hart.(pc := PcPlus(m, imm))), true);
    }
  }

  lemma LoadDeed(m: Machine, width: nat, signed: bool, rd: Reg, addr: U64)
    requires Formed(m) && !m.hart.needTrap && width >= 1
    ensures OneDeed(m, ExecLoad(m, width, signed, rd, addr))
  {
    var (fb, bytes) := Sv39Access.PlainRead(m.mem, Sv39Walk.TablesIn(m.mem), ContextOf(m.hart), addr, width);
    if addr % width != 0 {
      Trapping(m, m, LOAD_MISALIGN, AddressWord(addr), false);
    } else if fb == Sv39Access.AccessOk {
      Setting(m, m, rd, Extended(bytes, signed));
    } else {
      Trapping(m, m, LoadFaultCode(fb), AddressWord(addr), false);
    }
  }

  lemma StoreDeed(m: Machine, width: nat, addr: U64, value: Alu.I64)
    requires Formed(m) && !m.hart.needTrap && width >= 1
    ensures OneDeed(m, ExecStore(m, width, addr, value))
  {
    var bytes := LowBytes(Alu.U64(value), width);
    var (fb, mem) := Sv39Access.PlainWrite(m.mem, Sv39Walk.TablesIn(m.mem), ContextOf(m.hart), addr, bytes);
    if addr % |bytes| != 0 {
      Trapping(m, m, STORE_MISALIGN, AddressWord(addr), false);
    } else if fb == Sv39Access.AccessOk {
      Untouched(m, m.(mem := mem), false);
    } else {
      Trapping(m, m, StoreFaultCode(fb), AddressWord(addr), false);
    }
  }

  lemma CsrDeed(m: Machine, op: CsrOp, writes: bool, operand: bv64, index: bv12, rd: Reg)
    requires Formed(m) && !m.hart.needTrap
    ensures OneDeed(m, CsrAccess(m, op, writes, operand, index, rd))
  {
    var was := CsrRead(m.hart, index);
    if !Permitted(m.hart, index, writes) || was.None? {
      Refusing(m);
    } else if !writes {
      Setting(m, m, rd, ToReg(was.value));
    } else {
      WriteDeed(m, op, was.value, operand, index, rd);
    }
  }

  lemma WriteDeed(m: Machine, op: CsrOp, was: Word, operand: bv64, index: bv12, rd: Reg)
    requires Formed(m) && !m.hart.needTrap && Permitted(m.hart, index, true)
    ensures
      var written := CsrWrite(m.hart, index, CsrOperand(op, was, operand));
      OneDeed(m, if written.None? then Refuse(m) else Went(SetGpr(m.(hart := written.value), rd, ToReg(was))))
  {
    var data := CsrOperand(op, was, operand);
    var written := CsrWrite(m.hart, index, data);
    if written.None? {
      Refusing(m);
    } else {
      ZeroKept(m.(hart := written.value), rd, ToReg(was));
      assert Did(m.hart, Wrote(index, data), written.value);
    }
  }

  lemma LoadReservedDeed(m: Machine, width: nat, rd: Reg, addr: U64)
    requires Formed(m) && !m.hart.needTrap && width >= 1
    ensures OneDeed(m, ExecLoadReserved(m, width, rd, addr))
  {
    match Sv39Access.TargetOf(Sv39Walk.TablesIn(m.mem), ContextOf(m.hart), Sv39Access.Load, addr, width)
    case Refused(fb) =>
      var code := if fb == Sv39Access.AccessFault then STORE_ACC_FAULT else AmoFaultCode(fb);
      Trapping(m, m, code, AddressWord(addr), false);
    case Physical(pa) =>
      var n := m.(reserved := Reservation(true, addr, width));
      if !Accessible(m.mem, pa, width) {
        Trapping(m, n, STORE_ACC_FAULT, AddressWord(addr), false);
      } else {
        Setting(m, n, rd, Extended(BytesAt(m.mem, pa, width), true));
      }
  }

  lemma StoreConditionalDeed(m: Machine, width: nat, rd: Reg, addr: U64, value: Alu.I64)
    requires Formed(m) && !m.hart.needTrap && width >= 1
    ensures OneDeed(m, ExecStoreConditional(m, width, rd, addr, value))
  {
    var c := ContextOf(m.hart);
    match Sv39Access.TargetOf(Sv39Walk.TablesIn(m.mem), c, Sv39Access.Store, addr, width)
    case Refused(fb) => Trapping(m, m, AmoFaultCode(fb), AddressWord(addr), false);
    case Physical(pa) =>
      var n := m.(reserved := m.reserved.(valid := false));
      if m.reserved != Reservation(true, addr, width) {
        Setting(m, n, rd, 1);
      } else if !Accessible(m.mem, pa, width) {
        Trapping(m, n, if Sv39Access.Bare(c) then STORE_ACC_FAULT else STORE_PGFAULT, AddressWord(addr), false);
      } else {
        Setting(m, n.(mem := Sv39Access.Stored(m.mem, pa, LowBytes(Alu.U64(value), width))), rd, 0);
      }
  }

  lemma AmoDeed(m: Machine, op: AmoOp, width: nat, rd: Reg, addr: U64, src: Alu.I64)
    requires Formed(m) && !m.hart.needTrap && width >= 1
    ensures OneDeed(m, ExecAmo(m, op, width, rd, addr, src))
  {
    match Sv39Access.TargetOf(Sv39Walk.TablesIn(m.mem), ContextOf(m.hart), Sv39Access.Store, addr, width)
    case Refused(fb) => Trapping(m, m, AmoFaultCode(fb), AddressWord(addr), false);
    case Physical(pa) =>
      if !Accessible(m.mem, pa, width) {
        Trapping(m, m, STORE_ACC_FAULT, AddressWord(addr), false);
      } else {
        var was := Extended(BytesAt(m.mem, pa, width), true);
        var bytes := LowBytes(Alu.U64(AmoResult(op, src, was)), width);
        Setting(m, m.(mem := Sv39Access.Stored(m.mem, pa, bytes)), rd, was);
      }
  }

  lemma EcallDeed(m: Machine)
    requires Formed(m) && !m.hart.needTrap
    ensures OneDeed(m, ExecEcall(m))
  {
    EcallCode(m.hart.priv);
    Trapping(m, m, m.hart.priv as bv64 + 8, ZERO, false);
  }

  lemma ReturnDeed(m: Machine, d: Deed)
    requires Formed(m) && !m.hart.needTrap && (d == MReturned || d == SReturned)
    ensures OneDeed(m, ExecReturn(m, Apply(m.hart, d)))
  {
    var left := Apply(m.hart, d);
    if left.None? {
      Refusing(m);
    } else {
      assert Did(m.hart, d, left.value);
    }
  }

  predicate ComputesOnly(i: Instr) {
    i.Lui? || i.Auipc? || i.OpImm? || i.OpReg? || i.Nop? || i.Illegal?
  }

  predicate System(i: Instr) {
    i.Ecall? || i.Ebreak? || i.Sret? || i.Mret? || i.SfenceVma? || i.Csr?
  }

  predicate Atomic(i: Instr) {
    i.LoadReserved? || i.StoreConditional? || i.Amo?
  }

  lemma ComputeDeed(m: Machine, i: Instr, len: bv64)
    requires Formed(m) && !m.hart.needTrap && ComputesOnly(i)
    ensures OneDeed(m, Execute(m, i, len))
  {
    hide OneDeed, SetGpr, Alu.AluExec, Alu.FromBits, PcPlus, ToReg, Gpr;
    if i.Lui? {
      Setting(m, m, i.rd, Alu.FromBits(i.imm));
    } else if i.Auipc? {
      Setting(m, m, i.rd, ToReg(PcPlus(m, i.imm)));
    } else if i.OpImm? {
      Setting(m, m, i.rd, Alu.AluExec(Gpr(m, i.rs1), Alu.FromBits(i.imm), i.op, i.word));
    } else if i.OpReg? {
      Setting(m, m, i.rd, Alu.AluExec(Gpr(m, i.rs1), Gpr(m, i.rs2), i.op, i.word));
    } else if i.Nop? {
      Untouched(m, m, false);
    } else {
      Refusing(m);
    }
  }

  lemma SystemDeed(m: Machine, i: Instr, len: bv64)
    requires Formed(m) && !m.hart.needTrap && System(i)
    ensures OneDeed(m, Execute(m, i, len))
  {
    hide OneDeed, ExecEcall, CsrAccess, Privilege.Sret, Privilege.Mret, Trap, OperandOf, Writes;
    if i.Ecall? {
      EcallDeed(m);
    } else if i.Ebreak? {
      Trapping(m, m, BREAKPOINT, ZERO, false);
    } else if i.Sret? {
      ReturnDeed(m, SReturned);
    } else if i.Mret? {
      ReturnDeed(m, MReturned);
    } else if i.SfenceVma? {
      Refusing(m);
      Untouched(m, m, false);
    } else {
      CsrDeed(m, i.csrOp, Writes(i.csrOp, i.source), OperandOf(m, i.source), i.index, i.rd);
    }
  }

  lemma AtomicDeed(m: Machine, i: Instr, len: bv64)
    requires Formed(m) && !m.hart.needTrap && WidthsPositive(i) && Atomic(i)
    ensures OneDeed(m, Execute(m, i, len))
  {
    hide OneDeed, ExecLoadReserved, ExecStoreConditional, ExecAmo, Gpr, Alu.U64;
    if i.LoadReserved? {
      LoadReservedDeed(m, i.width, i.rd, Alu.U64(Gpr(m, i.rs1)));
    } else if i.StoreConditional? {
      StoreConditionalDeed(m, i.width, i.rd, Alu.U64(Gpr(m, i.rs1)), Gpr(m, i.rs2));
    } else {
      AmoDeed(m, i.amo, i.width, i.rd, Alu.U64(Gpr(m, i.rs1)), Gpr(m, i.rs2));
    }
  }

  predicate Transfers(i: Instr) {
    i.Jal? || i.Jalr? || i.Branch?
  }

  lemma TransferDeed(m: Machine, i: Instr, len: bv64)
    requires Formed(m) && !m.hart.needTrap && Transfers(i)
    ensures OneDeed(m, Execute(m, i, len))
  {
    hide OneDeed, JumpTo, ExecBranch, PcPlus, ToReg, ToWord, Sum, Holds, Gpr;
    if i.Jal? {
      JumpDeed(m, PcPlus(m, i.imm), i.rd, ToReg(PcPlus(m, len)));
    } else if i.Jalr? {
      JumpDeed(m, Sum(ToWord(Gpr(m, i.rs1)), i.imm), i.rd, ToReg(PcPlus(m, len)));
    } else {
      BranchDeed(m, Holds(i.cond, Gpr(m, i.rs1), Gpr(m, i.rs2)), i.imm);
    }
  }

  lemma MemoryDeed(m: Machine, i: Instr, len: bv64)
    requires Formed(m) && !m.hart.needTrap && WidthsPositive(i) && (i.Load? || i.Store?)
    ensures OneDeed(m, Execute(m, i, len))
  {
    hide OneDeed, ExecLoad, ExecStore, Address, Gpr;
    if i.Load? {
      LoadDeed(m, i.width, i.signed, i.rd, Address(Gpr(m, i.rs1), i.imm));
    } else {
      StoreDeed(m, i.width, Address(Gpr(m, i.rs1), i.imm), Gpr(m, i.rs2));
    }
  }

  lemma ExecuteDeed(m: Machine, i: Instr, len: bv64)
    requires Formed(m) && !m.hart.needTrap && WidthsPositive(i)
    ensures OneDeed(m, Execute(m, i, len))
  {
    if ComputesOnly(i) {
      ComputeDeed(m, i, len);
    } else if System(i) {
      SystemDeed(m, i, len);
    } else if Atomic(i) {
      AtomicDeed(m, i, len);
    } else if Transfers(i) {
      TransferDeed(m, i, len);
    } else {
      MemoryDeed(m, i, len);
    }
  }

  // ----- The compressed tree

  lemma OperateDeed(m: Machine, op: Alu.Op, rd: Reg, shamt: bv64)
    requires Formed(m) && !m.hart.needTrap
    ensures OneDeed(m, Rvc.OperateUnlessZero(m, op, rd, shamt))
  {
    Untouched(m, m, false);
    Setting(m, m, rd, Alu.AluExec(Gpr(m, rd), Alu.FromBits(shamt), op, false));
  }

  lemma RegRegDeed(m: Machine, op: Alu.Op, word: bool, rd: Reg, rs2: Reg)
    requires Formed(m) && !m.hart.needTrap
    ensures OneDeed(m, Rvc.ExecRegReg(m, op, word, rd, rs2))
  {
    Setting(m, m, rd, Alu.AluExec(Gpr(m, rd), Gpr(m, rs2), op, word));
  }

  lemma CAluDeed(m: Machine, w: bv32)
    requires Formed(m) && !m.hart.needTrap
    ensures OneDeed(m, Rvc.ExecCAlu(m, w))
  {
    var rs1, rs2 := Rvc.Short(w, 7), Rvc.Short(w, 2);
    var bit12 := Rvc.BinaryConcat(w, 12, 12, 0) != 0;
    if Rvc.BinaryConcat(w, 11, 11, 0) == 0 {
      OperateDeed(m, if Rvc.BinaryConcat(w, 10, 10, 0) != 0 then Alu.Sra else Alu.Srl, rs1, Rvc.Shamt(w));
    } else if Rvc.BinaryConcat(w, 10, 10, 0) == 0 {
      Setting(m, m, rs1, Alu.AluExec(Gpr(m, rs1), Alu.FromBits(Rvc.Imm6(w)), Alu.And, false));
    } else {
      Refusing(m);
      RegRegDeed(m, Alu.Sub, bit12, rs1, rs2);
      RegRegDeed(m, if bit12 then Alu.Add else Alu.Xor, bit12, rs1, rs2);
      RegRegDeed(m, Alu.Or, false, rs1, rs2);
      RegRegDeed(m, Alu.And, false, rs1, rs2);
    }
  }

  lemma JumpRegisterDeed(m: Machine, rs1: Reg, link: Reg)
    requires Formed(m) && !m.hart.needTrap
    ensures OneDeed(m, Rvc.JumpRegister(m, rs1, link))
  {
    JumpDeed(m, Rvc.Rounded(ToWord(Gpr(m, rs1))), link, ToReg(PcPlus(m, 2)));
  }

  lemma JrMvDeed(m: Machine, w: bv32)
    requires Formed(m) && !m.hart.needTrap
    ensures OneDeed(m, Rvc.ExecJrMv(m, w))
  {
    var rs1, rs2 := Rvc.Full(w, 7), Rvc.Full(w, 2);
    Refusing(m);
    Trapping(m, m, BREAKPOINT, ZERO, false);
    JumpRegisterDeed(m, rs1, 0);
    JumpRegisterDeed(m, rs1, 1);
    RegRegDeed(m, Alu.Add, false, rs1, rs2);
    Setting(m, m, rs1, Gpr(m, rs2));
  }

  lemma Addi16spLuiDeed(m: Machine, w: bv32)
    requires Formed(m) && !m.hart.needTrap
    ensures OneDeed(m, Rvc.ExecAddi16spLui(m, w))
  {
    var rd := Rvc.Full(w, 7);
    Untouched(m, m, false);
    Setting(m, m, rd, Alu.Wrap(Gpr(m, rd) + Alu.FromBits(Rvc.ImmAddi16sp(w))));
    Setting(m, m, rd, Alu.FromBits(Rvc.ImmLui(w)));
  }

  lemma JumpByDeed(m: Machine, imm: bv64)
    requires Formed(m) && !m.hart.needTrap
    ensures OneDeed(m, Rvc.JumpBy(m, imm))
  {
    Untouched(m, m.(hart := m.hart.(pc := PcPlus(m, imm))), true);
  }

  lemma Quadrant0Deed(m: Machine, w: bv32)
    requires Formed(m) && !m.hart.needTrap
    ensures OneDeed(m, Rvc.ExecQuadrant0(m, w))
  {
    var o, rd, base := Rvc.RvcOpcode(w), Rvc.Short(w, 2), Gpr(m, Rvc.Short(w, 7));
    if o == 0x00 {
      Refusing(m);
      Setting(m, m, rd, Alu.Wrap(Gpr(m, 2) + Alu.FromBits(Rvc.ImmAddi4spn(w))));
    } else if o == 0x02 {
      LoadDeed(m, 4, true, rd, Address(base, Rvc.ImmWord(w)));
    } else if o == 0x03 {
      LoadDeed(m, 8, true, rd, Address(base, Rvc.ImmDouble(w)));
    } else if o == 0x06 {
      StoreDeed(m, 4, Address(base, Rvc.ImmWord(w)), Gpr(m, rd));
    } else if o == 0x07 {
      StoreDeed(m, 8, Address(base, Rvc.ImmDouble(w)), Gpr(m, rd));
    } else {
      Refusing(m);
    }
  }

  lemma Quadrant1Deed(m: Machine, w: bv32)
    requires Formed(m) && !m.hart.needTrap
    ensures OneDeed(m, Rvc.ExecQuadrant1(m, w))
  {
    var o, rd := Rvc.RvcOpcode(w), Rvc.Full(w, 7);
    if o == 0x08 {
      OperateDeed(m, Alu.Add, rd, Rvc.Imm6(w));
    } else if o == 0x09 {
      Setting(m, m, rd, Alu.AluExec(Gpr(m, rd), Alu.FromBits(Rvc.Imm6(w)), Alu.Add, true));
    } else if o == 0x0a {
      Setting(m, m, rd, Alu.FromBits(Rvc.Imm6(w)));
    } else if o == 0x0b {
      Addi16spLuiDeed(m, w);
    } else if o == 0x0c {
      CAluDeed(m, w);
    } else {
      Untouched(m, m, false);
      JumpByDeed(m, Rvc.ImmJump(w));
      JumpByDeed(m, Rvc.ImmBranch(w));
    }
  }

  lemma Quadrant2Deed(m: Machine, w: bv32)
    requires Formed(m) && !m.hart.needTrap
    ensures OneDeed(m, Rvc.ExecQuadrant2(m, w))
  {
    var o, rd, rs2 := Rvc.RvcOpcode(w), Rvc.Full(w, 7), Rvc.Full(w, 2);
    if o == 0x10 {
      OperateDeed(m, Alu.Sll, rd, Rvc.Shamt(w));
    } else if o == 0x12 {
      LoadDeed(m, 4, true, rd, Address(Gpr(m, 2), Rvc.ImmLwsp(w)));
    } else if o == 0x13 {
      LoadDeed(m, 8, true, rd, Address(Gpr(m, 2), Rvc.ImmLdsp(w)));
    } else if o == 0x14 {
      JrMvDeed(m, w);
    } else if o == 0x16 {
      StoreDeed(m, 4, Address(Gpr(m, 2), Rvc.ImmSwsp(w)), Gpr(m, rs2));
    } else if o == 0x17 {
      StoreDeed(m, 8, Address(Gpr(m, 2), Rvc.ImmSdsp(w)), Gpr(m, rs2));
    } else {
      Refusing(m);
    }
  }

  /** On every instruction word, legal or not. */
  lemma WordDeed(m: Machine, w: bv32)
    requires Formed(m) && !m.hart.needTrap
    ensures OneDeed(m, ExecuteWord(m, w))
  {
    if w & 3 == 3 {
      DecodedWidths(w);
      ExecuteDeed(m, Decode(w), 4);
    } else if w & 3 == 0 {
      Quadrant0Deed(m, w);
    } else if w & 3 == 1 {
      Quadrant1Deed(m, w);
    } else {
      Quadrant2Deed(m, w);
    }
  }

  // ----- One step

  /** What the end of a step may still change. */
  predicate Ended(mid: Hart, n: Hart) {
    n == mid.(pc := n.pc, needTrap := false, minstret := n.minstret) && (mid.needTrap ==> n.pc == mid.trapPc)
  }

  /** The step from h with lines l did d, an interrupt included. */
  predicate StepDid(h: Hart, l: Lines, d: Deed, n: Hart) {
    Apply(Sampled(h, l), d).Some? && Ended(Apply(Sampled(h, l), d).value, n)
  }

  lemma ConcludedDeed(m: Machine, o: Outcome, w: bv32, len: bv64)
    requires !m.hart.needTrap && OneDeed(m, o) && OneTrap(o)
    ensures
      var n := Conclude(o, w, len);
      Formed(n) && n.gpr[0] == m.gpr[0] &&
      exists d :: !m.hart.needTrap && Apply(m.hart, d).Some? && Ended(Apply(m.hart, d).value, n.hart)
  {
    if o.illegal {
      var d := Trapped(Cause(ILLEGAL_INSTR, false), W(w as bv64));
      assert Did(m.hart, d, Judge(o, w).hart);
    } else {
      var d :| Did(m.hart, d, o.m.hart);
      assert Apply(m.hart, d).Some?;
    }
  }
}
