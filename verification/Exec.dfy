/** What an instruction does to the hart, its registers and memory.  Memory is seen
    through the plain accesses that the MMU refines. */
module Exec {
  import opened Words
  import opened StatusBits
  import opened Privilege
  import opened Csr
  import opened Isa
  import opened Sv39Access
  import Alu
  import Sv39Tlb
  import Sv39Walk

  /** The LR reservation of the hart. */
  datatype Reservation = Reservation(valid: bool, addr: nat, size: nat)

  datatype Machine = Machine(hart: Hart, gpr: seq<Alu.I64>, mem: Memory, reserved: Reservation)

  predicate Formed(m: Machine) {
    |m.gpr| == 32
  }

  function Gpr(m: Machine, r: Reg): Alu.I64
    requires Formed(m)
  {
    m.gpr[r as int]
  }

  /** `setGPR`: register 0 is never written. */
  function SetGpr(m: Machine, r: Reg, value: Alu.I64): (n: Machine)
    requires Formed(m)
    ensures Formed(n) && n.hart == m.hart
  {
    if r == 0 then m else m.(gpr := m.gpr[r as int := value])
  }

  function ToWord(x: Alu.I64): Word {
    W(Alu.Bits(x))
  }

  function ToReg(w: Word): Alu.I64 {
    Alu.FromBits(w.bits)
  }

  const ASID_MASK: bv64 := 0xffff
  const PPN_MASK: bv64 := 0xfff_ffff_ffff

  function ModeBits(satp: Word): bv64 {
    satp.bits >> 60
  }

  function AsidBits(satp: Word): bv64 {
    (satp.bits >> 44) & ASID_MASK
  }

  function PpnBits(satp: Word): bv64 {
    satp.bits & PPN_MASK
  }

  /** The fields of the satp word. */
  function SatpOf(satp: Word): Sv39Tlb.Satp {
    Sv39Tlb.Satp(ModeBits(satp) as nat, AsidBits(satp) as nat, PpnBits(satp) as nat)
  }

  /** The processor state that translation depends on. */
  function ContextOf(h: Hart): Context {
    Context(
      SatpOf(h.s.satp),
      Status(h.status.mprv == 1, h.status.mpp, h.status.sum == 1, h.status.mxr == 1),
      h.priv)
  }

  function Trap(m: Machine, code: bv64, tval: Word): (n: Machine)
    requires Formed(m) && !m.hart.needTrap && code != EXEC_OK
    ensures Formed(n) && n.hart.needTrap
  {
    m.(hart := RaiseTrap(m.hart, Cause(code, false), tval))
  }

  // ----- Memory

  function AddressWord(addr: U64): Word {
    W(addr as bv64)
  }

  /** The code for a failed access; Misaligned and success never reach it. */
  function LoadFaultCode(fb: Feedback): bv64 {
    if fb == AccessFault then LOAD_ACC_FAULT
    else if fb == Misaligned then LOAD_MISALIGN
    else LOAD_PGFAULT
  }

  function StoreFaultCode(fb: Feedback): bv64 {
    if fb == AccessFault then STORE_ACC_FAULT
    else if fb == Misaligned then STORE_MISALIGN
    else STORE_PGFAULT
  }

  /** `memRead`: the bytes, or a trap. */
  function MemRead(m: Machine, addr: U64, size: nat): (r: (Machine, Option<seq<Byte>>))
    requires Formed(m) && !m.hart.needTrap && size >= 1
    ensures Formed(r.0) && r.0.hart.needTrap == r.1.None?
  {
    if addr % size != 0 then (Trap(m, LOAD_MISALIGN, AddressWord(addr)), None)
    else
      var (fb, bytes) := PlainRead(m.mem, Sv39Walk.TablesIn(m.mem), ContextOf(m.hart), addr, size);
      if fb == AccessOk then (m, Some(bytes))
      else (Trap(m, LoadFaultCode(fb), AddressWord(addr)), None)
  }

  /** `memWrite`: the store is done, or a trap is raised. */
  function MemWrite(m: Machine, addr: U64, bytes: seq<Byte>): (n: Machine)
    requires Formed(m) && !m.hart.needTrap && |bytes| >= 1
    ensures Formed(n)
  {
    if addr % |bytes| != 0 then Trap(m, STORE_MISALIGN, AddressWord(addr))
    else
      var (fb, mem) := PlainWrite(m.mem, Sv39Walk.TablesIn(m.mem), ContextOf(m.hart), addr, bytes);
      if fb == AccessOk then m.(mem := mem)
      else Trap(m, StoreFaultCode(fb), AddressWord(addr))
  }

  /** The register value of loaded bytes, sign- or zero-extended. */
  function Extended(bytes: seq<Byte>, signed: bool): Alu.I64 {
    var n := LittleEndian(bytes);
    if |bytes| == 1 then (if signed then (n + 0x80) % 0x100 - 0x80 else n % 0x100)
    else if |bytes| == 2 then (if signed then (n + 0x8000) % 0x1_0000 - 0x8000 else n % 0x1_0000)
    else if |bytes| == 4 then (if signed then Alu.I32(n) else Alu.U32(n))
    else Alu.Wrap(n)
  }

  /** The low bytes of a number, least significant first. */
  function LowBytes(n: nat, size: nat): (bytes: seq<Byte>)
    ensures |bytes| == size
  {
    if size == 0 then [] else [n % 0x100] + LowBytes(n / 0x100, size - 1)
  }

  /** The effective address, computed in 64 bits. */
  function Address(base: Alu.I64, imm: bv64): U64 {
    Alu.U64(base + Alu.FromBits(imm))
  }

  // ----- Outcomes

  /** What a decode tree leaves behind: the machine and its two flags. */
  datatype Outcome = Outcome(m: Machine, jumped: bool, illegal: bool)

  /** At most one trap: an instruction that trapped is not illegal as well. */
  predicate OneTrap(o: Outcome) {
    Formed(o.m) && !(o.m.hart.needTrap && o.illegal)
  }

  function Went(m: Machine): Outcome {
    Outcome(m, false, false)
  }

  function Refuse(m: Machine): Outcome {
    Outcome(m, false, true)
  }

  /** A jump to npc, which must be even. */
  function JumpTo(m: Machine, npc: Word, link: Reg, back: Alu.I64): (o: Outcome)
    requires Formed(m) && !m.hart.needTrap
    ensures OneTrap(o)
  {
    if npc.bits & 1 != 0 then Went(Trap(m, INSTR_MISALIGN, npc))
    else
      var n := SetGpr(m, link, back);
      Outcome(n.(hart := n.hart.(pc := npc)), true, false)
  }

  predicate Holds(cond: Condition, a: Alu.I64, b: Alu.I64) {
    match cond
    case Eq => a == b
    case Ne => a != b
    case Lt => a < b
    case Ge => a >= b
    case Ltu => Alu.U64(a) < Alu.U64(b)
    case Geu => Alu.U64(a) >= Alu.U64(b)
  }

  function PcPlus(m: Machine, offset: bv64): Word {
    Sum(m.hart.pc, offset)
  }

  function ExecBranch(m: Machine, taken: bool, imm: bv64): (o: Outcome)
    requires Formed(m) && !m.hart.needTrap
    ensures OneTrap(o)
  {
    if !taken then Went(m)
    else if PcPlus(m, imm).bits & 1 != 0 then
      Outcome(Trap(m, INSTR_MISALIGN, PcPlus(m, imm)), true, false)
    else Outcome(m.(hart := m.hart.(pc := PcPlus(m, imm))), true, false)
  }

  function ExecLoad(m: Machine, width: nat, signed: bool, rd: Reg, addr: U64): (o: Outcome)
    requires Formed(m) && !m.hart.needTrap && width >= 1
    ensures OneTrap(o)
  {
    var (n, bytes) := MemRead(m, addr, width);
    if bytes.None? then Went(n) else Went(SetGpr(n, rd, Extended(bytes.value, signed)))
  }

  function ExecStore(m: Machine, width: nat, addr: U64, value: Alu.I64): (o: Outcome)
    requires Formed(m) && !m.hart.needTrap && width >= 1
    ensures OneTrap(o)
  {
    Went(MemWrite(m, addr, LowBytes(Alu.U64(value), width)))
  }

  // ----- System instructions

  function ExecEcall(m: Machine): (o: Outcome)
    requires Formed(m) && !m.hart.needTrap
    ensures OneTrap(o)
  {
    EcallCode(m.hart.priv);
    Went(Trap(m, m.hart.priv as bv64 + 8, ZERO))
  }

  lemma EcallCode(priv: Mode)
    ensures priv as bv64 + 8 != EXEC_OK
  {
  }

  function ExecReturn(m: Machine, left: Option<Hart>): (o: Outcome)
    requires Formed(m) && !m.hart.needTrap
    ensures OneTrap(o)
  {
    if left.None? then Refuse(m) else Went(m.(hart := left.value))
  }

  predicate FenceAllowed(h: Hart) {
    h.priv >= S_MODE && !(h.priv == S_MODE && h.status.tvm == 1)
  }

  /** The word a CSR instruction writes, if it writes. */
  function CsrOperand(op: CsrOp, was: Word, operand: bv64): Word {
    match op
    case Swap => W(operand)
    case SetBits => W(was.bits | operand)
    case ClearBits => W(was.bits & !operand)
  }

  /** A CSR access with its operand at hand. */
  function CsrAccess(m: Machine, op: CsrOp, writes: bool, operand: bv64, index: bv12, rd: Reg): (o: Outcome)
    requires Formed(m) && !m.hart.needTrap
    ensures OneTrap(o)
  {
    var was := CsrRead(m.hart, index);
    if !Permitted(m.hart, index, writes) || was.None? then Refuse(m)
    else if !writes then Went(SetGpr(m, rd, ToReg(was.value)))
    else
      var written := CsrWrite(m.hart, index, CsrOperand(op, was.value, operand));
      if written.None? then Refuse(m)
      else
        CsrWriteKeepsControl(m.hart, index, CsrOperand(op, was.value, operand));
        Went(SetGpr(m.(hart := written.value), rd, ToReg(was.value)))
  }

  /** Set and clear write only when their source field is not zero. */
  predicate Writes(op: CsrOp, source: CsrSource) {
    op == Swap || (match source case FromReg(rs1) => rs1 case Immediate(uimm) => uimm) != 0
  }

  function OperandOf(m: Machine, source: CsrSource): bv64
    requires Formed(m)
  {
    match source
    case FromReg(rs1) => Alu.Bits(Gpr(m, rs1))
    case Immediate(uimm) => uimm as bv64
  }

  function ExecCsr(m: Machine, op: CsrOp, source: CsrSource, index: bv12, rd: Reg): (o: Outcome)
    requires Formed(m) && !m.hart.needTrap
    ensures OneTrap(o)
  {
    CsrAccess(m, op, Writes(op, source), OperandOf(m, source), index, rd)
  }

  // ----- Atomics

  function AmoFaultCode(fb: Feedback): bv64 {
    if fb == Misaligned then STORE_MISALIGN else STORE_PGFAULT
  }

  /** The reservation is made before the word is read. */
  function Reserve(m: Machine, width: nat, rd: Reg, addr: U64, pa: nat): (o: Outcome)
    requires Formed(m) && !m.hart.needTrap && width >= 1
    ensures OneTrap(o)
  {
    var n := m.(reserved := Reservation(true, addr, width));
    if !Accessible(m.mem, pa, width) then Went(Trap(n, STORE_ACC_FAULT, AddressWord(addr)))
    else Went(SetGpr(n, rd, Extended(BytesAt(m.mem, pa, width), true)))
  }

  function ExecLoadReserved(m: Machine, width: nat, rd: Reg, addr: U64): (o: Outcome)
    requires Formed(m) && !m.hart.needTrap && width >= 1
    ensures OneTrap(o)
  {
    match TargetOf(Sv39Walk.TablesIn(m.mem), ContextOf(m.hart), Sv39Access.Load, addr, width)
    case Refused(fb) =>
      Went(Trap(m, if fb == AccessFault then STORE_ACC_FAULT else AmoFaultCode(fb), AddressWord(addr)))
    case Physical(pa) => Reserve(m, width, rd, addr, pa)
  }

  /** The reservation is matched on the virtual address, after translation. */
  function ExecStoreConditional(m: Machine, width: nat, rd: Reg, addr: U64, value: Alu.I64): (o: Outcome)
    requires Formed(m) && !m.hart.needTrap && width >= 1
    ensures OneTrap(o)
  {
    var c := ContextOf(m.hart);
    match TargetOf(Sv39Walk.TablesIn(m.mem), c, Sv39Access.Store, addr, width)
    case Refused(fb) => Went(Trap(m, AmoFaultCode(fb), AddressWord(addr)))
    case Physical(pa) =>
      var n := m.(reserved := m.reserved.(valid := false));
      if m.reserved != Reservation(true, addr, width) then Went(SetGpr(n, rd, 1))
      else if !Accessible(m.mem, pa, width) then
        Went(Trap(n, if Bare(c) then STORE_ACC_FAULT else STORE_PGFAULT, AddressWord(addr)))
      else Went(SetGpr(n.(mem := Stored(m.mem, pa, LowBytes(Alu.U64(value), width))), rd, 0))
  }

  /** The value an atomic operation stores; the comparisons use all 64 bits. */
  function AmoResult(op: AmoOp, src: Alu.I64, was: Alu.I64): Alu.I64 {
    match op
    case AmoSwap => src
    case AmoAdd => Alu.Wrap(src + was)
    case AmoXor => Alu.Compute(src, was, Alu.Xor, false)
    case AmoAnd => Alu.Compute(src, was, Alu.And, false)
    case AmoOr => Alu.Compute(src, was, Alu.Or, false)
    case AmoMin => if was < src then was else src
    case AmoMax => if src < was then was else src
    case AmoMinu => if Alu.U64(was) < Alu.U64(src) then was else src
    case AmoMaxu => if Alu.U64(src) < Alu.U64(was) then was else src
  }

  function ExecAmo(m: Machine, op: AmoOp, width: nat, rd: Reg, addr: U64, src: Alu.I64): (o: Outcome)
    requires Formed(m) && !m.hart.needTrap && width >= 1
    ensures OneTrap(o)
  {
    match TargetOf(Sv39Walk.TablesIn(m.mem), ContextOf(m.hart), Sv39Access.Store, addr, width)
    case Refused(fb) => Went(Trap(m, AmoFaultCode(fb), AddressWord(addr)))
    case Physical(pa) =>
      if !Accessible(m.mem, pa, width) then Went(Trap(m, STORE_ACC_FAULT, AddressWord(addr)))
      else
        var was := Extended(BytesAt(m.mem, pa, width), true);
        var bytes := LowBytes(Alu.U64(AmoResult(op, src, was)), width);
        Went(SetGpr(m.(mem := Stored(m.mem, pa, bytes)), rd, was))
  }

  // ----- One instruction

  predicate WidthsPositive(i: Instr) {
    (i.Load? || i.Store? || i.LoadReserved? || i.StoreConditional? || i.Amo?) ==> i.width >= 1
  }

  /** The effect of an operation fetched in `len` bytes. */
  function Execute(m: Machine, i: Instr, len: bv64): (o: Outcome)
    requires Formed(m) && !m.hart.needTrap && WidthsPositive(i)
    ensures OneTrap(o)
  {
    match i
    case Lui(rd, imm) => Went(SetGpr(m, rd, Alu.FromBits(imm)))
    case Auipc(rd, imm) => Went(SetGpr(m, rd, ToReg(PcPlus(m, imm))))
    case Jal(rd, imm) => JumpTo(m, PcPlus(m, imm), rd, ToReg(PcPlus(m, len)))
    case Jalr(rd, rs1, imm) =>
      JumpTo(m, Sum(ToWord(Gpr(m, rs1)), imm), rd, ToReg(PcPlus(m, len)))
    case Branch(cond, rs1, rs2, imm) => ExecBranch(m, Holds(cond, Gpr(m, rs1), Gpr(m, rs2)), imm)
    case Load(width, signed, rd, rs1, imm) => ExecLoad(m, width, signed, rd, Address(Gpr(m, rs1), imm))
    case Store(width, rs1, rs2, imm) => ExecStore(m, width, Address(Gpr(m, rs1), imm), Gpr(m, rs2))
    case OpImm(op, word, rd, rs1, imm) =>
      Went(SetGpr(m, rd, Alu.AluExec(Gpr(m, rs1), Alu.FromBits(imm), op, word)))
    case OpReg(op, word, rd, rs1, rs2) =>
      Went(SetGpr(m, rd, Alu.AluExec(Gpr(m, rs1), Gpr(m, rs2), op, word)))
    case Nop => Went(m)
    case Ecall => ExecEcall(m)
    case Ebreak => Went(Trap(m, BREAKPOINT, ZERO))
    case Sret => ExecReturn(m, Privilege.Sret(m.hart))
    case Mret => ExecReturn(m, Privilege.Mret(m.hart))
    case SfenceVma(_, _) => if FenceAllowed(m.hart) then Went(m) else Refuse(m)
    case Csr(op, source, index, rd) => ExecCsr(m, op, source, index, rd)
    case LoadReserved(width, rd, rs1) => ExecLoadReserved(m, width, rd, Alu.U64(Gpr(m, rs1)))
    case StoreConditional(width, rd, rs1, rs2) =>
      ExecStoreConditional(m, width, rd, Alu.U64(Gpr(m, rs1)), Gpr(m, rs2))
    case Amo(op, width, rd, rs1, rs2) => ExecAmo(m, op, width, rd, Alu.U64(Gpr(m, rs1)), Gpr(m, rs2))
    case Illegal => Refuse(m)
  }

  lemma DecodedWidths(w: bv32)
    ensures WidthsPositive(Decode(w))
  {
  }
}
