/** Compressed instructions: the emulator's own decode tree for them, and the
    32-bit instruction each one abbreviates (sections 16.3 to 16.5 of the RISC-V
    Unprivileged ISA).  The two are proved to act alike. */
module Rvc {
  import opened Words
  import opened Privilege
  import opened Isa
  import opened Assembler
  import opened Exec
  import Alu

  // ----- The compressed decode tree

  /** Bits r to l of w, moved to `shift`: the macro of the source. */
  function BinaryConcat(w: bv32, r: bv32, l: bv32, shift: bv32): bv32
    requires l <= r <= 15 && shift <= 17
  {
    ((w >> l) & ((1 << (r - l + 1)) - 1)) << shift
  }

  function RvcOpcode(w: bv32): bv5 {
    (((w & 3) << 3) | ((w >> 13) & 7)) as bv5
  }

  /** A full register field. */
  function Full(w: bv32, l: bv32): Reg
    requires l <= 11
  {
    (BinaryConcat(w, l + 4, l, 0) & 0x1f) as bv5
  }

  /** A three-bit register field: x8 to x15. */
  function Short(w: bv32, l: bv32): Reg
    requires l <= 13
  {
    (8 + (BinaryConcat(w, l + 2, l, 0) & 7)) as bv5
  }

  /** The six-bit immediate, sign-extended by setting the bits above it. */
  function Imm6(w: bv32): bv64 {
    var imm := (BinaryConcat(w, 12, 12, 5) | BinaryConcat(w, 6, 2, 0)) as bv64;
    if imm >> 5 != 0 then imm | 0xffff_ffff_ffff_ffc0 else imm
  }

  function Shamt(w: bv32): bv64 {
    (BinaryConcat(w, 12, 12, 5) | BinaryConcat(w, 6, 2, 0)) as bv64
  }

  function ImmAddi4spn(w: bv32): bv64 {
    (BinaryConcat(w, 12, 11, 4) | BinaryConcat(w, 10, 7, 6) | BinaryConcat(w, 6, 6, 2) |
     BinaryConcat(w, 5, 5, 3)) as bv64
  }

  function ImmWord(w: bv32): bv64 {
    (BinaryConcat(w, 6, 6, 2) | BinaryConcat(w, 5, 5, 6) | BinaryConcat(w, 12, 10, 3)) as bv64
  }

  function ImmDouble(w: bv32): bv64 {
    (BinaryConcat(w, 6, 5, 6) | BinaryConcat(w, 12, 10, 3)) as bv64
  }

  function ImmAddi16sp(w: bv32): bv64 {
    var imm := (BinaryConcat(w, 12, 12, 9) | BinaryConcat(w, 6, 6, 4) | BinaryConcat(w, 5, 5, 6) |
                BinaryConcat(w, 4, 3, 7) | BinaryConcat(w, 2, 2, 5)) as bv64;
    if imm >> 9 != 0 then imm | 0xffff_ffff_ffff_fc00 else imm
  }

  function ImmLui(w: bv32): bv64 {
    var imm := (BinaryConcat(w, 12, 12, 17) | BinaryConcat(w, 6, 2, 12)) as bv64;
    if imm >> 17 != 0 then imm | 0xffff_ffff_fffc_0000 else imm
  }

  function ImmJump(w: bv32): bv64 {
    var imm := (BinaryConcat(w, 12, 12, 11) | BinaryConcat(w, 11, 11, 4) | BinaryConcat(w, 10, 9, 8) |
                BinaryConcat(w, 8, 8, 10) | BinaryConcat(w, 7, 7, 6) | BinaryConcat(w, 6, 6, 7) |
                BinaryConcat(w, 5, 3, 1) | BinaryConcat(w, 2, 2, 5)) as bv64;
    if imm >> 11 != 0 then imm | 0xffff_ffff_ffff_f000 else imm
  }

  function ImmBranch(w: bv32): bv64 {
    var imm := (BinaryConcat(w, 12, 12, 8) | BinaryConcat(w, 11, 10, 3) | BinaryConcat(w, 6, 5, 6) |
                BinaryConcat(w, 4, 3, 1) | BinaryConcat(w, 2, 2, 5)) as bv64;
    if imm >> 8 != 0 then imm | 0xffff_ffff_ffff_fe00 else imm
  }

  function ImmLwsp(w: bv32): bv64 {
    (BinaryConcat(w, 6, 4, 2) | BinaryConcat(w, 3, 2, 6) | BinaryConcat(w, 12, 12, 5)) as bv64
  }

  function ImmLdsp(w: bv32): bv64 {
    (BinaryConcat(w, 6, 5, 3) | BinaryConcat(w, 4, 2, 6) | BinaryConcat(w, 12, 12, 5)) as bv64
  }

  function ImmSwsp(w: bv32): bv64 {
    (BinaryConcat(w, 12, 9, 2) | BinaryConcat(w, 8, 7, 6)) as bv64
  }

  function ImmSdsp(w: bv32): bv64 {
    (BinaryConcat(w, 12, 10, 3) | BinaryConcat(w, 9, 7, 6)) as bv64
  }

  // ----- The expansion of the standard

  /** Bit k of the instruction, placed at bit p of an immediate. */
  function At(w: bv32, k: bv32, p: bv32): bv32
    requires k < 16 && p < 32
  {
    ((w >> k) & 1) << p
  }

  /** nzimm[5] and imm[4:0], sign-extended. */
  function SpecImm6(w: bv32): bv32 {
    ((At(w, 12, 5) | At(w, 6, 4) | At(w, 5, 3) | At(w, 4, 2) | At(w, 3, 1) | At(w, 2, 0)) ^ 0x20) - 0x20
  }

  function SpecShamt(w: bv32): bv32 {
    At(w, 12, 5) | At(w, 6, 4) | At(w, 5, 3) | At(w, 4, 2) | At(w, 3, 1) | At(w, 2, 0)
  }

  /** nzuimm[5:4|9:6|2|3] */
  function SpecAddi4spn(w: bv32): bv32 {
    At(w, 12, 5) | At(w, 11, 4) | At(w, 10, 9) | At(w, 9, 8) | At(w, 8, 7) | At(w, 7, 6) | At(w, 6, 2) | At(w, 5, 3)
  }

  /** uimm[5:3] and uimm[2|6] */
  function SpecWord(w: bv32): bv32 {
    At(w, 12, 5) | At(w, 11, 4) | At(w, 10, 3) | At(w, 6, 2) | At(w, 5, 6)
  }

  /** uimm[5:3] and uimm[7:6] */
  function SpecDouble(w: bv32): bv32 {
    At(w, 12, 5) | At(w, 11, 4) | At(w, 10, 3) | At(w, 6, 7) | At(w, 5, 6)
  }

  /** nzimm[9] and nzimm[4|6|8:7|5], sign-extended. */
  function SpecAddi16sp(w: bv32): bv32 {
    ((At(w, 12, 9) | At(w, 6, 4) | At(w, 5, 6) | At(w, 4, 8) | At(w, 3, 7) | At(w, 2, 5)) ^ 0x200) - 0x200
  }

  /** nzimm[17] and nzimm[16:12], sign-extended. */
  function SpecLui(w: bv32): bv32 {
    ((At(w, 12, 17) | At(w, 6, 16) | At(w, 5, 15) | At(w, 4, 14) | At(w, 3, 13) | At(w, 2, 12)) ^ 0x2_0000) - 0x2_0000
  }

  /** offset[11|4|9:8|10|6|7|3:1|5], sign-extended. */
  function SpecJump(w: bv32): bv32 {
    ((At(w, 12, 11) | At(w, 11, 4) | At(w, 10, 9) | At(w, 9, 8) | At(w, 8, 10) | At(w, 7, 6) | At(w, 6, 7) |
      At(w, 5, 3) | At(w, 4, 2) | At(w, 3, 1) | At(w, 2, 5)) ^ 0x800) - 0x800
  }

  /** offset[8|4:3] and offset[7:6|2:1|5], sign-extended. */
  function SpecBranch(w: bv32): bv32 {
    ((At(w, 12, 8) | At(w, 11, 4) | At(w, 10, 3) | At(w, 6, 7) | At(w, 5, 6) | At(w, 4, 2) | At(w, 3, 1) |
      At(w, 2, 5)) ^ 0x100) - 0x100
  }

  /** uimm[5] and uimm[4:2|7:6] */
  function SpecLwsp(w: bv32): bv32 {
    At(w, 12, 5) | At(w, 6, 4) | At(w, 5, 3) | At(w, 4, 2) | At(w, 3, 7) | At(w, 2, 6)
  }

  /** uimm[5] and uimm[4:3|8:6] */
  function SpecLdsp(w: bv32): bv32 {
    At(w, 12, 5) | At(w, 6, 4) | At(w, 5, 3) | At(w, 4, 8) | At(w, 3, 7) | At(w, 2, 6)
  }

  /** uimm[5:2|7:6] */
  function SpecSwsp(w: bv32): bv32 {
    At(w, 12, 5) | At(w, 11, 4) | At(w, 10, 3) | At(w, 9, 2) | At(w, 8, 7) | At(w, 7, 6)
  }

  /** uimm[5:3|8:6] */
  function SpecSdsp(w: bv32): bv32 {
    At(w, 12, 5) | At(w, 11, 4) | At(w, 10, 3) | At(w, 9, 8) | At(w, 8, 7) | At(w, 7, 6)
  }

  /** The register-register and shift group: bits 11 and 10 choose. */
  function ExpandAlu(w: bv32): Option<bv32> {
    var rd, rs2 := Short(w, 7), Short(w, 2);
    if (w >> 10) & 3 == 0 then Some(EncodeI(0x13, 5, rd, rd, SpecShamt(w)))
    else if (w >> 10) & 3 == 1 then Some(EncodeI(0x13, 5, rd, rd, 0x400 | SpecShamt(w)))
    else if (w >> 10) & 3 == 2 then Some(EncodeI(0x13, 7, rd, rd, SpecImm6(w)))
    else if (w >> 12) & 1 == 0 then
      if (w >> 5) & 3 == 0 then Some(EncodeR(0x33, 0, 0x20, rd, rd, rs2))
      else if (w >> 5) & 3 == 1 then Some(EncodeR(0x33, 4, 0, rd, rd, rs2))
      else if (w >> 5) & 3 == 2 then Some(EncodeR(0x33, 6, 0, rd, rd, rs2))
      else Some(EncodeR(0x33, 7, 0, rd, rd, rs2))
    else if (w >> 5) & 3 == 0 then Some(EncodeR(0x3b, 0, 0x20, rd, rd, rs2))
    else if (w >> 5) & 3 == 1 then Some(EncodeR(0x3b, 0, 0, rd, rd, rs2))
    else None
  }

  function ExpandJrMv(w: bv32): Option<bv32> {
    var rd, rs2 := Full(w, 7), Full(w, 2);
    if (w >> 12) & 1 == 0 then
      if rs2 == 0 then (if rd == 0 then None else Some(EncodeI(0x67, 0, 0, rd, 0)))
      else Some(EncodeR(0x33, 0, 0, rd, 0, rs2))
    else if rs2 == 0 then
      if rd == 0 then Some(0x0010_0073) else Some(EncodeI(0x67, 0, 1, rd, 0))
    else Some(EncodeR(0x33, 0, 0, rd, rd, rs2))
  }

  function ExpandQuadrant0(w: bv32): Option<bv32> {
    var o, rd, rs1 := RvcOpcode(w), Short(w, 2), Short(w, 7);
    if o == 0x00 then
      if SpecAddi4spn(w) == 0 then None else Some(EncodeI(0x13, 0, rd, 2, SpecAddi4spn(w)))
    else if o == 0x02 then Some(EncodeI(0x03, 2, rd, rs1, SpecWord(w)))
    else if o == 0x03 then Some(EncodeI(0x03, 3, rd, rs1, SpecDouble(w)))
    else if o == 0x06 then Some(EncodeS(2, rs1, rd, SpecWord(w)))
    else if o == 0x07 then Some(EncodeS(3, rs1, rd, SpecDouble(w)))
    else None
  }

  function ExpandQuadrant1(w: bv32): Option<bv32> {
    var o, rd := RvcOpcode(w), Full(w, 7);
    if o == 0x08 then Some(EncodeI(0x13, 0, rd, rd, SpecImm6(w)))
    else if o == 0x09 then if rd == 0 then None else Some(EncodeI(0x1b, 0, rd, rd, SpecImm6(w)))
    else if o == 0x0a then Some(EncodeI(0x13, 0, rd, 0, SpecImm6(w)))
    else if o == 0x0b then
      if rd == 2 then (if SpecAddi16sp(w) == 0 then None else Some(EncodeI(0x13, 0, 2, 2, SpecAddi16sp(w))))
      else if SpecLui(w) == 0 then None else Some(EncodeU(0x37, rd, SpecLui(w)))
    else if o == 0x0c then ExpandAlu(w)
    else if o == 0x0d then Some(EncodeJ(0, SpecJump(w)))
    else if o == 0x0e then Some(EncodeB(0, Short(w, 7), 0, SpecBranch(w)))
    else Some(EncodeB(1, Short(w, 7), 0, SpecBranch(w)))
  }

  function ExpandQuadrant2(w: bv32): Option<bv32> {
    var o, rd, rs2 := RvcOpcode(w), Full(w, 7), Full(w, 2);
    if o == 0x10 then Some(EncodeI(0x13, 1, rd, rd, SpecShamt(w)))
    else if o == 0x12 then if rd == 0 then None else Some(EncodeI(0x03, 2, rd, 2, SpecLwsp(w)))
    else if o == 0x13 then if rd == 0 then None else Some(EncodeI(0x03, 3, rd, 2, SpecLdsp(w)))
    else if o == 0x14 then ExpandJrMv(w)
    else if o == 0x16 then Some(EncodeS(2, 2, rs2, SpecSwsp(w)))
    else if o == 0x17 then Some(EncodeS(3, 2, rs2, SpecSdsp(w)))
    else None
  }

  /** The 32-bit instruction that a compressed one abbreviates (tables 16.5 to
      16.7); None where the encoding is reserved or needs an absent extension. */
  function Expand(w: bv32): Option<bv32> {
    if w & 3 == 0 then ExpandQuadrant0(w)
    else if w & 3 == 1 then ExpandQuadrant1(w)
    else if w & 3 == 2 then ExpandQuadrant2(w)
    else None
  }

  // ----- Execution, as the compressed tree does it

  /** An operation with its own destination, skipped for a zero immediate. */
  function OperateUnlessZero(m: Machine, op: Alu.Op, rd: Reg, shamt: bv64): Outcome
    requires Formed(m)
  {
    if shamt == 0 then Went(m)
    else Went(SetGpr(m, rd, Alu.AluExec(Gpr(m, rd), Alu.FromBits(shamt), op, false)))
  }

  function ExecRegReg(m: Machine, op: Alu.Op, word: bool, rd: Reg, rs2: Reg): Outcome
    requires Formed(m)
  {
    Went(SetGpr(m, rd, Alu.AluExec(Gpr(m, rd), Gpr(m, rs2), op, word)))
  }

  function ExecCAlu(m: Machine, w: bv32): (o: Outcome)
    requires Formed(m) && !m.hart.needTrap
    ensures OneTrap(o)
  {
    var rs1, rs2 := Short(w, 7), Short(w, 2);
    if BinaryConcat(w, 11, 11, 0) == 0 then
      OperateUnlessZero(m, if BinaryConcat(w, 10, 10, 0) != 0 then Alu.Sra else Alu.Srl, rs1, Shamt(w))
    else if BinaryConcat(w, 10, 10, 0) == 0 then
      Went(SetGpr(m, rs1, Alu.AluExec(Gpr(m, rs1), Alu.FromBits(Imm6(w)), Alu.And, false)))
    else
      var funct2, bit12 := BinaryConcat(w, 6, 5, 0), BinaryConcat(w, 12, 12, 0) != 0;
      if funct2 == 0 then ExecRegReg(m, Alu.Sub, bit12, rs1, rs2)
      else if funct2 == 1 then ExecRegReg(m, if bit12 then Alu.Add else Alu.Xor, bit12, rs1, rs2)
      else if bit12 then Refuse(m)
      else ExecRegReg(m, if funct2 == 2 then Alu.Or else Alu.And, false, rs1, rs2)
  }

  /** The target with its lowest bit cleared, as the source clears it. */
  function Rounded(npc: Word): Word {
    if npc.bits & 1 != 0 then W(npc.bits ^ 1) else npc
  }

  /** A register jump; the lowest bit of the target is cleared first. */
  function JumpRegister(m: Machine, rs1: Reg, link: Reg): (o: Outcome)
    requires Formed(m) && !m.hart.needTrap
    ensures OneTrap(o)
  {
    JumpTo(m, Rounded(ToWord(Gpr(m, rs1))), link, ToReg(PcPlus(m, 2)))
  }

  function ExecJrMv(m: Machine, w: bv32): (o: Outcome)
    requires Formed(m) && !m.hart.needTrap
    ensures OneTrap(o)
  {
    var rs1, rs2 := Full(w, 7), Full(w, 2);
    if BinaryConcat(w, 12, 12, 0) != 0 then
      if rs2 == 0 then
        if rs1 == 0 then Went(Trap(m, BREAKPOINT, ZERO)) else JumpRegister(m, rs1, 1)
      else ExecRegReg(m, Alu.Add, false, rs1, rs2)
    else if rs2 == 0 then
      if rs1 == 0 then Refuse(m) else JumpRegister(m, rs1, 0)
    else Went(SetGpr(m, rs1, Gpr(m, rs2)))
  }

  /** Compressed jumps and branches go without an alignment check. */
  function JumpBy(m: Machine, imm: bv64): Outcome {
    Outcome(m.(hart := m.hart.(pc := PcPlus(m, imm))), true, false)
  }

  function ExecAddi16spLui(m: Machine, w: bv32): (o: Outcome)
    requires Formed(m) && !m.hart.needTrap
    ensures OneTrap(o)
  {
    var rd := Full(w, 7);
    if rd == 2 then
      if ImmAddi16sp(w) == 0 then Went(m)
      else Went(SetGpr(m, rd, Alu.Wrap(Gpr(m, rd) + Alu.FromBits(ImmAddi16sp(w)))))
    else if ImmLui(w) == 0 then Went(m)
    else Went(SetGpr(m, rd, Alu.FromBits(ImmLui(w))))
  }

  function ExecAddi4spn(m: Machine, w: bv32): (o: Outcome)
    requires Formed(m) && !m.hart.needTrap
    ensures OneTrap(o)
  {
    if ImmAddi4spn(w) == 0 then Refuse(m)
    else Went(SetGpr(m, Short(w, 2), Alu.Wrap(Gpr(m, 2) + Alu.FromBits(ImmAddi4spn(w)))))
  }

  function ExecQuadrant0(m: Machine, w: bv32): (o: Outcome)
    requires Formed(m) && !m.hart.needTrap
    ensures OneTrap(o)
  {
    var o, rd := RvcOpcode(w), Short(w, 2);
    if o == 0x00 then ExecAddi4spn(m, w)
    else if o == 0x02 then ExecLoad(m, 4, true, rd, Address(Gpr(m, Short(w, 7)), ImmWord(w)))
    else if o == 0x03 then ExecLoad(m, 8, true, rd, Address(Gpr(m, Short(w, 7)), ImmDouble(w)))
    else if o == 0x06 then ExecStore(m, 4, Address(Gpr(m, Short(w, 7)), ImmWord(w)), Gpr(m, rd))
    else if o == 0x07 then ExecStore(m, 8, Address(Gpr(m, Short(w, 7)), ImmDouble(w)), Gpr(m, rd))
    else Refuse(m)
  }

  function ExecQuadrant1(m: Machine, w: bv32): (o: Outcome)
    requires Formed(m) && !m.hart.needTrap
    ensures OneTrap(o)
  {
    var o, rd := RvcOpcode(w), Full(w, 7);
    if o == 0x08 then OperateUnlessZero(m, Alu.Add, rd, Imm6(w))
    else if o == 0x09 then Went(SetGpr(m, rd, Alu.AluExec(Gpr(m, rd), Alu.FromBits(Imm6(w)), Alu.Add, true)))
    else if o == 0x0a then Went(SetGpr(m, rd, Alu.FromBits(Imm6(w))))
    else if o == 0x0b then ExecAddi16spLui(m, w)
    else if o == 0x0c then ExecCAlu(m, w)
    else if o == 0x0d then JumpBy(m, ImmJump(w))
    else if o == 0x0e then if Gpr(m, Short(w, 7)) == 0 then JumpBy(m, ImmBranch(w)) else Went(m)
    else if Gpr(m, Short(w, 7)) != 0 then JumpBy(m, ImmBranch(w)) else Went(m)
  }

  function ExecQuadrant2(m: Machine, w: bv32): (o: Outcome)
    requires Formed(m) && !m.hart.needTrap
    ensures OneTrap(o)
  {
    var o, rd, rs2 := RvcOpcode(w), Full(w, 7), Full(w, 2);
    if o == 0x10 then OperateUnlessZero(m, Alu.Sll, rd, Shamt(w))
    else if o == 0x12 then ExecLoad(m, 4, true, rd, Address(Gpr(m, 2), ImmLwsp(w)))
    else if o == 0x13 then ExecLoad(m, 8, true, rd, Address(Gpr(m, 2), ImmLdsp(w)))
    else if o == 0x14 then ExecJrMv(m, w)
    else if o == 0x16 then ExecStore(m, 4, Address(Gpr(m, 2), ImmSwsp(w)), Gpr(m, rs2))
    else if o == 0x17 then ExecStore(m, 8, Address(Gpr(m, 2), ImmSdsp(w)), Gpr(m, rs2))
    else Refuse(m)
  }

  /** The compressed switch of the source, by quadrant. */
  function ExecCompressed(m: Machine, w: bv32): (o: Outcome)
    requires Formed(m) && !m.hart.needTrap && w & 3 != 3
    ensures OneTrap(o)
  {
    if w & 3 == 0 then ExecQuadrant0(m, w)
    else if w & 3 == 1 then ExecQuadrant1(m, w)
    else ExecQuadrant2(m, w)
  }
}
