/** Instruction formats and the 32-bit decode: which operation each instruction
    word denotes, with its registers and immediate. */
module Isa {
  import opened Words
  import Alu

  type Reg = bv5

  datatype Condition = Eq | Ne | Lt | Ge | Ltu | Geu

  datatype CsrOp = Swap | SetBits | ClearBits

  datatype CsrSource = FromReg(rs1: Reg) | Immediate(uimm: Reg)

  datatype AmoOp = AmoSwap | AmoAdd | AmoXor | AmoAnd | AmoOr | AmoMin | AmoMax | AmoMinu | AmoMaxu

  /** Immediates are sign-extended to 64 bits; widths are in bytes. */
  datatype Instr =
    | Lui(rd: Reg, imm: bv64)
    | Auipc(rd: Reg, imm: bv64)
    | Jal(rd: Reg, imm: bv64)
    | Jalr(rd: Reg, rs1: Reg, imm: bv64)
    | Branch(cond: Condition, rs1: Reg, rs2: Reg, imm: bv64)
    | Load(width: nat, signed: bool, rd: Reg, rs1: Reg, imm: bv64)
    | Store(width: nat, rs1: Reg, rs2: Reg, imm: bv64)
    | OpImm(op: Alu.Op, word: bool, rd: Reg, rs1: Reg, imm: bv64)
    | OpReg(op: Alu.Op, word: bool, rd: Reg, rs1: Reg, rs2: Reg)
    | Nop
    | Ecall
    | Ebreak
    | Sret
    | Mret
    | SfenceVma(rs1: Reg, rs2: Reg)
    | Csr(csrOp: CsrOp, source: CsrSource, index: bv12, rd: Reg)
    | LoadReserved(width: nat, rd: Reg, rs1: Reg)
    | StoreConditional(width: nat, rd: Reg, rs1: Reg, rs2: Reg)
    | Amo(amo: AmoOp, width: nat, rd: Reg, rs1: Reg, rs2: Reg)
    | Illegal

  // ----- Fields

  function Opcode(w: bv32): bv7 { (w & 0x7f) as bv7 }

  function Rd(w: bv32): Reg { ((w >> 7) & 0x1f) as bv5 }

  function Funct3(w: bv32): bv3 { ((w >> 12) & 7) as bv3 }

  function Rs1(w: bv32): Reg { ((w >> 15) & 0x1f) as bv5 }

  function Rs2(w: bv32): Reg { ((w >> 20) & 0x1f) as bv5 }

  function Funct7(w: bv32): bv7 { ((w >> 25) & 0x7f) as bv7 }

  /** The low bits of v, sign-extended from the bit that `sign` masks. */
  function Sext(v: bv64, sign: bv64): bv64 {
    (v ^ sign) - sign
  }

  function ImmI(w: bv32): bv64 {
    Sext(((w >> 20) & 0xfff) as bv64, 0x800)
  }

  function ImmS(w: bv32): bv64 {
    Sext(((((w >> 25) & 0x7f) << 5) | ((w >> 7) & 0x1f)) as bv64, 0x800)
  }

  function ImmB(w: bv32): bv64 {
    Sext(((((w >> 31) & 1) << 12) | (((w >> 7) & 1) << 11) | (((w >> 25) & 0x3f) << 5) |
          (((w >> 8) & 0xf) << 1)) as bv64, 0x1000)
  }

  function ImmU(w: bv32): bv64 {
    Sext((w & 0xffff_f000) as bv64, 0x8000_0000)
  }

  function ImmJ(w: bv32): bv64 {
    Sext(((((w >> 31) & 1) << 20) | (((w >> 12) & 0xff) << 12) | (((w >> 20) & 1) << 11) |
          (((w >> 21) & 0x3ff) << 1)) as bv64, 0x10_0000)
  }

  /** The immediate is at least 64 as a signed number. */
  predicate TooFar(imm: bv64) {
    imm < 0x8000_0000_0000_0000 && imm >= 64
  }

  // ----- The decode

  function DecodeBranch(w: bv32): Instr {
    var f := Funct3(w);
    if f == 2 || f == 3 then Illegal
    else
      var cond := if f == 0 then Eq else if f == 1 then Ne else if f == 4 then Lt
                  else if f == 5 then Ge else if f == 6 then Ltu else Geu;
      Branch(cond, Rs1(w), Rs2(w), ImmB(w))
  }

  function DecodeLoad(w: bv32): Instr {
    var f := Funct3(w);
    if f == 7 then Illegal
    else
      var width := if f & 3 == 0 then 1 else if f & 3 == 1 then 2 else if f & 3 == 2 then 4 else 8;
      Load(width, f < 4, Rd(w), Rs1(w), ImmI(w))
  }

  function DecodeStore(w: bv32): Instr {
    var f := Funct3(w);
    if f >= 4 then Illegal
    else
      var width := if f == 0 then 1 else if f == 1 then 2 else if f == 2 then 4 else 8;
      Store(width, Rs1(w), Rs2(w), ImmS(w))
  }

  /** The shift count is checked as a signed number: SLLI with a negative
      immediate is accepted. */
  function DecodeOpImm(w: bv32): Instr {
    var f, imm := Funct3(w), ImmI(w);
    if f == 1 then
      if TooFar(imm) then Illegal else OpImm(Alu.Sll, false, Rd(w), Rs1(w), imm)
    else if f == 5 then
      if Funct7(w) >> 1 == 0x10 then OpImm(Alu.Sra, false, Rd(w), Rs1(w), imm & 0x3f)
      else if Funct7(w) >> 1 == 0 then OpImm(Alu.Srl, false, Rd(w), Rs1(w), imm & 0x3f)
      else Illegal
    else
      var op := if f == 0 then Alu.Add else if f == 2 then Alu.Slt else if f == 3 then Alu.Sltu
                else if f == 4 then Alu.Xor else if f == 6 then Alu.Or else Alu.And;
      OpImm(op, false, Rd(w), Rs1(w), imm)
  }

  function DecodeOpImm32(w: bv32): Instr {
    var f, imm := Funct3(w), ImmI(w);
    if f == 0 then OpImm(Alu.Add, true, Rd(w), Rs1(w), imm)
    else if f == 1 then
      if TooFar(imm) || Funct7(w) != 0 then Illegal else OpImm(Alu.Sll, true, Rd(w), Rs1(w), imm)
    else if f == 5 then
      if Funct7(w) == 0x20 then OpImm(Alu.Sra, true, Rd(w), Rs1(w), imm & 0x3f)
      else if Funct7(w) == 0 then OpImm(Alu.Srl, true, Rd(w), Rs1(w), imm & 0x3f)
      else Illegal
    else Illegal
  }

  function DecodeOp(w: bv32): Instr {
    var f := Funct3(w);
    if Funct7(w) == 0 then
      var op := if f == 0 then Alu.Add else if f == 1 then Alu.Sll else if f == 2 then Alu.Slt
                else if f == 3 then Alu.Sltu else if f == 4 then Alu.Xor else if f == 5 then Alu.Srl
                else if f == 6 then Alu.Or else Alu.And;
      OpReg(op, false, Rd(w), Rs1(w), Rs2(w))
    else if Funct7(w) == 0x20 then
      if f == 0 then OpReg(Alu.Sub, false, Rd(w), Rs1(w), Rs2(w))
      else if f == 5 then OpReg(Alu.Sra, false, Rd(w), Rs1(w), Rs2(w))
      else Illegal
    else if Funct7(w) == 1 then
      var op := if f == 0 then Alu.Mul else if f == 1 then Alu.Mulh else if f == 2 then Alu.Mulhsu
                else if f == 3 then Alu.Mulhu else if f == 4 then Alu.Div else if f == 5 then Alu.Divu
                else if f == 6 then Alu.Rem else Alu.Remu;
      OpReg(op, false, Rd(w), Rs1(w), Rs2(w))
    else Illegal
  }

  function DecodeOp32(w: bv32): Instr {
    var f := Funct3(w);
    if Funct7(w) == 0 then
      if f == 0 then OpReg(Alu.Add, true, Rd(w), Rs1(w), Rs2(w))
      else if f == 1 then OpReg(Alu.Sll, true, Rd(w), Rs1(w), Rs2(w))
      else if f == 5 then OpReg(Alu.Srl, true, Rd(w), Rs1(w), Rs2(w))
      else Illegal
    else if Funct7(w) == 0x20 then
      if f == 0 then OpReg(Alu.Sub, true, Rd(w), Rs1(w), Rs2(w))
      else if f == 5 then OpReg(Alu.Sra, true, Rd(w), Rs1(w), Rs2(w))
      else Illegal
    else if Funct7(w) == 1 then
      if f == 0 then OpReg(Alu.Mul, true, Rd(w), Rs1(w), Rs2(w))
      else if f == 4 then OpReg(Alu.Div, true, Rd(w), Rs1(w), Rs2(w))
      else if f == 5 then OpReg(Alu.Divu, true, Rd(w), Rs1(w), Rs2(w))
      else if f == 6 then OpReg(Alu.Rem, true, Rd(w), Rs1(w), Rs2(w))
      else if f == 7 then OpReg(Alu.Remu, true, Rd(w), Rs1(w), Rs2(w))
      else Illegal
    else Illegal
  }

  function DecodeAmo(w: bv32): Instr {
    if Funct3(w) != 2 && Funct3(w) != 3 then Illegal
    else
      var width, op := if Funct3(w) == 2 then 4 else 8, Funct7(w) >> 2;
      if op == 0x2 then (if Rs2(w) != 0 then Illegal else LoadReserved(width, Rd(w), Rs1(w)))
      else if op == 0x3 then StoreConditional(width, Rd(w), Rs1(w), Rs2(w))
      else if op == 0x1 then Amo(AmoSwap, width, Rd(w), Rs1(w), Rs2(w))
      else if op == 0x0 then Amo(AmoAdd, width, Rd(w), Rs1(w), Rs2(w))
      else if op == 0x4 then Amo(AmoXor, width, Rd(w), Rs1(w), Rs2(w))
      else if op == 0xc then Amo(AmoAnd, width, Rd(w), Rs1(w), Rs2(w))
      else if op == 0x8 then Amo(AmoOr, width, Rd(w), Rs1(w), Rs2(w))
      else if op == 0x10 then Amo(AmoMin, width, Rd(w), Rs1(w), Rs2(w))
      else if op == 0x14 then Amo(AmoMax, width, Rd(w), Rs1(w), Rs2(w))
      else if op == 0x18 then Amo(AmoMinu, width, Rd(w), Rs1(w), Rs2(w))
      else if op == 0x1c then Amo(AmoMaxu, width, Rd(w), Rs1(w), Rs2(w))
      else Illegal
  }

  /** A trap-return word with a stray register field is ignored, not refused. */
  function DecodePriv(w: bv32): Instr {
    var plain := Rs1(w) == 0 && Rd(w) == 0;
    if Funct7(w) == 0x00 then
      if plain && Rs2(w) == 0 then Ecall
      else if plain && Rs2(w) == 1 then Ebreak
      else Illegal
    else if Funct7(w) == 0x08 then
      if !plain then Nop
      else if Rs2(w) == 2 then Sret
      else if Rs2(w) == 5 then Nop
      else Illegal
    else if Funct7(w) == 0x18 then
      if plain && Rs2(w) == 2 then Mret else Illegal
    else if Funct7(w) == 0x09 then SfenceVma(Rs1(w), Rs2(w))
    else Illegal
  }

  function DecodeSystem(w: bv32): Instr {
    var f, index := Funct3(w), (w >> 20) as bv12;
    if f == 0 then DecodePriv(w)
    else if f == 4 then Illegal
    else
      var source := if f < 4 then FromReg(Rs1(w)) else Immediate(Rs1(w));
      var op := if f & 3 == 1 then Swap else if f & 3 == 2 then SetBits else ClearBits;
      Csr(op, source, index, Rd(w))
  }

  /** The 32-bit decode tree: which operation a word denotes. */
  function Decode(w: bv32): Instr {
    var o := Opcode(w);
    if o == 0x37 then Lui(Rd(w), ImmU(w))
    else if o == 0x17 then Auipc(Rd(w), ImmU(w))
    else if o == 0x6f then Jal(Rd(w), ImmJ(w))
    else if o == 0x67 then Jalr(Rd(w), Rs1(w), ImmI(w) & 0xffff_ffff_ffff_fffe)
    else if o == 0x63 then DecodeBranch(w)
    else if o == 0x03 then DecodeLoad(w)
    else if o == 0x23 then DecodeStore(w)
    else if o == 0x13 then DecodeOpImm(w)
    else if o == 0x1b then DecodeOpImm32(w)
    else if o == 0x33 then DecodeOp(w)
    else if o == 0x3b then DecodeOp32(w)
    else if o == 0x2f then DecodeAmo(w)
    else if o == 0x0f then Nop
    else if o == 0x73 then DecodeSystem(w)
    else Illegal
  }
}
