/** The instruction encodings of the RISC-V Unprivileged ISA (section 2.3 and the
    listings of chapter 24), and the proof that the decode tree of the emulator
    inverts them. */
module Assembler {
  import opened Words
  import opened Isa
  import opened Privilege
  import Alu

  // ----- The formats

  function EncodeI(op: bv7, f3: bv3, rd: Reg, rs1: Reg, imm: bv32): bv32 {
    ((imm & 0xfff) << 20) | ((rs1 as bv32) << 15) | ((f3 as bv32) << 12) | ((rd as bv32) << 7) | (op as bv32)
  }

  function EncodeS(f3: bv3, rs1: Reg, rs2: Reg, imm: bv32): bv32 {
    (((imm >> 5) & 0x7f) << 25) | ((rs2 as bv32) << 20) | ((rs1 as bv32) << 15) |
    ((f3 as bv32) << 12) | ((imm & 0x1f) << 7) | 0x23
  }

  function EncodeR(op: bv7, f3: bv3, f7: bv7, rd: Reg, rs1: Reg, rs2: Reg): bv32 {
    ((f7 as bv32) << 25) | ((rs2 as bv32) << 20) | ((rs1 as bv32) << 15) | ((f3 as bv32) << 12) |
    ((rd as bv32) << 7) | (op as bv32)
  }

  function EncodeB(f3: bv3, rs1: Reg, rs2: Reg, imm: bv32): bv32 {
    (((imm >> 12) & 1) << 31) | (((imm >> 5) & 0x3f) << 25) | ((rs2 as bv32) << 20) | ((rs1 as bv32) << 15) |
    ((f3 as bv32) << 12) | (((imm >> 1) & 0xf) << 8) | (((imm >> 11) & 1) << 7) | 0x63
  }

  function EncodeJ(rd: Reg, imm: bv32): bv32 {
    (((imm >> 20) & 1) << 31) | (((imm >> 1) & 0x3ff) << 21) | (((imm >> 11) & 1) << 20) |
    (((imm >> 12) & 0xff) << 12) | ((rd as bv32) << 7) | 0x6f
  }

  function EncodeU(op: bv7, rd: Reg, imm: bv32): bv32 {
    (imm & 0xffff_f000) | ((rd as bv32) << 7) | (op as bv32)
  }

  // ----- Decoding what the encoders make

  /** The 12-bit immediate that the I and S formats carry. */
  function Low12(imm: bv32): bv64 {
    Sext((imm & 0xfff) as bv64, 0x800)
  }

  lemma FieldsI(op: bv7, f3: bv3, rd: Reg, rs1: Reg, imm: bv32)
    ensures
      var e := EncodeI(op, f3, rd, rs1, imm);
      Opcode(e) == op && Funct3(e) == f3 && Rd(e) == rd && Rs1(e) == rs1 && ImmI(e) == Low12(imm) &&
      Funct7(e) == ((imm >> 5) & 0x7f) as bv7
  {
  }

  lemma FieldsS(f3: bv3, rs1: Reg, rs2: Reg, imm: bv32)
    ensures
      var e := EncodeS(f3, rs1, rs2, imm);
      Opcode(e) == 0x23 && Funct3(e) == f3 && Rs1(e) == rs1 && Rs2(e) == rs2 && ImmS(e) == Low12(imm)
  {
  }

  lemma FieldsR(op: bv7, f3: bv3, f7: bv7, rd: Reg, rs1: Reg, rs2: Reg)
    ensures
      var e := EncodeR(op, f3, f7, rd, rs1, rs2);
      Opcode(e) == op && Funct3(e) == f3 && Funct7(e) == f7 &&
      Rd(e) == rd && Rs1(e) == rs1 && Rs2(e) == rs2
  {
  }

  lemma FieldsB(f3: bv3, rs1: Reg, rs2: Reg, imm: bv32)
    ensures
      var e := EncodeB(f3, rs1, rs2, imm);
      Opcode(e) == 0x63 && Funct3(e) == f3 && Rs1(e) == rs1 && Rs2(e) == rs2 &&
      ImmB(e) == Sext((imm & 0x1ffe) as bv64, 0x1000)
  {
  }

  lemma FieldsU(op: bv7, rd: Reg, imm: bv32)
    ensures
      var e := EncodeU(op, rd, imm);
      Opcode(e) == op && Rd(e) == rd && ImmU(e) == Sext((imm & 0xffff_f000) as bv64, 0x8000_0000)
  {
  }

  lemma FieldsJ(rd: Reg, imm: bv32)
    ensures
      var e := EncodeJ(rd, imm);
      Opcode(e) == 0x6f && Rd(e) == rd && ImmJ(e) == Sext((imm & 0x1f_fffe) as bv64, 0x10_0000)
  {
  }

  lemma DecodeAddi(rd: Reg, rs1: Reg, imm: bv32)
    ensures Decode(EncodeI(0x13, 0, rd, rs1, imm)) == OpImm(Alu.Add, false, rd, rs1, Low12(imm))
  {
    FieldsI(0x13, 0, rd, rs1, imm);
  }

  lemma DecodeAddiw(rd: Reg, rs1: Reg, imm: bv32)
    ensures Decode(EncodeI(0x1b, 0, rd, rs1, imm)) == OpImm(Alu.Add, true, rd, rs1, Low12(imm))
  {
    FieldsI(0x1b, 0, rd, rs1, imm);
  }

  lemma DecodeAndi(rd: Reg, rs1: Reg, imm: bv32)
    ensures Decode(EncodeI(0x13, 7, rd, rs1, imm)) == OpImm(Alu.And, false, rd, rs1, Low12(imm))
  {
    FieldsI(0x13, 7, rd, rs1, imm);
  }

  lemma DecodeSlli(rd: Reg, rs1: Reg, shamt: bv32)
    requires shamt < 0x40
    ensures Decode(EncodeI(0x13, 1, rd, rs1, shamt)) == OpImm(Alu.Sll, false, rd, rs1, shamt as bv64)
  {
    FieldsI(0x13, 1, rd, rs1, shamt);
    assert Low12(shamt) == shamt as bv64 && !TooFar(shamt as bv64);
  }

  lemma DecodeSrli(rd: Reg, rs1: Reg, shamt: bv32)
    requires shamt < 0x40
    ensures Decode(EncodeI(0x13, 5, rd, rs1, shamt)) == OpImm(Alu.Srl, false, rd, rs1, shamt as bv64)
  {
    FieldsI(0x13, 5, rd, rs1, shamt);
    assert Low12(shamt) & 0x3f == shamt as bv64;
    assert (((shamt >> 5) & 0x7f) as bv7) >> 1 == 0;
  }

  lemma DecodeSrai(rd: Reg, rs1: Reg, shamt: bv32)
    requires shamt < 0x40
    ensures Decode(EncodeI(0x13, 5, rd, rs1, 0x400 | shamt)) == OpImm(Alu.Sra, false, rd, rs1, shamt as bv64)
  {
    FieldsI(0x13, 5, rd, rs1, 0x400 | shamt);
    assert Low12(0x400 | shamt) & 0x3f == shamt as bv64;
    assert ((((0x400 | shamt) >> 5) & 0x7f) as bv7) >> 1 == 0x10;
  }

  lemma DecodeLw(rd: Reg, rs1: Reg, imm: bv32)
    ensures Decode(EncodeI(0x03, 2, rd, rs1, imm)) == Load(4, true, rd, rs1, Low12(imm))
  {
    FieldsI(0x03, 2, rd, rs1, imm);
  }

  lemma DecodeLd(rd: Reg, rs1: Reg, imm: bv32)
    ensures Decode(EncodeI(0x03, 3, rd, rs1, imm)) == Load(8, true, rd, rs1, Low12(imm))
  {
    FieldsI(0x03, 3, rd, rs1, imm);
  }

  lemma DecodeSw(rs1: Reg, rs2: Reg, imm: bv32)
    ensures Decode(EncodeS(2, rs1, rs2, imm)) == Store(4, rs1, rs2, Low12(imm))
  {
    FieldsS(2, rs1, rs2, imm);
  }

  lemma DecodeSd(rs1: Reg, rs2: Reg, imm: bv32)
    ensures Decode(EncodeS(3, rs1, rs2, imm)) == Store(8, rs1, rs2, Low12(imm))
  {
    FieldsS(3, rs1, rs2, imm);
  }

  lemma DecodeJalr(rd: Reg, rs1: Reg)
    ensures Decode(EncodeI(0x67, 0, rd, rs1, 0)) == Jalr(rd, rs1, 0)
  {
    FieldsI(0x67, 0, rd, rs1, 0);
  }

  /** The register-register instructions that compressed code abbreviates. */
  lemma DecodeOpReg(op: Alu.Op, f3: bv3, f7: bv7, rd: Reg, rs1: Reg, rs2: Reg)
    requires (op, f3, f7) == (Alu.Add, 0, 0) || (op, f3, f7) == (Alu.Sub, 0, 0x20) || (op, f3, f7) == (Alu.Xor, 4, 0) ||
             (op, f3, f7) == (Alu.Or, 6, 0) || (op, f3, f7) == (Alu.And, 7, 0)
    ensures Decode(EncodeR(0x33, f3, f7, rd, rs1, rs2)) == OpReg(op, false, rd, rs1, rs2)
  {
    FieldsR(0x33, f3, f7, rd, rs1, rs2);
  }

  lemma DecodeOpRegWord(op: Alu.Op, f7: bv7, rd: Reg, rs1: Reg, rs2: Reg)
    requires (op, f7) == (Alu.Add, 0) || (op, f7) == (Alu.Sub, 0x20)
    ensures Decode(EncodeR(0x3b, 0, f7, rd, rs1, rs2)) == OpReg(op, true, rd, rs1, rs2)
  {
    FieldsR(0x3b, 0, f7, rd, rs1, rs2);
  }

  lemma DecodeLui(rd: Reg, imm: bv32)
    ensures Decode(EncodeU(0x37, rd, imm)) == Lui(rd, Sext((imm & 0xffff_f000) as bv64, 0x8000_0000))
  {
    FieldsU(0x37, rd, imm);
  }

  lemma DecodeJal(rd: Reg, imm: bv32)
    ensures Decode(EncodeJ(rd, imm)) == Jal(rd, Sext((imm & 0x1f_fffe) as bv64, 0x10_0000))
  {
    FieldsJ(rd, imm);
  }

  lemma DecodeBeqBne(f3: bv3, rs1: Reg, imm: bv32)
    requires f3 < 2
    ensures Decode(EncodeB(f3, rs1, 0, imm)) ==
      Branch(if f3 == 0 then Eq else Ne, rs1, 0, Sext((imm & 0x1ffe) as bv64, 0x1000))
  {
    FieldsB(f3, rs1, 0, imm);
  }

  // ----- The whole instruction set

  /** A signed immediate of n bits, sign-extended; `sign` masks its top bit. */
  predicate Fits(imm: bv64, mask: bv64, sign: bv64) {
    imm == Sext(imm & mask, sign)
  }

  function Field(imm: bv64): bv32 {
    (imm & 0xffff_ffff) as bv32
  }

  function BranchFunct3(c: Condition): bv3 {
    match c
    case Eq => 0
    case Ne => 1
    case Lt => 4
    case Ge => 5
    case Ltu => 6
    case Geu => 7
  }

  function WidthFunct3(width: nat): bv3 {
    if width == 1 then 0 else if width == 2 then 1 else if width == 4 then 2 else 3
  }

  function LoadFunct3(width: nat, signed: bool): bv3 {
    if signed then WidthFunct3(width) else if width == 1 then 4 else if width == 2 then 5 else 6
  }

  /** funct7 and funct3 of a register-register operation. */
  function OpFunct(op: Alu.Op): (bv7, bv3) {
    match op
    case Add => (0x00, 0)
    case Sub => (0x20, 0)
    case Sll => (0x00, 1)
    case Slt => (0x00, 2)
    case Sltu => (0x00, 3)
    case Xor => (0x00, 4)
    case Srl => (0x00, 5)
    case Sra => (0x20, 5)
    case Or => (0x00, 6)
    case And => (0x00, 7)
    case Mul => (0x01, 0)
    case Mulh => (0x01, 1)
    case Mulhsu => (0x01, 2)
    case Mulhu => (0x01, 3)
    case Div => (0x01, 4)
    case Divu => (0x01, 5)
    case Rem => (0x01, 6)
    case Remu => (0x01, 7)
  }

  /** The operations with a 32-bit form. */
  predicate HasWordForm(op: Alu.Op) {
    op.Add? || op.Sub? || op.Sll? || op.Srl? || op.Sra? || op.Mul? || op.Div? || op.Divu? || op.Rem? || op.Remu?
  }

  predicate IsShift(op: Alu.Op) {
    op.Sll? || op.Srl? || op.Sra?
  }

  /** The operations with an immediate form. */
  predicate HasImmediateForm(op: Alu.Op, word: bool) {
    IsShift(op) || op.Add? || (!word && (op.Slt? || op.Sltu? || op.Xor? || op.Or? || op.And?))
  }

  function AmoFunct5(op: AmoOp): bv7 {
    match op
    case AmoSwap => 0x01
    case AmoAdd => 0x00
    case AmoXor => 0x04
    case AmoAnd => 0x0c
    case AmoOr => 0x08
    case AmoMin => 0x10
    case AmoMax => 0x14
    case AmoMinu => 0x18
    case AmoMaxu => 0x1c
  }

  /** funct7 of an atomic: funct5, then aq and rl. */
  function Ordered(funct5: bv7, x: Ignored): bv7 {
    (funct5 << 2) | (x.order as bv7)
  }

  function CsrFunct3(op: CsrOp, source: CsrSource): bv3 {
    match op
    case Swap => if source.FromReg? then 1 else 5
    case SetBits => if source.FromReg? then 2 else 6
    case ClearBits => if source.FromReg? then 3 else 7
  }

  predicate Encodable(i: Instr) {
    match i
    case Lui(_, imm) => Fits(imm, 0xffff_f000, 0x8000_0000)
    case Auipc(_, imm) => Fits(imm, 0xffff_f000, 0x8000_0000)
    case Jal(_, imm) => Fits(imm, 0x1f_fffe, 0x10_0000)
    case Jalr(_, _, imm) => Fits(imm, 0xfff, 0x800)
    case Branch(_, _, _, imm) => Fits(imm, 0x1ffe, 0x1000)
    case Load(width, signed, _, _, imm) => width in {1, 2, 4, 8} && (width == 8 ==> signed) && Fits(imm, 0xfff, 0x800)
    case Store(width, _, _, imm) => width in {1, 2, 4, 8} && Fits(imm, 0xfff, 0x800)
    case OpImm(op, word, _, _, imm) =>
      HasImmediateForm(op, word) && (if IsShift(op) then imm < (if word then 32 else 64) else Fits(imm, 0xfff, 0x800))
    case OpReg(op, word, _, _, _) => word ==> HasWordForm(op)
    case LoadReserved(width, _, _) => width == 4 || width == 8
    case StoreConditional(width, _, _, _) => width == 4 || width == 8
    case Amo(_, width, _, _, _) => width == 4 || width == 8
    case Illegal => false
    case _ => true
  }

  /** What the emulator ignores: the aq and rl bits of atomics, every field of FENCE
      but its opcode, and whether an instruction without effect is FENCE or WFI. */
  datatype Ignored = Ignored(order: bv2, fence: bv25, wait: bool)

  /** The word of an instruction. */
  function Encode(i: Instr, x: Ignored): bv32
    requires Encodable(i)
  {
    match i
    case Lui(rd, imm) => EncodeU(0x37, rd, Field(imm))
    case Auipc(rd, imm) => EncodeU(0x17, rd, Field(imm))
    case Jal(rd, imm) => EncodeJ(rd, Field(imm))
    case Jalr(rd, rs1, imm) => EncodeI(0x67, 0, rd, rs1, Field(imm))
    case Branch(c, rs1, rs2, imm) => EncodeB(BranchFunct3(c), rs1, rs2, Field(imm))
    case Load(width, signed, rd, rs1, imm) =>
      EncodeI(0x03, LoadFunct3(width, signed), rd, rs1, Field(imm))
    case Store(width, rs1, rs2, imm) => EncodeS(WidthFunct3(width), rs1, rs2, Field(imm))
    case OpImm(op, word, rd, rs1, imm) =>
      EncodeI(if word then 0x1b else 0x13, OpFunct(op).1, rd, rs1, if op.Sra? then Field(imm) | 0x400 else Field(imm))
    case OpReg(op, word, rd, rs1, rs2) =>
      EncodeR(if word then 0x3b else 0x33, OpFunct(op).1, OpFunct(op).0, rd, rs1, rs2)
    case Nop => if x.wait then 0x1050_0073 else ((x.fence as bv32) << 7) | 0x0f
    case Ecall => 0x0000_0073
    case Ebreak => 0x0010_0073
    case Sret => 0x1020_0073
    case Mret => 0x3020_0073
    case SfenceVma(rs1, rs2) => EncodeR(0x73, 0, 0x09, 0, rs1, rs2)
    case Csr(op, source, index, rd) =>
      EncodeI(0x73, CsrFunct3(op, source), rd, SourceField(source), index as bv32)
    case LoadReserved(width, rd, rs1) => EncodeR(0x2f, WidthFunct3(width), Ordered(0x02, x), rd, rs1, 0)
    case StoreConditional(width, rd, rs1, rs2) => EncodeR(0x2f, WidthFunct3(width), Ordered(0x03, x), rd, rs1, rs2)
    case Amo(op, width, rd, rs1, rs2) => EncodeR(0x2f, WidthFunct3(width), Ordered(AmoFunct5(op), x), rd, rs1, rs2)
  }

  // The low 32 bits hold every bit that the formats select.

  lemma Field12(imm: bv64)
    ensures (Field(imm) & 0xfff) as bv64 == imm & 0xfff
  {
  }

  lemma FieldB(imm: bv64)
    ensures (Field(imm) & 0x1ffe) as bv64 == imm & 0x1ffe
  {
  }

  lemma FieldJ(imm: bv64)
    ensures (Field(imm) & 0x1f_fffe) as bv64 == imm & 0x1f_fffe
  {
  }

  lemma FieldU(imm: bv64)
    ensures (Field(imm) & 0xffff_f000) as bv64 == imm & 0xffff_f000
  {
  }

  lemma SmallField(imm: bv64)
    requires imm < 64
    ensures Field(imm) < 64 && Field(imm) as bv64 == imm
  {
  }

  lemma FieldOf12(imm: bv64)
    requires Fits(imm, 0xfff, 0x800)
    ensures Low12(Field(imm)) == imm
  {
    Field12(imm);
    SameLow12(Field(imm), imm);
  }

  lemma SameLow12(x: bv32, imm: bv64)
    requires (x & 0xfff) as bv64 == imm & 0xfff
    ensures Low12(x) == Sext(imm & 0xfff, 0x800)
  {
  }

  lemma UpperDecodes(i: Instr, x: Ignored)
    requires (i.Lui? || i.Auipc?) && Encodable(i)
    ensures Decode(Encode(i, x)) == i
  {
    if i.Lui? {
      FieldsU(0x37, i.rd, Field(i.imm));
    } else {
      FieldsU(0x17, i.rd, Field(i.imm));
    }
    FieldU(i.imm);
  }

  lemma JalWord(e: bv32)
    requires Opcode(e) == 0x6f
    ensures Decode(e) == Jal(Rd(e), ImmJ(e))
  {
  }

  lemma JalDecodes(i: Instr, x: Ignored)
    requires i.Jal? && Encodable(i)
    ensures Decode(Encode(i, x)) == i
  {
    JalFields(i.rd, i.imm);
    JalWord(Encode(i, x));
  }

  lemma JalFields(rd: Reg, imm: bv64)
    requires Fits(imm, 0x1f_fffe, 0x10_0000)
    ensures var e := EncodeJ(rd, Field(imm));
      Opcode(e) == 0x6f && Rd(e) == rd && ImmJ(e) == imm
  {
    FieldsJ(rd, Field(imm));
    FieldJ(imm);
  }

  /** What is left of an instruction: the low bit of a JALR offset is dropped. */
  function Kept(i: Instr): Instr {
    match i
    case Jalr(rd, rs1, imm) => Jalr(rd, rs1, EvenPart(imm))
    case _ => i
  }

  function EvenPart(x: bv64): bv64 {
    x & 0xffff_ffff_ffff_fffe
  }

  lemma JalrDecodes(i: Instr, x: Ignored)
    requires i.Jalr? && Encodable(i)
    ensures Decode(Encode(i, x)) == Kept(i)
  {
    FieldsI(0x67, 0, i.rd, i.rs1, Field(i.imm));
    FieldOf12(i.imm);
    JalrWord(Encode(i, x));
  }

  lemma JalrWord(e: bv32)
    requires Opcode(e) == 0x67
    ensures Decode(e) == Jalr(Rd(e), Rs1(e), EvenPart(ImmI(e)))
  {
  }

  /** The emulator adds the offset without its low bit; the standard adds first and
      then clears the low bit of the sum.  The targets agree exactly for an even
      register. */
  lemma JalrTargetMeetsStandard(base: Word, imm: bv64)
    ensures Sum(base, EvenPart(imm)) == EvenWord(Sum(base, imm)) <==> base.bits & 1 == 0
  {
    if base.bits & 1 != 0 {
      OddBaseStaysOdd(base, imm);
    } else if imm & 1 == 0 {
      EvenIsWhole(imm);
      PlainSum(base, imm);
    } else {
      OddIsNext(imm);
      RaisedSum(base, EvenPart(imm));
    }
  }

  function EvenWord(w: Word): Word {
    W(EvenPart(w.bits))
  }

  lemma OddBaseStaysOdd(base: Word, imm: bv64)
    requires base.bits & 1 != 0
    ensures Sum(base, EvenPart(imm)) != EvenWord(Sum(base, imm))
  {
    EvenOffset(imm);
    OddSum(base, EvenPart(imm));
    EvenWordIsEven(Sum(base, imm));
  }

  lemma EvenOffset(x: bv64)
    ensures EvenPart(x) & 1 == 0
  {
  }

  lemma OddSum(base: Word, j: bv64)
    requires base.bits & 1 != 0 && j & 1 == 0
    ensures Sum(base, j).bits & 1 != 0
  {
  }

  lemma EvenWordIsEven(w: Word)
    ensures EvenWord(w).bits & 1 == 0
  {
  }

  lemma EvenIsWhole(x: bv64)
    requires x & 1 == 0
    ensures EvenPart(x) == x
  {
  }

  lemma OddIsNext(x: bv64)
    requires x & 1 != 0
    ensures x == EvenPart(x) | 1 && EvenPart(x) & 1 == 0
  {
  }

  lemma PlainSum(base: Word, j: bv64)
    requires base.bits & 1 == 0 && j & 1 == 0
    ensures EvenWord(Sum(base, j)) == Sum(base, j)
  {
    EvenSum(base, j);
    EvenStays(Sum(base, j));
  }

  lemma EvenStays(w: Word)
    requires w.bits & 1 == 0
    ensures EvenWord(w) == w
  {
  }

  lemma RaisedSum(base: Word, j: bv64)
    requires base.bits & 1 == 0 && j & 1 == 0
    ensures EvenWord(Sum(base, j | 1)) == Sum(base, j)
  {
    EvenSum(base, j);
    RaisedWord(base, j);
    NextEven(Sum(base, j));
  }

  function OddWord(w: Word): Word {
    W(w.bits | 1)
  }

  lemma RaisedWord(base: Word, j: bv64)
    requires base.bits & 1 == 0 && j & 1 == 0
    ensures Sum(base, j | 1) == OddWord(Sum(base, j))
  {
  }

  lemma NextEven(w: Word)
    requires w.bits & 1 == 0
    ensures EvenWord(OddWord(w)) == w
  {
  }

  lemma EvenSum(base: Word, j: bv64)
    requires base.bits & 1 == 0 && j & 1 == 0
    ensures Sum(base, j).bits & 1 == 0
  {
  }

  lemma BranchWord(e: bv32, c: Condition)
    requires Opcode(e) == 0x63 && Funct3(e) == BranchFunct3(c)
    ensures Decode(e) == Branch(c, Rs1(e), Rs2(e), ImmB(e))
  {
  }

  lemma BranchDecodes(i: Instr, x: Ignored)
    requires i.Branch? && Encodable(i)
    ensures Decode(Encode(i, x)) == i
  {
    BranchFields(BranchFunct3(i.cond), i.rs1, i.rs2, i.imm);
    BranchIs(Encode(i, x), i);
  }

  lemma BranchFields(f3: bv3, rs1: Reg, rs2: Reg, imm: bv64)
    requires Fits(imm, 0x1ffe, 0x1000)
    ensures var e := EncodeB(f3, rs1, rs2, Field(imm));
      Opcode(e) == 0x63 && Funct3(e) == f3 && Rs1(e) == rs1 && Rs2(e) == rs2 && ImmB(e) == imm
  {
    FieldsB(f3, rs1, rs2, Field(imm));
    FieldB(imm);
  }

  lemma BranchIs(e: bv32, i: Instr)
    requires i.Branch? && Opcode(e) == 0x63 && Funct3(e) == BranchFunct3(i.cond)
    requires Rs1(e) == i.rs1 && Rs2(e) == i.rs2 && ImmB(e) == i.imm
    ensures Decode(e) == i
  {
    BranchWord(e, i.cond);
  }

  lemma LoadDecodes(i: Instr, x: Ignored)
    requires i.Load? && Encodable(i)
    ensures Decode(Encode(i, x)) == i
  {
    FieldsI(0x03, LoadFunct3(i.width, i.signed), i.rd, i.rs1, Field(i.imm));
    FieldOf12(i.imm);
  }

  lemma StoreDecodes(i: Instr, x: Ignored)
    requires i.Store? && Encodable(i)
    ensures Decode(Encode(i, x)) == i
  {
    FieldsS(WidthFunct3(i.width), i.rs1, i.rs2, Field(i.imm));
    FieldOf12(i.imm);
  }

  lemma ImmediateDecodes(i: Instr, x: Ignored)
    requires i.OpImm? && !IsShift(i.op) && Encodable(i)
    ensures Decode(Encode(i, x)) == i
  {
    if i.word {
      FieldsI(0x1b, 0, i.rd, i.rs1, Field(i.imm));
    } else {
      FieldsI(0x13, OpFunct(i.op).1, i.rd, i.rs1, Field(i.imm));
    }
    FieldOf12(i.imm);
  }

  lemma ShiftDecodes(i: Instr, x: Ignored)
    requires i.OpImm? && !i.word && IsShift(i.op) && Encodable(i)
    ensures Decode(Encode(i, x)) == i
  {
    SmallField(i.imm);
    if i.op.Sll? {
      DecodeSlli(i.rd, i.rs1, Field(i.imm));
    } else if i.op.Srl? {
      DecodeSrli(i.rd, i.rs1, Field(i.imm));
    } else {
      DecodeSrai(i.rd, i.rs1, Field(i.imm));
    }
  }

  lemma WordShiftDecodes(i: Instr, x: Ignored)
    requires i.OpImm? && i.word && IsShift(i.op) && Encodable(i)
    ensures Decode(Encode(i, x)) == i
  {
    var imm := if i.op.Sra? then Field(i.imm) | 0x400 else Field(i.imm);
    FieldsI(0x1b, OpFunct(i.op).1, i.rd, i.rs1, imm);
  }

  lemma RegisterDecodes(i: Instr, x: Ignored)
    requires i.OpReg? && Encodable(i)
    ensures Decode(Encode(i, x)) == i
  {
    FieldsR(if i.word then 0x3b else 0x33, OpFunct(i.op).1, OpFunct(i.op).0, i.rd, i.rs1, i.rs2);
  }

  lemma OrderIsIgnored(funct5: bv7, x: Ignored)
    requires funct5 < 0x20
    ensures Ordered(funct5, x) >> 2 == funct5
  {
  }

  lemma ReservedDecodes(i: Instr, x: Ignored)
    requires (i.LoadReserved? || i.StoreConditional?) && Encodable(i)
    ensures Decode(Encode(i, x)) == i
  {
    if i.LoadReserved? {
      FieldsR(0x2f, WidthFunct3(i.width), Ordered(0x02, x), i.rd, i.rs1, 0);
      OrderIsIgnored(0x02, x);
    } else {
      FieldsR(0x2f, WidthFunct3(i.width), Ordered(0x03, x), i.rd, i.rs1, i.rs2);
      OrderIsIgnored(0x03, x);
    }
  }

  lemma AmoWord(e: bv32, op: AmoOp, width: nat)
    requires Opcode(e) == 0x2f && (width == 4 || width == 8) && Funct3(e) == WidthFunct3(width)
    requires Funct7(e) >> 2 == AmoFunct5(op)
    ensures Decode(e) == Amo(op, width, Rd(e), Rs1(e), Rs2(e))
  {
  }

  lemma AmoDecodes(i: Instr, x: Ignored)
    requires i.Amo? && Encodable(i)
    ensures Decode(Encode(i, x)) == i
  {
    FieldsR(0x2f, WidthFunct3(i.width), Ordered(AmoFunct5(i.amo), x), i.rd, i.rs1, i.rs2);
    OrderIsIgnored(AmoFunct5(i.amo), x);
    AmoWord(Encode(i, x), i.amo, i.width);
  }

  lemma FieldsCsr(f3: bv3, rd: Reg, rs1: Reg, index: bv12)
    ensures
      var e := EncodeI(0x73, f3, rd, rs1, index as bv32);
      Opcode(e) == 0x73 && Funct3(e) == f3 && Rd(e) == rd && Rs1(e) == rs1 && (e >> 20) as bv12 == index
  {
  }

  function SourceField(source: CsrSource): Reg {
    match source
    case FromReg(rs1) => rs1
    case Immediate(uimm) => uimm
  }

  lemma CsrRegisterDecodes(op: CsrOp, rs1: Reg, index: bv12, rd: Reg)
    ensures Decode(EncodeI(0x73, CsrFunct3(op, FromReg(rs1)), rd, rs1, index as bv32))
         == Csr(op, FromReg(rs1), index, rd)
  {
    match op
    case Swap => FieldsCsr(1, rd, rs1, index);
    case SetBits => FieldsCsr(2, rd, rs1, index);
    case ClearBits => FieldsCsr(3, rd, rs1, index);
  }

  lemma CsrImmediateDecodes(op: CsrOp, f3: bv3, uimm: Reg, index: bv12, rd: Reg)
    requires (op, f3) == (Swap, 5) || (op, f3) == (SetBits, 6) || (op, f3) == (ClearBits, 7)
    ensures Decode(EncodeI(0x73, f3, rd, uimm, index as bv32)) == Csr(op, Immediate(uimm), index, rd)
  {
    FieldsCsr(f3, rd, uimm, index);
  }

  lemma CsrDecodes(i: Instr, x: Ignored)
    requires i.Csr?
    ensures Decode(Encode(i, x)) == i
  {
    match i.source
    case FromReg(rs1) => CsrRegisterDecodes(i.csrOp, rs1, i.index, i.rd);
    case Immediate(uimm) => CsrImmediateDecodes(i.csrOp, CsrFunct3(i.csrOp, i.source), uimm, i.index, i.rd);
  }

  lemma FenceDecodes(i: Instr, x: Ignored)
    requires i.SfenceVma?
    ensures Decode(Encode(i, x)) == i
  {
    FieldsR(0x73, 0, 0x09, 0, i.rs1, i.rs2);
  }

  lemma FixedWordsDecode(i: Instr, x: Ignored)
    requires i.Ecall? || i.Ebreak? || i.Sret? || i.Mret?
    ensures Decode(Encode(i, x)) == i
  {
  }

  lemma FenceWord(fields: bv25)
    ensures Opcode(((fields as bv32) << 7) | 0x0f) == 0x0f
  {
  }

  lemma IdleWordsDecode(i: Instr, x: Ignored)
    requires i.Nop?
    ensures Decode(Encode(i, x)) == i
  {
    FenceWord(x.fence);
  }

  /** Every instruction, encoded as the standard says and with any ignored bits,
      decodes to itself, but for the low bit of a JALR offset. */
  lemma DecodeInvertsEncode(i: Instr, x: Ignored)
    requires Encodable(i)
    ensures Decode(Encode(i, x)) == Kept(i)
  {
    if i.Lui? || i.Auipc? { UpperDecodes(i, x); }
    else if i.Jal? { JalDecodes(i, x); }
    else if i.Jalr? { JalrDecodes(i, x); }
    else if i.Branch? { BranchDecodes(i, x); }
    else if i.Load? { LoadDecodes(i, x); }
    else if i.Store? { StoreDecodes(i, x); }
    else if i.OpImm? && IsShift(i.op) && i.word { WordShiftDecodes(i, x); }
    else if i.OpImm? && IsShift(i.op) { ShiftDecodes(i, x); }
    else if i.OpImm? { ImmediateDecodes(i, x); }
    else if i.OpReg? { RegisterDecodes(i, x); }
    else if i.LoadReserved? || i.StoreConditional? { ReservedDecodes(i, x); }
    else if i.Amo? { AmoDecodes(i, x); }
    else if i.Csr? { CsrDecodes(i, x); }
    else if i.SfenceVma? { FenceDecodes(i, x); }
    else if i.Nop? { IdleWordsDecode(i, x); }
    else { FixedWordsDecode(i, x); }
  }
}
