/** Compressed instructions act exactly as the 32-bit instructions they stand for. */
module RvcExpansion {
  import opened Words
  import opened Privilege
  import opened Isa
  import opened Assembler
  import opened Exec
  import opened Rvc
  import Alu

  // ----- The immediates of the source are those of the standard

  lemma SignedImmediates(w: bv32)
    ensures Low12(SpecImm6(w)) == Imm6(w)
    ensures Low12(SpecAddi16sp(w)) == ImmAddi16sp(w)
    ensures SpecAddi16sp(w) == 0 <==> ImmAddi16sp(w) == 0
  {
  }

  lemma UpperImmediate(w: bv32)
    ensures Sext((SpecLui(w) & 0xffff_f000) as bv64, 0x8000_0000) == ImmLui(w)
    ensures SpecLui(w) == 0 <==> ImmLui(w) == 0
  {
  }

  lemma UnsignedImmediates(w: bv32)
    ensures Low12(SpecAddi4spn(w)) == ImmAddi4spn(w)
    ensures SpecAddi4spn(w) == 0 <==> ImmAddi4spn(w) == 0
    ensures Low12(SpecWord(w)) == ImmWord(w) && Low12(SpecDouble(w)) == ImmDouble(w)
  {
  }

  lemma StackLoadImmediates(w: bv32)
    ensures Low12(SpecLwsp(w)) == ImmLwsp(w)
    ensures Low12(SpecLdsp(w)) == ImmLdsp(w)
  {
  }

  lemma StackStoreImmediates(w: bv32)
    ensures Low12(SpecSwsp(w)) == ImmSwsp(w)
    ensures Low12(SpecSdsp(w)) == ImmSdsp(w)
  {
  }

  lemma ShiftImmediate(w: bv32)
    ensures SpecShamt(w) < 0x40 && SpecShamt(w) as bv64 == Shamt(w)
  {
  }

  lemma JumpImmediate(w: bv32)
    ensures Sext((SpecJump(w) & 0x1f_fffe) as bv64, 0x10_0000) == ImmJump(w)
  {
  }

  lemma JumpIsEven(w: bv32)
    ensures ImmJump(w) & 1 == 0
  {
  }

  lemma BranchImmediate(w: bv32)
    ensures Sext((SpecBranch(w) & 0x1ffe) as bv64, 0x1000) == ImmBranch(w) && ImmBranch(w) & 1 == 0
  {
  }

  // ----- Running an expansion

  /** The target of a compressed register jump is even, if w is one. */
  predicate EvenTarget(m: Machine, w: bv32)
    requires Formed(m)
  {
    RvcOpcode(w) == 0x14 && Full(w, 2) == 0 ==> ToWord(Gpr(m, Full(w, 7))).bits & 1 == 0
  }

  /** A core that fetched w: nothing trapped, pc even, x0 zero. */
  predicate Ready(m: Machine) {
    Formed(m) && !m.hart.needTrap && m.hart.pc.bits & 1 == 0 && Gpr(m, 0) == 0
  }

  lemma KeepsOwnValue(m: Machine, r: Reg)
    requires Formed(m)
    ensures SetGpr(m, r, Gpr(m, r)) == m
  {
    assert m.gpr[r as int := m.gpr[r as int]] == m.gpr;
  }

  lemma ZeroAdded(x: Alu.I64)
    ensures Alu.AluExec(x, 0, Alu.Add, false) == x && Alu.AluExec(0, x, Alu.Add, false) == x
  {
    Alu.WrapCongruent(x);
  }

  lemma ZeroShifted(x: Alu.I64, op: Alu.Op)
    requires op == Alu.Sll || op == Alu.Srl || op == Alu.Sra
    ensures Alu.AluExec(x, 0, op, false) == x
  {
    Alu.WrapCongruent(x);
    assert Alu.Pow2(0) == 1;
    if op == Alu.Srl {
      UnsignedWraps(x);
    }
  }

  lemma UnsignedWraps(x: Alu.I64)
    ensures Alu.Wrap(Alu.U64(x)) == x
  {
  }

  lemma ZeroOperand(x: Alu.I64, op: Alu.Op)
    requires op == Alu.Add || op == Alu.Sll || op == Alu.Srl || op == Alu.Sra
    ensures Alu.FromBits(0) == 0 && Alu.AluExec(x, 0, op, false) == x
  {
    if op == Alu.Add {
      ZeroAdded(x);
    } else {
      ZeroShifted(x, op);
    }
  }

  /** The outcome of running the 32-bit instruction e in two bytes. */
  function RunExpansion(m: Machine, e: bv32): Outcome
    requires Ready(m)
  {
    DecodedWidths(e);
    Execute(m, Decode(e), 2)
  }

  // ----- Quadrant 0

  lemma Addi4spnAlike(m: Machine, w: bv32)
    requires Ready(m) && RvcOpcode(w) == 0x00 && ExpandQuadrant0(w).Some?
    ensures ExecQuadrant0(m, w) == RunExpansion(m, ExpandQuadrant0(w).value)
  {
    hide Decode, EncodeI, Low12, SetGpr, RvcOpcode, Short, ImmAddi4spn, SpecAddi4spn;
    UnsignedImmediates(w);
    DecodeAddi(Short(w, 2), 2, SpecAddi4spn(w));
  }

  lemma LwAlike(m: Machine, w: bv32)
    requires Ready(m) && RvcOpcode(w) == 0x02
    ensures ExpandQuadrant0(w).Some? && ExecQuadrant0(m, w) == RunExpansion(m, ExpandQuadrant0(w).value)
  {
    hide Decode, EncodeI, Low12, SetGpr, ExecLoad, Address, RvcOpcode, ImmWord, SpecWord, Short;
    UnsignedImmediates(w);
    DecodeLw(Short(w, 2), Short(w, 7), SpecWord(w));
  }

  lemma LdAlike(m: Machine, w: bv32)
    requires Ready(m) && RvcOpcode(w) == 0x03
    ensures ExpandQuadrant0(w).Some? && ExecQuadrant0(m, w) == RunExpansion(m, ExpandQuadrant0(w).value)
  {
    hide Decode, EncodeI, Low12, SetGpr, ExecLoad, Address, RvcOpcode, ImmDouble, SpecDouble, Short;
    UnsignedImmediates(w);
    DecodeLd(Short(w, 2), Short(w, 7), SpecDouble(w));
  }

  lemma SwAlike(m: Machine, w: bv32)
    requires Ready(m) && RvcOpcode(w) == 0x06
    ensures ExpandQuadrant0(w).Some? && ExecQuadrant0(m, w) == RunExpansion(m, ExpandQuadrant0(w).value)
  {
    hide Decode, EncodeS, Low12, ExecStore, Address, RvcOpcode, ImmWord, SpecWord, Short;
    UnsignedImmediates(w);
    DecodeSw(Short(w, 7), Short(w, 2), SpecWord(w));
  }

  lemma SdAlike(m: Machine, w: bv32)
    requires Ready(m) && RvcOpcode(w) == 0x07
    ensures ExpandQuadrant0(w).Some? && ExecQuadrant0(m, w) == RunExpansion(m, ExpandQuadrant0(w).value)
  {
    hide Decode, EncodeS, Low12, ExecStore, Address, RvcOpcode, ImmDouble, SpecDouble, Short;
    UnsignedImmediates(w);
    DecodeSd(Short(w, 7), Short(w, 2), SpecDouble(w));
  }

  lemma Quadrant0Alike(m: Machine, w: bv32)
    requires Ready(m) && ExpandQuadrant0(w).Some?
    ensures ExecQuadrant0(m, w) == RunExpansion(m, ExpandQuadrant0(w).value)
  {
    var o := RvcOpcode(w);
    if o == 0x00 { Addi4spnAlike(m, w); }
    else if o == 0x02 { LwAlike(m, w); }
    else if o == 0x03 { LdAlike(m, w); }
    else if o == 0x06 { SwAlike(m, w); }
    else { SdAlike(m, w); }
  }

  // ----- Quadrant 1

  lemma OperateUnlessZeroAlike(m: Machine, op: Alu.Op, rd: Reg, imm: bv64)
    requires Ready(m) && (op == Alu.Add || op == Alu.Sll || op == Alu.Srl || op == Alu.Sra)
    ensures OperateUnlessZero(m, op, rd, imm) == Execute(m, OpImm(op, false, rd, rd, imm), 2)
  {
    if imm == 0 {
      KeepsOwnValue(m, rd);
      ZeroOperand(Gpr(m, rd), op);
    }
  }

  lemma AddiAlike(m: Machine, w: bv32)
    requires Ready(m) && (RvcOpcode(w) == 0x08 || RvcOpcode(w) == 0x09 || RvcOpcode(w) == 0x0a)
    requires ExpandQuadrant1(w).Some?
    ensures ExecQuadrant1(m, w) == RunExpansion(m, ExpandQuadrant1(w).value)
  {
    var o, rd := RvcOpcode(w), Full(w, 7);
    SignedImmediates(w);
    if o == 0x08 {
      DecodeAddi(rd, rd, SpecImm6(w));
      OperateUnlessZeroAlike(m, Alu.Add, rd, Imm6(w));
    } else if o == 0x09 {
      DecodeAddiw(rd, rd, SpecImm6(w));
    } else {
      DecodeAddi(rd, 0, SpecImm6(w));
      ZeroAdded(Alu.FromBits(Imm6(w)));
    }
  }

  lemma Addi16spLuiAlike(m: Machine, w: bv32)
    requires Ready(m) && RvcOpcode(w) == 0x0b && ExpandQuadrant1(w).Some?
    ensures ExecQuadrant1(m, w) == RunExpansion(m, ExpandQuadrant1(w).value)
  {
    hide ImmAddi16sp, SpecAddi16sp, Decode, EncodeI, EncodeU, RvcOpcode;
    if Full(w, 7) == 2 {
      SignedImmediates(w);
      DecodeAddi(2, 2, SpecAddi16sp(w));
    } else {
      UpperImmediate(w);
      DecodeLui(Full(w, 7), SpecLui(w));
    }
  }

  lemma SrliAlike(m: Machine, w: bv32)
    requires Ready(m) && (w >> 10) & 3 == 0
    ensures ExpandAlu(w).Some? && ExecCAlu(m, w) == RunExpansion(m, ExpandAlu(w).value)
  {
    ShiftImmediate(w);
    DecodeSrli(Short(w, 7), Short(w, 7), SpecShamt(w));
    OperateUnlessZeroAlike(m, Alu.Srl, Short(w, 7), Shamt(w));
  }

  lemma SraiAlike(m: Machine, w: bv32)
    requires Ready(m) && (w >> 10) & 3 == 1
    ensures ExpandAlu(w).Some? && ExecCAlu(m, w) == RunExpansion(m, ExpandAlu(w).value)
  {
    ShiftImmediate(w);
    DecodeSrai(Short(w, 7), Short(w, 7), SpecShamt(w));
    OperateUnlessZeroAlike(m, Alu.Sra, Short(w, 7), Shamt(w));
  }

  lemma AndiAlike(m: Machine, w: bv32)
    requires Ready(m) && (w >> 10) & 3 == 2
    ensures ExpandAlu(w).Some? && ExecCAlu(m, w) == RunExpansion(m, ExpandAlu(w).value)
  {
    SignedImmediates(w);
    DecodeAndi(Short(w, 7), Short(w, 7), SpecImm6(w));
  }

  lemma SubXorAlike(m: Machine, w: bv32)
    requires Ready(m) && (w >> 10) & 3 == 3 && (w >> 12) & 1 == 0 && (w >> 5) & 3 < 2
    ensures ExpandAlu(w).Some? && ExecCAlu(m, w) == RunExpansion(m, ExpandAlu(w).value)
  {
    hide Decode, EncodeR, SetGpr, Alu.AluExec;
    var rd, rs2 := Short(w, 7), Short(w, 2);
    if (w >> 5) & 3 == 0 {
      DecodeOpReg(Alu.Sub, 0, 0x20, rd, rd, rs2);
    } else {
      DecodeOpReg(Alu.Xor, 4, 0, rd, rd, rs2);
    }
  }

  lemma OrAlike(m: Machine, w: bv32)
    requires Ready(m) && (w >> 10) & 3 == 3 && (w >> 12) & 1 == 0 && (w >> 5) & 3 == 2
    ensures ExpandAlu(w).Some? && ExecCAlu(m, w) == RunExpansion(m, ExpandAlu(w).value)
  {
    hide Decode, EncodeR, SetGpr, Alu.AluExec;
    DecodeOpReg(Alu.Or, 6, 0, Short(w, 7), Short(w, 7), Short(w, 2));
  }

  lemma AndAlike(m: Machine, w: bv32)
    requires Ready(m) && (w >> 10) & 3 == 3 && (w >> 12) & 1 == 0 && (w >> 5) & 3 == 3
    ensures ExpandAlu(w).Some? && ExecCAlu(m, w) == RunExpansion(m, ExpandAlu(w).value)
  {
    hide Decode, EncodeR, SetGpr, Alu.AluExec;
    DecodeOpReg(Alu.And, 7, 0, Short(w, 7), Short(w, 7), Short(w, 2));
  }

  lemma RegRegWordAlike(m: Machine, w: bv32)
    requires Ready(m) && (w >> 10) & 3 == 3 && (w >> 12) & 1 == 1 && ExpandAlu(w).Some?
    ensures ExecCAlu(m, w) == RunExpansion(m, ExpandAlu(w).value)
  {
    var rd, rs2 := Short(w, 7), Short(w, 2);
    if (w >> 5) & 3 == 0 {
      DecodeOpRegWord(Alu.Sub, 0x20, rd, rd, rs2);
    } else {
      DecodeOpRegWord(Alu.Add, 0, rd, rd, rs2);
    }
  }

  lemma EvenSum(pc: bv64, imm: bv64)
    requires pc & 1 == 0 && imm & 1 == 0
    ensures (pc + imm) & 1 == 0
  {
  }

  lemma JumpAlike(m: Machine, w: bv32)
    requires Ready(m) && RvcOpcode(w) == 0x0d
    ensures ExpandQuadrant1(w).Some? && ExecQuadrant1(m, w) == RunExpansion(m, ExpandQuadrant1(w).value)
  {
    JumpImmediate(w);
    JumpIsEven(w);
    DecodeJal(0, SpecJump(w));
    EvenSum(m.hart.pc.bits, ImmJump(w));
  }

  lemma BeqzAlike(m: Machine, w: bv32)
    requires Ready(m) && RvcOpcode(w) == 0x0e
    ensures ExpandQuadrant1(w).Some? && ExecQuadrant1(m, w) == RunExpansion(m, ExpandQuadrant1(w).value)
  {
    hide ImmBranch, SpecBranch, Short, Decode, EncodeB, SetGpr, RvcOpcode;
    BranchImmediate(w);
    DecodeBeqBne(0, Short(w, 7), SpecBranch(w));
    EvenSum(m.hart.pc.bits, ImmBranch(w));
  }

  lemma BnezAlike(m: Machine, w: bv32)
    requires Ready(m) && RvcOpcode(w) == 0x0f
    ensures ExpandQuadrant1(w).Some? && ExecQuadrant1(m, w) == RunExpansion(m, ExpandQuadrant1(w).value)
  {
    hide ImmBranch, SpecBranch, Short, Decode, EncodeB, SetGpr, RvcOpcode;
    BranchImmediate(w);
    DecodeBeqBne(1, Short(w, 7), SpecBranch(w));
    EvenSum(m.hart.pc.bits, ImmBranch(w));
  }

  lemma Quadrant1Alike(m: Machine, w: bv32)
    requires Ready(m) && w & 3 == 1 && ExpandQuadrant1(w).Some?
    ensures ExecQuadrant1(m, w) == RunExpansion(m, ExpandQuadrant1(w).value)
  {
    var o := RvcOpcode(w);
    if o == 0x08 || o == 0x09 || o == 0x0a { AddiAlike(m, w); }
    else if o == 0x0b { Addi16spLuiAlike(m, w); }
    else if o == 0x0c {
      if (w >> 10) & 3 == 0 { SrliAlike(m, w); }
      else if (w >> 10) & 3 == 1 { SraiAlike(m, w); }
      else if (w >> 10) & 3 == 2 { AndiAlike(m, w); }
      else if (w >> 12) & 1 == 1 { RegRegWordAlike(m, w); }
      else if (w >> 5) & 3 < 2 { SubXorAlike(m, w); }
      else if (w >> 5) & 3 == 2 { OrAlike(m, w); }
      else { AndAlike(m, w); }
    }
    else if o == 0x0d { JumpAlike(m, w); }
    else if o == 0x0e { BeqzAlike(m, w); }
    else { BnezAlike(m, w); }
  }

  // ----- Quadrant 2

  lemma SlliAlike(m: Machine, w: bv32)
    requires Ready(m) && RvcOpcode(w) == 0x10
    ensures ExpandQuadrant2(w).Some? && ExecQuadrant2(m, w) == RunExpansion(m, ExpandQuadrant2(w).value)
  {
    ShiftImmediate(w);
    DecodeSlli(Full(w, 7), Full(w, 7), SpecShamt(w));
    OperateUnlessZeroAlike(m, Alu.Sll, Full(w, 7), Shamt(w));
  }

  lemma LwspAlike(m: Machine, w: bv32)
    requires Ready(m) && RvcOpcode(w) == 0x12 && ExpandQuadrant2(w).Some?
    ensures ExecQuadrant2(m, w) == RunExpansion(m, ExpandQuadrant2(w).value)
  {
    hide Decode, EncodeI, EncodeS, Low12, SetGpr, ExecLoad, ExecStore, Address, RvcOpcode;
    hide ImmLwsp, SpecLwsp, Full;
    StackLoadImmediates(w);
    DecodeLw(Full(w, 7), 2, SpecLwsp(w));
  }

  lemma LdspAlike(m: Machine, w: bv32)
    requires Ready(m) && RvcOpcode(w) == 0x13 && ExpandQuadrant2(w).Some?
    ensures ExecQuadrant2(m, w) == RunExpansion(m, ExpandQuadrant2(w).value)
  {
    hide Decode, EncodeI, EncodeS, Low12, SetGpr, ExecLoad, ExecStore, Address, RvcOpcode;
    hide ImmLdsp, SpecLdsp, Full;
    StackLoadImmediates(w);
    DecodeLd(Full(w, 7), 2, SpecLdsp(w));
  }

  lemma SwspAlike(m: Machine, w: bv32)
    requires Ready(m) && RvcOpcode(w) == 0x16
    ensures ExpandQuadrant2(w).Some? && ExecQuadrant2(m, w) == RunExpansion(m, ExpandQuadrant2(w).value)
  {
    hide Decode, EncodeS, Low12, ExecStore, Address, RvcOpcode, ImmSwsp, SpecSwsp, Full;
    StackStoreImmediates(w);
    DecodeSw(2, Full(w, 2), SpecSwsp(w));
  }

  lemma SdspAlike(m: Machine, w: bv32)
    requires Ready(m) && RvcOpcode(w) == 0x17
    ensures ExpandQuadrant2(w).Some? && ExecQuadrant2(m, w) == RunExpansion(m, ExpandQuadrant2(w).value)
  {
    hide Decode, EncodeS, Low12, ExecStore, Address, RvcOpcode, ImmSdsp, SpecSdsp, Full;
    StackStoreImmediates(w);
    DecodeSd(2, Full(w, 2), SpecSdsp(w));
  }

  lemma RegisterJumpAlike(m: Machine, rs1: Reg, link: Reg)
    requires Ready(m)
    ensures JumpRegister(m, rs1, link) == Execute(m, Jalr(link, rs1, 0), 2)
       <==> ToWord(Gpr(m, rs1)).bits & 1 == 0
  {
    ClearLowBit(ToWord(Gpr(m, rs1)).bits);
  }

  lemma ClearLowBit(x: bv64)
    ensures x & 1 != 0 ==> (x ^ 1) & 1 == 0
  {
  }

  lemma EbreakAlike(m: Machine, w: bv32)
    requires Ready(m) && RvcOpcode(w) == 0x14 && ExpandJrMv(w).Some? && Full(w, 2) == 0 && Full(w, 7) == 0
    ensures ExecJrMv(m, w) == RunExpansion(m, ExpandJrMv(w).value) && EvenTarget(m, w)
  {
    assert ToWord(0).bits == 0;
    assert Decode(0x0010_0073) == Ebreak;
  }

  lemma JrAlike(m: Machine, w: bv32)
    requires Ready(m) && RvcOpcode(w) == 0x14 && ExpandJrMv(w).Some? && Full(w, 2) == 0 && Full(w, 7) != 0
    ensures ExecJrMv(m, w) == RunExpansion(m, ExpandJrMv(w).value) <==> EvenTarget(m, w)
  {
    var rd := Full(w, 7);
    var link: Reg := if (w >> 12) & 1 == 0 then 0 else 1;
    DecodeJalr(link, rd);
    RegisterJumpAlike(m, rd, link);
    assert ExecJrMv(m, w) == JumpRegister(m, rd, link);
  }

  lemma MvAddAlike(m: Machine, w: bv32)
    requires Ready(m) && RvcOpcode(w) == 0x14 && ExpandJrMv(w).Some? && Full(w, 2) != 0
    ensures ExecJrMv(m, w) == RunExpansion(m, ExpandJrMv(w).value)
  {
    var rd, rs2 := Full(w, 7), Full(w, 2);
    DecodeOpReg(Alu.Add, 0, 0, rd, 0, rs2);
    DecodeOpReg(Alu.Add, 0, 0, rd, rd, rs2);
    ZeroAdded(Gpr(m, rs2));
  }

  lemma Quadrant2Alike(m: Machine, w: bv32)
    requires Ready(m) && ExpandQuadrant2(w).Some?
    ensures ExecQuadrant2(m, w) == RunExpansion(m, ExpandQuadrant2(w).value) <==> EvenTarget(m, w)
  {
    var o := RvcOpcode(w);
    if o == 0x10 { SlliAlike(m, w); }
    else if o == 0x12 { LwspAlike(m, w); }
    else if o == 0x13 { LdspAlike(m, w); }
    else if o == 0x14 {
      if Full(w, 2) != 0 { MvAddAlike(m, w); }
      else if Full(w, 7) == 0 { EbreakAlike(m, w); }
      else { JrAlike(m, w); }
    }
    else if o == 0x16 { SwspAlike(m, w); }
    else { SdspAlike(m, w); }
  }

  /** A legal compressed instruction changes registers, memory, program counter
      and traps exactly as its expansion does through the other tree, in two
      bytes, if and only if it is not a register jump to an odd address: the
      compressed tree rounds such a target down, the other tree traps. */
  lemma CompressedIsExpansion(m: Machine, w: bv32)
    requires Ready(m) && w & 3 != 3 && Expand(w).Some?
    ensures ExecCompressed(m, w) == RunExpansion(m, Expand(w).value) <==> EvenTarget(m, w)
  {
    if w & 3 == 0 {
      Quadrant0Alike(m, w);
    } else if w & 3 == 1 {
      Quadrant1Alike(m, w);
    } else {
      Quadrant2Alike(m, w);
    }
  }

  /** `c.jr x1` with an odd x1: the emulator clears the low bit before it jumps, and
      its own execution of the expansion traps. */
  lemma OddRegisterParts(m: Machine)
    requires Ready(m) && ToWord(Gpr(m, 1)).bits & 1 != 0
    ensures Expand(0x8082) == Some(EncodeI(0x67, 0, 0, 1, 0))
    ensures ExecCompressed(m, 0x8082) != RunExpansion(m, EncodeI(0x67, 0, 0, 1, 0))
  {
    assert RvcOpcode(0x8082) == 0x14 && Full(0x8082, 2) == 0 && Full(0x8082, 7) == 1;
    CompressedIsExpansion(m, 0x8082);
  }
}
