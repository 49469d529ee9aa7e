/** The words that the decode tree accepts: every one is the encoding of what it decodes
    to, but for a few reserved words that the emulator lets through. */
module DecodeLaws {
  import opened Words
  import opened Isa
  import opened Assembler
  import opened Exec
  import opened Rvc
  import opened RvcExpansion
  import Alu

  // ----- Immediates

  lemma SextIs(v: bv64, sign: bv64)
    ensures Sext(v, sign) == (v ^ sign) - sign
  {
  }

  lemma Low12(v: bv64)
    requires v < 0x800
    ensures (v ^ 0x800) - 0x800 == v
  {
  }

  lemma High12(v: bv64)
    requires 0x800 <= v < 0x1000
    ensures (v ^ 0x800) - 0x800 == v | 0xffff_ffff_ffff_f000
  {
  }

  lemma Low13(v: bv64)
    requires v < 0x1000
    ensures (v ^ 0x1000) - 0x1000 == v
  {
  }

  lemma High13(v: bv64)
    requires 0x1000 <= v < 0x2000
    ensures (v ^ 0x1000) - 0x1000 == v | 0xffff_ffff_ffff_e000
  {
  }

  lemma Low21(v: bv64)
    requires v < 0x10_0000
    ensures (v ^ 0x10_0000) - 0x10_0000 == v
  {
  }

  lemma High21(v: bv64)
    requires 0x10_0000 <= v < 0x20_0000
    ensures (v ^ 0x10_0000) - 0x10_0000 == v | 0xffff_ffff_ffe0_0000
  {
  }

  lemma Low32(v: bv64)
    requires v < 0x8000_0000
    ensures (v ^ 0x8000_0000) - 0x8000_0000 == v
  {
  }

  lemma High32(v: bv64)
    requires 0x8000_0000 <= v < 0x1_0000_0000
    ensures (v ^ 0x8000_0000) - 0x8000_0000 == v | 0xffff_ffff_0000_0000
  {
  }

  lemma Sext12(v: bv64)
    ensures v < 0x1000 ==> Sext(v, 0x800) == if v < 0x800 then v else v | 0xffff_ffff_ffff_f000
  {
    hide Sext;
    SextIs(v, 0x800);
    if v < 0x800 {
      Low12(v);
    } else if v < 0x1000 {
      High12(v);
    }
  }

  lemma Sext13(v: bv64)
    ensures v < 0x2000 ==> Sext(v, 0x1000) == if v < 0x1000 then v else v | 0xffff_ffff_ffff_e000
  {
    hide Sext;
    SextIs(v, 0x1000);
    if v < 0x1000 {
      Low13(v);
    } else if v < 0x2000 {
      High13(v);
    }
  }

  lemma Sext21(v: bv64)
    ensures v < 0x20_0000 ==> Sext(v, 0x10_0000) == if v < 0x10_0000 then v else v | 0xffff_ffff_ffe0_0000
  {
    hide Sext;
    SextIs(v, 0x10_0000);
    if v < 0x10_0000 {
      Low21(v);
    } else if v < 0x20_0000 {
      High21(v);
    }
  }

  lemma Sext32(v: bv64)
    ensures v < 0x1_0000_0000 ==> Sext(v, 0x8000_0000) == if v < 0x8000_0000 then v else v | 0xffff_ffff_0000_0000
  {
    hide Sext;
    SextIs(v, 0x8000_0000);
    if v < 0x8000_0000 {
      Low32(v);
    } else if v < 0x1_0000_0000 {
      High32(v);
    }
  }

  /** Below its sign bit an immediate stays as it is; with the bit set, all higher bits
      are set too. */
  lemma SignExtends(v: bv64)
    ensures v < 0x1000 ==> Sext(v, 0x800) == if v < 0x800 then v else v | 0xffff_ffff_ffff_f000
    ensures v < 0x2000 ==> Sext(v, 0x1000) == if v < 0x1000 then v else v | 0xffff_ffff_ffff_e000
    ensures v < 0x20_0000 ==> Sext(v, 0x10_0000) == if v < 0x10_0000 then v else v | 0xffff_ffff_ffe0_0000
    ensures v < 0x1_0000_0000 ==> Sext(v, 0x8000_0000) == if v < 0x8000_0000 then v else v | 0xffff_ffff_0000_0000
  {
    hide Sext;
    Sext12(v);
    Sext13(v);
    Sext21(v);
    Sext32(v);
  }

  // ----- The immediate of each format, put back

  /** The upper twelve bits of the word. */
  predicate Holds12(w: bv32, imm: bv32) {
    imm & 0xfff == (w >> 20) & 0xfff
  }

  lemma ImmediateI(w: bv32)
    ensures Fits(ImmI(w), 0xfff, 0x800)
    ensures Holds12(w, Field(ImmI(w)))
  {
  }

  lemma ImmediateS(w: bv32)
    ensures Fits(ImmS(w), 0xfff, 0x800)
    ensures Opcode(w) == 0x23 ==> EncodeS(Funct3(w), Rs1(w), Rs2(w), Field(ImmS(w))) == w
  {
  }

  lemma ImmediateB(w: bv32)
    ensures Fits(ImmB(w), 0x1ffe, 0x1000)
    ensures Opcode(w) == 0x63 ==> EncodeB(Funct3(w), Rs1(w), Rs2(w), Field(ImmB(w))) == w
  {
  }

  lemma ImmediateU(w: bv32)
    ensures Fits(ImmU(w), 0xffff_f000, 0x8000_0000)
    ensures EncodeU(Opcode(w), Rd(w), Field(ImmU(w))) == w
  {
  }

  lemma ImmediateJ(w: bv32)
    ensures Fits(ImmJ(w), 0x1f_fffe, 0x10_0000)
    ensures Opcode(w) == 0x6f ==> EncodeJ(Rd(w), Field(ImmJ(w))) == w
  {
  }

  lemma WordI(w: bv32, imm: bv32)
    requires Holds12(w, imm)
    ensures EncodeI(Opcode(w), Funct3(w), Rd(w), Rs1(w), imm) == w
  {
  }

  lemma WordR(w: bv32)
    ensures EncodeR(Opcode(w), Funct3(w), Funct7(w), Rd(w), Rs1(w), Rs2(w)) == w
  {
  }

  // ----- Accepted words

  /** The reserved words that the emulator takes for something: JALR with a funct3, SLLI
      with bit 31 set, trap returns with a stray register field, SFENCE.VMA with one. */
  predicate Sloppy(w: bv32) {
    (Opcode(w) == 0x67 && Funct3(w) != 0) ||
    (Opcode(w) == 0x13 && Funct3(w) == 1 && w >= 0x8000_0000) ||
    (Opcode(w) == 0x73 && Funct3(w) == 0 && Funct7(w) == 0x08 && !(Rs1(w) == 0 && Rd(w) == 0)) ||
    (Opcode(w) == 0x73 && Funct3(w) == 0 && Funct7(w) == 0x09 && Rd(w) != 0)
  }

  /** The instruction that the word encodes: JALR with the low bit of its offset. */
  function Read(w: bv32): Instr {
    if Opcode(w) == 0x67 then Jalr(Rd(w), Rs1(w), ImmI(w)) else Decode(w)
  }

  /** And what the decode ignores in it. */
  function Unread(w: bv32): Ignored {
    Ignored((Funct7(w) & 3) as bv2, (w >> 7) as bv25, Opcode(w) == 0x73)
  }

  predicate EncodesRead(w: bv32) {
    Encodable(Read(w)) && Encode(Read(w), Unread(w)) == w
  }

  lemma UpperAccepted(w: bv32)
    requires Opcode(w) == 0x37 || Opcode(w) == 0x17 || Opcode(w) == 0x6f
    ensures EncodesRead(w)
  {
    ImmediateU(w);
    ImmediateJ(w);
  }

  lemma JalrAccepted(w: bv32)
    requires Opcode(w) == 0x67 && Funct3(w) == 0
    ensures EncodesRead(w)
  {
    ImmediateI(w);
    WordI(w, Field(ImmI(w)));
  }

  lemma BranchAccepted(w: bv32)
    requires Opcode(w) == 0x63 && Decode(w) != Illegal
    ensures EncodesRead(w)
  {
    ImmediateB(w);
  }

  lemma LoadAccepted(w: bv32)
    requires Opcode(w) == 0x03 && Decode(w) != Illegal
    ensures EncodesRead(w)
  {
    ImmediateI(w);
    WordI(w, Field(ImmI(w)));
  }

  lemma StoreAccepted(w: bv32)
    requires Opcode(w) == 0x23 && Decode(w) != Illegal
    ensures EncodesRead(w)
  {
    ImmediateS(w);
  }

  lemma RegisterAccepted(w: bv32)
    requires Opcode(w) == 0x33 && Decode(w) != Illegal
    ensures EncodesRead(w)
  {
    hide EncodeR;
    WordR(w);
  }

  lemma RegisterWordAccepted(w: bv32)
    requires Opcode(w) == 0x3b && Decode(w) != Illegal
    ensures EncodesRead(w)
  {
    hide EncodeR;
    WordR(w);
  }

  lemma ImmediateAccepted(w: bv32)
    requires (Opcode(w) == 0x13 || Opcode(w) == 0x1b) && Funct3(w) != 1 && Funct3(w) != 5 && Decode(w) != Illegal
    ensures EncodesRead(w)
  {
    hide EncodeI, ImmI, Holds12, Rd, Rs1, Unread;
    ImmediateI(w);
    WordI(w, Field(ImmI(w)));
  }

  /** A shift amount is the low bits of the immediate field. */
  lemma ShiftFields(w: bv32)
    ensures Funct7(w) >> 1 == 0 ==> ImmI(w) & 0x3f == ImmI(w) && Holds12(w, Field(ImmI(w) & 0x3f))
    ensures Funct7(w) >> 1 == 0x10 ==> Holds12(w, Field(ImmI(w) & 0x3f) | 0x400)
    ensures w < 0x8000_0000 && !TooFar(ImmI(w)) ==> ImmI(w) < 64 && Holds12(w, Field(ImmI(w)))
  {
  }

  lemma ShiftWord(w: bv32)
    requires Opcode(w) == 0x13 && Decode(w) != Illegal
    ensures Funct3(w) == 1 ==> !TooFar(ImmI(w)) && Decode(w) == OpImm(Alu.Sll, false, Rd(w), Rs1(w), ImmI(w))
    ensures Funct3(w) == 5 ==>
              (Funct7(w) >> 1 == 0x10 && Decode(w) == OpImm(Alu.Sra, false, Rd(w), Rs1(w), ImmI(w) & 0x3f)) ||
              (Funct7(w) >> 1 == 0 && Decode(w) == OpImm(Alu.Srl, false, Rd(w), Rs1(w), ImmI(w) & 0x3f))
  {
    hide ImmI, TooFar;
  }

  lemma SmallShift(imm: bv64)
    ensures imm & 0x3f < 64
  {
  }

  lemma ShiftEncoding(i: Instr, x: Ignored)
    requires i.OpImm? && !i.word && IsShift(i.op) && i.imm < 64
    ensures Encodable(i)
    ensures Encode(i, x)
         == EncodeI(0x13, if i.op.Sll? then 1 else 5, i.rd, i.rs1,
                    if i.op.Sra? then Field(i.imm) | 0x400 else Field(i.imm))
  {
    hide EncodeI, Field;
  }

  lemma ShiftAccepted(w: bv32)
    requires Opcode(w) == 0x13 && (Funct3(w) == 1 || Funct3(w) == 5) && Decode(w) != Illegal && !Sloppy(w)
    ensures EncodesRead(w)
  {
    hide EncodeI, ImmI, TooFar, Field, Decode, Encode, Encodable, Rd, Rs1, Unread, Holds12;
    ShiftWord(w);
    ShiftFields(w);
    SmallShift(ImmI(w));
    ShiftEncoding(Decode(w), Unread(w));
    if Funct3(w) == 1 {
      WordI(w, Field(ImmI(w)));
    } else if Funct7(w) >> 1 == 0x10 {
      WordI(w, Field(ImmI(w) & 0x3f) | 0x400);
    } else {
      WordI(w, Field(ImmI(w) & 0x3f));
    }
  }

  lemma WordShiftFields(w: bv32)
    ensures Funct7(w) == 0 ==> ImmI(w) < 32 && ImmI(w) & 0x3f == ImmI(w)
    ensures Funct7(w) == 0 ==> Holds12(w, Field(ImmI(w)))
    ensures Funct7(w) == 0x20 ==> ImmI(w) & 0x3f < 32 && Holds12(w, Field(ImmI(w) & 0x3f) | 0x400)
  {
  }

  lemma WordShiftAccepted(w: bv32)
    requires Opcode(w) == 0x1b && (Funct3(w) == 1 || Funct3(w) == 5) && Decode(w) != Illegal
    ensures EncodesRead(w)
  {
    hide EncodeI, ImmI, TooFar, Field, Holds12, Rd, Rs1;
    WordShiftFields(w);
    if Funct7(w) == 0x20 {
      WordI(w, Field(ImmI(w) & 0x3f) | 0x400);
    } else {
      WordI(w, Field(ImmI(w)));
    }
  }

  lemma FunctParts(w: bv32)
    ensures Ordered(Funct7(w) >> 2, Unread(w)) == Funct7(w)
  {
  }

  /** What an atomic word decodes to. */
  lemma AtomicWord(w: bv32)
    requires Opcode(w) == 0x2f && Decode(w) != Illegal
    ensures
      var i, five := Decode(w), Funct7(w) >> 2;
      (i.LoadReserved? || i.StoreConditional? || i.Amo?) && (i.width == 4 || i.width == 8) &&
      i.rd == Rd(w) && i.rs1 == Rs1(w) && WidthFunct3(i.width) == Funct3(w) &&
      (i.LoadReserved? ==> five == 0x02 && Rs2(w) == 0) && (i.StoreConditional? ==> five == 0x03 && i.rs2 == Rs2(w)) &&
      (i.Amo? ==> five == AmoFunct5(i.amo) && i.rs2 == Rs2(w))
  {
  }

  lemma AtomicAccepted(w: bv32)
    requires Opcode(w) == 0x2f && Decode(w) != Illegal
    ensures EncodesRead(w)
  {
    hide EncodeR, Ordered, Unread, Decode, WidthFunct3, AmoFunct5;
    AtomicWord(w);
    WordR(w);
    FunctParts(w);
  }

  lemma FenceAccepted(w: bv32)
    requires Opcode(w) == 0x0f
    ensures EncodesRead(w)
  {
  }

  function IndexOf(w: bv32): bv12 {
    (w >> 20) as bv12
  }

  /** What a CSR word decodes to. */
  lemma CsrWord(w: bv32)
    requires Opcode(w) == 0x73 && Funct3(w) != 0 && Decode(w) != Illegal
    ensures Decode(w).Csr? && Decode(w).rd == Rd(w) && Decode(w).index == IndexOf(w)
    ensures SourceField(Decode(w).source) == Rs1(w)
    ensures CsrFunct3(Decode(w).csrOp, Decode(w).source) == Funct3(w)
  {
  }

  lemma CsrEncoding(i: Instr, x: Ignored)
    requires i.Csr?
    ensures Encodable(i)
    ensures Encode(i, x) == EncodeI(0x73, CsrFunct3(i.csrOp, i.source), i.rd, SourceField(i.source), i.index as bv32)
  {
    hide EncodeI, CsrFunct3, SourceField;
  }

  lemma CsrRebuilt(w: bv32, f3: bv3, rd: Reg, rs1: Reg, index: bv12)
    requires Opcode(w) == 0x73 && Funct3(w) == f3 && Rd(w) == rd && Rs1(w) == rs1 && Holds12(w, index as bv32)
    ensures EncodeI(0x73, f3, rd, rs1, index as bv32) == w
  {
  }

  lemma CsrAccepted(w: bv32)
    requires Opcode(w) == 0x73 && Funct3(w) != 0 && Decode(w) != Illegal
    ensures EncodesRead(w)
  {
    hide EncodeI, Decode, CsrFunct3, SourceField, Encode, Encodable, Funct3, Rd, Rs1, Unread, Holds12, IndexOf;
    CsrWord(w);
    var i := Decode(w);
    CsrEncoding(i, Unread(w));
    IndexField(w, i.index);
    CsrRebuilt(w, CsrFunct3(i.csrOp, i.source), i.rd, SourceField(i.source), i.index);
    assert Read(w) == i;
  }

  lemma IndexField(w: bv32, index: bv12)
    requires index == IndexOf(w)
    ensures Holds12(w, index as bv32)
  {
  }

  lemma PrivilegedAccepted(w: bv32)
    requires Opcode(w) == 0x73 && Funct3(w) == 0 && Decode(w) != Illegal && !Sloppy(w)
    ensures EncodesRead(w)
  {
    WordR(w);
  }

  predicate KnownOpcode(o: bv7) {
    o == 0x37 || o == 0x17 || o == 0x6f || o == 0x67 || o == 0x63 || o == 0x03 || o == 0x23 || o == 0x33 ||
    o == 0x3b || o == 0x13 || o == 0x1b || o == 0x2f || o == 0x0f || o == 0x73
  }

  lemma AcceptedOpcode(w: bv32)
    requires Decode(w) != Illegal
    ensures KnownOpcode(Opcode(w))
  {
  }

  lemma OnlyJalr(w: bv32)
    requires Opcode(w) != 0x67
    ensures !Decode(w).Jalr?
  {
  }

  lemma ReadKept(w: bv32)
    ensures Kept(Read(w)) == Decode(w)
  {
    hide Decode, ImmI, EvenPart;
    if Opcode(w) == 0x67 {
      JalrWord(w);
    } else {
      OnlyJalr(w);
    }
  }

  lemma JalrSloppy(w: bv32)
    requires Opcode(w) == 0x67 && !Sloppy(w)
    ensures Funct3(w) == 0
  {
  }

  /** Every other word that is not illegal is the encoding of its instruction. */
  lemma AcceptedEncodes(w: bv32)
    requires Decode(w) != Illegal && !Sloppy(w)
    ensures EncodesRead(w) && Kept(Read(w)) == Decode(w)
  {
    hide EncodesRead, Decode, Sloppy, Opcode, Funct3, Kept, Read;
    var o, f := Opcode(w), Funct3(w);
    AcceptedOpcode(w);
    ReadKept(w);
    if o == 0x37 || o == 0x17 || o == 0x6f { UpperAccepted(w); }
    else if o == 0x67 { JalrSloppy(w); JalrAccepted(w); }
    else if o == 0x63 { BranchAccepted(w); }
    else if o == 0x03 { LoadAccepted(w); }
    else if o == 0x23 { StoreAccepted(w); }
    else if o == 0x33 { RegisterAccepted(w); }
    else if o == 0x3b { RegisterWordAccepted(w); }
    else if o == 0x13 && (f == 1 || f == 5) { ShiftAccepted(w); }
    else if o == 0x1b && (f == 1 || f == 5) { WordShiftAccepted(w); }
    else if o == 0x13 || o == 0x1b { ImmediateAccepted(w); }
    else if o == 0x2f { AtomicAccepted(w); }
    else if o == 0x0f { FenceAccepted(w); }
    else if f != 0 { CsrAccepted(w); }
    else { PrivilegedAccepted(w); }
  }

  // ----- And no others

  lemma SloppyIsLegal(w: bv32)
    requires Sloppy(w)
    ensures Decode(w) != Illegal
  {
  }

  /** JALR is encoded with funct3 zero. */
  lemma JalrEncoded(i: Instr, x: Ignored)
    requires i.Jalr? && Encodable(i)
    ensures !Sloppy(Encode(i, x))
  {
    hide EncodeI;
    FieldsI(0x67, 0, i.rd, i.rs1, Field(i.imm));
  }

  /** What a sloppy word decodes to. */
  lemma SloppyDecodes(w: bv32)
    requires Sloppy(w)
    ensures Decode(w).Jalr? || Decode(w).Nop? || Decode(w).SfenceVma? || (Decode(w).OpImm? && Decode(w).op == Alu.Sll)
  {
  }

  lemma SloppyShift(w: bv32)
    requires Opcode(w) == 0x13 && Funct3(w) == 1 && w >= 0x8000_0000
    ensures Decode(w).OpImm? && Decode(w).op == Alu.Sll && !Decode(w).word && Decode(w).imm >= 64
  {
  }

  lemma ShiftEncoded(i: Instr, x: Ignored)
    requires i.OpImm? && i.op == Alu.Sll && Encodable(i)
    ensures !Sloppy(Encode(i, x))
  {
    hide EncodeI;
    var w := Encode(i, x);
    FieldsI(if i.word then 0x1b else 0x13, 1, i.rd, i.rs1, Field(i.imm));
    if Sloppy(w) {
      SloppyShift(w);
      DecodeInvertsEncode(i, x);
    }
  }

  lemma IdleEncoded(i: Instr, x: Ignored)
    requires i.Nop?
    ensures !Sloppy(Encode(i, x))
  {
    FenceWord(x.fence);
  }

  lemma FenceVmaEncoded(i: Instr, x: Ignored)
    requires i.SfenceVma?
    ensures !Sloppy(Encode(i, x))
  {
    FieldsR(0x73, 0, 0x09, 0, i.rs1, i.rs2);
  }

  lemma EncodedIsProper(i: Instr, x: Ignored)
    requires Encodable(i)
    ensures Decode(Encode(i, x)) != Illegal && !Sloppy(Encode(i, x))
  {
    hide Encode, Decode, Sloppy, Encodable;
    IllegalHasNoWord(i);
    DecodeInvertsEncode(i, x);
    if Sloppy(Encode(i, x)) {
      SloppyDecodes(Encode(i, x));
      if i.Jalr? {
        JalrEncoded(i, x);
      } else if i.Nop? {
        IdleEncoded(i, x);
      } else if i.SfenceVma? {
        FenceVmaEncoded(i, x);
      } else {
        ShiftEncoded(i, x);
      }
    }
  }

  lemma IllegalHasNoWord(i: Instr)
    requires Encodable(i)
    ensures i != Illegal
  {
  }

  /** The words of the instruction set are exactly those that are not illegal and not
      sloppy: the decode refuses every word that encodes nothing, but for the sloppy. */
  lemma WordsOfTheSet(w: bv32)
    ensures (exists i, x :: Encodable(i) && Encode(i, x) == w) <==> Decode(w) != Illegal && !Sloppy(w)
    ensures Sloppy(w) ==> Decode(w) != Illegal
  {
    hide Encode, Decode, Sloppy, Encodable;
    if Sloppy(w) {
      SloppyIsLegal(w);
    }
    if Decode(w) != Illegal && !Sloppy(w) {
      AcceptedEncodes(w);
      assert Encodable(Read(w)) && Encode(Read(w), Unread(w)) == w;
    }
    forall i, x | Encodable(i) && Encode(i, x) == w
      ensures Decode(w) != Illegal && !Sloppy(w)
    {
      EncodedIsProper(i, x);
    }
  }

  // ----- Compressed words without a meaning

  /** The reserved compressed words that the emulator executes: C.ADDIW, C.LWSP and
      C.LDSP with x0, C.ADDI16SP and C.LUI with a zero immediate. */
  predicate Lenient(w: bv32) {
    var o := RvcOpcode(w);
    ((o == 0x09 || o == 0x12 || o == 0x13) && Full(w, 7) == 0) ||
    (o == 0x0b && (if Full(w, 7) == 2 then ImmAddi16sp(w) else ImmLui(w)) == 0)
  }

  lemma QuadrantOfOpcode(w: bv32)
    ensures w & 3 == 0 ==> RvcOpcode(w) < 8
    ensures w & 3 == 1 ==> 8 <= RvcOpcode(w) < 16
    ensures w & 3 == 2 ==> 16 <= RvcOpcode(w) < 24
  {
  }

  lemma SameFields(w: bv32)
    ensures BinaryConcat(w, 11, 11, 0) == (w >> 11) & 1 && BinaryConcat(w, 10, 10, 0) == (w >> 10) & 1
    ensures BinaryConcat(w, 12, 12, 0) == (w >> 12) & 1 && BinaryConcat(w, 6, 5, 0) == (w >> 5) & 3
  {
  }

  lemma Quadrant0Refused(m: Machine, w: bv32)
    requires Formed(m) && !m.hart.needTrap && w & 3 == 0 && ExpandQuadrant0(w).None?
    ensures ExecQuadrant0(m, w).illegal && !Lenient(w)
  {
    hide RvcOpcode, Full, Short, ImmAddi4spn, SpecAddi4spn;
    QuadrantOfOpcode(w);
    UnsignedImmediates(w);
  }

  lemma AluGroupRefused(m: Machine, w: bv32)
    requires Formed(m) && !m.hart.needTrap && ExpandAlu(w).None?
    ensures ExecCAlu(m, w).illegal
  {
    hide BinaryConcat, Short;
    SameFields(w);
  }

  lemma Quadrant1Refused(m: Machine, w: bv32)
    requires Formed(m) && !m.hart.needTrap && w & 3 == 1 && ExpandQuadrant1(w).None?
    ensures ExecQuadrant1(m, w).illegal <==> !Lenient(w)
  {
    hide RvcOpcode, Full, Short, ImmAddi16sp, SpecAddi16sp, ImmLui, SpecLui, ExecCAlu, ExpandAlu, SetGpr;
    QuadrantOfOpcode(w);
    SignedImmediates(w);
    UpperImmediate(w);
    if RvcOpcode(w) == 0x0c {
      AluGroupRefused(m, w);
    }
  }

  lemma Quadrant2Refused(m: Machine, w: bv32)
    requires Formed(m) && !m.hart.needTrap && w & 3 == 2 && ExpandQuadrant2(w).None?
    ensures ExecQuadrant2(m, w).illegal <==> !Lenient(w)
  {
    hide RvcOpcode, Full, BinaryConcat, ImmLwsp, ImmLdsp, ExecLoad, Address, SetGpr;
    QuadrantOfOpcode(w);
    SameFields(w);
    LoadsAreLegal(m, Address(Gpr(m, 2), ImmLwsp(w)), Address(Gpr(m, 2), ImmLdsp(w)));
  }

  lemma LoadsAreLegal(m: Machine, addr: U64, addr2: U64)
    requires Formed(m) && !m.hart.needTrap
    ensures !ExecLoad(m, 4, true, 0, addr).illegal && !ExecLoad(m, 8, true, 0, addr2).illegal
  {
  }

  /** A compressed word that abbreviates nothing is refused, but for the lenient ones. */
  lemma ReservedCompressed(m: Machine, w: bv32)
    requires Formed(m) && !m.hart.needTrap && w & 3 != 3 && Expand(w).None?
    ensures ExecCompressed(m, w).illegal <==> !Lenient(w)
  {
    hide ExecQuadrant0, ExecQuadrant1, ExecQuadrant2, ExpandQuadrant0, ExpandQuadrant1, ExpandQuadrant2, Lenient;
    if w & 3 == 0 {
      Quadrant0Refused(m, w);
    } else if w & 3 == 1 {
      Quadrant1Refused(m, w);
    } else {
      Quadrant2Refused(m, w);
    }
  }
}
