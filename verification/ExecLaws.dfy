/** What an instruction leaves behind, as software reads it: registers, memory bytes,
    reservations and trap registers, in integer arithmetic. */
module ExecLaws {
  import opened Words
  import opened StatusBits
  import opened Privilege
  import opened Csr
  import opened Isa
  import opened Exec
  import opened CsrLaws
  import opened BitLaws
  import Alu
  import opened InterruptLaws
  import AccessLaws
  import AluLaws
  import CoreStep
  import CsrMap
  import Sv39Access
  import Sv39Walk

  // ----- Registers

  /** Register rd holds value, unless it is x0; the others are as before. */
  ghost predicate OnlyRegister(m: Machine, n: Machine, rd: Reg, value: Alu.I64) {
    Formed(m) && Formed(n) && (rd != 0 ==> Gpr(n, rd) == value) && (rd == 0 ==> Gpr(n, 0) == Gpr(m, 0)) &&
    forall k: Reg :: k != rd ==> Gpr(n, k) == Gpr(m, k)
  }

  /** Memory and reservation are as before. */
  predicate SameOutside(m: Machine, n: Machine) {
    n.mem == m.mem && n.reserved == m.reserved
  }

  lemma RegisterNumbers(j: Reg, k: Reg)
    ensures j as int == k as int <==> j == k
    ensures 0 <= j as int < 32
  {
  }

  lemma SetGprShows(m: Machine, rd: Reg, value: Alu.I64)
    requires Formed(m)
    ensures OnlyRegister(m, SetGpr(m, rd, value), rd, value) && SameOutside(m, SetGpr(m, rd, value))
  {
    forall k: Reg | k != rd
      ensures Gpr(SetGpr(m, rd, value), k) == Gpr(m, k)
    {
      RegisterNumbers(k, rd);
    }
  }

  // ----- Words and registers

  /** A register and the word of the same number. */
  lemma RegisterOfWord(w: Word)
    ensures Alu.U64(ToReg(w)) == Number64(w)
  {
    AluLaws.BackNumber(w);
  }

  lemma WordOfRegister(x: Alu.I64)
    ensures Number64(ToWord(x)) == Alu.U64(x)
  {
    AluLaws.BitsNumber(x);
  }

  lemma WordOfAddress(addr: U64)
    ensures Number64(AddressWord(addr)) == addr
  {
    CastBack(addr);
  }

  /** The effective address is the sum modulo 2^64. */
  lemma AddressAdds(base: Alu.I64, imm: bv64)
    ensures Address(base, imm) == (Alu.U64(base) + Number64(W(imm))) % TWO_64
  {
    hide Number64;
    var x := Alu.FromBits(imm);
    AluLaws.BackNumber(W(imm));
    AluLaws.UnsignedOf(base);
    AluLaws.UnsignedOf(x);
    Alu.MultipleVanishes(base + x, (if base < 0 then 1 else 0) + (if x < 0 then 1 else 0), TWO_64);
  }

  // ----- Traps

  /** An exception raised in m: the registers of the level entered record it, the handler
      is the one of that level, and nothing outside the hart changes. */
  predicate TrapsWith(m: Machine, n: Machine, code: bv64, tval: Word) {
    n.gpr == m.gpr && SameOutside(m, n) && Entered(m.hart, Cause(code, false), tval, n.hart)
  }

  lemma TrapIs(m: Machine, code: bv64, tval: Word)
    requires Formed(m) && !m.hart.needTrap && code != EXEC_OK
    ensures TrapsWith(m, Trap(m, code, tval), code, tval)
  {
    hide RaiseTrap, Entered;
    TrapShows(m.hart, Cause(code, false), tval);
  }

  // ----- System instructions

  /** ECALL has code 8, 9 or 11 by the mode, EBREAK code 3; neither has a trap value. */
  lemma CallsShow(m: Machine, len: bv64)
    requires Formed(m) && !m.hart.needTrap && Level(m.hart.priv)
    ensures
      var code := if m.hart.priv == U_MODE then 8 else if m.hart.priv == S_MODE then 9 else 11;
      TrapsWith(m, Execute(m, Ecall, len).m, code, ZERO)
    ensures TrapsWith(m, Execute(m, Ebreak, len).m, 3, ZERO)
  {
    hide TrapsWith, Trap;
    EcallCode(m.hart.priv);
    CallCodes(m.hart.priv);
    TrapIs(m, m.hart.priv as bv64 + 8, ZERO);
    TrapIs(m, 3, ZERO);
  }

  /** MRET is illegal below M-mode, SRET in U-mode and under TSR (22); otherwise the mode,
      the status word and the program counter are those of the return. */
  lemma ReturnsAct(m: Machine, w: Word, len: bv64)
    requires Formed(m) && !m.hart.needTrap && CsrRead(m.hart, 0x300) == Some(w)
    ensures
      var o := Execute(m, Instr.Mret, len);
      if m.hart.priv != M_MODE then o == Outcome(m, false, true)
      else
        o == Outcome(m.(hart := o.m.hart), false, false) &&
        ReturnShows(m.hart, o.m.hart, 0x300, ((w.bits >> 11) & 3) as bv2, LeftM(w.bits))
    ensures
      var o := Execute(m, Instr.Sret, len);
      if m.hart.priv == U_MODE || BitSet(w, 22) then o == Outcome(m, false, true)
      else
        o == Outcome(m.(hart := o.m.hart), false, false) &&
        ReturnShows(m.hart, o.m.hart, 0x100, ((w.bits >> 8) & 1) as bv2, LeftS(w.bits))
  {
    hide ReturnShows, CsrRead, BitSet, LeftM, LeftS, Privilege.Mret, Privilege.Sret;
    MretShows(m.hart, w);
    SretShows(m.hart, w);
  }

  /** SFENCE.VMA is illegal in U-mode, and in S-mode under TVM (20); it changes no
      register. */
  lemma FencesAct(m: Machine, rs1: Reg, rs2: Reg, w: Word, len: bv64)
    requires Formed(m) && !m.hart.needTrap && CsrRead(m.hart, 0x300) == Some(w)
    ensures Execute(m, SfenceVma(rs1, rs2), len)
         == Outcome(m, false, m.hart.priv == U_MODE || (m.hart.priv == S_MODE && BitSet(w, 20)))
    ensures Execute(m, Nop, len) == Outcome(m, false, false)
    ensures Execute(m, Illegal, len) == Outcome(m, false, true)
  {
    hide CsrRead, PackM, BitSet;
    DelegationRegisters(m.hart);
    CsrMap.TvmBit(m.hart.status);
  }

  lemma CallCodes(priv: Mode)
    requires Level(priv)
    ensures priv as bv64 + 8 == if priv == U_MODE then 8 else if priv == S_MODE then 9 else 11
  {
  }

  // ----- Computation

  /** The machine with register rd set, and nothing else changed. */
  ghost predicate Sets(m: Machine, o: Outcome, rd: Reg, value: Alu.I64) {
    OnlyRegister(m, o.m, rd, value) && SameOutside(m, o.m) && o.m.hart == m.hart && !o.jumped && !o.illegal
  }

  lemma ArithmeticShows(m: Machine, op: Alu.Op, word: bool, rd: Reg, rs1: Reg, rs2: Reg, imm: bv64, len: bv64)
    requires Formed(m) && !m.hart.needTrap
    ensures Sets(m, Execute(m, OpReg(op, word, rd, rs1, rs2), len), rd, Alu.AluExec(Gpr(m, rs1), Gpr(m, rs2), op, word))
    ensures Sets(m, Execute(m, OpImm(op, word, rd, rs1, imm), len), rd,
                 Alu.AluExec(Gpr(m, rs1), ToReg(W(imm)), op, word))
  {
    hide OnlyRegister, SetGpr, Alu.AluExec;
    SetGprShows(m, rd, Alu.AluExec(Gpr(m, rs1), Gpr(m, rs2), op, word));
    SetGprShows(m, rd, Alu.AluExec(Gpr(m, rs1), ToReg(W(imm)), op, word));
  }

  /** LUI loads the immediate, AUIPC adds it to the program counter. */
  lemma UpperShows(m: Machine, rd: Reg, imm: bv64, len: bv64)
    requires Formed(m) && !m.hart.needTrap
    ensures Sets(m, Execute(m, Lui(rd, imm), len), rd, ToReg(W(imm)))
    ensures Sets(m, Execute(m, Auipc(rd, imm), len), rd, ToReg(Sum(m.hart.pc, imm)))
  {
    hide OnlyRegister, SetGpr;
    SetGprShows(m, rd, ToReg(W(imm)));
    SetGprShows(m, rd, ToReg(Sum(m.hart.pc, imm)));
  }

  /** So AUIPC gives the program counter plus the immediate, modulo 2^64. */
  lemma AuipcAdds(m: Machine, rd: Reg, imm: bv64, len: bv64)
    requires Formed(m) && !m.hart.needTrap && rd != 0
    ensures Alu.U64(Gpr(Execute(m, Auipc(rd, imm), len).m, rd)) == (Number64(m.hart.pc) + Number64(W(imm))) % TWO_64
  {
    hide Sum, ToReg, Number64, Alu.U64, SetGpr, Execute;
    UpperShows(m, rd, imm, len);
    RegisterOfWord(Sum(m.hart.pc, imm));
    SumNumber(m.hart.pc, W(imm));
  }

  // ----- Jumps and branches

  /** A jump to an even address: the program counter is the target, and the link
      register holds the address of the next instruction. */
  ghost predicate Jumps(m: Machine, o: Outcome, target: Word, link: Reg, back: Word) {
    OnlyRegister(m, o.m, link, ToReg(back)) && SameOutside(m, o.m) && o.m.hart == m.hart.(pc := target) &&
    o.jumped && !o.illegal
  }

  /** A jump to an odd address is an exception 0 with the target as its value. */
  ghost predicate JumpsOrTraps(m: Machine, o: Outcome, target: Word, link: Reg, back: Word) {
    if target.bits & 1 == 0 then Jumps(m, o, target, link, back)
    else TrapsWith(m, o.m, INSTR_MISALIGN, target) && !o.illegal
  }

  lemma JumpToShows(m: Machine, target: Word, link: Reg, back: Word)
    requires Formed(m) && !m.hart.needTrap
    ensures JumpsOrTraps(m, JumpTo(m, target, link, ToReg(back)), target, link, back)
  {
    hide OnlyRegister, SetGpr, TrapsWith, Trap;
    SetGprShows(m, link, ToReg(back));
    JumpKeepsRegisters(m, SetGpr(m, link, ToReg(back)), link, ToReg(back), target);
    TrapIs(m, INSTR_MISALIGN, target);
  }

  lemma JumpKeepsRegisters(m: Machine, n: Machine, rd: Reg, value: Alu.I64, pc: Word)
    requires OnlyRegister(m, n, rd, value)
    ensures OnlyRegister(m, n.(hart := n.hart.(pc := pc)), rd, value)
  {
    forall k: Reg | k != rd
      ensures Gpr(n.(hart := n.hart.(pc := pc)), k) == Gpr(m, k)
    {
      assert Gpr(n, k) == Gpr(m, k);
    }
  }

  /** JAL jumps relative to the program counter, JALR to a register. */
  lemma JumpsShow(m: Machine, rd: Reg, rs1: Reg, imm: bv64, len: bv64)
    requires Formed(m) && !m.hart.needTrap
    ensures JumpsOrTraps(m, Execute(m, Jal(rd, imm), len), Sum(m.hart.pc, imm), rd, Sum(m.hart.pc, len))
    ensures JumpsOrTraps(m, Execute(m, Jalr(rd, rs1, imm), len), Sum(ToWord(Gpr(m, rs1)), imm), rd, Sum(m.hart.pc, len))
  {
    hide JumpTo, JumpsOrTraps, Sum, ToWord, ToReg, Gpr;
    JumpToShows(m, Sum(m.hart.pc, imm), rd, Sum(m.hart.pc, len));
    JumpToShows(m, Sum(ToWord(Gpr(m, rs1)), imm), rd, Sum(m.hart.pc, len));
  }

  /** The six conditions are those of subtraction and of the two comparisons. */
  lemma ConditionsCompare(a: Alu.I64, b: Alu.I64)
    ensures Holds(Eq, a, b) <==> Alu.AluExec(a, b, Alu.Sub, false) == 0
    ensures Holds(Lt, a, b) <==> Alu.AluExec(a, b, Alu.Slt, false) == 1
    ensures Holds(Ltu, a, b) <==> Alu.AluExec(a, b, Alu.Sltu, false) == 1
    ensures Holds(Ne, a, b) <==> !Holds(Eq, a, b)
    ensures Holds(Ge, a, b) <==> !Holds(Lt, a, b)
    ensures Holds(Geu, a, b) <==> !Holds(Ltu, a, b)
  {
  }

  /** A branch that holds jumps, or traps at an odd target; one that does not changes
      nothing. */
  lemma BranchShows(m: Machine, cond: Condition, rs1: Reg, rs2: Reg, imm: bv64, len: bv64)
    requires Formed(m) && !m.hart.needTrap
    ensures
      var o, target := Execute(m, Branch(cond, rs1, rs2, imm), len), Sum(m.hart.pc, imm);
      if !Holds(cond, Gpr(m, rs1), Gpr(m, rs2)) then o == Outcome(m, false, false)
      else if target.bits & 1 != 0 then TrapsWith(m, o.m, INSTR_MISALIGN, target) && !o.illegal
      else o == Outcome(m.(hart := m.hart.(pc := target)), true, false)
  {
    hide Holds, TrapsWith, Trap, Gpr, Sum;
    TrapIs(m, INSTR_MISALIGN, Sum(m.hart.pc, imm));
  }

  // ----- Bytes and registers

  lemma NextByte(k: nat)
    ensures Alu.Pow2(8 * (k + 1)) == 0x100 * Alu.Pow2(8 * k)
  {
    assert Alu.Pow2(8 * k + 8) == 2 * Alu.Pow2(8 * k + 7);
    assert Alu.Pow2(8 * k + 6) == 2 * Alu.Pow2(8 * k + 5);
    assert Alu.Pow2(8 * k + 4) == 2 * Alu.Pow2(8 * k + 3);
    assert Alu.Pow2(8 * k + 2) == 2 * Alu.Pow2(8 * k + 1);
  }

  lemma {:induction false} BytesFit(bytes: seq<Byte>)
    ensures LittleEndian(bytes) < Alu.Pow2(8 * |bytes|)
    decreases |bytes|
  {
    if bytes != [] {
      BytesFit(bytes[1..]);
      NextByte(|bytes| - 1);
    }
  }

  lemma DigitOf(n: nat, p: nat)
    requires p > 0
    ensures n % 0x100 + 0x100 * (n / 0x100 % p) == n % (0x100 * p)
  {
    var q := n / 0x100;
    assert n == 0x100 * (q / p * p + q % p) + n % 0x100 by {
      assert q == q / p * p + q % p;
    }
    Spread(q / p, p, q % p);
    Alu.QuotientIs(n, 0x100 * p, q / p, n % 0x100 + 0x100 * (q % p));
  }

  lemma Spread(q: int, p: int, r: int)
    ensures 0x100 * (q * p + r) == q * (0x100 * p) + 0x100 * r
  {
  }

  /** The bytes that a store writes are the low bytes of the register. */
  lemma {:induction false} LowBytesHold(n: nat, size: nat)
    ensures LittleEndian(LowBytes(n, size)) == n % Alu.Pow2(8 * size)
    decreases size
  {
    if size > 0 {
      LowBytesHold(n / 0x100, size - 1);
      assert LowBytes(n, size)[1..] == LowBytes(n / 0x100, size - 1);
      NextByte(size - 1);
      DigitOf(n, Alu.Pow2(8 * (size - 1)));
    }
  }

  lemma Widths()
    ensures Alu.Pow2(7) == 0x80 && Alu.Pow2(15) == 0x8000
    ensures Alu.Pow2(31) == 0x8000_0000 && Alu.Pow2(63) == 0x8000_0000_0000_0000
    ensures Alu.Pow2(8) == 0x100 && Alu.Pow2(16) == 0x1_0000
    ensures Alu.Pow2(32) == 0x1_0000_0000 && Alu.Pow2(64) == TWO_64
  {
    assert Alu.Pow2(4) == 0x10;
    assert Alu.Pow2(12) == 0x1000;
    assert Alu.Pow2(20) == 0x10_0000 && Alu.Pow2(28) == 0x1000_0000;
    assert Alu.Pow2(36) == 0x10_0000_0000 && Alu.Pow2(44) == 0x1000_0000_0000;
    assert Alu.Pow2(52) == 0x10_0000_0000_0000 && Alu.Pow2(60) == 0x1000_0000_0000_0000;
  }

  /** A loaded register: the bytes as a number, less twice the sign bit if it is set
      and the load is signed. */
  lemma ExtendedIs(bytes: seq<Byte>, signed: bool)
    requires |bytes| in {1, 2, 4, 8} && (|bytes| == 8 ==> signed)
    ensures
      var n, sign := LittleEndian(bytes), Alu.Pow2(8 * |bytes| - 1);
      Extended(bytes, signed) == if signed && n >= sign then n - 2 * sign else n
  {
    hide Alu.Pow2, LittleEndian;
    BytesFit(bytes);
    Widths();
    var n := LittleEndian(bytes);
    if |bytes| == 1 {
      Recentred(n, 0x80);
    } else if |bytes| == 2 {
      Recentred(n, 0x8000);
    } else if |bytes| == 4 {
      Recentred(n, 0x8000_0000);
    } else {
      Recentred(n, 0x8000_0000_0000_0000);
    }
  }

  lemma Recentred(n: nat, sign: nat)
    requires n < 2 * sign
    ensures (n + sign) % (2 * sign) - sign == if n >= sign then n - 2 * sign else n
    ensures n % (2 * sign) == n
  {
    WithinModulus(n, 2 * sign);
    if n >= sign {
      WithinModulus(n - sign, 2 * sign);
      Alu.MultipleVanishes(n - sign, 1, 2 * sign);
    } else {
      WithinModulus(n + sign, 2 * sign);
    }
  }

  lemma WithinModulus(n: nat, m: nat)
    requires n < m
    ensures n % m == n
  {
    Alu.QuotientIs(n, m, 0, n);
  }

  /** A register stored and loaded back is its low part, sign- or zero-extended: all of
      it for eight bytes. */
  lemma StoredThenLoaded(value: Alu.I64, size: nat, signed: bool)
    requires size in {1, 2, 4, 8} && (size == 8 ==> signed)
    ensures
      var back, sign: int := Extended(LowBytes(Alu.U64(value), size), signed), Alu.Pow2(8 * size - 1);
      back % (2 * sign) == value % (2 * sign) && (if signed then -sign <= back < sign else 0 <= back < 2 * sign)
  {
    hide LowBytes, Alu.Pow2, Extended, LittleEndian, Alu.U64;
    var n := Alu.U64(value);
    LowBytesHold(n, size);
    ExtendedIs(LowBytes(n, size), signed);
    Widths();
    AluLaws.UnsignedOf(value);
    if size == 1 {
      LowParts(n, value, 0x80);
    } else if size == 2 {
      LowParts(n, value, 0x8000);
    } else if size == 4 {
      LowParts(n, value, 0x8000_0000);
    } else {
      LowParts(n, value, 0x8000_0000_0000_0000);
    }
  }

  lemma LowParts(n: nat, value: int, sign: nat)
    requires sign > 0 && TWO_64 % (2 * sign) == 0 && (n == value || n == value + TWO_64)
    ensures 0 <= n % (2 * sign) < 2 * sign
    ensures n % (2 * sign) % (2 * sign) == value % (2 * sign)
    ensures (n % (2 * sign) - 2 * sign) % (2 * sign) == value % (2 * sign)
  {
    var p := 2 * sign;
    var k := TWO_64 / p;
    assert TWO_64 == k * p;
    Alu.MultipleVanishes(value, k, p);
    Alu.MultipleVanishes(n % p, -1, p);
    Alu.QuotientIs(n % p, p, 0, n % p);
  }

  // ----- Loads and stores

  /** Codes 4 and 6 for an address that is not a multiple of the width, 5 and 7 for an
      access fault, 13 and 15 for a page fault; the value is the address. */
  lemma LoadShows(m: Machine, width: nat, signed: bool, rd: Reg, addr: U64)
    requires Formed(m) && !m.hart.needTrap && width in {1, 2, 4, 8}
    ensures
      var o := ExecLoad(m, width, signed, rd, addr);
      var (fb, bytes) := Sv39Access.PlainRead(m.mem, Sv39Walk.TablesIn(m.mem), ContextOf(m.hart), addr, width);
      if addr % width != 0 then TrapsWith(m, o.m, 4, AddressWord(addr))
      else if fb == Sv39Access.AccessFault then TrapsWith(m, o.m, 5, AddressWord(addr))
      else if fb == Sv39Access.PageFault then TrapsWith(m, o.m, 13, AddressWord(addr))
      else if fb == Sv39Access.AccessOk then Sets(m, o, rd, Extended(bytes, signed))
      else false
  {
    hide OnlyRegister, SetGpr, TrapsWith, Trap, Extended, Sv39Access.PlainRead, ContextOf, AddressWord;
    var (fb, bytes) := Sv39Access.PlainRead(m.mem, Sv39Walk.TablesIn(m.mem), ContextOf(m.hart), addr, width);
    SetGprShows(m, rd, Extended(bytes, signed));
    TrapIs(m, LOAD_MISALIGN, AddressWord(addr));
    TrapIs(m, LOAD_ACC_FAULT, AddressWord(addr));
    TrapIs(m, LOAD_PGFAULT, AddressWord(addr));
    if addr % width == 0 {
      ReadNeverMisaligned(m, addr, width);
    }
  }

  lemma ReadNeverMisaligned(m: Machine, addr: U64, width: nat)
    requires width in {1, 2, 4, 8} && addr % width == 0
    ensures Sv39Access.PlainRead(m.mem, Sv39Walk.TablesIn(m.mem), ContextOf(m.hart), addr, width).0
         != Sv39Access.Misaligned
  {
    CoreStep.AlignedAccessFeedback(m, addr, width, LowBytes(0, width));
  }

  lemma StoreShows(m: Machine, width: nat, addr: U64, value: Alu.I64)
    requires Formed(m) && !m.hart.needTrap && width in {1, 2, 4, 8}
    ensures
      var o, bytes := ExecStore(m, width, addr, value), LowBytes(Alu.U64(value), width);
      var (fb, mem) := Sv39Access.PlainWrite(m.mem, Sv39Walk.TablesIn(m.mem), ContextOf(m.hart), addr, bytes);
      if addr % width != 0 then TrapsWith(m, o.m, 6, AddressWord(addr))
      else if fb == Sv39Access.AccessFault then TrapsWith(m, o.m, 7, AddressWord(addr))
      else if fb == Sv39Access.PageFault then TrapsWith(m, o.m, 15, AddressWord(addr))
      else if fb == Sv39Access.AccessOk then o == Outcome(m.(mem := mem), false, false)
      else false
  {
    hide TrapsWith, Trap, Sv39Access.PlainWrite, ContextOf, AddressWord, LowBytes;
    TrapIs(m, STORE_MISALIGN, AddressWord(addr));
    TrapIs(m, STORE_ACC_FAULT, AddressWord(addr));
    TrapIs(m, STORE_PGFAULT, AddressWord(addr));
    if addr % width == 0 {
      CoreStep.AlignedAccessFeedback(m, addr, width, LowBytes(Alu.U64(value), width));
    }
  }

  /** Where an access of the hart goes. */
  function TargetIn(m: Machine, kind: Sv39Access.Access, addr: U64, width: nat): Sv39Access.Target {
    Sv39Access.TargetOf(Sv39Walk.TablesIn(m.mem), ContextOf(m.hart), kind, addr, width)
  }

  /** The standard translates the stores of the hart. */
  predicate Translates(m: Machine) {
    AccessLaws.StandardTranslates(ContextOf(m.hart), Sv39Access.Store)
  }

  lemma BareIsUntranslated(m: Machine)
    ensures Sv39Access.Bare(ContextOf(m.hart)) <==> !Translates(m)
  {
    hide ContextOf;
    AccessLaws.TranslatedAsStandard(ContextOf(m.hart), Sv39Access.Store);
  }

  /** A load from devices sets its register to their bytes; from nowhere it raises 5. */
  lemma LoadFrom(m: Machine, width: nat, signed: bool, rd: Reg, addr: U64, pa: nat)
    requires Formed(m) && !m.hart.needTrap && width in {1, 2, 4, 8} && addr % width == 0
    requires TargetIn(m, Sv39Access.Load, addr, width) == Sv39Access.Physical(pa)
    ensures
      var o := ExecLoad(m, width, signed, rd, addr);
      if Accessible(m.mem, pa, width) then Sets(m, o, rd, Extended(BytesAt(m.mem, pa, width), signed))
      else TrapsWith(m, o.m, 5, AddressWord(addr))
  {
    hide ExecLoad, Sets, TrapsWith, Extended, BytesAt, AddressWord, Sv39Access.TargetOf, ContextOf;
    LoadShows(m, width, signed, rd, addr);
  }

  /** A store to devices changes exactly their bytes to the low ones of the register; to
      nowhere it raises 7 untranslated and 15 under translation. */
  lemma StoreTo(m: Machine, width: nat, addr: U64, value: Alu.I64, pa: nat)
    requires Formed(m) && !m.hart.needTrap && width in {1, 2, 4, 8} && addr % width == 0
    requires TargetIn(m, Sv39Access.Store, addr, width) == Sv39Access.Physical(pa)
    ensures
      var o := ExecStore(m, width, addr, value);
      if Accessible(m.mem, pa, width) then
        o == Outcome(m.(mem := o.m.mem), false, false) &&
        OnlyBytes(m.mem, o.m.mem, pa, LowBytes(Alu.U64(value), width))
      else TrapsWith(m, o.m, if Translates(m) then 15 else 7, AddressWord(addr))
  {
    hide ExecStore, TrapsWith, AddressWord, OnlyBytes, LowBytes, Sv39Access.TargetOf, ContextOf, Sv39Access.Bare,
         Sv39Access.Stored, Translates;
    BareIsUntranslated(m);
    StoreShows(m, width, addr, value);
    if Accessible(m.mem, pa, width) {
      StoredIsOnly(m.mem, pa, LowBytes(Alu.U64(value), width));
    }
  }

  /** A load of what was just stored: its target may have moved with the tables, but if it
      is the same, the register loaded is the low part of the one stored. */
  lemma LoadAfterStore(m: Machine, width: nat, signed: bool, rd: Reg, addr: U64, value: Alu.I64, pa: nat)
    requires Formed(m) && !m.hart.needTrap && width in {1, 2, 4, 8} && addr % width == 0 && rd != 0
    requires width == 8 ==> signed
    requires TargetIn(m, Sv39Access.Store, addr, width) == Sv39Access.Physical(pa) && Accessible(m.mem, pa, width)
    ensures
      var n, sign: int := ExecStore(m, width, addr, value).m, Alu.Pow2(8 * width - 1);
      Formed(n) && !n.hart.needTrap &&
      (TargetIn(n, Sv39Access.Load, addr, width) == Sv39Access.Physical(pa) ==>
         var back := Gpr(ExecLoad(n, width, signed, rd, addr).m, rd) as int;
         back % (2 * sign) == value % (2 * sign) && (if signed then -sign <= back < sign else 0 <= back < 2 * sign))
  {
    hide ExecStore, ExecLoad, LowBytes, Extended, BytesAt, Alu.Pow2, Sv39Access.TargetOf, ContextOf, Alu.U64;
    StoreTo(m, width, addr, value, pa);
    var n := ExecStore(m, width, addr, value).m;
    if TargetIn(n, Sv39Access.Load, addr, width) == Sv39Access.Physical(pa) {
      LoadFrom(n, width, signed, rd, addr, pa);
      StoredThenLoaded(value, width, signed);
    }
  }

  /** The load and store instructions use the register rs1 plus the immediate. */
  lemma TransfersShow(m: Machine, width: nat, signed: bool, rd: Reg, rs1: Reg, rs2: Reg, imm: bv64, len: bv64)
    requires Formed(m) && !m.hart.needTrap && width >= 1
    ensures
      var addr := (Alu.U64(Gpr(m, rs1)) + Number64(W(imm))) % TWO_64;
      Execute(m, Load(width, signed, rd, rs1, imm), len) == ExecLoad(m, width, signed, rd, addr) &&
      Execute(m, Store(width, rs1, rs2, imm), len) == ExecStore(m, width, addr, Gpr(m, rs2))
  {
    hide ExecLoad, ExecStore, Address;
    AddressAdds(Gpr(m, rs1), imm);
  }

  // ----- Atomics

  lemma BytesStored(mem: Memory, pa: nat, bytes: seq<Byte>)
    requires Accessible(mem, pa, |bytes|)
    ensures BytesAt(Sv39Access.Stored(mem, pa, bytes), pa, |bytes|) == bytes
    ensures forall a :: a < pa || a >= pa + |bytes| ==> a in mem ==> Sv39Access.Stored(mem, pa, bytes)[a] == mem[a]
    ensures Sv39Access.Stored(mem, pa, bytes).Keys == mem.Keys
  {
    var after := Sv39Access.Stored(mem, pa, bytes);
    forall i | 0 <= i < |bytes|
      ensures BytesAt(after, pa, |bytes|)[i] == bytes[i]
    {
      assert pa + i in mem;
      assert BytesAt(after, pa, |bytes|)[i] == ByteAt(after, pa + i);
    }
  }

  /** Bytes at pa are those given, and no other byte differs. */
  ghost predicate OnlyBytes(mem: Memory, now: Memory, pa: nat, bytes: seq<Byte>) {
    BytesAt(now, pa, |bytes|) == bytes && now.Keys == mem.Keys &&
    forall a :: (a < pa || a >= pa + |bytes|) && a in mem ==> now[a] == mem[a]
  }

  lemma StoredIsOnly(mem: Memory, pa: nat, bytes: seq<Byte>)
    requires Accessible(mem, pa, |bytes|)
    ensures OnlyBytes(mem, Sv39Access.Stored(mem, pa, bytes), pa, bytes)
  {
    BytesStored(mem, pa, bytes);
  }

  /** LR: the word sign-extended in rd, and a reservation of its virtual address; without
      a device the reservation stays and the exception is 7. */
  lemma LoadReservedShows(m: Machine, width: nat, rd: Reg, addr: U64, pa: nat)
    requires Formed(m) && !m.hart.needTrap && width in {4, 8}
    requires TargetIn(m, Sv39Access.Load, addr, width) == Sv39Access.Physical(pa)
    ensures
      var o, n := ExecLoadReserved(m, width, rd, addr), m.(reserved := Reservation(true, addr, width));
      if Accessible(m.mem, pa, width) then Sets(n, o, rd, Extended(BytesAt(m.mem, pa, width), true))
      else TrapsWith(n, o.m, 7, AddressWord(addr))
  {
    hide OnlyRegister, SetGpr, TrapsWith, Trap, Extended, BytesAt, AddressWord;
    var n := m.(reserved := Reservation(true, addr, width));
    SetGprShows(n, rd, Extended(BytesAt(m.mem, pa, width), true));
    TrapIs(n, STORE_ACC_FAULT, AddressWord(addr));
  }

  predicate ReservedFor(m: Machine, addr: nat, width: nat) {
    m.reserved.valid && m.reserved.addr == addr && m.reserved.size == width
  }

  /** SC without a reservation of its own address and width answers 1 and stores
      nothing; no reservation is left. */
  lemma StoreConditionalFails(m: Machine, width: nat, rd: Reg, addr: U64, value: Alu.I64)
    requires Formed(m) && !m.hart.needTrap && width in {4, 8} && !ReservedFor(m, addr, width)
    requires TargetIn(m, Sv39Access.Store, addr, width).Physical?
    ensures
      var o := ExecStoreConditional(m, width, rd, addr, value);
      OnlyRegister(m, o.m, rd, 1) && o.m.mem == m.mem && o.m.hart == m.hart && !o.m.reserved.valid &&
      !o.jumped && !o.illegal
  {
    hide SetGpr, LowBytes;
    SetGprShows(m.(reserved := m.reserved.(valid := false)), rd, 1);
  }

  /** SC with its reservation stores the low bytes of the register and answers 0; no
      reservation is left. */
  lemma StoreConditionalStores(m: Machine, width: nat, rd: Reg, addr: U64, value: Alu.I64, pa: nat)
    requires Formed(m) && !m.hart.needTrap && width in {4, 8} && ReservedFor(m, addr, width)
    requires TargetIn(m, Sv39Access.Store, addr, width) == Sv39Access.Physical(pa)
    requires Accessible(m.mem, pa, width)
    ensures
      var o := ExecStoreConditional(m, width, rd, addr, value);
      OnlyRegister(m, o.m, rd, 0) && OnlyBytes(m.mem, o.m.mem, pa, LowBytes(Alu.U64(value), width)) &&
      o.m.hart == m.hart && !o.m.reserved.valid && !o.jumped && !o.illegal
  {
    hide SetGpr, LowBytes, OnlyBytes, Sv39Access.Stored;
    var n := m.(reserved := m.reserved.(valid := false));
    var bytes := LowBytes(Alu.U64(value), width);
    SetGprShows(n.(mem := Sv39Access.Stored(m.mem, pa, bytes)), rd, 0);
    StoredIsOnly(m.mem, pa, bytes);
  }

  /** SC with its reservation where no device is: the exception is 7 untranslated, and 15
      under translation. */
  lemma StoreConditionalFaults(m: Machine, width: nat, rd: Reg, addr: U64, value: Alu.I64, pa: nat)
    requires Formed(m) && !m.hart.needTrap && width in {4, 8} && ReservedFor(m, addr, width)
    requires TargetIn(m, Sv39Access.Store, addr, width) == Sv39Access.Physical(pa)
    requires !Accessible(m.mem, pa, width)
    ensures
      TrapsWith(m.(reserved := m.reserved.(valid := false)), ExecStoreConditional(m, width, rd, addr, value).m,
                if Translates(m) then 15 else 7, AddressWord(addr))
  {
    hide SetGpr, TrapsWith, Trap, LowBytes, AddressWord, Sv39Access.Stored, Sv39Access.Bare, Translates;
    BareIsUntranslated(m);
    var n := m.(reserved := m.reserved.(valid := false));
    TrapIs(n, STORE_ACC_FAULT, AddressWord(addr));
    TrapIs(n, STORE_PGFAULT, AddressWord(addr));
  }

  /** LR, then SC to the same address with nothing between: the store is done.  A second
      SC is refused: the first used the reservation up. */
  lemma ReservedPair(m: Machine, width: nat, rd: Reg, rd2: Reg, addr: U64, value: Alu.I64, pa: nat)
    requires Formed(m) && !m.hart.needTrap && width in {4, 8} && Accessible(m.mem, pa, width)
    requires TargetIn(m, Sv39Access.Load, addr, width) == Sv39Access.Physical(pa)
    requires TargetIn(m, Sv39Access.Store, addr, width) == Sv39Access.Physical(pa)
    ensures
      var first := ExecLoadReserved(m, width, rd, addr).m;
      Formed(first) && !first.hart.needTrap &&
      var second := ExecStoreConditional(first, width, rd2, addr, value).m;
      Formed(second) && !second.hart.needTrap && OnlyRegister(first, second, rd2, 0) &&
      OnlyBytes(m.mem, second.mem, pa, LowBytes(Alu.U64(value), width)) && !ReservedFor(second, addr, width)
  {
    hide LowBytes, OnlyBytes, OnlyRegister, ExecLoadReserved, ExecStoreConditional, Sv39Access.TargetOf, ContextOf;
    LoadReservedShows(m, width, rd, addr, pa);
    StoreConditionalStores(ExecLoadReserved(m, width, rd, addr).m, width, rd2, addr, value, pa);
  }

  /** An atomic operation returns the old value and stores the low bytes of its result. */
  lemma AmoShows(m: Machine, op: AmoOp, width: nat, rd: Reg, addr: U64, src: Alu.I64, pa: nat)
    requires Formed(m) && !m.hart.needTrap && width in {4, 8}
    requires TargetIn(m, Sv39Access.Store, addr, width) == Sv39Access.Physical(pa)
    ensures
      var o, was := ExecAmo(m, op, width, rd, addr, src), Extended(BytesAt(m.mem, pa, width), true);
      if Accessible(m.mem, pa, width) then
        OnlyRegister(m, o.m, rd, was) && o.m.hart == m.hart && o.m.reserved == m.reserved && !o.jumped && !o.illegal &&
        OnlyBytes(m.mem, o.m.mem, pa, LowBytes(Alu.U64(AmoResult(op, src, was)), width))
      else TrapsWith(m, o.m, 7, AddressWord(addr))
  {
    hide SetGpr, TrapsWith, Trap, LowBytes, AddressWord, OnlyBytes, Sv39Access.Stored, Extended, BytesAt, AmoResult;
    var was := Extended(BytesAt(m.mem, pa, width), true);
    var bytes := LowBytes(Alu.U64(AmoResult(op, src, was)), width);
    SetGprShows(m.(mem := Sv39Access.Stored(m.mem, pa, bytes)), rd, was);
    TrapIs(m, STORE_ACC_FAULT, AddressWord(addr));
    if Accessible(m.mem, pa, width) {
      StoredIsOnly(m.mem, pa, bytes);
    }
  }

  /** A refused atomic: 15 for a page fault, 6 across pages, and for LR 7 where the
      supervisor may not touch user memory; the others call that 15. */
  lemma AtomicRefusals(m: Machine, op: AmoOp, width: nat, rd: Reg, addr: U64, value: Alu.I64)
    requires Formed(m) && !m.hart.needTrap && width in {4, 8}
    ensures
      var t, o := TargetIn(m, Sv39Access.Load, addr, width), ExecLoadReserved(m, width, rd, addr);
      t.Refused? ==>
        TrapsWith(m, o.m, if t.feedback == Sv39Access.AccessFault then 7
                          else if t.feedback == Sv39Access.Misaligned then 6 else 15, AddressWord(addr))
    ensures
      var t, o := TargetIn(m, Sv39Access.Store, addr, width), ExecStoreConditional(m, width, rd, addr, value);
      t.Refused? ==>
        TrapsWith(m, o.m, if t.feedback == Sv39Access.Misaligned then 6 else 15, AddressWord(addr))
    ensures
      var t, o := TargetIn(m, Sv39Access.Store, addr, width), ExecAmo(m, op, width, rd, addr, value);
      t.Refused? ==>
        TrapsWith(m, o.m, if t.feedback == Sv39Access.Misaligned then 6 else 15, AddressWord(addr))
  {
    hide TrapsWith, Trap, AddressWord;
    TrapIs(m, STORE_ACC_FAULT, AddressWord(addr));
    TrapIs(m, STORE_MISALIGN, AddressWord(addr));
    TrapIs(m, STORE_PGFAULT, AddressWord(addr));
  }

  /** What an atomic operation stores, in all 64 bits. */
  lemma AmoComputes(src: Alu.I64, was: Alu.I64)
    ensures AmoResult(AmoSwap, src, was) == src
    ensures Alu.U64(AmoResult(AmoAdd, src, was)) == (Alu.U64(src) + Alu.U64(was)) % TWO_64
    ensures AmoResult(AmoMin, src, was) == if src <= was then src else was
    ensures AmoResult(AmoMax, src, was) == if src >= was then src else was
    ensures AmoResult(AmoMinu, src, was) == if Alu.U64(src) <= Alu.U64(was) then src else was
    ensures AmoResult(AmoMaxu, src, was) == if Alu.U64(src) >= Alu.U64(was) then src else was
  {
    hide Alu.U64, Alu.Wrap;
    AluLaws.SumIsModular(src, was);
    AmoAddIs(src, was);
    if Alu.U64(src) == Alu.U64(was) {
      SameRegister64(src, was);
    }
  }

  lemma AmoAddIs(src: Alu.I64, was: Alu.I64)
    ensures AmoResult(AmoAdd, src, was) == Alu.AluExec(src, was, Alu.Add, false)
  {
  }

  lemma SameRegister64(x: Alu.I64, y: Alu.I64)
    requires Alu.U64(x) == Alu.U64(y)
    ensures x == y
  {
    AluLaws.UnsignedOf(x);
    AluLaws.UnsignedOf(y);
  }

  lemma AmoLogicIs(src: Alu.I64, was: Alu.I64)
    ensures AmoResult(AmoAnd, src, was) == Alu.AluExec(src, was, Alu.And, false)
    ensures AmoResult(AmoOr, src, was) == Alu.AluExec(src, was, Alu.Or, false)
    ensures AmoResult(AmoXor, src, was) == Alu.AluExec(src, was, Alu.Xor, false)
  {
    hide Alu.Bits, Alu.FromBits;
  }

  /** And bit by bit. */
  lemma AmoLogicBits(src: Alu.I64, was: Alu.I64, k: nat)
    ensures BitAt(Alu.U64(AmoResult(AmoAnd, src, was)), k) <==> BitAt(Alu.U64(src), k) && BitAt(Alu.U64(was), k)
    ensures BitAt(Alu.U64(AmoResult(AmoOr, src, was)), k) <==> BitAt(Alu.U64(src), k) || BitAt(Alu.U64(was), k)
    ensures BitAt(Alu.U64(AmoResult(AmoXor, src, was)), k) <==> BitAt(Alu.U64(src), k) != BitAt(Alu.U64(was), k)
  {
    hide AmoResult, Alu.AluExec, BitAt, Alu.U64;
    AmoLogicIs(src, was);
    AluLaws.LogicIsBitwise(src, was, k);
  }

  /** The atomic instructions take their address from rs1 and their operand from rs2. */
  lemma AtomicsShow(m: Machine, op: AmoOp, width: nat, rd: Reg, rs1: Reg, rs2: Reg, len: bv64)
    requires Formed(m) && !m.hart.needTrap && width >= 1
    ensures
      var addr, value := Alu.U64(Gpr(m, rs1)), Gpr(m, rs2);
      Execute(m, LoadReserved(width, rd, rs1), len) == ExecLoadReserved(m, width, rd, addr) &&
      Execute(m, StoreConditional(width, rd, rs1, rs2), len) == ExecStoreConditional(m, width, rd, addr, value) &&
      Execute(m, Amo(op, width, rd, rs1, rs2), len) == ExecAmo(m, op, width, rd, addr, value)
  {
    hide ExecLoadReserved, ExecStoreConditional, ExecAmo, Gpr, Alu.U64;
  }

  // ----- Registers of control and status

  /** The word that a CSR instruction writes: the operand, or the old word with the bits
      of the operand set or cleared. */
  predicate Combined(op: CsrOp, was: Word, operand: Word, data: Word, k: bv64) {
    BitSet(data, k) <==>
      match op
      case Swap => BitSet(operand, k)
      case SetBits => BitSet(was, k) || BitSet(operand, k)
      case ClearBits => BitSet(was, k) && !BitSet(operand, k)
  }

  lemma OperandCombines(op: CsrOp, was: Word, operand: bv64, k: bv64)
    requires k < 64
    ensures Combined(op, was, W(operand), CsrOperand(op, was, operand), k)
  {
    hide BitSet, CsrOperand, Either, Without;
    Swaps(was, W(operand));
    SetsBits(was, W(operand));
    ClearsBits(was, W(operand));
    BitsOfEither(was, W(operand), k);
    BitsOfWithout(was, W(operand), k);
  }

  function Without(x: Word, y: Word): Word {
    W(x.bits & !y.bits)
  }

  lemma SetsBits(was: Word, operand: Word)
    ensures CsrOperand(SetBits, was, operand.bits) == Either(was, operand)
  {
  }

  lemma ClearsBits(was: Word, operand: Word)
    ensures CsrOperand(ClearBits, was, operand.bits) == Without(was, operand)
  {
  }

  lemma Swaps(was: Word, operand: Word)
    ensures CsrOperand(Swap, was, operand.bits) == operand
  {
  }

  lemma BitsOfEither(x: Word, y: Word, k: bv64)
    ensures BitSet(Either(x, y), k) <==> BitSet(x, k) || BitSet(y, k)
  {
  }

  lemma BitsOfWithout(x: Word, y: Word, k: bv64)
    ensures BitSet(Without(x, y), k) <==> BitSet(x, k) && !BitSet(y, k)
  {
  }

  /** A CSR instruction is refused where the register is closed to it; otherwise rd takes
      the old word, and the register the combined one if the instruction writes. */
  lemma CsrShows(m: Machine, op: CsrOp, source: CsrSource, index: bv12, rd: Reg, len: bv64)
    requires Formed(m) && !m.hart.needTrap
    ensures
      var o, writes := Execute(m, Instr.Csr(op, source, index, rd), len), Writes(op, source);
      var was := CsrRead(m.hart, index);
      if !Permitted(m.hart, index, writes) || was.None? then o == Outcome(m, false, true)
      else
        var data := CsrOperand(op, was.value, OperandOf(m, source));
        if writes && CsrWrite(m.hart, index, data).None? then o == Outcome(m, false, true)
        else
          OnlyRegister(m, o.m, rd, ToReg(was.value)) && SameOutside(m, o.m) && !o.jumped && !o.illegal &&
          o.m.hart == if writes then CsrWrite(m.hart, index, data).value else m.hart
  {
    hide CsrRead, CsrWrite, SetGpr, Permitted, Writes, OperandOf, CsrOperand, ToReg;
    var was := CsrRead(m.hart, index);
    if was.Some? {
      SetGprShows(m, rd, ToReg(was.value));
      var written := CsrWrite(m.hart, index, CsrOperand(op, was.value, OperandOf(m, source)));
      if written.Some? {
        HartKeepsRegisters(m, written.value, rd, ToReg(was.value));
      }
    }
  }

  lemma HartKeepsRegisters(m: Machine, h: Hart, rd: Reg, value: Alu.I64)
    requires Formed(m)
    ensures OnlyRegister(m, SetGpr(m.(hart := h), rd, value), rd, value)
    ensures SameOutside(m, SetGpr(m.(hart := h), rd, value))
  {
    SetGprShows(m, rd, value);
    forall k: Reg | k != rd
      ensures Gpr(SetGpr(m.(hart := h), rd, value), k) == Gpr(m, k)
    {
      assert Gpr(SetGpr(m, rd, value), k) == Gpr(m, k);
    }
  }

  /** The operand is a register or a five-bit number, and only CSRRS and CSRRC with x0 or
      zero leave the register unwritten. */
  lemma CsrSources(m: Machine, op: CsrOp, r: Reg)
    requires Formed(m)
    ensures Number64(W(OperandOf(m, FromReg(r)))) == Alu.U64(Gpr(m, r))
    ensures Number64(W(OperandOf(m, Immediate(r)))) == r as int
    ensures Writes(op, FromReg(r)) <==> op == Swap || r != 0
    ensures Writes(op, Immediate(r)) <==> op == Swap || r != 0
  {
    WordOfRegister(Gpr(m, r));
    SmallOperand(r);
  }

  lemma SmallOperand(r: Reg)
    ensures (r as bv64) as int == r as int
  {
  }

  // ----- What translation depends on

  lemma JoinFields(mode: bv4, asid: bv16, ppn: bv44)
    ensures (((mode as bv64) << 60) | ((asid as bv64) << 44) | (ppn as bv64)) as int
         == mode as int * 0x1000_0000_0000_0000 + asid as int * 0x1000_0000_0000 + ppn as int
  {
  }

  lemma JoinedFields(w: bv64, mode: bv4, asid: bv16, ppn: bv44)
    requires w == ((mode as bv64) << 60) | ((asid as bv64) << 44) | (ppn as bv64)
    ensures w as int == mode as int * 0x1000_0000_0000_0000 + asid as int * 0x1000_0000_0000 + ppn as int
  {
    JoinFields(mode, asid, ppn);
  }

  lemma FieldsOf(w: bv64) returns (mode: bv4, asid: bv16, ppn: bv44)
    ensures w == ((mode as bv64) << 60) | ((asid as bv64) << 44) | (ppn as bv64)
    ensures w >> 60 == mode as bv64 && (w >> 44) & 0xffff == asid as bv64 && w & 0xfff_ffff_ffff == ppn as bv64
  {
    mode, asid, ppn := (w >> 60) as bv4, ((w >> 44) & 0xffff) as bv16, (w & 0xfff_ffff_ffff) as bv44;
  }

  lemma ModeBitsAre(satp: Word)
    ensures ModeBits(satp) == satp.bits >> 60
  {
  }

  lemma AsidBitsAre(satp: Word)
    ensures AsidBits(satp) == (satp.bits >> 44) & ASID_MASK
  {
  }

  lemma PpnBitsAre(satp: Word)
    ensures PpnBits(satp) == satp.bits & PPN_MASK
  {
  }

  lemma ModeNumber(x: bv64, mode: bv4)
    requires x == mode as bv64
    ensures x as int == mode as int
  {
  }

  lemma AsidNumber(x: bv64, asid: bv16)
    requires x == asid as bv64
    ensures x as int == asid as int
  {
  }

  lemma PpnNumber(x: bv64, ppn: bv44)
    requires x == ppn as bv64
    ensures x as int == ppn as int
  {
  }

  /** satp is four bits of mode, sixteen of ASID and 44 of page number. */
  lemma SatpFields(satp: Word)
    ensures
      var s := SatpOf(satp);
      Number64(satp) == s.mode * 0x1000_0000_0000_0000 + s.asid * 0x1000_0000_0000 + s.ppn &&
      s.mode < 0x10 && s.asid < 0x1_0000 && s.ppn < 0x1000_0000_0000
  {
    hide SatpOf, Number64, ModeBits, AsidBits, PpnBits;
    var mode, asid, ppn := FieldsOf(satp.bits);
    ModeBitsAre(satp);
    AsidBitsAre(satp);
    PpnBitsAre(satp);
    SatpNumber(satp, mode, asid, ppn);
    SatpMode(satp, mode);
    SatpAsid(satp, asid);
    SatpPpn(satp, ppn);
  }

  lemma SatpNumber(satp: Word, mode: bv4, asid: bv16, ppn: bv44)
    requires satp.bits == ((mode as bv64) << 60) | ((asid as bv64) << 44) | (ppn as bv64)
    ensures Number64(satp)
         == mode as int * 0x1000_0000_0000_0000 + asid as int * 0x1000_0000_0000 + ppn as int
  {
    JoinedFields(satp.bits, mode, asid, ppn);
  }

  lemma SatpMode(satp: Word, mode: bv4)
    requires ModeBits(satp) == mode as bv64
    ensures SatpOf(satp).mode == mode as int
  {
    hide ModeBits, AsidBits, PpnBits;
    ModeNumber(ModeBits(satp), mode);
  }

  lemma SatpAsid(satp: Word, asid: bv16)
    requires AsidBits(satp) == asid as bv64
    ensures SatpOf(satp).asid == asid as int
  {
    hide ModeBits, AsidBits, PpnBits;
    AsidNumber(AsidBits(satp), asid);
  }

  lemma SatpPpn(satp: Word, ppn: bv44)
    requires PpnBits(satp) == ppn as bv64
    ensures SatpOf(satp).ppn == ppn as int
  {
    hide ModeBits, AsidBits, PpnBits;
    PpnNumber(PpnBits(satp), ppn);
  }

  lemma StatusFlags(m: MStatus)
    ensures m.mprv == 1 <==> BitSet(W(PackM(m)), 17)
    ensures m.sum == 1 <==> BitSet(W(PackM(m)), 18)
    ensures m.mxr == 1 <==> BitSet(W(PackM(m)), 19)
  {
  }

  /** Translation sees satp, and bits 17, 11 to 12, 18 and 19 of mstatus. */
  lemma ContextShows(h: Hart, status: Word)
    requires CsrRead(h, 0x300) == Some(status)
    ensures
      var c := ContextOf(h);
      c.priv == h.priv && (c.status.mprv <==> BitSet(status, 17)) && (c.status.sum <==> BitSet(status, 18)) &&
      (c.status.mxr <==> BitSet(status, 19)) && c.status.mpp == ((status.bits >> 11) & 3) as bv2
    ensures CsrRead(h.(priv := M_MODE), 0x180).Some?
    ensures ContextOf(h).satp == SatpOf(CsrRead(h.(priv := M_MODE), 0x180).value)
  {
    hide PackM, BitSet, SatpOf;
    DelegationRegisters(h);
    StatusFlags(h.status);
    StatusModes(h.status);
    assert RegisterAt(0x180) == Some(Satp);
  }
}
