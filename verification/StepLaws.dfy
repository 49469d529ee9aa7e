/** Where a step leaves the program counter and the counters: plain instructions go on
    by their length, transfers land on their target, and traps on their handler. */
module StepLaws {
  import opened Words
  import opened StatusBits
  import opened Privilege
  import opened Csr
  import opened Isa
  import opened Exec
  import opened CoreStep
  import opened Deeds
  import opened CoreRuns
  import opened CsrLaws
  import opened BitLaws
  import opened ExecLaws
  import InterruptLaws
  import Alu
  import Rvc
  import RvcExpansion
  import Sv39Access
  import Sv39Walk

  // ----- The instruction of a step

  /** The machine that fetches: interrupts are sampled, the mode is entered. */
  function Awake(m: Machine, l: Lines): Machine
    requires IntEnableFits(m.hart)
  {
    m.(hart := PreExec(m.hart, l))
  }

  /** The step takes no interrupt and fetches w from an even address. */
  predicate Runs(m: Machine, l: Lines, w: bv32) {
    Formed(m) && IntEnableFits(m.hart) && !Awake(m, l).hart.needTrap && AddressOf(m.hart.pc) % 2 == 0 &&
    Fetch(Awake(m, l)) == Fetched(Sv39Access.AccessOk, w)
  }

  /** Two bytes unless the low two bits are both set. */
  function Length(w: bv32): bv64 {
    if w & 3 != 3 then 2 else 4
  }

  /** The instruction neither trapped nor was refused. */
  predicate Completes(o: Outcome) {
    !o.m.hart.needTrap && !o.illegal
  }

  lemma NotTakenKeepsPc(h: Hart, l: Lines)
    requires IntEnableFits(h)
    ensures PreExec(h, l).pc == h.pc && PreExec(h, l).minstret == h.minstret
  {
    hide InterruptTaken, TrapsToS, SampledMip, EnterSStatus, EnterMStatus, CauseWord, TrapVector;
  }

  /** The number of the program counter moves on by the length, modulo 2^64. */
  lemma LengthAdds(pc: Word, w: bv32)
    ensures AddressOf(Sum(pc, Length(w))) == (AddressOf(pc) + if w & 3 != 3 then 2 else 4) % TWO_64
  {
    hide Sum, AddressOf, Number64, Length;
    AddressNumber(pc);
    AddressNumber(Sum(pc, Length(w)));
    SumNumber(pc, W(Length(w)));
    LengthNumber(w);
  }

  lemma LengthNumber(w: bv32)
    ensures Number64(W(Length(w))) == if w & 3 != 3 then 2 else 4
  {
  }

  lemma AddressNumber(pc: Word)
    ensures AddressOf(pc) == Number64(pc)
  {
  }

  lemma PlusOne(w: Word)
    ensures Number64(Sum(w, 1)) == (Number64(w) + 1) % TWO_64
  {
    hide Number64;
    NextIsModular(w);
  }

  lemma DeedCounts(h: Hart, d: Deed, n: Hart)
    requires Did(h, d, n)
    ensures n.minstret == h.minstret
  {
    if d.Wrote? {
      CsrWriteKeepsControl(h, d.index, d.data);
    }
  }

  lemma OneDeedCounts(m: Machine, o: Outcome)
    requires OneDeed(m, o)
    ensures o.m.hart.minstret == m.hart.minstret
  {
    var d :| Did(m.hart, d, o.m.hart);
    DeedCounts(m.hart, d, o.m.hart);
  }

  /** What a step that runs a word comes to. */
  lemma StepRuns(m: Machine, l: Lines, w: bv32)
    requires Runs(m, l, w)
    ensures Instruction(Awake(m, l)) == (ExecuteWord(Awake(m, l), w), w)
    ensures OneDeed(Awake(m, l), ExecuteWord(Awake(m, l), w))
  {
    hide Fetch, ExecuteWord, OneDeed, PreExec;
    NotTakenKeepsPc(m.hart, l);
    WordDeed(Awake(m, l), w);
  }

  /** A step whose instruction completes: registers and memory are those it left, the
      program counter is its own after a jump and the next one otherwise, and one more
      instruction is counted. */
  lemma StepCompletes(m: Machine, l: Lines, w: bv32)
    requires Runs(m, l, w) && Completes(ExecuteWord(Awake(m, l), w))
    ensures
      var o, n := ExecuteWord(Awake(m, l), w), Step(m, l);
      n.gpr == o.m.gpr && SameOutside(o.m, n) &&
      n.hart == o.m.hart.(pc := if o.jumped then o.m.hart.pc else Sum(m.hart.pc, Length(w)),
                          minstret := Sum(m.hart.minstret, 1))
  {
    hide ExecuteWord, Fetch, PreExec, Sum, AddressOf;
    StepRuns(m, l, w);
    NotTakenKeepsPc(m.hart, l);
    OneDeedCounts(Awake(m, l), ExecuteWord(Awake(m, l), w));
  }

  /** A step with no interrupt, trap or jump goes on by the length of its word, and
      counts one instruction. */
  lemma StraightStep(m: Machine, l: Lines, w: bv32)
    requires Runs(m, l, w)
    requires
      var o := ExecuteWord(Awake(m, l), w);
      Completes(o) && !o.jumped
    ensures
      var n := Step(m, l);
      AddressOf(n.hart.pc) == (AddressOf(m.hart.pc) + if w & 3 != 3 then 2 else 4) % TWO_64 &&
      Number64(n.hart.minstret) == (Number64(m.hart.minstret) + 1) % TWO_64 && !n.hart.needTrap
  {
    hide ExecuteWord, Fetch, PreExec, Sum, AddressOf, Number64, Step;
    StepCompletes(m, l, w);
    LengthAdds(m.hart.pc, w);
    PlusOne(m.hart.minstret);
  }

  /** The step from m with lines l, if it runs and completes a word without a jump, ends
      by the length of that word further on, with one more instruction counted. */
  ghost predicate GoesOn(m: Machine, l: Lines, n: Hart) {
    forall w :: Runs(m, l, w) && Completes(ExecuteWord(Awake(m, l), w)) && !ExecuteWord(Awake(m, l), w).jumped ==>
      AddressOf(n.pc) == (AddressOf(m.hart.pc) + if w & 3 != 3 then 2 else 4) % TWO_64 &&
      Number64(n.minstret) == (Number64(m.hart.minstret) + 1) % TWO_64
  }

  lemma StepGoesOn(m: Machine, l: Lines)
    requires Formed(m) && IntEnableFits(m.hart)
    ensures GoesOn(m, l, Step(m, l).hart)
  {
    hide ExecuteWord, AddressOf, Number64, Step, PreExec, Completes, Fetch;
    forall w | Runs(m, l, w) && Completes(ExecuteWord(Awake(m, l), w)) && !ExecuteWord(Awake(m, l), w).jumped
      ensures
        AddressOf(Step(m, l).hart.pc) == (AddressOf(m.hart.pc) + if w & 3 != 3 then 2 else 4) % TWO_64 &&
        Number64(Step(m, l).hart.minstret) == (Number64(m.hart.minstret) + 1) % TWO_64
    {
      StraightStep(m, l, w);
    }
  }

  // ----- What words mean

  /** Sections 16.5 to 16.7 give a meaning to the word, which does not jump to an odd
      register. */
  predicate Means(m: Machine, w: bv32)
    requires Formed(m)
  {
    IsCompressed(w) ==>
      Rvc.Expand(w).Some? && RvcExpansion.EvenTarget(m, w) && Gpr(m, 0) == 0 && m.hart.pc.bits & 1 == 0
  }

  /** The operation of a word of either length. */
  function Meaning(m: Machine, w: bv32): Instr
    requires Formed(m) && Means(m, w)
  {
    Decode(if IsCompressed(w) then Rvc.Expand(w).value else w)
  }

  lemma WordMeans(m: Machine, w: bv32)
    requires Formed(m) && !m.hart.needTrap && Means(m, w)
    ensures WidthsPositive(Meaning(m, w))
    ensures ExecuteWord(m, w) == Execute(m, Meaning(m, w), Length(w))
  {
    hide Execute, Decode, Rvc.ExecCompressed, Rvc.Expand;
    if IsCompressed(w) {
      DecodedWidths(Rvc.Expand(w).value);
      RvcExpansion.CompressedIsExpansion(m, w);
    } else {
      DecodedWidths(w);
    }
  }

  lemma OnlyTransfersJump(m: Machine, i: Instr, len: bv64)
    requires Formed(m) && !m.hart.needTrap && WidthsPositive(i) && !Transfers(i)
    ensures !Execute(m, i, len).jumped
  {
  }

  /** A word that means no jump or branch does not jump. */
  lemma PlainWordsGoOn(m: Machine, w: bv32)
    requires Formed(m) && !m.hart.needTrap && Means(m, w) && !Transfers(Meaning(m, w))
    ensures !ExecuteWord(m, w).jumped
  {
    hide Execute, Decode, ExecuteWord, Transfers;
    WordMeans(m, w);
    OnlyTransfersJump(m, Meaning(m, w), Length(w));
  }

  /** The step runs a word that means i. */
  predicate RunsMeaning(m: Machine, l: Lines, w: bv32, i: Instr) {
    Runs(m, l, w) && Means(Awake(m, l), w) && i == Meaning(Awake(m, l), w)
  }

  lemma RunsExecutes(m: Machine, l: Lines, w: bv32, i: Instr)
    requires RunsMeaning(m, l, w, i)
    ensures WidthsPositive(i) && ExecuteWord(Awake(m, l), w) == Execute(Awake(m, l), i, Length(w))
    ensures (i.Load? || i.Store?) ==> i.width in {1, 2, 4, 8}
  {
    hide ExecuteWord, Execute, Fetch, PreExec, Decode;
    WordMeans(Awake(m, l), w);
    MemoryWidths(if IsCompressed(w) then Rvc.Expand(w).value else w);
  }

  lemma MemoryWidths(w: bv32)
    ensures Decode(w).Load? || Decode(w).Store? ==> Decode(w).width in {1, 2, 4, 8}
  {
    hide ImmI, ImmS;
  }

  // ----- Jumps and branches

  /** An immediate added to an address, modulo 2^64: immediates are numbers below 2^64
      that stand for their negative. */
  function Displaced(base: nat, imm: bv64): nat {
    (base + Number64(W(imm))) % TWO_64
  }

  lemma TargetNumber(base: Word, imm: bv64)
    ensures AddressOf(Sum(base, imm)) == Displaced(Number64(base), imm)
    ensures Sum(base, imm).bits & 1 == 0 <==> Displaced(Number64(base), imm) % 2 == 0
    ensures Sum(base, imm) == AddressWord(Displaced(Number64(base), imm))
  {
    hide Sum, Number64, AddressOf, AddressWord;
    SumNumber(base, W(imm));
    AddressNumber(Sum(base, imm));
    EvenNumber(Sum(base, imm));
    AddressWordIs(Sum(base, imm), Number64(Sum(base, imm)));
  }

  lemma EvenNumber(w: Word)
    ensures w.bits & 1 == 0 <==> Number64(w) % 2 == 0
  {
    hide Number64;
    Halves(w);
    NotOdd(w);
  }

  lemma NotOdd(w: Word)
    ensures w.bits & 1 == 0 <==> !Odd(w)
  {
  }

  lemma AddressWordIs(w: Word, n: nat)
    requires Number64(w) == n
    ensures n < TWO_64 && AddressWord(n) == w
  {
    hide Number64;
    CastOfNumber(w, n);
  }

  /** The address that a jump adds its immediate to. */
  function JumpBase(m: Machine, i: Instr): nat
    requires Formed(m) && (i.Jal? || i.Jalr?)
  {
    if i.Jal? then AddressOf(m.hart.pc) else Alu.U64(Gpr(m, i.rs1))
  }

  lemma JumpTarget(m: Machine, i: Instr)
    requires Formed(m) && (i.Jal? || i.Jalr?)
    ensures
      var target := if i.Jal? then Sum(m.hart.pc, i.imm) else Sum(ToWord(Gpr(m, i.rs1)), i.imm);
      AddressOf(target) == Displaced(JumpBase(m, i), i.imm) &&
      (target.bits & 1 == 0 <==> Displaced(JumpBase(m, i), i.imm) % 2 == 0) &&
      target == AddressWord(Displaced(JumpBase(m, i), i.imm))
  {
    hide Sum, Number64, AddressOf, ToWord, AddressWord, Displaced, Alu.U64;
    if i.Jal? {
      TargetNumber(m.hart.pc, i.imm);
      AddressNumber(m.hart.pc);
    } else {
      TargetNumber(ToWord(Gpr(m, i.rs1)), i.imm);
      WordOfRegister(Gpr(m, i.rs1));
    }
  }

  /** A jump to an even address: the step ends there, and the link register holds the
      address after the word, two or four bytes on. */
  lemma JumpStep(m: Machine, l: Lines, w: bv32, i: Instr)
    requires RunsMeaning(m, l, w, i) && (i.Jal? || i.Jalr?) && Displaced(JumpBase(m, i), i.imm) % 2 == 0
    ensures
      var n := Step(m, l);
      AddressOf(n.hart.pc) == Displaced(JumpBase(m, i), i.imm) && !n.hart.needTrap && SameOutside(m, n) &&
      Formed(n) &&
      (i.rd != 0 ==> Alu.U64(Gpr(n, i.rd)) == (AddressOf(m.hart.pc) + if w & 3 != 3 then 2 else 4) % TWO_64) &&
      forall k: Reg :: k != i.rd ==> Gpr(n, k) == Gpr(m, k)
  {
    hide ExecuteWord, Fetch, PreExec, Sum, AddressOf, Number64, Step, Execute, Meaning, Means, Length, ToWord, ToReg,
         Displaced, AddressWord;
    var s := Awake(m, l);
    NotTakenKeepsPc(m.hart, l);
    RunsExecutes(m, l, w, i);
    JumpsShow(s, i.rd, if i.Jalr? then i.rs1 else 0, i.imm, Length(w));
    JumpTarget(s, i);
    StepCompletes(m, l, w);
    LengthAdds(m.hart.pc, w);
    RegisterOfWord(Sum(m.hart.pc, Length(w)));
    AddressNumber(Sum(m.hart.pc, Length(w)));
    var o := ExecuteWord(s, w);
    forall k: Reg | k != i.rd
      ensures Gpr(Step(m, l), k) == Gpr(m, k)
    {
      assert Gpr(o.m, k) == Gpr(s, k);
    }
  }

  /** A branch: to its target if the condition holds of its registers, else to the next
      word; it changes no register. */
  lemma BranchStep(m: Machine, l: Lines, w: bv32, i: Instr)
    requires RunsMeaning(m, l, w, i) && i.Branch? && Displaced(AddressOf(m.hart.pc), i.imm) % 2 == 0
    ensures
      var n := Step(m, l);
      n.gpr == m.gpr && SameOutside(m, n) && !n.hart.needTrap &&
      AddressOf(n.hart.pc)
        == if Holds(i.cond, Gpr(m, i.rs1), Gpr(m, i.rs2)) then Displaced(AddressOf(m.hart.pc), i.imm)
           else (AddressOf(m.hart.pc) + if w & 3 != 3 then 2 else 4) % TWO_64
  {
    hide ExecuteWord, Fetch, PreExec, Sum, AddressOf, Step, Execute, Meaning, Means, Length, Holds, Displaced,
         Number64, AddressWord;
    NotTakenKeepsPc(m.hart, l);
    RunsExecutes(m, l, w, i);
    BranchShows(Awake(m, l), i.cond, i.rs1, i.rs2, i.imm, Length(w));
    TargetNumber(m.hart.pc, i.imm);
    AddressNumber(m.hart.pc);
    StepCompletes(m, l, w);
    LengthAdds(m.hart.pc, w);
  }

  // ----- Computation and memory

  /** The step completed i without a jump: rd holds value, and all other registers, memory
      and reservation are as before. */
  ghost predicate Advanced(m: Machine, n: Machine, w: bv32, rd: Reg, value: Alu.I64) {
    OnlyRegister(m, n, rd, value) && SameOutside(m, n) && Passed(m, n, w)
  }

  /** The next word is next, and one more instruction is counted. */
  predicate Passed(m: Machine, n: Machine, w: bv32) {
    AddressOf(n.hart.pc) == (AddressOf(m.hart.pc) + if w & 3 != 3 then 2 else 4) % TWO_64 && !n.hart.needTrap &&
    Number64(n.hart.minstret) == (Number64(m.hart.minstret) + 1) % TWO_64
  }

  lemma SetsAdvances(m: Machine, l: Lines, w: bv32, rd: Reg, value: Alu.I64)
    requires Runs(m, l, w) && Sets(Awake(m, l), ExecuteWord(Awake(m, l), w), rd, value)
    ensures Advanced(m, Step(m, l), w, rd, value)
  {
    hide ExecuteWord, Fetch, PreExec, Sum, AddressOf, Number64, Step;
    StepCompletes(m, l, w);
    StraightStep(m, l, w);
    var o := ExecuteWord(Awake(m, l), w);
    forall k: Reg | k != rd
      ensures Gpr(Step(m, l), k) == Gpr(m, k)
    {
      assert Gpr(o.m, k) == Gpr(Awake(m, l), k);
    }
  }

  /** An operation of either length on two registers, or on one and an immediate. */
  lemma ComputeStep(m: Machine, l: Lines, w: bv32, i: Instr)
    requires RunsMeaning(m, l, w, i) && (i.OpReg? || i.OpImm?)
    ensures
      var b := if i.OpReg? then Gpr(m, i.rs2) else ToReg(W(i.imm));
      Advanced(m, Step(m, l), w, i.rd, Alu.AluExec(Gpr(m, i.rs1), b, i.op, i.word))
  {
    hide ExecuteWord, Fetch, PreExec, Step, Execute, Meaning, Means, Length, Alu.AluExec, Sets, Advanced, ToReg;
    var s := Awake(m, l);
    RunsExecutes(m, l, w, i);
    ArithmeticShows(s, i.op, i.word, i.rd, i.rs1, if i.OpReg? then i.rs2 else 0, if i.OpImm? then i.imm else 0,
                    Length(w));
    var b := if i.OpReg? then Gpr(m, i.rs2) else ToReg(W(i.imm));
    SetsAdvances(m, l, w, i.rd, Alu.AluExec(Gpr(m, i.rs1), b, i.op, i.word));
  }

  /** The effective address of a load or store. */
  function AccessAddress(m: Machine, i: Instr): U64
    requires Formed(m) && (i.Load? || i.Store?)
  {
    Displaced(Alu.U64(Gpr(m, i.rs1)), i.imm)
  }

  /** The access is aligned, and goes to devices at pa. */
  predicate Reaches(m: Machine, s: Machine, i: Instr, kind: Sv39Access.Access, pa: nat)
    requires Formed(m) && (i.Load? || i.Store?) && i.width >= 1
  {
    AccessAddress(m, i) % i.width == 0 && Accessible(m.mem, pa, i.width) &&
    TargetIn(s, kind, AccessAddress(m, i), i.width) == Sv39Access.Physical(pa)
  }

  lemma LoadOutcome(s: Machine, i: Instr, len: bv64, pa: nat)
    requires Formed(s) && !s.hart.needTrap && i.Load? && i.width in {1, 2, 4, 8}
    requires Reaches(s, s, i, Sv39Access.Load, pa)
    ensures Sets(s, Execute(s, i, len), i.rd, Extended(BytesAt(s.mem, pa, i.width), i.signed))
  {
    hide Sets, Extended, BytesAt, ExecLoad, TargetIn, Alu.U64, Execute, Number64, TrapsWith, AddressWord;
    TransfersShow(s, i.width, i.signed, i.rd, i.rs1, 0, i.imm, len);
    LoadFrom(s, i.width, i.signed, i.rd, AccessAddress(s, i), pa);
  }

  lemma StoreOutcome(s: Machine, i: Instr, len: bv64, pa: nat)
    requires Formed(s) && !s.hart.needTrap && i.Store? && i.width in {1, 2, 4, 8}
    requires Reaches(s, s, i, Sv39Access.Store, pa)
    ensures
      var o := Execute(s, i, len);
      o == Outcome(s.(mem := o.m.mem), false, false) &&
      OnlyBytes(s.mem, o.m.mem, pa, LowBytes(Alu.U64(Gpr(s, i.rs2)), i.width))
  {
    hide ExecStore, ExecLoad, LowBytes, OnlyBytes, TargetIn, Alu.U64, Execute, Number64, TrapsWith, Translates,
         AddressWord, Accessible, Gpr;
    TransfersShow(s, i.width, false, 0, i.rs1, i.rs2, i.imm, len);
    StoreTo(s, i.width, AccessAddress(s, i), Gpr(s, i.rs2), pa);
  }

  lemma AwakeReaches(m: Machine, l: Lines, i: Instr, kind: Sv39Access.Access, pa: nat)
    requires Formed(m) && IntEnableFits(m.hart) && (i.Load? || i.Store?) && i.width >= 1
    requires Reaches(m, Awake(m, l), i, kind, pa)
    ensures Reaches(Awake(m, l), Awake(m, l), i, kind, pa)
  {
    hide PreExec, TargetIn, Alu.U64, Displaced;
  }

  /** An aligned load of either length from devices. */
  lemma LoadStep(m: Machine, l: Lines, w: bv32, i: Instr, pa: nat)
    requires RunsMeaning(m, l, w, i) && i.Load? && i.width >= 1
    requires Reaches(m, Awake(m, l), i, Sv39Access.Load, pa)
    ensures Advanced(m, Step(m, l), w, i.rd, Extended(BytesAt(m.mem, pa, i.width), i.signed))
  {
    hide ExecuteWord, Fetch, PreExec, Step, Execute, Means, Meaning, Length, Sets, Advanced, Extended, BytesAt, Reaches;
    RunsExecutes(m, l, w, i);
    AwakeReaches(m, l, i, Sv39Access.Load, pa);
    LoadOutcome(Awake(m, l), i, Length(w), pa);
    SetsAdvances(m, l, w, i.rd, Extended(BytesAt(m.mem, pa, i.width), i.signed));
  }

  /** An aligned store of either length to devices. */
  lemma StoreStep(m: Machine, l: Lines, w: bv32, i: Instr, pa: nat)
    requires RunsMeaning(m, l, w, i) && i.Store? && i.width >= 1
    requires Reaches(m, Awake(m, l), i, Sv39Access.Store, pa)
    ensures
      var n := Step(m, l);
      n.gpr == m.gpr && n.reserved == m.reserved && Passed(m, n, w) &&
      OnlyBytes(m.mem, n.mem, pa, LowBytes(Alu.U64(Gpr(m, i.rs2)), i.width))
  {
    hide ExecuteWord, Fetch, PreExec, Step, Execute, Means, Meaning, Length, LowBytes, OnlyBytes, Number64, Reaches,
         Alu.U64, Sum, AddressOf;
    NotTakenKeepsPc(m.hart, l);
    RunsExecutes(m, l, w, i);
    AwakeReaches(m, l, i, Sv39Access.Store, pa);
    StoreOutcome(Awake(m, l), i, Length(w), pa);
    StepCompletes(m, l, w);
    StraightStep(m, l, w);
  }

  // ----- Traps

  /** The step ended in the exception: its registers record it, and the core is at the
      handler, in the mode entered, with registers and memory as before. */
  predicate Lands(m: Machine, n: Machine, code: bv64, tval: Word) {
    n.gpr == m.gpr && SameOutside(m, n) && At(m.hart, Cause(code, false), tval, n.hart)
  }

  /** The hart is at the handler of the level that the trap entered. */
  predicate At(h: Hart, c: Cause, tval: Word, n: Hart) {
    var level: Csr.Index := if EntersS(h, c) then 0x100 else 0x300;
    !n.needTrap && Recorded(n, level, h.pc, c, tval) && n.nextPriv == (if level == 0x100 then S_MODE else M_MODE) &&
    CsrRead(h, level + 5).Some? && n.pc == Handler(CsrRead(h, level + 5).value.bits, c.code)
  }

  lemma ReadsIgnoreFlow(h: Hart, pc: Word, i: Csr.Index)
    ensures CsrRead(h.(pc := pc, needTrap := false), i) == CsrRead(h, i)
  {
    hide PackM, PackS, SStatusRead, Masked, RegisterAt;
  }

  lemma RecordStays(h: Hart, level: Csr.Index, pc: Word, c: Cause, tval: Word)
    requires Recorded(h, level, pc, c, tval)
    ensures Recorded(h.(pc := h.trapPc, needTrap := false), level, pc, c, tval)
  {
    hide CsrRead, CauseIs;
    ReadsIgnoreFlow(h, h.trapPc, level + 0x41);
    ReadsIgnoreFlow(h, h.trapPc, level + 0x42);
    ReadsIgnoreFlow(h, h.trapPc, level + 0x43);
  }

  lemma EnteredIsAt(h: Hart, c: Cause, tval: Word, n: Hart)
    requires Entered(h, c, tval, n)
    ensures At(h, c, tval, n.(pc := n.trapPc, needTrap := false))
  {
    hide Recorded, EntersS, CsrRead, Handler;
    RecordStays(n, if EntersS(h, c) then 0x100 else 0x300, h.pc, c, tval);
  }

  lemma TrapLands(m: Machine, x: Machine, code: bv64, tval: Word)
    requires TrapsWith(m, x, code, tval)
    ensures Lands(m, x.(hart := x.hart.(pc := x.hart.trapPc, needTrap := false)), code, tval)
  {
    hide Entered, At;
    EnteredIsAt(m.hart, Cause(code, false), tval, x.hart);
  }

  /** A step whose instruction traps ends where the trap leads, and counts nothing. */
  lemma StepTraps(m: Machine, l: Lines, w: bv32)
    requires Runs(m, l, w) && ExecuteWord(Awake(m, l), w).m.hart.needTrap
    ensures
      var x := ExecuteWord(Awake(m, l), w).m;
      Step(m, l) == x.(hart := x.hart.(pc := x.hart.trapPc, needTrap := false)) &&
      x.hart.minstret == m.hart.minstret
  {
    hide ExecuteWord, Fetch, PreExec, Sum, AddressOf;
    StepRuns(m, l, w);
    NotTakenKeepsPc(m.hart, l);
    OneDeedCounts(Awake(m, l), ExecuteWord(Awake(m, l), w));
  }

  /** The exception that an instruction raises is the one the step ends in. */
  lemma TrapStep(m: Machine, l: Lines, w: bv32, code: bv64, tval: Word)
    requires Runs(m, l, w) && TrapsWith(Awake(m, l), ExecuteWord(Awake(m, l), w).m, code, tval)
    ensures Lands(Awake(m, l), Step(m, l), code, tval)
  {
    hide ExecuteWord, Fetch, PreExec, Step, Lands, Recorded, EntersS, Handler, CsrRead;
    StepTraps(m, l, w);
    TrapLands(Awake(m, l), ExecuteWord(Awake(m, l), w).m, code, tval);
  }

  /** A jump, or a branch that is taken, to an odd address: exception 0 with that address
      as the trap value. */
  lemma OddTargetStep(m: Machine, l: Lines, w: bv32, i: Instr)
    requires RunsMeaning(m, l, w, i) && Transfers(i)
    ensures
      var target := Displaced(if i.Branch? then AddressOf(m.hart.pc) else JumpBase(m, i), i.imm);
      target % 2 != 0 && (i.Branch? ==> Holds(i.cond, Gpr(m, i.rs1), Gpr(m, i.rs2))) ==>
        Lands(Awake(m, l), Step(m, l), 0, AddressWord(target))
  {
    hide ExecuteWord, Fetch, PreExec, Sum, AddressOf, Step, Execute, Meaning, Means, Length, Holds, Displaced, ToWord,
         Number64, AddressWord, TrapsWith, Lands, Jumps;
    var s := Awake(m, l);
    var target := Displaced(if i.Branch? then AddressOf(m.hart.pc) else JumpBase(m, i), i.imm);
    NotTakenKeepsPc(m.hart, l);
    RunsExecutes(m, l, w, i);
    if i.Branch? {
      BranchShows(s, i.cond, i.rs1, i.rs2, i.imm, Length(w));
      TargetNumber(m.hart.pc, i.imm);
      AddressNumber(m.hart.pc);
    } else {
      JumpsShow(s, i.rd, if i.Jalr? then i.rs1 else 0, i.imm, Length(w));
      JumpTarget(s, i);
    }
    if TrapsWith(s, ExecuteWord(s, w).m, 0, AddressWord(target)) {
      TrapStep(m, l, w, 0, AddressWord(target));
    }
  }

  /** A refused word ends in exception 2, with the word as the trap value. */
  lemma IllegalStep(m: Machine, l: Lines, w: bv32)
    requires Runs(m, l, w) && ExecuteWord(Awake(m, l), w).illegal
    ensures Lands(Awake(m, l), Step(m, l), 2, W(w as bv64))
  {
    hide ExecuteWord, Fetch, PreExec, AddressOf, Trap, TrapsWith, Lands, Sum;
    var s := Awake(m, l);
    StepRuns(m, l, w);
    NotTakenKeepsPc(m.hart, l);
    TrapIs(s, ILLEGAL_INSTR, W(w as bv64));
    TrapLands(s, Trap(s, ILLEGAL_INSTR, W(w as bv64)), ILLEGAL_INSTR, W(w as bv64));
  }

  /** A step that cannot fetch: exception 0 at an odd address, 12 for a page fault and 1
      for an access fault, with the program counter as the trap value. */
  lemma FetchStep(m: Machine, l: Lines)
    requires Formed(m) && IntEnableFits(m.hart) && !Awake(m, l).hart.needTrap
    ensures
      var s, n := Awake(m, l), Step(m, l);
      if AddressOf(m.hart.pc) % 2 != 0 then Lands(s, n, 0, m.hart.pc)
      else if Fetch(s).feedback == Sv39Access.PageFault then Lands(s, n, 12, m.hart.pc)
      else if Fetch(s).feedback == Sv39Access.AccessFault then Lands(s, n, 1, m.hart.pc)
      else Runs(m, l, Fetch(s).word)
  {
    hide ExecuteWord, Fetch, PreExec, AddressOf, Trap, TrapsWith, Lands, Sum;
    var s := Awake(m, l);
    NotTakenKeepsPc(m.hart, l);
    TrapIs(s, INSTR_MISALIGN, m.hart.pc);
    TrapLands(s, Trap(s, INSTR_MISALIGN, m.hart.pc), INSTR_MISALIGN, m.hart.pc);
    TrapIs(s, INSTR_PGFAULT, m.hart.pc);
    TrapLands(s, Trap(s, INSTR_PGFAULT, m.hart.pc), INSTR_PGFAULT, m.hart.pc);
    TrapIs(s, INSTR_ACC_FAULT, m.hart.pc);
    TrapLands(s, Trap(s, INSTR_ACC_FAULT, m.hart.pc), INSTR_ACC_FAULT, m.hart.pc);
    FetchFeedback(s);
  }

  lemma FetchFeedback(m: Machine)
    ensures AddressOf(m.hart.pc) % 2 == 0 ==> Fetch(m).feedback != Sv39Access.Misaligned
  {
    if AddressOf(m.hart.pc) % 2 == 0 {
      EvenFetchFeedback(m.mem, Sv39Walk.TablesIn(m.mem), ContextOf(m.hart), AddressOf(m.hart.pc));
    }
  }

  /** A step that takes interrupt k: no instruction runs, and the core is at the handler of
      the level entered, whose registers name the interrupt. */
  lemma InterruptStep(m: Machine, l: Lines, k: bv64)
    requires Formed(m) && IntEnableFits(m.hart) && InterruptLaws.First(m.hart, l, k) && InterruptLaws.Open(m.hart, l)
    ensures
      var n := Step(m, l);
      n.gpr == m.gpr && SameOutside(m, n) && n.hart.minstret == m.hart.minstret &&
      At(InterruptLaws.Entering(m.hart), Cause(k, true), ZERO, n.hart)
  {
    hide PreExec, InterruptLaws.First, InterruptLaws.Open, Recorded, EntersS, CsrRead, Handler, Proceed, At;
    InterruptLaws.InterruptShows(m.hart, l, k);
    NotTakenKeepsPc(m.hart, l);
    EnteredIsAt(InterruptLaws.Entering(m.hart), Cause(k, true), ZERO, PreExec(m.hart, l));
  }

  // ----- Runs

  /** Every step of the run completes a word that does not jump. */
  predicate Glides(m: Machine, inputs: seq<Input>, words: seq<bv32>)
    requires Sound(m) && |words| == |inputs|
    decreases inputs
  {
    inputs == [] || (
      var was := m.(mem := inputs[0].mem);
      StepKeepsSound(was, inputs[0].lines);
      Runs(was, inputs[0].lines, words[0]) &&
      (var o := ExecuteWord(Awake(was, inputs[0].lines), words[0]); Completes(o) && !o.jumped) &&
      Glides(CoreRuns.Next(m, inputs[0]), inputs[1..], words[1..]))
  }

  function TotalLength(words: seq<bv32>): nat {
    if words == [] then 0 else (if words[0] & 3 != 3 then 2 else 4) + TotalLength(words[1..])
  }

  lemma AddsUp(pc: nat, first: nat, rest: nat)
    ensures ((pc + first) % TWO_64 + rest) % TWO_64 == (pc + (first + rest)) % TWO_64
  {
    var q := (pc + first) / TWO_64;
    assert pc + first == q * TWO_64 + (pc + first) % TWO_64;
    Alu.MultipleVanishes((pc + first) % TWO_64 + rest, q, TWO_64);
  }

  lemma FirstGlide(m: Machine, inputs: seq<Input>, words: seq<bv32>)
    requires Sound(m) && |words| == |inputs| && inputs != [] && Glides(m, inputs, words)
    ensures Sound(CoreRuns.Next(m, inputs[0])) && Glides(CoreRuns.Next(m, inputs[0]), inputs[1..], words[1..])
    ensures After(m, inputs) == After(CoreRuns.Next(m, inputs[0]), inputs[1..])
    ensures AddressOf(CoreRuns.Next(m, inputs[0]).hart.pc)
         == (AddressOf(m.hart.pc) + if words[0] & 3 != 3 then 2 else 4) % TWO_64
  {
    hide Runs, ExecuteWord, AddressOf, Step, Awake, Completes, Legal;
    var was := m.(mem := inputs[0].mem);
    StepKeepsSound(was, inputs[0].lines);
    StraightStep(was, inputs[0].lines, words[0]);
  }

  /** Over a run of such steps the program counter moves on by the lengths of its words. */
  lemma {:induction false} RunAdvances(m: Machine, inputs: seq<Input>, words: seq<bv32>)
    requires Sound(m) && |words| == |inputs| && Glides(m, inputs, words)
    ensures AddressOf(After(m, inputs).hart.pc) == (AddressOf(m.hart.pc) + TotalLength(words)) % TWO_64
    decreases inputs
  {
    hide AddressOf, Sound, Step, CoreRuns.Next, Glides;
    if inputs == [] {
      AddressSmall(m.hart.pc);
    } else {
      FirstGlide(m, inputs, words);
      RunAdvances(CoreRuns.Next(m, inputs[0]), inputs[1..], words[1..]);
      AddsUp(AddressOf(m.hart.pc), if words[0] & 3 != 3 then 2 else 4, TotalLength(words[1..]));
    }
  }

  lemma AddressSmall(pc: Word)
    ensures AddressOf(pc) % TWO_64 == AddressOf(pc)
  {
    hide AddressOf;
    Alu.QuotientIs(AddressOf(pc), TWO_64, 0, AddressOf(pc));
  }

  lemma {:induction false} CompressedTotal(words: seq<bv32>)
    requires forall i :: 0 <= i < |words| ==> words[i] & 3 != 3
    ensures TotalLength(words) == 2 * |words|
  {
    if words != [] {
      CompressedTotal(words[1..]);
    }
  }

  /** In particular by 2 * n over n compressed words. */
  lemma CompressedRunAdvances(m: Machine, inputs: seq<Input>, words: seq<bv32>)
    requires Sound(m) && |words| == |inputs| && Glides(m, inputs, words)
    requires forall i :: 0 <= i < |words| ==> words[i] & 3 != 3
    ensures AddressOf(After(m, inputs).hart.pc) == (AddressOf(m.hart.pc) + 2 * |inputs|) % TWO_64
  {
    hide Glides, AddressOf, After, TotalLength;
    CompressedTotal(words);
    RunAdvances(m, inputs, words);
  }

  // ----- The word at the program counter

  lemma JoinBytes(b0: bv8, b1: bv8, b2: bv8, b3: bv8)
    ensures ((b0 as bv32) | ((b1 as bv32) << 8) | ((b2 as bv32) << 16) | ((b3 as bv32) << 24)) as int
         == b0 as int + 0x100 * (b1 as int) + 0x1_0000 * (b2 as int) + 0x100_0000 * (b3 as int)
  {
  }

  lemma JoinedNumber(w: bv32, b0: bv8, b1: bv8, b2: bv8, b3: bv8)
    requires w == (b0 as bv32) | ((b1 as bv32) << 8) | ((b2 as bv32) << 16) | ((b3 as bv32) << 24)
    ensures w as int == b0 as int + 0x100 * (b1 as int) + 0x1_0000 * (b2 as int) + 0x100_0000 * (b3 as int)
  {
    JoinBytes(b0, b1, b2, b3);
  }

  lemma JoinedAre(b0: bv8, b1: bv8, b2: bv8, b3: bv8)
    ensures JoinedBytes(b0, b1, b2, b3)
         == (b0 as bv32) | ((b1 as bv32) << 8) | ((b2 as bv32) << 16) | ((b3 as bv32) << 24)
  {
  }

  lemma NextByteNumber(x: bv8)
    requires x < 0xff
    ensures (x + 1) as int == x as int + 1
  {
  }

  lemma {:induction false} ByteExists(n: nat) returns (x: bv8)
    requires n < 0x100
    ensures x as int == n
  {
    if n == 0 {
      x := 0;
    } else {
      var y := ByteExists(n - 1);
      NextByteNumber(y);
      x := y + 1;
    }
  }

  lemma CastOfByte(x: bv8)
    ensures (x as int) as bv8 == x
  {
  }

  /** Casting a byte to eight bits and back keeps it. */
  lemma ByteCast(b: Byte)
    ensures (b as bv8) as int == b
  {
    var x := ByteExists(b);
    CastOfByte(x);
  }

  lemma FourBytes(bytes: seq<Byte>)
    requires |bytes| == 4
    ensures LittleEndian(bytes)
         == bytes[0] as int + 0x100 * bytes[1] as int + 0x1_0000 * bytes[2] as int + 0x100_0000 * bytes[3] as int
  {
    assert bytes == [bytes[0]] + ([bytes[1]] + ([bytes[2]] + [bytes[3]]));
    assert bytes[1..][1..][1..] == [bytes[3]];
    assert LittleEndian([bytes[3]]) == bytes[3] + 0x100 * LittleEndian([bytes[3]][1..]);
  }

  /** The four bytes fetched are the word, least significant byte first. */
  lemma WordOfBytes(bytes: seq<Byte>)
    requires |bytes| == 4
    ensures InstructionWord(bytes) as int == LittleEndian(bytes)
  {
    hide LittleEndian, JoinedBytes;
    var b0, b1, b2, b3 := bytes[0] as bv8, bytes[1] as bv8, bytes[2] as bv8, bytes[3] as bv8;
    FourBytes(bytes);
    WordNumber(bytes, b0, b1, b2, b3);
    ByteCast(bytes[0]);
    ByteCast(bytes[1]);
    ByteCast(bytes[2]);
    ByteCast(bytes[3]);
  }

  lemma WordNumber(bytes: seq<Byte>, b0: bv8, b1: bv8, b2: bv8, b3: bv8)
    requires InstructionWord(bytes) == JoinedBytes(b0, b1, b2, b3)
    ensures InstructionWord(bytes) as int
         == b0 as int + 0x100 * (b1 as int) + 0x1_0000 * (b2 as int) + 0x100_0000 * (b3 as int)
  {
    hide InstructionWord, JoinedBytes;
    JoinedAre(b0, b1, b2, b3);
    JoinedNumber(JoinedBytes(b0, b1, b2, b3), b0, b1, b2, b3);
  }
}
