/** What every step and every run of the core keeps: the legal values of the
    control and status registers, and privilege safety. */
module CoreRuns {
  import opened Words
  import opened StatusBits
  import opened Privilege
  import opened Csr
  import opened Exec
  import opened CoreStep
  import opened Deeds
  import Alu
  import Rvc
  import RvcExpansion
  import Sv39Access
  import Sv39Walk

  // ----- One step is one deed

  /** An interrupt, or what the instruction did: one deed decides the step, so at
      most one trap is raised, and never with code 24. */
  lemma StepIsOneDeed(m: Machine, l: Lines)
    requires Formed(m) && IntEnableFits(m.hart)
    ensures Formed(Step(m, l)) && Step(m, l).gpr[0] == m.gpr[0]
    ensures exists d :: StepDid(m.hart, l, d, Step(m, l).hart)
  {
    var sampled := Sampled(m.hart, l);
    var s := m.(hart := PreExec(m.hart, l));
    if s.hart.needTrap {
      var i := InterruptTaken(sampled).value;
      SelectedInterruptIsReal(sampled);
      assert StepDid(m.hart, l, Trapped(Cause(i, true), ZERO), Step(m, l).hart);
    } else {
      var (o, w) := Instruction(s);
      InstructionDeed(s);
      ConcludedDeed(s, o, w, if IsCompressed(w) then 2 else 4);
      var d :| !s.hart.needTrap && Apply(s.hart, d).Some? && Ended(Apply(s.hart, d).value, Step(m, l).hart);
      assert StepDid(m.hart, l, d, Step(m, l).hart);
    }
  }

  lemma InstructionDeed(m: Machine)
    requires Formed(m) && !m.hart.needTrap
    ensures OneDeed(m, Instruction(m).0)
  {
    if AddressOf(m.hart.pc) % 2 != 0 {
      Trapping(m, m, INSTR_MISALIGN, m.hart.pc, false);
    } else if Fetch(m).feedback != Sv39Access.AccessOk {
      EvenFetchFeedback(m.mem, Sv39Walk.TablesIn(m.mem), ContextOf(m.hart), AddressOf(m.hart.pc));
      Trapping(m, m, FetchFaultCode(Fetch(m).feedback), m.hart.pc, false);
    } else {
      WordDeed(m, Fetch(m).word);
    }
  }

  // ----- Legal register values

  predicate Within(w: Word, mask: bv64) {
    w.bits & !mask == 0
  }

  /** The reserved fields are zero and both register widths are 64 bits. */
  predicate LegalStatus(s: MStatus) {
    s.blank0 == 0 && s.blank1 == 0 && s.blank2 == 0 && s.blank3 == 0 && s.blank4 == 0 && s.uxl == 2 && s.sxl == 2
  }

  predicate LegalSatpMode(satp: Word) {
    satp.bits >> 60 == 0 || satp.bits >> 60 == 8
  }

  predicate LegalMachineRegs(m: MachineRegs) {
    Within(m.ideleg, S_MODE_INT_MASK) && Within(m.edeleg, S_MODE_EXC_MASK) && Within(m.counteren, COUNTER_MASK)
  }

  predicate LegalSupervisorRegs(s: SupervisorRegs) {
    Within(s.counteren, COUNTER_MASK) && s.tvec.bits & 3 <= 1 && LegalSatpMode(s.satp)
  }

  predicate Legal(h: Hart) {
    LegalStatus(h.status) && LegalMachineRegs(h.m) && LegalSupervisorRegs(h.s) &&
    Within(h.mie, M_MODE_INT_MASK) && Within(h.mip, M_MODE_INT_MASK)
  }

  lemma MaskedWithin(w: Word, mask: bv64)
    ensures Within(Masked(w, mask), mask)
  {
    AndNot(w.bits, mask);
  }

  lemma AndNot(w: bv64, mask: bv64)
    ensures w & mask & !mask == 0
  {
  }

  lemma MergedWithin(w: Word, data: Word)
    requires Within(w, M_MODE_INT_MASK)
    ensures Within(Merged(w, data), M_MODE_INT_MASK)
  {
  }

  lemma SampledWithin(mip: Word, l: Lines)
    requires Within(mip, M_MODE_INT_MASK)
    ensures Within(SampledMip(mip, l), M_MODE_INT_MASK)
  {
  }

  lemma LegalTvecMode(data: Word)
    ensures LegalTvec(data).bits & 3 <= 1
  {
  }

  lemma LegalSatpWritten(data: Word)
    ensures LegalSatpMode(LegalSatp(data))
  {
  }

  lemma OwnWriteKeepsLegal(s: SupervisorRegs, r: Register, data: Word)
    requires OwnRegister(r) && LegalSupervisorRegs(s)
    ensures LegalSupervisorRegs(WriteOwn(s, r, data))
  {
    MaskedWithin(data, COUNTER_MASK);
    LegalTvecMode(data);
    LegalSatpWritten(data);
  }

  lemma MachineWriteKeepsLegal(m: MachineRegs, r: Register, data: Word)
    requires MachineRegister(r) && LegalMachineRegs(m)
    ensures LegalMachineRegs(WriteMachine(m, r, data))
  {
    MaskedWithin(data, S_MODE_EXC_MASK);
    MaskedWithin(data, S_MODE_INT_MASK);
    MaskedWithin(data, COUNTER_MASK);
  }

  lemma StatusWriteKeepsLegal(h: Hart, r: Register, data: Data)
    requires StatusRegister(r) && LegalStatus(h.status)
    ensures LegalStatus(WriteStatus(h.status, r, data))
  {
  }

  lemma InterruptWriteKeepsLegal(h: Hart, r: Register, data: Word)
    requires InterruptRegister(r) && Legal(h)
    ensures Legal(WriteInterrupt(h, r, data))
  {
    match r
    case Mie => MaskedWithin(data, M_MODE_INT_MASK);
    case Sie => MergedWithin(h.mie, data);
    case Mip => MaskedWithin(data, M_MODE_INT_MASK);
    case Sip => MergedWithin(h.mip, data);
  }

  lemma OwnRegisterKeepsLegal(h: Hart, s: SupervisorRegs)
    requires Legal(h) && LegalSupervisorRegs(s)
    ensures Legal(h.(s := s))
  {
  }

  lemma MachineRegisterKeepsLegal(h: Hart, m: MachineRegs)
    requires Legal(h) && LegalMachineRegs(m)
    ensures Legal(h.(m := m))
  {
  }

  lemma StatusRegisterKeepsLegal(h: Hart, status: MStatus)
    requires Legal(h) && LegalStatus(status)
    ensures Legal(h.(status := status))
  {
  }

  lemma RegisterWriteKeepsLegal(h: Hart, r: Register, data: Data)
    requires Legal(h) && WriteRegister(h, r, data).Some?
    ensures Legal(WriteRegister(h, r, data).value)
  {
    hide WriteOwn, WriteMachine, WriteInterrupt, WriteStatus, LegalStatus, LegalMachineRegs, LegalSupervisorRegs,
         Within;
    if OwnRegister(r) {
      OwnWriteKeepsLegal(h.s, r, data.word);
      OwnRegisterKeepsLegal(h, WriteOwn(h.s, r, data.word));
    } else if MachineRegister(r) {
      MachineWriteKeepsLegal(h.m, r, data.word);
      MachineRegisterKeepsLegal(h, WriteMachine(h.m, r, data.word));
    } else if StatusRegister(r) {
      StatusWriteKeepsLegal(h, r, data);
      StatusRegisterKeepsLegal(h, WriteStatus(h.status, r, data));
    } else if InterruptRegister(r) {
      InterruptWriteKeepsLegal(h, r, data.word);
    }
  }

  lemma TrapKeepsLegal(h: Hart, c: TrapCause, tval: Word)
    requires !h.needTrap && Legal(h)
    ensures Legal(RaiseTrap(h, c, tval))
  {
  }

  lemma ReturnKeepsLegal(h: Hart)
    requires Legal(h)
    ensures Privilege.Mret(h).Some? ==> Legal(Privilege.Mret(h).value)
    ensures Privilege.Sret(h).Some? ==> Legal(Privilege.Sret(h).value)
  {
  }

  lemma DeedKeepsLegal(h: Hart, d: Deed)
    requires !h.needTrap && Legal(h) && Apply(h, d).Some?
    ensures Legal(Apply(h, d).value)
  {
    match d
    case Moved(_) =>
    case Trapped(c, tval) => TrapKeepsLegal(h, c, tval);
    case MReturned => ReturnKeepsLegal(h);
    case SReturned => ReturnKeepsLegal(h);
    case Wrote(i, data) => RegisterWriteKeepsLegal(h, RegisterAt(i).value, Seen(data));
  }

  /** A core between two steps. */
  predicate Sound(m: Machine) {
    Formed(m) && m.gpr[0] == 0 && !m.hart.needTrap && Legal(m.hart)
  }

  lemma StepKeepsSound(m: Machine, l: Lines)
    requires Sound(m)
    ensures Sound(Step(m, l))
  {
    StepIsOneDeed(m, l);
    var d :| StepDid(m.hart, l, d, Step(m, l).hart);
    SampledWithin(m.hart.mip, l);
    DeedKeepsLegal(Sampled(m.hart, l), d);
  }

  // ----- Runs

  /** What a step finds: the interrupt lines, and memory as other harts and
      devices left it. */
  datatype Input = Input(lines: Lines, mem: Memory)

  function Next(m: Machine, i: Input): Machine
    requires Sound(m)
  {
    Step(m.(mem := i.mem), i.lines)
  }

  /** The core after `reset`. */
  function ResetCore(m: Machine): (n: Machine)
    ensures Sound(n)
  {
    m.(hart := Reset(m.hart), gpr := seq<Alu.I64>(32, _ => 0))
  }

  /** The core after a run of steps: registers stay legal, whatever is executed
      and whatever the lines and other agents do. */
  function After(m: Machine, inputs: seq<Input>): (n: Machine)
    requires Sound(m)
    ensures Sound(n)
    decreases inputs
  {
    if inputs == [] then m
    else
      StepKeepsSound(m.(mem := inputs[0].mem), inputs[0].lines);
      After(Next(m, inputs[0]), inputs[1..])
  }

  /** In any run a legal compressed instruction acts as its expansion: the run
      keeps x0 at zero, as the expansion needs. */
  lemma CompressedInRun(m: Machine, inputs: seq<Input>, w: bv32)
    requires Sound(m) && After(m, inputs).hart.pc.bits & 1 == 0
    requires IsCompressed(w) && Rvc.Expand(w).Some? && RvcExpansion.EvenTarget(After(m, inputs), w)
    ensures ExecuteWord(After(m, inputs), w) == RvcExpansion.RunExpansion(After(m, inputs), Rvc.Expand(w).value)
  {
    RvcExpansion.CompressedIsExpansion(After(m, inputs), w);
  }

  // ----- Privilege safety

  /** A legal mode, and no reserved mode saved in mpp. */
  predicate Sane(h: Hart) {
    Level(h.nextPriv) && h.status.mpp != 2
  }

  /** How a step from s may move the mode: up only in a trap, which lands on the
      trap vector of its level and never lowers the mode; to S-mode only from U or S with the cause
      delegated; down only by a return. */
  predicate SafeMove(s: Hart, d: Deed, n: Hart) {
    Level(n.nextPriv) &&
    (n.nextPriv > s.priv ==> d.Trapped?) &&
    (n.nextPriv < s.priv ==> d.MReturned? || d.SReturned?) &&
    (d.MReturned? || d.SReturned? ==> n.nextPriv <= s.priv) &&
    (d.Trapped? ==>
       s.priv <= n.nextPriv &&
       n.pc == TrapVector(if n.nextPriv == S_MODE then s.s.tvec else s.m.tvec, d.cause) &&
       (n.nextPriv == M_MODE || (n.nextPriv == S_MODE && s.priv <= S_MODE && Delegated(s, d.cause))))
  }

  ghost predicate SafeStep(h: Hart, l: Lines, n: Hart) {
    exists d :: StepDid(h, l, d, n) && SafeMove(Sampled(h, l), d, n)
  }

  lemma DeedMovesSafely(h: Hart, l: Lines, d: Deed, n: Hart)
    requires Sane(h) && StepDid(h, l, d, n)
    ensures SafeMove(Sampled(h, l), d, n)
  {
  }

  lemma StepIsSafe(m: Machine, l: Lines)
    requires Sound(m) && Sane(m.hart)
    ensures SafeStep(m.hart, l, Step(m, l).hart)
  {
    StepIsOneDeed(m, l);
    var d :| StepDid(m.hart, l, d, Step(m, l).hart);
    DeedMovesSafely(m.hart, l, d, Step(m, l).hart);
  }

  /** The reserved mode reaches mpp only by a write of mstatus that holds it. */
  lemma ReservedModeIsWritten(h: Hart, l: Lines, d: Deed, n: Hart)
    requires Sane(h) && StepDid(h, l, d, n) && n.status.mpp == 2
    ensures d.Wrote? && RegisterAt(d.index) == Some(Mstatus) && UnpackM(d.data.bits).mpp == 2
  {
    if d.Wrote? {
      ReservedModeWrite(Sampled(h, l), RegisterAt(d.index).value, Seen(d.data));
    }
  }

  lemma ReservedModeWrite(h: Hart, r: Register, data: Data)
    requires h.status.mpp != 2 && WriteRegister(h, r, data).Some? && WriteRegister(h, r, data).value.status.mpp == 2
    ensures r == Mstatus && data.asM.mpp == 2
  {
  }

  /** No step of the run writes the reserved mode to mpp. */
  predicate NeverReserved(m: Machine, inputs: seq<Input>)
    requires Sound(m)
    decreases inputs
  {
    inputs == [] || (
      StepKeepsSound(m.(mem := inputs[0].mem), inputs[0].lines);
      Next(m, inputs[0]).hart.status.mpp != 2 && NeverReserved(Next(m, inputs[0]), inputs[1..]))
  }

  ghost predicate SafeRun(m: Machine, inputs: seq<Input>)
    requires Sound(m)
    decreases inputs
  {
    Level(m.hart.nextPriv) &&
    (inputs == [] || (
      StepKeepsSound(m.(mem := inputs[0].mem), inputs[0].lines);
      SafeStep(m.hart, inputs[0].lines, Next(m, inputs[0]).hart) && SafeRun(Next(m, inputs[0]), inputs[1..])))
  }

  /** Privilege safety of every run. */
  lemma {:induction false} RunIsSafe(m: Machine, inputs: seq<Input>)
    requires Sound(m) && Sane(m.hart) && NeverReserved(m, inputs)
    ensures SafeRun(m, inputs)
    decreases inputs
  {
    if inputs != [] {
      var was := m.(mem := inputs[0].mem);
      StepKeepsSound(was, inputs[0].lines);
      StepIsSafe(was, inputs[0].lines);
      RunIsSafe(Next(m, inputs[0]), inputs[1..]);
    }
  }

  /** In particular every run from reset. */
  lemma SafeFromReset(m: Machine, inputs: seq<Input>)
    requires NeverReserved(ResetCore(m), inputs)
    ensures SafeRun(ResetCore(m), inputs)
  {
    RunIsSafe(ResetCore(m), inputs);
  }
}
