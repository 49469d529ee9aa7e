/** What a step of the core asks of its MMU: the translated accesses that the fetch
    and the instruction make, the premise they must meet, and the history of
    translations in use that they leave.  All of it is defined on values, with no
    reference to what either cache holds. */
module CoreUses {
  import opened Words
  import opened Privilege
  import opened Isa
  import opened Exec
  import opened CoreStep
  import opened CoreRuns
  import opened Sv39Uses
  import Alu
  import Rvc
  import Sv39Access
  import Sv39Tlb
  import Sv39Walk

  type History = set<Sv39Tlb.TlbEntry>

  datatype Use = Use(kind: Sv39Access.Access, addr: U64, size: nat)

  /** The premise of an access, if there is one. */
  ghost predicate MayUse(m: Machine, h: History, u: Option<Use>) {
    u.Some? ==> MayAccess(h, m.mem, ContextOf(m.hart), u.value.kind, u.value.addr, u.value.size)
  }

  function Used(m: Machine, h: History, u: Option<Use>): History {
    if u.None? then h
    else Touched(h, m.mem, ContextOf(m.hart), u.value.kind, u.value.addr, u.value.size)
  }

  /** Where an access of the machine goes. */
  function TargetFor(m: Machine, u: Use): Sv39Access.Target {
    Sv39Access.TargetOf(Sv39Walk.TablesIn(m.mem), ContextOf(m.hart), u.kind, u.addr, u.size)
  }

  function Read(m: Machine, addr: U64, size: nat): (Sv39Access.Feedback, seq<Byte>) {
    Sv39Access.PlainRead(m.mem, Sv39Walk.TablesIn(m.mem), ContextOf(m.hart), addr, size)
  }

  function Written(m: Machine, addr: U64, bytes: seq<Byte>): (Sv39Access.Feedback, Memory) {
    Sv39Access.PlainWrite(m.mem, Sv39Walk.TablesIn(m.mem), ContextOf(m.hart), addr, bytes)
  }

  /** A write that fails stores nothing. */
  lemma FailedWrite(m: Machine, addr: U64, bytes: seq<Byte>)
    requires Written(m, addr, bytes).0 != Sv39Access.AccessOk
    ensures m.(mem := Written(m, addr, bytes).1) == m
  {
  }

  // ----- What an instruction accesses

  /** Loads and stores that are not aligned trap before they reach the MMU. */
  function Aligned(kind: Sv39Access.Access, addr: U64, size: nat): Option<Use>
    requires size >= 1
  {
    if addr % size != 0 then None else Some(Use(kind, addr, size))
  }

  function InstrUse(m: Machine, i: Instr): Option<Use>
    requires Formed(m) && WidthsPositive(i)
  {
    match i
    case Load(width, _, _, rs1, imm) => Aligned(Sv39Access.Load, Address(Gpr(m, rs1), imm), width)
    case Store(width, rs1, _, imm) => Aligned(Sv39Access.Store, Address(Gpr(m, rs1), imm), width)
    case LoadReserved(width, _, rs1) => Some(Use(Sv39Access.Load, Alu.U64(Gpr(m, rs1)), width))
    case StoreConditional(width, _, rs1, _) => Some(Use(Sv39Access.Store, Alu.U64(Gpr(m, rs1)), width))
    case Amo(_, width, _, rs1, _) => Some(Use(Sv39Access.Store, Alu.U64(Gpr(m, rs1)), width))
    case _ => None
  }

  /** What the three kinds of atomics are executed as, and what they access. */
  lemma AtomicParts(m: Machine, i: Instr)
    requires Formed(m) && !m.hart.needTrap && WidthsPositive(i)
    requires i.LoadReserved? || i.StoreConditional? || i.Amo?
    ensures
      var addr := Alu.U64(Gpr(m, i.rs1));
      InstrUse(m, i) == Some(Use(if i.LoadReserved? then Sv39Access.Load else Sv39Access.Store, addr, i.width)) &&
      Execute(m, i, 4) ==
        if i.LoadReserved? then ExecLoadReserved(m, i.width, i.rd, addr)
        else if i.StoreConditional? then ExecStoreConditional(m, i.width, i.rd, addr, Gpr(m, i.rs2))
        else ExecAmo(m, i.amo, i.width, i.rd, addr, Gpr(m, i.rs2))
  {
    hide ExecLoadReserved, ExecStoreConditional, ExecAmo, Alu.U64;
  }

  lemma InsideUses(m: Machine, i: Instr)
    requires Formed(m) && WidthsPositive(i)
    requires !i.Load? && !i.Store? && !i.LoadReserved? && !i.StoreConditional? && !i.Amo?
    ensures InstrUse(m, i) == None
  {
  }

  /** What an instruction leaves of the history; only the fence forgets. */
  function InstrHistory(m: Machine, h: History, i: Instr): History
    requires Formed(m) && WidthsPositive(i)
  {
    if i.SfenceVma? then
      if FenceAllowed(m.hart) then Sv39Tlb.Forget(h, Alu.U64(Gpr(m, i.rs1)), Alu.U64(Gpr(m, i.rs2)) % 0x1_0000) else h
    else Used(m, h, InstrUse(m, i))
  }

  function CompressedUse(m: Machine, w: bv32): Option<Use>
    requires Formed(m)
  {
    var o, base := Rvc.RvcOpcode(w), Gpr(m, Rvc.Short(w, 7));
    if o == 0x02 then Aligned(Sv39Access.Load, Address(base, Rvc.ImmWord(w)), 4)
    else if o == 0x03 then Aligned(Sv39Access.Load, Address(base, Rvc.ImmDouble(w)), 8)
    else if o == 0x06 then Aligned(Sv39Access.Store, Address(base, Rvc.ImmWord(w)), 4)
    else if o == 0x07 then Aligned(Sv39Access.Store, Address(base, Rvc.ImmDouble(w)), 8)
    else if o == 0x12 then Aligned(Sv39Access.Load, Address(Gpr(m, 2), Rvc.ImmLwsp(w)), 4)
    else if o == 0x13 then Aligned(Sv39Access.Load, Address(Gpr(m, 2), Rvc.ImmLdsp(w)), 8)
    else if o == 0x16 then Aligned(Sv39Access.Store, Address(Gpr(m, 2), Rvc.ImmSwsp(w)), 4)
    else if o == 0x17 then Aligned(Sv39Access.Store, Address(Gpr(m, 2), Rvc.ImmSdsp(w)), 8)
    else None
  }

  ghost predicate MayExecute(m: Machine, h: History, w: bv32)
    requires Formed(m)
  {
    if IsCompressed(w) then MayUse(m, h, CompressedUse(m, w))
    else DecodedWidths(w); MayUse(m, h, InstrUse(m, Decode(w)))
  }

  function WordHistory(m: Machine, h: History, w: bv32): History
    requires Formed(m)
  {
    if IsCompressed(w) then Used(m, h, CompressedUse(m, w))
    else DecodedWidths(w); InstrHistory(m, h, Decode(w))
  }

  // ----- What a step accesses

  ghost predicate MayFetchAt(m: Machine, h: History) {
    MayFetch(h, m.mem, ContextOf(m.hart), AddressOf(m.hart.pc), 4)
  }

  function FetchHistory(m: Machine, h: History): History {
    FetchTouched(h, m.mem, ContextOf(m.hart), AddressOf(m.hart.pc), 4)
  }

  ghost predicate MayProceed(m: Machine, h: History)
    requires Formed(m)
  {
    AddressOf(m.hart.pc) % 2 == 0 ==>
      MayFetchAt(m, h) &&
      (Fetch(m).feedback == Sv39Access.AccessOk ==> MayExecute(m, FetchHistory(m, h), Fetch(m).word))
  }

  function ProceedHistory(m: Machine, h: History): History
    requires Formed(m)
  {
    if AddressOf(m.hart.pc) % 2 != 0 then h
    else if Fetch(m).feedback != Sv39Access.AccessOk then FetchHistory(m, h)
    else WordHistory(m, FetchHistory(m, h), Fetch(m).word)
  }

  /** The premise of a step: each address that its fetch and its instruction
      translate may be used. */
  ghost predicate MayStep(m: Machine, h: History, l: Lines)
    requires Formed(m) && IntEnableFits(m.hart)
  {
    var s := m.(hart := PreExec(m.hart, l));
    s.hart.needTrap || MayProceed(s, h)
  }

  function StepHistory(m: Machine, h: History, l: Lines): History
    requires Formed(m) && IntEnableFits(m.hart)
  {
    var s := m.(hart := PreExec(m.hart, l));
    if s.hart.needTrap then h else ProceedHistory(s, h)
  }

  // ----- What a run accesses

  /** The premise of every step of a run. */
  ghost predicate MayRun(m: Machine, h: History, inputs: seq<Input>)
    requires Sound(m)
    decreases inputs
  {
    inputs == [] || (
      var was := m.(mem := inputs[0].mem);
      StepKeepsSound(was, inputs[0].lines);
      MayStep(was, h, inputs[0].lines) &&
      MayRun(Next(m, inputs[0]), StepHistory(was, h, inputs[0].lines), inputs[1..]))
  }

  function RunHistory(m: Machine, h: History, inputs: seq<Input>): History
    requires Sound(m)
    decreases inputs
  {
    if inputs == [] then h
    else
      var was := m.(mem := inputs[0].mem);
      StepKeepsSound(was, inputs[0].lines);
      RunHistory(Next(m, inputs[0]), StepHistory(was, h, inputs[0].lines), inputs[1..])
  }

  /** What the core finds when it looks at a fetch: no cross-page feedback. */
  lemma FetchIsOneOfThree(m: Machine)
    requires AddressOf(m.hart.pc) % 2 == 0
    ensures Fetch(m).feedback != Sv39Access.Misaligned
  {
    EvenFetchFeedback(m.mem, Sv39Walk.TablesIn(m.mem), ContextOf(m.hart), AddressOf(m.hart.pc));
  }

  /** The second quadrant accesses no memory. */
  lemma Quadrant1Uses(m: Machine, w: bv32)
    requires Formed(m) && w & 3 == 1
    ensures CompressedUse(m, w) == None
  {
  }

  // ----- When nothing is owed

  /** Neither fetches nor data accesses are translated. */
  predicate Off(m: Machine) {
    var c := ContextOf(m.hart);
    Sv39Access.BareFetch(c) && Sv39Access.Bare(c)
  }

  lemma OffOwesNothing(m: Machine, h: History, u: Option<Use>)
    requires Off(m)
    ensures MayUse(m, h, u) && Used(m, h, u) == h
  {
  }

  lemma OffFetch(m: Machine, h: History)
    requires Off(m)
    ensures MayFetchAt(m, h) && FetchHistory(m, h) == h
  {
  }

  /** With translation off a step may always be made. */
  lemma OffMayProceed(m: Machine, h: History)
    requires Formed(m) && Off(m)
    ensures MayProceed(m, h)
  {
    hide Off, Fetch, MayUse, Used, MayFetchAt, FetchHistory, InstrUse, CompressedUse;
    OffFetch(m, h);
    var w := Fetch(m).word;
    if IsCompressed(w) {
      OffOwesNothing(m, h, CompressedUse(m, w));
    } else {
      DecodedWidths(w);
      OffOwesNothing(m, h, InstrUse(m, Decode(w)));
    }
  }
}
