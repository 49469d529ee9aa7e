/** The rule of Sv39Software on the core: what the world of software becomes in a
    step, and the proof that a run whose steps obey the rule meets the premise under
    which both caches of the MMU stay invisible. */
module CoreSoftware {
  import opened Words
  import opened Privilege
  import opened Isa
  import opened Exec
  import opened CoreStep
  import opened CoreRuns
  import opened CoreUses
  import opened Sv39Software
  import opened Sv39Uses
  import Alu
  import Sv39Access
  import Sv39Runs
  import Sv39Tlb
  import Sv39Walk

  // ----- The rule

  /** If the access is translated, software may touch its address, and the tables that
      map it can be read. */
  ghost predicate MayTouchFor(m: Machine, w: World, u: Use) {
    LooksUp(ContextOf(m.hart), u.kind, u.addr, u.size) ==>
      MayTouch(w, u.addr) &&
      Sv39Walk.TablesReadable(Sv39Walk.TablesIn(m.mem), m.mem, w.satp.ppn * 0x1000, 2, u.addr)
  }

  /** The access that an instruction word makes. */
  function WordUse(m: Machine, word: bv32): Option<Use>
    requires Formed(m)
  {
    if IsCompressed(word) then CompressedUse(m, word)
    else DecodedWidths(word); InstrUse(m, Decode(word))
  }

  ghost predicate WordObeys(m: Machine, w: World, word: bv32)
    requires Formed(m)
  {
    WordUse(m, word).Some? ==> MayTouchFor(m, w, WordUse(m, word).value)
  }

  ghost predicate FetchObeys(m: Machine, w: World) {
    var pc := AddressOf(m.hart.pc);
    if pc % 4 == 2 then
      MayTouchFor(m, w, Use(Sv39Access.Fetch, pc, 2)) &&
      (HalfFetched(m) ==> MayTouchFor(m, w, Use(Sv39Access.Fetch, (pc + 2) % TWO_64, 2)))
    else MayTouchFor(m, w, Use(Sv39Access.Fetch, pc, 4))
  }

  predicate HalfFetched(m: Machine) {
    Sv39Access.PlainFetchPart(m.mem, Sv39Walk.TablesIn(m.mem), ContextOf(m.hart), AddressOf(m.hart.pc), 2).0
      == Sv39Access.AccessOk
  }

  ghost predicate ProceedObeys(m: Machine, w: World)
    requires Formed(m)
  {
    AddressOf(m.hart.pc) % 2 == 0 ==>
      FetchObeys(m, w) && (Fetch(m).feedback == Sv39Access.AccessOk ==> WordObeys(m, w, Fetch(m).word))
  }

  function Entered(m: Machine, l: Lines): (s: Machine)
    requires IntEnableFits(m.hart)
  {
    m.(hart := PreExec(m.hart, l))
  }

  ghost predicate StepObeys(m: Machine, w: World, l: Lines)
    requires Formed(m) && IntEnableFits(m.hart)
  {
    Entered(m, l).hart.needTrap || ProceedObeys(Entered(m, l), w)
  }

  // ----- The world of a step

  /** The fence that an instruction word executes. */
  function FenceOf(m: Machine, word: bv32): Option<(nat, nat)>
    requires Formed(m)
  {
    var i := Decode(word);
    if IsCompressed(word) || !i.SfenceVma? || !FenceAllowed(m.hart) then None
    else Some((Alu.U64(Gpr(m, i.rs1)), Alu.U64(Gpr(m, i.rs2)) % 0x1_0000))
  }

  function ProceedFence(m: Machine): Option<(nat, nat)>
    requires Formed(m)
  {
    if AddressOf(m.hart.pc) % 2 != 0 || Fetch(m).feedback != Sv39Access.AccessOk then None
    else FenceOf(m, Fetch(m).word)
  }

  ghost function AfterFence(w: World, fence: Option<(nat, nat)>): World {
    if fence.None? then w else Fenced(w, fence.value.0, fence.value.1)
  }

  /** The world once memory and satp are those of the machine. */
  ghost function Became(w: World, m: Machine): World {
    Observe(Observe(w, Sv39Runs.WriteTables(Sv39Walk.TablesIn(m.mem))),
            Sv39Runs.SwitchSpace(ContextOf(m.hart).satp))
  }

  /** A step executes its fence, and what it stores or writes to satp shows after it. */
  ghost function StepWorld(m: Machine, w: World, l: Lines): World
    requires Formed(m) && IntEnableFits(m.hart)
  {
    var s := Entered(m, l);
    Became(AfterFence(w, if s.hart.needTrap then None else ProceedFence(s)), Step(m, l))
  }

  // ----- What a step keeps

  /** The world and the history that belong to the machine. */
  ghost predicate Knows(m: Machine, h: History, w: World) {
    w.pt == Sv39Walk.TablesIn(m.mem) && w.satp == ContextOf(m.hart).satp && Remembers(h, w)
  }

  ghost predicate Remembers(h: History, w: World) {
    Rooted(w) && Sv39Tlb.AlignedHistory(h) && Tracked(h, w)
  }

  /** The rule gives the premise of an access. */
  lemma RuleMayUse(m: Machine, h: History, w: World, u: Use)
    requires Knows(m, h, w) && MayTouchFor(m, w, u)
    ensures MayUse(m, h, Some(u))
  {
    hide ContextOf, Sv39Walk.TablesReadable, Sv39Walk.Canonical, Sv39Tlb.Disciplined, Tracked;
    if LooksUp(ContextOf(m.hart), u.kind, u.addr, u.size) {
      MayTouchIsDisciplined(h, w, u.addr);
    }
  }

  lemma RecallRemembers(h: History, w: World, v: nat)
    requires Remembers(h, w) && w.satp.mode == Sv39Tlb.SV39_MODE
    ensures Remembers(Sv39Tlb.Recall(h, w.satp, w.pt, v), w)
  {
    hide Tracked;
    UseTracked(h, w, v);
    var walk := Sv39Walk.Walk(w.pt, w.satp.ppn, v);
    if walk.Some? {
      Sv39Walk.PageBaseIdempotent(v, walk.value.pagesize);
    }
  }

  lemma UseKnows(m: Machine, h: History, w: World, u: Use)
    requires Knows(m, h, w) && MayTouchFor(m, w, u)
    ensures Knows(m, Used(m, h, Some(u)), w)
  {
    hide ContextOf, Remembers, Sv39Tlb.Recall, Sv39Walk.TablesReadable, Sv39Walk.Canonical;
    if LooksUp(ContextOf(m.hart), u.kind, u.addr, u.size) {
      RecallRemembers(h, w, u.addr);
    }
  }

  lemma FetchKnows(m: Machine, h: History, w: World)
    requires Knows(m, h, w) && FetchObeys(m, w)
    ensures MayFetchAt(m, h) && Knows(m, FetchHistory(m, h), w)
  {
    hide ContextOf, Knows, MayTouchFor, Touched, MayAccess, Sv39Access.PlainFetchPart;
    var pc := AddressOf(m.hart.pc);
    if pc % 4 == 2 {
      var low := Use(Sv39Access.Fetch, pc, 2);
      RuleMayUse(m, h, w, low);
      UseKnows(m, h, w, low);
      if HalfFetched(m) {
        var half, high := Used(m, h, Some(low)), Use(Sv39Access.Fetch, (pc + 2) % TWO_64, 2);
        RuleMayUse(m, half, w, high);
        UseKnows(m, half, w, high);
      }
    } else {
      RuleMayUse(m, h, w, Use(Sv39Access.Fetch, pc, 4));
      UseKnows(m, h, w, Use(Sv39Access.Fetch, pc, 4));
    }
  }

  lemma FenceRemembers(h: History, w: World, fence: (nat, nat))
    requires Remembers(h, w)
    ensures Remembers(Sv39Tlb.Forget(h, fence.0, fence.1), Fenced(w, fence.0, fence.1))
  {
    hide Tracked;
    FenceTracked(h, w, fence.0, fence.1);
  }

  /** An instruction that accesses memory, fences, or neither. */
  lemma WordKnows(m: Machine, h: History, w: World, word: bv32)
    requires Formed(m) && Knows(m, h, w) && WordObeys(m, w, word)
    ensures MayExecute(m, h, word) && Remembers(WordHistory(m, h, word), AfterFence(w, FenceOf(m, word)))
  {
    hide ContextOf, Remembers, MayTouchFor, Fenced, Sv39Tlb.Forget, MayUse, Used, CompressedUse, Alu.U64, FenceAllowed;
    var u := WordUse(m, word);
    if u.Some? {
      RuleMayUse(m, h, w, u.value);
      UseKnows(m, h, w, u.value);
    } else {
      NothingUsed(m, h);
    }
    if FenceOf(m, word).Some? {
      FenceRemembers(h, w, FenceOf(m, word).value);
    }
  }

  lemma NothingUsed(m: Machine, h: History)
    ensures MayUse(m, h, None) && Used(m, h, None) == h
  {
  }

  lemma ProceedKnows(m: Machine, h: History, w: World)
    requires Formed(m) && Knows(m, h, w) && ProceedObeys(m, w)
    ensures MayProceed(m, h) && Remembers(ProceedHistory(m, h), AfterFence(w, ProceedFence(m)))
  {
    hide FetchObeys, WordObeys, MayFetchAt, FetchHistory, MayExecute, WordHistory, FenceOf, Fetch, Remembers;
    if AddressOf(m.hart.pc) % 2 == 0 {
      FetchKnows(m, h, w);
      if Fetch(m).feedback == Sv39Access.AccessOk {
        WordKnows(m, FetchHistory(m, h), w, Fetch(m).word);
      }
    }
  }

  /** Interrupts and mode switches leave satp alone. */
  lemma EntryKeepsSatp(h: Hart, l: Lines)
    requires IntEnableFits(h)
    ensures PreExec(h, l).s.satp == h.s.satp
  {
  }

  lemma SameSatp(a: Hart, b: Hart)
    requires a.s.satp == b.s.satp
    ensures ContextOf(a).satp == ContextOf(b).satp
  {
    hide SatpOf;
  }

  lemma EnteredKnows(m: Machine, h: History, w: World, l: Lines)
    requires IntEnableFits(m.hart) && Knows(m, h, w)
    ensures Knows(Entered(m, l), h, w)
  {
    hide PreExec, Remembers, ContextOf, IntEnableFits;
    EntryKeepsSatp(m.hart, l);
    SameSatp(PreExec(m.hart, l), m.hart);
  }

  lemma BecameKnows(m: Machine, h: History, w: World)
    requires Remembers(h, w)
    ensures Knows(m, h, Became(w, m))
  {
    hide Tracked, ContextOf, Sv39Tlb.AlignedHistory;
    var v := Observe(w, Sv39Runs.WriteTables(Sv39Walk.TablesIn(m.mem)));
    ReplacedTracked(h, w, Sv39Walk.TablesIn(m.mem), w.roots);
    SpaceTracked(h, v, ContextOf(m.hart).satp);
  }

  /** A step that obeys the rule meets the premise, and leaves every translation in use
      current or stale. */
  lemma StepKnows(m: Machine, h: History, w: World, l: Lines)
    requires Formed(m) && IntEnableFits(m.hart) && Knows(m, h, w) && StepObeys(m, w, l)
    ensures MayStep(m, h, l) && Knows(Step(m, l), StepHistory(m, h, l), StepWorld(m, w, l))
  {
    hide PreExec, Knows, Remembers, Became, ProceedObeys, MayProceed, ProceedHistory, ProceedFence, Proceed, Retire;
    var s := Entered(m, l);
    EnteredKnows(m, h, w, l);
    KnowsRemembers(s, h, w);
    if !s.hart.needTrap {
      ProceedKnows(s, h, w);
    }
    BecameKnows(Step(m, l), StepHistory(m, h, l),
                AfterFence(w, if s.hart.needTrap then None else ProceedFence(s)));
  }

  lemma KnowsRemembers(m: Machine, h: History, w: World)
    requires Knows(m, h, w)
    ensures Remembers(h, w)
  {
  }

  // ----- Runs

  /** Every step of the run obeys the rule.  Between two steps other harts and devices
      may write memory, tables included. */
  ghost predicate RunObeys(m: Machine, w: World, inputs: seq<Input>)
    requires Sound(m)
    decreases inputs
  {
    inputs == [] || (
      var was := m.(mem := inputs[0].mem);
      StepKeepsSound(was, inputs[0].lines);
      StepObeys(was, Became(w, was), inputs[0].lines) &&
      RunObeys(Next(m, inputs[0]), StepWorld(was, Became(w, was), inputs[0].lines), inputs[1..]))
  }

  lemma SoundFits(m: Machine)
    requires Sound(m)
    ensures Formed(m) && IntEnableFits(m.hart)
  {
  }

  /** Such a run meets the premise of every one of its steps. */
  lemma {:induction false} ObedientRunMayRun(m: Machine, h: History, w: World, inputs: seq<Input>)
    requires Sound(m) && Remembers(h, w) && RunObeys(m, w, inputs)
    ensures MayRun(m, h, inputs)
    decreases inputs
  {
    hide Step, StepObeys, StepWorld, StepHistory, MayStep, Became, Remembers, Legal;
    if inputs != [] {
      var was, l := m.(mem := inputs[0].mem), inputs[0].lines;
      var v := Became(w, was);
      SoundFits(was);
      BecameKnows(was, h, w);
      StepKeepsSound(was, l);
      StepKnows(was, h, v, l);
      KnowsRemembers(Step(was, l), StepHistory(was, h, l), StepWorld(was, v, l));
      ObedientRunMayRun(Next(m, inputs[0]), StepHistory(was, h, l), StepWorld(was, v, l), inputs[1..]);
    }
  }

  /** The world before the first step: nothing is cached, so nothing is stale. */
  ghost function FirstWorld(m: Machine, roots: Spaces): World {
    World(Sv39Walk.TablesIn(m.mem), ContextOf(m.hart).satp, roots, iset{})
  }

  /** From reset the rule is all that software owes. */
  lemma ObedientFromReset(m: Machine, roots: Spaces, inputs: seq<Input>)
    requires RunObeys(ResetCore(m), FirstWorld(ResetCore(m), roots), inputs)
    ensures MayRun(ResetCore(m), {}, inputs)
  {
    ResetIsBare(m);
    ObedientRunMayRun(ResetCore(m), {}, FirstWorld(ResetCore(m), roots), inputs);
  }

  lemma ResetIsBare(m: Machine)
    ensures ContextOf(ResetCore(m).hart).satp.mode == 0
  {
  }

  /** A new core with its program counter set. */
  function PoweredOn(hartId: Word, pc: Word, mem: Memory): (m: Machine)
    ensures Sound(m) && m.hart == Reset(m.hart)
  {
    var regs := MachineRegs(ZERO, ZERO, ZERO, ZERO, ZERO, ZERO, ZERO, ZERO);
    var sregs := SupervisorRegs(ZERO, ZERO, ZERO, ZERO, ZERO, ZERO, ZERO);
    var hart := Hart(pc, ZERO, false, M_MODE, M_MODE, RESET_STATUS, regs, sregs, ZERO, ZERO, ZERO, ZERO, hartId,
                     W(0x8000_0000_0014_1105));
    Machine(hart, seq<Alu.I64>(32, _ => 0), mem, Reservation(false, 0, 0))
  }

  lemma ObedientFromPower(hartId: Word, pc: Word, mem: Memory, roots: Spaces, inputs: seq<Input>)
    requires var m := PoweredOn(hartId, pc, mem); RunObeys(m, FirstWorld(m, roots), inputs)
    ensures MayRun(PoweredOn(hartId, pc, mem), {}, inputs)
  {
    var m := PoweredOn(hartId, pc, mem);
    assert ResetCore(m) == m;
    ObedientFromReset(m, roots, inputs);
  }
}
