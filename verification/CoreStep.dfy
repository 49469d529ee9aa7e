/** One step of the core: interrupt, fetch, either decode tree, and the end of
    the step. */
module CoreStep {
  import opened Words
  import opened Privilege
  import opened Csr
  import opened Isa
  import opened Exec
  import opened Sv39Access
  import Rvc
  import Sv39Walk

  // ----- Fetch

  /** The number that a program counter stands for. */
  function AddressOf(pc: Word): U64 {
    pc.bits as nat
  }

  datatype Fetched = Fetched(feedback: Feedback, word: bv32)

  function JoinedBytes(b0: bv8, b1: bv8, b2: bv8, b3: bv8): bv32 {
    (b0 as bv32) | ((b1 as bv32) << 8) | ((b2 as bv32) << 16) | ((b3 as bv32) << 24)
  }

  /** Four bytes as the source's instruction union reads them. */
  function InstructionWord(bytes: seq<Byte>): bv32 {
    if |bytes| != 4 then 0
    else JoinedBytes(bytes[0] as bv8, bytes[1] as bv8, bytes[2] as bv8, bytes[3] as bv8)
  }

  function Fetch(m: Machine): Fetched {
    var (fb, bytes) := PlainFetch(m.mem, Sv39Walk.TablesIn(m.mem), ContextOf(m.hart), AddressOf(m.hart.pc), 4);
    Fetched(fb, InstructionWord(bytes))
  }

  /** The source asserts that this is one of two feedbacks. */
  function FetchFaultCode(fb: Feedback): bv64
    requires fb == PageFault || fb == AccessFault
  {
    if fb == PageFault then INSTR_PGFAULT else INSTR_ACC_FAULT
  }

  lemma NeverMisaligned(pt: Sv39Walk.Tables, c: Context, kind: Access, addr: U64, size: nat)
    requires size in {1, 2, 4, 8} && addr % size == 0
    ensures TargetOf(pt, c, kind, addr, size) != Refused(Misaligned)
  {
    AlignedStaysInPage(addr, size);
  }

  lemma PartNeverMisaligned(mem: Memory, pt: Sv39Walk.Tables, c: Context, addr: U64, size: nat)
    requires size in {1, 2, 4, 8} && addr % size == 0
    ensures PlainFetchPart(mem, pt, c, addr, size).0 != Misaligned
  {
    NeverMisaligned(pt, c, Sv39Access.Fetch, addr, size);
  }

  lemma EvenParts(addr: U64)
    requires addr % 2 == 0
    ensures (addr + 2) % TWO_64 % 2 == 0
    ensures addr % 4 == 2 || addr % 4 == 0
  {
  }

  /** A fetch at an even address never reaches the cross-page branch. */
  lemma EvenFetchFeedback(mem: Memory, pt: Sv39Walk.Tables, c: Context, addr: U64)
    requires addr % 2 == 0
    ensures PlainFetch(mem, pt, c, addr, 4).0 != Misaligned
  {
    hide PlainFetchPart;
    EvenParts(addr);
    if addr % 4 == 2 {
      PartNeverMisaligned(mem, pt, c, addr, 2);
      PartNeverMisaligned(mem, pt, c, (addr + 2) % TWO_64, 2);
    } else {
      PartNeverMisaligned(mem, pt, c, addr, 4);
    }
  }

  /** An aligned load or store never reaches the cross-page branch either: its
      fault is the one that the page tables or the bus report. */
  lemma AlignedAccessFeedback(m: Machine, addr: U64, size: nat, bytes: seq<Byte>)
    requires size in {1, 2, 4, 8} && addr % size == 0 && |bytes| == size
    ensures PlainRead(m.mem, Sv39Walk.TablesIn(m.mem), ContextOf(m.hart), addr, size).0 != Misaligned
    ensures PlainWrite(m.mem, Sv39Walk.TablesIn(m.mem), ContextOf(m.hart), addr, bytes).0 != Misaligned
  {
    var pt, c := Sv39Walk.TablesIn(m.mem), ContextOf(m.hart);
    NeverMisaligned(pt, c, Sv39Access.Load, addr, size);
    NeverMisaligned(pt, c, Sv39Access.Store, addr, size);
  }

  // ----- The step

  predicate IsCompressed(w: bv32) {
    w & 3 != 3
  }

  function ExecuteWord(m: Machine, w: bv32): (o: Outcome)
    requires Formed(m) && !m.hart.needTrap
    ensures OneTrap(o)
  {
    if IsCompressed(w) then Rvc.ExecCompressed(m, w)
    else DecodedWidths(w); Execute(m, Decode(w), 4)
  }

  /** The end of a step: the trap's program counter or the next one. */
  function Retire(h: Hart, jumped: bool, len: bv64): Hart {
    if h.needTrap then h.(pc := h.trapPc, needTrap := false)
    else h.(pc := if jumped then h.pc else Sum(h.pc, len), minstret := Sum(h.minstret, 1))
  }

  /** An illegal word traps with itself as the trap value. */
  function Judge(o: Outcome, w: bv32): Machine
    requires OneTrap(o)
  {
    if o.illegal then Trap(o.m, ILLEGAL_INSTR, W(w as bv64)) else o.m
  }

  function Conclude(o: Outcome, w: bv32, len: bv64): Machine
    requires OneTrap(o)
  {
    var m := Judge(o, w);
    m.(hart := Retire(m.hart, o.jumped, len))
  }

  /** Everything after the interrupts. */
  function Instruction(m: Machine): (o: (Outcome, bv32))
    requires Formed(m) && !m.hart.needTrap
    ensures OneTrap(o.0)
  {
    if AddressOf(m.hart.pc) % 2 != 0 then (Went(Trap(m, INSTR_MISALIGN, m.hart.pc)), 3)
    else
      var f := Fetch(m);
      EvenFetchFeedback(m.mem, Sv39Walk.TablesIn(m.mem), ContextOf(m.hart), AddressOf(m.hart.pc));
      if f.feedback != AccessOk then (Went(Trap(m, FetchFaultCode(f.feedback), m.hart.pc)), 3)
      else (ExecuteWord(m, f.word), f.word)
  }

  /** A step that no interrupt preempts. */
  function Proceed(m: Machine): Machine
    requires Formed(m) && !m.hart.needTrap
  {
    var (o, w) := Instruction(m);
    Conclude(o, w, if IsCompressed(w) then 2 else 4)
  }

  /** One call of `Step`. */
  function Step(m: Machine, l: Lines): (n: Machine)
    requires Formed(m) && IntEnableFits(m.hart)
  {
    var s := m.(hart := PreExec(m.hart, l));
    if s.hart.needTrap then s.(hart := Retire(s.hart, false, 4))
    else Proceed(s)
  }
}
