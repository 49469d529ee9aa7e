/** Traps nested to any depth: what the outermost return restores. */
module TrapNesting {
  import opened Words
  import opened StatusBits
  import opened Privilege
  import opened Csr

  /** What handler code does between saving and restoring its registers. */
  datatype Work =
    | Done
    | WriteCsr(i: Index, data: Word, rest: Work)
    | Compute(pc: Word, mip: Word, mcycle: Word, minstret: Word, rest: Work)
    | Interrupted(frame: Frame, rest: Work)

  /** A trap, an interrupt or an exception, with the work its handler does. */
  datatype Frame = Frame(cause: TrapCause, tval: Word, body: Work)

  /** The end of a step that trapped or returned, up to the mode switch at the
      start of the next one. */
  function Arrive(h: Hart): Hart {
    h.(pc := h.trapPc, needTrap := false, priv := h.nextPriv)
  }

  /** A refused write traps instead; the body then lists that trap as a frame. */
  function AfterWrite(h: Hart, i: Index, data: Word): Hart {
    if Permitted(h, i, true) && CsrWrite(h, i, data).Some? then CsrWrite(h, i, data).value else h
  }

  /** The registers a handler saves on entry: epc and status of its level. */
  function Saved(h: Hart, toS: bool): (Word, Word) {
    if toS then (ReadRegister(h, Sepc).value, ReadRegister(h, Sstatus).value)
    else (ReadRegister(h, Mepc).value, ReadRegister(h, Mstatus).value)
  }

  /** The state after the handler writes the saved registers back. */
  function PutBack(h: Hart, toS: bool, saved: (Word, Word)): Hart {
    if toS then WriteRegister(WriteRegister(h, Sepc, Seen(saved.0)).value, Sstatus, Seen(saved.1)).value
    else WriteRegister(WriteRegister(h, Mepc, Seen(saved.0)).value, Mstatus, Seen(saved.1)).value
  }

  /** A whole trap: entry, save, body, restore, return.  None if the return
      instruction is refused. */
  function Handle(h: Hart, f: Frame): (r: Option<Hart>)
    requires !h.needTrap
    ensures r.Some? ==> !r.value.needTrap
    decreases f
  {
    var toS := TrapsToS(h, f.cause);
    var entered := Arrive(RaiseTrap(h, f.cause, f.tval));
    var worked := Perform(entered, f.body);
    if worked.None? then None
    else
      var restored := PutBack(worked.value, toS, Saved(entered, toS));
      var left := if toS then Sret(restored) else Mret(restored);
      if left.None? then None else Some(Arrive(left.value))
  }

  function Perform(h: Hart, work: Work): (r: Option<Hart>)
    requires !h.needTrap
    ensures r.Some? ==> !r.value.needTrap
    decreases work
  {
    match work
    case Done => Some(h)
    case WriteCsr(i, data, rest) => Perform(AfterWrite(h, i, data), rest)
    case Compute(pc, mip, mcycle, minstret, rest) =>
      Perform(h.(pc := pc, mip := mip, mcycle := mcycle, minstret := minstret), rest)
    case Interrupted(frame, rest) =>
      var back := Handle(h, frame);
      if back.None? then None else Perform(back.value, rest)
  }

  // ----- Invariants

  /** A hart between steps, in a mode it can return to: sret is not trapped. */
  predicate Running(h: Hart) {
    !h.needTrap && h.nextPriv == h.priv && Level(h.priv) && (h.priv != M_MODE ==> h.status.tsr == 0)
  }

  /** The part of status that code below M-mode can never change. */
  predicate SameMachineFields(a: MStatus, b: MStatus) {
    a.mie == b.mie && a.tvm == b.tvm && a.tw == b.tw && a.tsr == b.tsr
  }

  /** The fields a trap and its return must leave as they were. */
  predicate SameEnables(a: MStatus, b: MStatus) {
    SameMachineFields(a, b) && a.sie == b.sie && a.sum == b.sum && a.mxr == b.mxr
  }

  predicate Restored(h: Hart, r: Hart) {
    r.pc == h.pc && r.priv == h.priv && Running(r) && SameEnables(h.status, r.status)
  }

  /** What survives handler code: its mode, and below M-mode the machine fields. */
  predicate Survives(h: Hart, r: Hart) {
    Running(r) && r.priv == h.priv && (h.priv != M_MODE ==> SameMachineFields(h.status, r.status))
  }

  // ----- Pieces of a frame

  lemma EntryIsRunning(h: Hart, c: TrapCause, tval: Word)
    requires Running(h)
    ensures
      var e := Arrive(RaiseTrap(h, c, tval));
      Running(e) && e.priv == (if TrapsToS(h, c) then S_MODE else M_MODE) &&
      e.status == (if TrapsToS(h, c) then EnterSStatus(h.status, h.priv) else EnterMStatus(h.status, h.priv)) &&
      (if TrapsToS(h, c) then e.s.epc else e.m.epc) == h.pc
  {
  }

  lemma WriteSurvives(h: Hart, i: Index, data: Word)
    requires Running(h)
    ensures Survives(h, AfterWrite(h, i, data))
  {
    if Permitted(h, i, true) && CsrWrite(h, i, data).Some? {
      CsrWriteKeepsControl(h, i, data);
      if h.priv == M_MODE {
      } else {
        SupervisorWritesStayInS(h, i, data);
      }
    }
  }

  lemma PutBackSupervisor(worked: Hart, entered: Hart)
    ensures PutBack(worked, true, Saved(entered, true)) ==
      worked.(s := worked.s.(epc := entered.s.epc),
              status := WriteSStatus(worked.status, SStatusRead(entered.status)))
  {
    UnpackOfPackS(SStatusRead(entered.status));
  }

  lemma PutBackMachine(worked: Hart, entered: Hart)
    ensures PutBack(worked, false, Saved(entered, false)) ==
      worked.(m := worked.m.(epc := entered.m.epc), status := WriteMStatus(worked.status, entered.status))
  {
    UnpackOfPackM(entered.status);
  }

  /** The return of an S frame, once sepc and sstatus are back. */
  lemma SupervisorFrameReturns(h: Hart, entered: Hart, worked: Hart)
    requires Running(h) && h.priv != M_MODE
    requires entered.status == EnterSStatus(h.status, h.priv) && entered.s.epc == h.pc
    requires Running(worked) && worked.priv == S_MODE && SameMachineFields(entered.status, worked.status)
    ensures
      var left := Sret(worked.(s := worked.s.(epc := entered.s.epc),
                               status := WriteSStatus(worked.status, SStatusRead(entered.status))));
      left.Some? && Restored(h, Arrive(left.value))
  {
  }

  lemma MachineFrameReturns(h: Hart, entered: Hart, worked: Hart)
    requires Running(h)
    requires entered.status == EnterMStatus(h.status, h.priv) && entered.m.epc == h.pc
    requires Running(worked) && worked.priv == M_MODE
    ensures
      var left := Mret(worked.(m := worked.m.(epc := entered.m.epc),
                               status := WriteMStatus(worked.status, entered.status)));
      left.Some? && Restored(h, Arrive(left.value))
  {
  }

  /** Nested traps are transparent: whatever the causes, the depth and the work
      of the handlers, the outermost return succeeds and restores the program
      counter, the mode and the interrupt enables. */
  lemma {:induction false} FrameRestores(h: Hart, f: Frame)
    requires Running(h)
    ensures Handle(h, f).Some? && Restored(h, Handle(h, f).value)
    decreases f
  {
    var toS := TrapsToS(h, f.cause);
    var entered := Arrive(RaiseTrap(h, f.cause, f.tval));
    EntryIsRunning(h, f.cause, f.tval);
    WorkSurvives(entered, f.body);
    var worked := Perform(entered, f.body).value;
    if toS {
      PutBackSupervisor(worked, entered);
      SupervisorFrameReturns(h, entered, worked);
    } else {
      PutBackMachine(worked, entered);
      MachineFrameReturns(h, entered, worked);
    }
  }

  /** Handler code with any traps inside it ends in the mode it started in. */
  lemma {:induction false} WorkSurvives(h: Hart, work: Work)
    requires Running(h)
    ensures Perform(h, work).Some? && Survives(h, Perform(h, work).value)
    decreases work
  {
    match work
    case Done =>
    case WriteCsr(i, data, rest) =>
      WriteSurvives(h, i, data);
      WorkSurvives(AfterWrite(h, i, data), rest);
    case Compute(pc, mip, mcycle, minstret, rest) =>
      WorkSurvives(h.(pc := pc, mip := mip, mcycle := mcycle, minstret := minstret), rest);
    case Interrupted(frame, rest) =>
      FrameRestores(h, frame);
      WorkSurvives(Handle(h, frame).value, rest);
  }
}
