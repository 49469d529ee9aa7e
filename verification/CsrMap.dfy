/** The map of the control and status registers by number: which can be read and
    written, which bits a write keeps, and that it touches no other register. */
module CsrMap {
  import opened Words
  import opened StatusBits
  import opened Privilege
  import opened Csr

  // ----- Numbers

  /** What M-mode reads in a register. */
  function Held(h: Hart, i: Csr.Index): Option<Word> {
    CsrRead(h.(priv := M_MODE), i)
  }

  predicate Implemented(i: Csr.Index) {
    i in {0x100, 0x104, 0x105, 0x106, 0x140, 0x141, 0x142, 0x143, 0x144, 0x180} ||
    i in {0x300, 0x301, 0x302, 0x303, 0x304, 0x305, 0x306, 0x340, 0x341, 0x342, 0x343, 0x344} ||
    i in {0x7a0, 0x7a1, 0xb00, 0xb02, 0xc00, 0xf11, 0xf12, 0xf13, 0xf14, 0xf15}
  }

  /** minstret, cycle and the identification registers cannot be written. */
  predicate Writable(i: Csr.Index) {
    Implemented(i) && i != 0xb02 && i < 0xc00
  }

  lemma NumbersRead(h: Hart, i: Csr.Index)
    ensures Held(h, i).Some? <==> Implemented(i)
  {
    hide PackM, PackS, Masked, SStatusRead;
  }

  /** The number of a register. */
  function NumberOf(r: Register): Csr.Index {
    match r
    case Sstatus => 0x100
    case Sie => 0x104
    case Stvec => 0x105
    case Scounteren => 0x106
    case Sscratch => 0x140
    case Sepc => 0x141
    case Scause => 0x142
    case Stval => 0x143
    case Sip => 0x144
    case Satp => 0x180
    case Mstatus => 0x300
    case Misa => 0x301
    case Medeleg => 0x302
    case Mideleg => 0x303
    case Mie => 0x304
    case Mtvec => 0x305
    case Mcounteren => 0x306
    case Mscratch => 0x340
    case Mepc => 0x341
    case Mcause => 0x342
    case Mtval => 0x343
    case Mip => 0x344
    case Tselect => 0x7a0
    case Tdata1 => 0x7a1
    case Mcycle => 0xb00
    case Minstret => 0xb02
    case Cycle => 0xc00
    case Mvendorid => 0xf11
    case Marchid => 0xf12
    case Mimpid => 0xf13
    case Mhartid => 0xf14
    case Mconfigptr => 0xf15
  }

  lemma NumberNames(r: Register)
    ensures RegisterAt(NumberOf(r)) == Some(r)
  {
  }

  lemma NamedNumber(i: Csr.Index)
    ensures RegisterAt(i).Some? ==> NumberOf(RegisterAt(i).value) == i
  {
  }

  lemma OneNumber(i: Csr.Index, r: Register)
    ensures RegisterAt(i) == Some(r) <==> i == NumberOf(r)
  {
    hide RegisterAt, NumberOf;
    NumberNames(r);
    NamedNumber(i);
  }

  // ----- Refusals

  /** The bit of TVM in mstatus. */
  const TVM: bv64 := 20

  predicate HeldBit(h: Hart, i: Csr.Index, k: bv64) {
    Held(h, i).Some? && BitSet(Held(h, i).value, k)
  }

  /** satp is closed to S-mode under TVM. */
  predicate SatpClosed(h: Hart, i: Csr.Index) {
    i == 0x180 && h.priv == S_MODE && HeldBit(h, 0x300, TVM)
  }

  /** cycle is open below M-mode when both counter enables have bit 0. */
  predicate CycleClosed(h: Hart, i: Csr.Index) {
    i == 0xc00 && h.priv <= S_MODE && !(HeldBit(h, 0x306, 0) && HeldBit(h, 0x106, 0))
  }

  lemma TvmBit(m: MStatus)
    ensures m.tvm == 1 <==> BitSet(W(PackM(m)), TVM)
  {
  }

  lemma LowBit(w: Word)
    ensures w.bits & 1 == 0 <==> !BitSet(w, 0)
  {
  }

  lemma KeyRegisters(h: Hart)
    ensures Held(h, 0x300) == Some(W(PackM(h.status)))
    ensures Held(h, 0x306) == Some(h.m.counteren)
    ensures Held(h, 0x106) == Some(h.s.counteren)
  {
    hide PackM, PackS, Masked, SStatusRead, RegisterAt;
    OneNumber(0x300, Mstatus);
    OneNumber(0x306, Mcounteren);
    OneNumber(0x106, Scounteren);
  }

  /** Which reads are refused; the others do not depend on the mode. */
  lemma NumbersRefused(h: Hart, i: Csr.Index)
    ensures CsrRead(h, i) == if SatpClosed(h, i) || CycleClosed(h, i) then None else Held(h, i)
  {
    hide PackM, PackS, Masked, SStatusRead, RegisterAt, BitSet;
    TvmBit(h.status);
    LowBit(h.m.counteren);
    LowBit(h.s.counteren);
    KeyRegisters(h);
    OneNumber(i, Satp);
    OneNumber(i, Cycle);
  }

  predicate ReadOnly(r: Register) {
    r.Minstret? || r.Cycle? || r.Mvendorid? || r.Marchid? || r.Mimpid? || r.Mhartid? || r.Mconfigptr?
  }

  lemma ReadOnlyNumbers(i: Csr.Index)
    ensures RegisterAt(i).Some? && !ReadOnly(RegisterAt(i).value) <==> Writable(i)
  {
  }

  lemma RegistersWritten(h: Hart, r: Register, data: Data)
    ensures WriteRegister(h, r, data).Some? <==> !ReadOnly(r) && !(r.Satp? && h.priv == S_MODE && h.status.tvm == 1)
  {
    hide WriteOwn, WriteMachine, WriteInterrupt, WriteStatus;
  }

  /** Which writes are refused. */
  lemma NumbersWritten(h: Hart, i: Csr.Index, data: Word)
    ensures CsrWrite(h, i, data).Some? <==> Writable(i) && !SatpClosed(h, i)
  {
    hide PackM, BitSet, RegisterAt, WriteRegister, Writable, ReadOnly, Seen, Held;
    TvmBit(h.status);
    KeyRegisters(h);
    ReadOnlyNumbers(i);
    OneNumber(i, Satp);
    if RegisterAt(i).Some? {
      RegistersWritten(h, RegisterAt(i).value, Seen(data));
    }
  }

  // ----- Views

  function Cut(w: Option<Word>, mask: bv64): Option<Word> {
    if w.None? then None else Some(Masked(w.value, mask))
  }

  lemma StatusView(m: MStatus)
    ensures W(PackS(SStatusRead(m))) == Masked(W(PackM(m)), SSTATUS_MASK)
  {
    SStatusReadIsMasked(m);
  }

  /** The supervisor's registers show some bits of the machine's, and cycle all of
      mcycle. */
  lemma ViewsShow(h: Hart)
    ensures Held(h, 0x100) == Cut(Held(h, 0x300), SSTATUS_MASK)
    ensures Held(h, 0x104) == Cut(Held(h, 0x304), 0x222)
    ensures Held(h, 0x144) == Cut(Held(h, 0x344), 0x222)
    ensures Held(h, 0xc00) == Held(h, 0xb00)
  {
    hide PackM, PackS, Masked, SStatusRead, RegisterAt;
    StatusView(h.status);
    NumberNames(Sstatus);
    NumberNames(Mstatus);
    NumberNames(Sie);
    NumberNames(Mie);
    NumberNames(Sip);
    NumberNames(Mip);
    NumberNames(Cycle);
    NumberNames(Mcycle);
  }

  predicate View(i: Csr.Index) {
    i == 0x100 || i == 0x104 || i == 0x144 || i == 0xc00
  }

  /** The register that a write of i changes. */
  function Home(i: Csr.Index): Csr.Index {
    if i == 0x100 then 0x300 else if i == 0x104 then 0x304 else if i == 0x144 then 0x344 else i
  }

  // ----- Writes

  /** The bits of the mask from data, the others as they were. */
  function Mixed(was: Word, data: Word, mask: bv64): Word {
    W((was.bits & !mask) | (data.bits & mask))
  }

  /** A mode above 1 becomes 0. */
  function TvecKept(data: Word): Word {
    if data.bits & 2 != 0 then W(data.bits & !3) else data
  }

  /** A mode other than 0 and 8 becomes 0. */
  function SatpKept(data: Word): Word {
    if data.bits & 0x7000_0000_0000_0000 != 0 then W(data.bits & 0x0fff_ffff_ffff_ffff) else data
  }

  /** What the home of register i holds after a write of data to i. */
  function Stored(i: Csr.Index, was: Word, data: Word): Word {
    if i == 0x100 then Mixed(was, data, 0xc_0122)
    else if i == 0x300 then Mixed(was, data, 0x7e_19aa)
    else if i == 0x104 || i == 0x144 then Mixed(was, data, 0x222)
    else if i == 0x303 then Masked(data, 0x222)
    else if i == 0x304 || i == 0x344 then Masked(data, 0xaaa)
    else if i == 0x302 then Masked(data, 0xf7ff)
    else if i == 0x106 || i == 0x306 then Masked(data, 0x5)
    else if i == 0x105 then TvecKept(data)
    else if i == 0x180 then SatpKept(data)
    else if i == 0x301 || i == 0x7a0 || i == 0x7a1 then was
    else data
  }

  lemma TvecLegal(data: Word)
    ensures LegalTvec(data) == TvecKept(data)
  {
  }

  lemma SatpLegal(data: Word)
    ensures LegalSatp(data) == SatpKept(data)
  {
  }

  lemma MStatusStored(m: MStatus, data: bv64)
    ensures PackM(WriteMStatus(m, UnpackM(data))) == (PackM(m) & !0x7e_19aa) | (data & 0x7e_19aa)
  {
  }

  lemma SStatusStored(m: MStatus, data: bv64)
    ensures PackM(WriteSStatus(m, UnpackS(data))) == (PackM(m) & !0xc_0122) | (data & 0xc_0122)
  {
  }

  lemma MergedMixed(w: Word, data: Word)
    ensures Merged(w, data) == Mixed(w, data, 0x222)
  {
  }

  /** The register as M-mode reads it. */
  function Contents(h: Hart, r: Register): Option<Word> {
    ReadRegister(h.(priv := M_MODE), r)
  }

  predicate ViewRegister(r: Register) {
    r.Sstatus? || r.Sie? || r.Sip? || r.Cycle?
  }

  function HomeRegister(r: Register): Register {
    if r.Sstatus? then Mstatus else if r.Sie? then Mie else if r.Sip? then Mip else r
  }

  lemma HomeNumber(r: Register)
    ensures NumberOf(HomeRegister(r)) == Home(NumberOf(r))
  {
  }

  lemma NumbersDiffer(q: Register, r: Register)
    ensures NumberOf(q) == NumberOf(r) <==> q == r
  {
    hide NumberOf, RegisterAt;
    NumberNames(q);
    NumberNames(r);
  }

  predicate LegalizedRegister(r: Register) {
    r.Stvec? || r.Scounteren? || r.Satp?
  }

  lemma LegalizedStored(h: Hart, r: Register, data: Word)
    requires LegalizedRegister(r)
    ensures Contents(h, r).Some?
    ensures Contents(h.(s := WriteOwn(h.s, r, data)), r) == Some(Stored(NumberOf(r), Contents(h, r).value, data))
  {
    hide PackM, PackS, Masked, SStatusRead, LegalTvec, LegalSatp, TvecKept, SatpKept, Mixed;
    TvecLegal(data);
    SatpLegal(data);
  }

  lemma OwnStored(h: Hart, r: Register, data: Word)
    requires OwnRegister(r) && !LegalizedRegister(r)
    ensures Contents(h, r).Some?
    ensures Contents(h.(s := WriteOwn(h.s, r, data)), r) == Some(Stored(NumberOf(r), Contents(h, r).value, data))
  {
    hide PackM, PackS, Masked, SStatusRead, TvecKept, SatpKept, Mixed;
  }

  lemma OwnSpares(h: Hart, r: Register, data: Word, q: Register)
    requires OwnRegister(r) && !ViewRegister(q) && q != r
    ensures Contents(h.(s := WriteOwn(h.s, r, data)), q) == Contents(h, q)
  {
    hide PackM, PackS, Masked, SStatusRead, LegalTvec, LegalSatp;
  }

  predicate MaskedRegister(r: Register) {
    r.Medeleg? || r.Mideleg? || r.Mcounteren?
  }

  lemma MaskedStored(h: Hart, r: Register, data: Word)
    requires MaskedRegister(r)
    ensures Contents(h, r).Some?
    ensures Contents(h.(m := WriteMachine(h.m, r, data)), r) == Some(Stored(NumberOf(r), Contents(h, r).value, data))
  {
    hide PackM, PackS, Masked, SStatusRead, TvecKept, SatpKept, Mixed;
  }

  lemma PlainStored(h: Hart, r: Register, data: Word)
    requires MachineRegister(r) && !MaskedRegister(r)
    ensures Contents(h, r).Some?
    ensures Contents(h.(m := WriteMachine(h.m, r, data)), r) == Some(Stored(NumberOf(r), Contents(h, r).value, data))
  {
    hide PackM, PackS, Masked, SStatusRead, TvecKept, SatpKept, Mixed;
  }

  lemma MachineSpares(h: Hart, r: Register, data: Word, q: Register)
    requires MachineRegister(r) && !ViewRegister(q) && q != r
    ensures Contents(h.(m := WriteMachine(h.m, r, data)), q) == Contents(h, q)
  {
    hide PackM, PackS, Masked, SStatusRead;
  }

  lemma InterruptsStored(h: Hart, r: Register, data: Word)
    requires InterruptRegister(r)
    ensures Contents(h, HomeRegister(r)).Some?
    ensures Contents(WriteInterrupt(h, r, data), HomeRegister(r))
         == Some(Stored(NumberOf(r), Contents(h, HomeRegister(r)).value, data))
  {
    hide PackM, PackS, Masked, SStatusRead, Merged, Mixed, TvecKept, SatpKept;
    MergedMixed(h.mie, data);
    MergedMixed(h.mip, data);
  }

  lemma InterruptsSpare(h: Hart, r: Register, data: Word, q: Register)
    requires InterruptRegister(r) && !ViewRegister(q) && q != HomeRegister(r)
    ensures Contents(WriteInterrupt(h, r, data), q) == Contents(h, q)
  {
    hide PackM, PackS, Masked, SStatusRead, Merged;
  }

  lemma MStatusWord(m: MStatus, data: Word)
    ensures W(PackM(WriteMStatus(m, UnpackM(data.bits)))) == Mixed(W(PackM(m)), data, 0x7e_19aa)
  {
    hide PackM, UnpackM;
    MStatusStored(m, data.bits);
  }

  lemma SStatusWord(m: MStatus, data: Word)
    ensures W(PackM(WriteSStatus(m, UnpackS(data.bits)))) == Mixed(W(PackM(m)), data, 0xc_0122)
  {
    hide PackM, UnpackS;
    SStatusStored(m, data.bits);
  }

  lemma StatusStored(h: Hart, r: Register, data: Word)
    requires StatusRegister(r)
    ensures Contents(h, Mstatus).Some?
    ensures Contents(h.(status := WriteStatus(h.status, r, Seen(data))), Mstatus)
         == Some(Stored(NumberOf(r), Contents(h, Mstatus).value, data))
  {
    hide PackM, UnpackM, UnpackS, Mixed, WriteMStatus, WriteSStatus, Masked, TvecKept, SatpKept;
    MStatusWord(h.status, data);
    SStatusWord(h.status, data);
  }

  lemma StatusSpares(h: Hart, r: Register, data: Word, q: Register)
    requires StatusRegister(r) && !ViewRegister(q) && q != Mstatus
    ensures Contents(h.(status := WriteStatus(h.status, r, Seen(data))), q) == Contents(h, q)
  {
    hide PackM, PackS, Masked, SStatusRead, WriteStatus;
  }

  lemma SharedStored(h: Hart, r: Register, data: Word)
    requires !OwnRegister(r) && !MachineRegister(r) && !InterruptRegister(r) && !StatusRegister(r)
    requires WriteRegister(h, r, Seen(data)).Some?
    ensures Contents(h, r).Some?
    ensures Contents(WriteRegister(h, r, Seen(data)).value, r)
         == Some(Stored(NumberOf(r), Contents(h, r).value, data))
  {
    hide PackM, PackS, Masked, SStatusRead, TvecKept, SatpKept, Mixed, UnpackM, UnpackS;
  }

  lemma SharedSpares(h: Hart, r: Register, data: Word, q: Register)
    requires !OwnRegister(r) && !MachineRegister(r) && !InterruptRegister(r) && !StatusRegister(r)
    requires WriteRegister(h, r, Seen(data)).Some? && !ViewRegister(q) && q != r
    ensures Contents(WriteRegister(h, r, Seen(data)).value, q) == Contents(h, q)
  {
    hide PackM, PackS, Masked, SStatusRead, UnpackM, UnpackS;
  }

  lemma RegisterStored(h: Hart, r: Register, data: Word)
    requires WriteRegister(h, r, Seen(data)).Some?
    ensures Contents(h, HomeRegister(r)).Some?
    ensures Contents(WriteRegister(h, r, Seen(data)).value, HomeRegister(r))
         == Some(Stored(NumberOf(r), Contents(h, HomeRegister(r)).value, data))
  {
    hide Contents, WriteOwn, WriteMachine, WriteInterrupt, WriteStatus, UnpackM, UnpackS, Stored, NumberOf;
    if OwnRegister(r) {
      if LegalizedRegister(r) {
        LegalizedStored(h, r, data);
      } else {
        OwnStored(h, r, data);
      }
    } else if MachineRegister(r) {
      if MaskedRegister(r) {
        MaskedStored(h, r, data);
      } else {
        PlainStored(h, r, data);
      }
    } else if InterruptRegister(r) {
      InterruptsStored(h, r, data);
    } else if StatusRegister(r) {
      StatusStored(h, r, data);
    } else {
      SharedStored(h, r, data);
    }
  }

  lemma RegisterSpares(h: Hart, r: Register, data: Word, q: Register)
    requires WriteRegister(h, r, Seen(data)).Some? && !ViewRegister(q) && q != HomeRegister(r)
    ensures Contents(WriteRegister(h, r, Seen(data)).value, q) == Contents(h, q)
  {
    hide Contents, WriteOwn, WriteMachine, WriteInterrupt, WriteStatus, UnpackM, UnpackS;
    if OwnRegister(r) {
      OwnSpares(h, r, data, q);
    } else if MachineRegister(r) {
      MachineSpares(h, r, data, q);
    } else if InterruptRegister(r) {
      InterruptsSpare(h, r, data, q);
    } else if StatusRegister(r) {
      StatusSpares(h, r, data, q);
    } else {
      SharedSpares(h, r, data, q);
    }
  }

  /** After a write of register i, its home holds what the number prescribes, and every
      other register what it held. */
  lemma WriteShows(h: Hart, i: Csr.Index, data: Word, j: Csr.Index)
    requires CsrWrite(h, i, data).Some? && Implemented(j) && !View(j)
    ensures Held(h, j).Some?
    ensures
      var was, now := Held(h, j).value, Held(CsrWrite(h, i, data).value, j);
      now == Some(if j == Home(i) then Stored(i, was, data) else was)
  {
    hide WriteRegister, ReadRegister, RegisterAt, NumberOf, Home, HomeRegister, Stored, Seen, Implemented;
    NumbersRead(h, j);
    var r, q := RegisterAt(i).value, RegisterAt(j).value;
    NamedNumber(i);
    NamedNumber(j);
    HomeNumber(r);
    NumbersDiffer(q, HomeRegister(r));
    ViewNumbers(q);
    if q == HomeRegister(r) {
      RegisterStored(h, r, data);
    } else {
      RegisterSpares(h, r, data, q);
    }
  }

  lemma ViewNumbers(q: Register)
    ensures ViewRegister(q) <==> View(NumberOf(q))
  {
  }

  // ----- Permission and reset

  /** Bits 9 and 8 of a number are the lowest mode that may use it, and numbers from
      0xc00 are read-only. */
  lemma PermissionByNumber(h: Hart, i: Csr.Index, write: bool)
    ensures Permitted(h, i, write) <==> (i & 0x300) <= (h.priv as bv12 << 8) && (write ==> i < 0xc00)
  {
  }

  /** What register i reads after reset, but for the hart id: both widths at 64 bits in
      the status word, RV64ACIMSU in misa, 1 in tselect and 0 elsewhere. */
  function ResetValue(i: Csr.Index): bv64 {
    if i == 0x300 then 0xa_0000_0000
    else if i == 0x100 then 0x2_0000_0000
    else if i == 0x301 then 0x8000_0000_0014_1105
    else if i == 0x7a0 then 1
    else 0
  }

  lemma ResetContents(h: Hart, r: Register)
    requires !r.Mhartid?
    ensures ReadRegister(Reset(h), r) == Some(W(ResetValue(NumberOf(r))))
  {
  }

  lemma HartIdShows(h: Hart)
    ensures CsrRead(Reset(h), 0xf14) == Some(h.hartId)
    ensures RegisterAt(0xf14) == Some(Mhartid) && NumberOf(Mhartid) == 0xf14
  {
    hide PackM, PackS, Masked, SStatusRead;
  }

  lemma ResetShows(h: Hart, i: Csr.Index)
    requires Implemented(i)
    ensures Reset(h).priv == M_MODE && Reset(h).nextPriv == M_MODE && Reset(h).pc == h.pc
    ensures CsrRead(Reset(h), i) == Some(if i == 0xf14 then h.hartId else W(ResetValue(i)))
  {
    hide ReadRegister, RegisterAt, NumberOf, ResetValue, Implemented;
    NumbersRead(h, i);
    NamedNumber(i);
    HartIdShows(h);
    OneNumber(i, Mhartid);
    if i != 0xf14 {
      ResetContents(h, RegisterAt(i).value);
    }
  }
}
