/** Whole virtual accesses against the standard: when an address is translated, where it
    goes, and what a missing device means for each kind of access. */
module AccessLaws {
  import opened Words
  import opened Sv39Walk
  import opened Sv39Access

  // ----- Where an access goes

  /** Section 4.4 with section 3.1.6.3: addresses are translated below M-mode while satp
      is not bare; loads and stores use the mode that MPRV and MPP give them. */
  predicate StandardTranslates(c: Context, kind: Access) {
    AccessPriv(kind, c) != M_MODE && c.satp.mode != 0
  }

  lemma TranslatedAsStandard(c: Context, kind: Access)
    ensures Untranslated(c, kind) <==> !StandardTranslates(c, kind)
  {
  }

  /** The address that the standard gives an access inside one page, or its page fault. */
  function StandardTarget(pt: Tables, c: Context, kind: Access, addr: nat): Target {
    if !StandardTranslates(c, kind) then Physical(addr)
    else
      match SpecWalk(pt, c.satp.ppn * 0x1000, 2, addr)
      case None => Refused(PageFault)
      case Some(t) => if StandardAllows(kind, c, t) then Physical(PhysAddr(t, addr)) else Refused(PageFault)
  }

  /** The path of the walk, which `WalkMeetsStandard` asks for. */
  predicate StandardPath(pt: Tables, c: Context, addr: nat) {
    !LeadsToLeaf(pt, c.satp.ppn * 0x1000, 2, addr) || ConformingPath(pt, c.satp.ppn * 0x1000, 2, addr)
  }

  /** The loads that `AccessMeetsStandard` singles out. */
  predicate OddLoad(kind: Access, c: Context, t: Translation) {
    kind == Load && (LoadAsSupervisor(c, t) || LoadOfExecutable(c, t) || SumRefusal(c, t))
  }

  /** When an access goes where the standard says: untranslated always; on a conforming
      path unless the load is an odd one; on any other path only when the permissions of
      the leaf, which the standard never looks at there, refuse it with a page fault. */
  predicate StandardAccess(pt: Tables, c: Context, kind: Access, addr: nat) {
    !StandardTranslates(c, kind) ||
    match Walk(pt, c.satp.ppn, addr)
    case None => true
    case Some(t) => if StandardPath(pt, c, addr) then !OddLoad(kind, c, t) else Check(kind, c, t) == PageFault
  }

  lemma NoLeafNoMapping(pt: Tables, root: nat, v: nat)
    ensures Walk(pt, root, v).None? ==> SpecWalk(pt, root * 0x1000, 2, v).None?
    ensures Walk(pt, root, v).Some? && !ConformingPath(pt, root * 0x1000, 2, v) ==>
              LeadsToLeaf(pt, root * 0x1000, 2, v) && SpecWalk(pt, root * 0x1000, 2, v).None?
  {
    hide Walk, SpecWalk, LeadsToLeaf, ConformingPath;
    WalkMeetsStandard(pt, root, v);
    WalkUnrolled(pt, root, v);
    LeafIsFound(pt, root * 0x1000, 2, v);
    if SpecWalk(pt, root * 0x1000, 2, v).Some? {
      StandardMappingKept(pt, root, v);
    }
  }

  lemma RefusedAsChecked(pt: Tables, c: Context, kind: Access, addr: nat)
    requires Walk(pt, c.satp.ppn, addr).Some?
    ensures Resolve(pt, c, kind, addr) == Refused(PageFault)
       <==> Check(kind, c, Walk(pt, c.satp.ppn, addr).value) == PageFault
  {
    hide Walk, Check, PhysAddr;
  }

  /** An access inside one page goes where the standard says, or faults as it says,
      exactly under that condition. */
  lemma TargetMeetsStandard(pt: Tables, c: Context, kind: Access, addr: nat, size: nat)
    requires c.priv != 2 && (StandardTranslates(c, kind) ==> !CrossesPage(addr, size))
    ensures TargetOf(pt, c, kind, addr, size) == StandardTarget(pt, c, kind, addr)
       <==> StandardAccess(pt, c, kind, addr)
  {
    hide Walk, SpecWalk, LeadsToLeaf, ConformingPath, StandardAllows, Check, PhysAddr, LoadAsSupervisor,
         LoadOfExecutable, SumRefusal, CrossesPage, Resolve, StandardTranslates, Untranslated;
    TranslatedAsStandard(c, kind);
    NoLeafNoMapping(pt, c.satp.ppn, addr);
    WalkMeetsStandard(pt, c.satp.ppn, addr);
    if StandardTranslates(c, kind) {
      match Walk(pt, c.satp.ppn, addr)
      case None => UnmappedFaults(pt, c, kind, addr);
      case Some(t) =>
        AccessMeetsStandard(pt, c, kind, addr);
        RefusedAsChecked(pt, c, kind, addr);
    }
  }

  lemma UnmappedFaults(pt: Tables, c: Context, kind: Access, addr: nat)
    requires Walk(pt, c.satp.ppn, addr).None?
    ensures Resolve(pt, c, kind, addr) == Refused(PageFault)
  {
    hide Walk;
  }

  // ----- What devices answer

  /** A physical address with devices behind every byte: reads and fetches return those
      bytes, a write changes them and no others. */
  lemma DevicesAnswer(mem: Memory, pt: Tables, c: Context, addr: nat, bytes: seq<Byte>, pa: nat)
    requires Accessible(mem, pa, |bytes|)
    ensures TargetOf(pt, c, Load, addr, |bytes|) == Physical(pa) ==>
              PlainRead(mem, pt, c, addr, |bytes|) == (AccessOk, BytesAt(mem, pa, |bytes|))
    ensures TargetOf(pt, c, Fetch, addr, |bytes|) == Physical(pa) ==>
              PlainFetchPart(mem, pt, c, addr, |bytes|) == (AccessOk, BytesAt(mem, pa, |bytes|))
    ensures TargetOf(pt, c, Store, addr, |bytes|) == Physical(pa) ==>
              PlainWrite(mem, pt, c, addr, bytes) == (AccessOk, Stored(mem, pa, bytes))
  {
    hide TargetOf, BytesAt, Stored;
  }

  /** Without them: an access fault of reads, fetches and untranslated writes, a page fault
      of translated writes; memory stays. */
  lemma NoDeviceFaults(mem: Memory, pt: Tables, c: Context, addr: nat, bytes: seq<Byte>, pa: nat)
    requires !Accessible(mem, pa, |bytes|)
    ensures TargetOf(pt, c, Load, addr, |bytes|) == Physical(pa) ==>
              PlainRead(mem, pt, c, addr, |bytes|).0 == AccessFault
    ensures TargetOf(pt, c, Fetch, addr, |bytes|) == Physical(pa) ==>
              PlainFetchPart(mem, pt, c, addr, |bytes|).0 == AccessFault
    ensures TargetOf(pt, c, Store, addr, |bytes|) == Physical(pa) ==>
              PlainWrite(mem, pt, c, addr, bytes)
                == (if StandardTranslates(c, Store) then PageFault else AccessFault, mem)
  {
    hide TargetOf, BytesAt, Stored, StandardTranslates;
    TranslatedAsStandard(c, Store);
  }

  /** A refused translation: its own fault, and memory stays. */
  lemma RefusalsFault(mem: Memory, pt: Tables, c: Context, addr: nat, bytes: seq<Byte>, fb: Feedback)
    ensures TargetOf(pt, c, Load, addr, |bytes|) == Refused(fb) ==> PlainRead(mem, pt, c, addr, |bytes|).0 == fb
    ensures TargetOf(pt, c, Fetch, addr, |bytes|) == Refused(fb) ==>
              PlainFetchPart(mem, pt, c, addr, |bytes|).0 == fb
    ensures TargetOf(pt, c, Store, addr, |bytes|) == Refused(fb) ==> PlainWrite(mem, pt, c, addr, bytes) == (fb, mem)
  {
    hide TargetOf, BytesAt, Stored;
  }

  /** What a fetch through a target comes to. */
  function FetchOf(mem: Memory, target: Target, size: nat): Feedback {
    match target
    case Refused(fb) => fb
    case Physical(pa) => if Accessible(mem, pa, size) then AccessOk else AccessFault
  }

  function HalfTarget(pt: Tables, c: Context, addr: nat): Target {
    TargetOf(pt, c, Fetch, addr, 2)
  }

  /** A four-byte fetch at 2 modulo 4 joins two halves, which may lie in two pages: the
      fault of the lower half comes first, and the halves are translated apart. */
  lemma HalvesFetch(mem: Memory, pt: Tables, c: Context, addr: U64)
    requires addr % 4 == 2
    ensures
      var low, high := HalfTarget(pt, c, addr), HalfTarget(pt, c, (addr + 2) % TWO_64);
      var fb1, fb2 := FetchOf(mem, low, 2), FetchOf(mem, high, 2);
      PlainFetch(mem, pt, c, addr, 4).0 == (if fb1 != AccessOk then fb1 else fb2) &&
      (fb1 == AccessOk && fb2 == AccessOk ==>
         low.Physical? && high.Physical? &&
         PlainFetch(mem, pt, c, addr, 4).1 == BytesAt(mem, low.addr, 2) + BytesAt(mem, high.addr, 2))
  {
    hide TargetOf, BytesAt;
    FetchNeverOk(pt, c, addr);
    FetchNeverOk(pt, c, (addr + 2) % TWO_64);
  }

  lemma FetchNeverOk(pt: Tables, c: Context, addr: nat)
    ensures HalfTarget(pt, c, addr) != Refused(AccessOk)
  {
    hide Walk, PhysAddr;
  }
}
