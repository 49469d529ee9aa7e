/** Virtual reads, writes and fetches over the plain walk, with no cache: the
    meaning that the MMU's cached accesses must have. */
module Sv39Access {
  import opened Words
  import opened Sv39Walk
  import opened Sv39Tlb

  datatype Feedback = AccessOk | AccessFault | PageFault | Misaligned

  /** The fields of the status register that the MMU consults. */
  datatype Status = Status(mprv: bool, mpp: Mode, sum: bool, mxr: bool)

  /** The processor state that the MMU reads through its references. */
  datatype Context = Context(satp: Satp, status: Status, priv: Mode)

  /** Loads and stores go untranslated. */
  predicate Bare(c: Context) {
    (c.priv == M_MODE && (!c.status.mprv || c.status.mpp == M_MODE)) || c.satp.mode == 0
  }

  /** Fetches go untranslated; mprv does not affect them. */
  predicate BareFetch(c: Context) {
    c.priv == M_MODE || c.satp.mode == 0
  }

  /** The last byte, computed in 64 bits, lies in another 4K page. */
  predicate CrossesPage(addr: nat, size: nat) {
    addr / 0x1000 != (addr + size - 1) % TWO_64 / 0x1000
  }

  function EffectivePriv(c: Context): Mode {
    if c.status.mprv && c.priv == M_MODE then c.status.mpp else c.priv
  }

  datatype Access = Load | Store | Fetch

  /** The permission test of each kind of access. */
  function Check(kind: Access, c: Context, t: Translation): Feedback {
    match kind
    case Load =>
      if !t.a || (!t.r && !(c.status.mxr && !t.x)) then PageFault
      else if EffectivePriv(c) == U_MODE && !t.u then PageFault
      else if !c.status.sum && c.priv == S_MODE && t.u then AccessFault
      else AccessOk
    case Store =>
      if !t.a || !t.d || !t.w then PageFault
      else if EffectivePriv(c) == U_MODE && !t.u then PageFault
      else if !c.status.sum && EffectivePriv(c) == S_MODE && t.u then PageFault
      else AccessOk
    case Fetch =>
      if !t.a || !t.x then PageFault
      else if (c.priv == U_MODE && !t.u) || (c.priv == S_MODE && t.u) then PageFault
      else AccessOk
  }

  datatype Target = Physical(addr: nat) | Refused(feedback: Feedback)

  /** Where a translated access goes. */
  function Resolve(pt: Tables, c: Context, kind: Access, addr: nat): Target {
    match Walk(pt, c.satp.ppn, addr)
    case None => Refused(PageFault)
    case Some(t) =>
      if Check(kind, c, t) != AccessOk then Refused(Check(kind, c, t)) else Physical(PhysAddr(t, addr))
  }

  predicate Untranslated(c: Context, kind: Access) {
    if kind == Fetch then BareFetch(c) else Bare(c)
  }

  function TargetOf(pt: Tables, c: Context, kind: Access, addr: nat, size: nat): Target {
    if Untranslated(c, kind) then Physical(addr)
    else if CrossesPage(addr, size) then Refused(Misaligned)
    else Resolve(pt, c, kind, addr)
  }

  function BusRead(mem: Memory, target: Target, size: nat): (Feedback, seq<Byte>) {
    match target
    case Refused(fb) => (fb, [])
    case Physical(pa) =>
      if Accessible(mem, pa, size) then (AccessOk, BytesAt(mem, pa, size)) else (AccessFault, [])
  }

  /** The meaning of a virtual read. */
  function PlainRead(mem: Memory, pt: Tables, c: Context, addr: nat, size: nat): (Feedback, seq<Byte>) {
    BusRead(mem, TargetOf(pt, c, Load, addr, size), size)
  }

  /** A fetch that is not split. */
  function PlainFetchPart(mem: Memory, pt: Tables, c: Context, addr: nat, size: nat): (Feedback, seq<Byte>) {
    BusRead(mem, TargetOf(pt, c, Fetch, addr, size), size)
  }

  /** The meaning of a fetch: four bytes at 2 modulo 4 are fetched in halves. */
  function PlainFetch(mem: Memory, pt: Tables, c: Context, addr: nat, size: nat): (Feedback, seq<Byte>) {
    if size == 4 && addr % 4 == 2 then
      var (fb1, low) := PlainFetchPart(mem, pt, c, addr, 2);
      if fb1 != AccessOk then (fb1, [])
      else
        var (fb2, high) := PlainFetchPart(mem, pt, c, (addr + 2) % TWO_64, 2);
        if fb2 != AccessOk then (fb2, []) else (AccessOk, low + high)
    else PlainFetchPart(mem, pt, c, addr, size)
  }

  function Stored(mem: Memory, pa: nat, bytes: seq<Byte>): Memory {
    map a | a in mem :: if pa <= a < pa + |bytes| then bytes[a - pa] else mem[a]
  }

  /** The meaning of a virtual write: the feedback and the new memory.  A
      translated write that no device takes is a page fault, an untranslated one
      an access fault. */
  function PlainWrite(mem: Memory, pt: Tables, c: Context, addr: nat, bytes: seq<Byte>): (Feedback, Memory) {
    match TargetOf(pt, c, Store, addr, |bytes|)
    case Refused(fb) => (fb, mem)
    case Physical(pa) =>
      if Accessible(mem, pa, |bytes|) then (AccessOk, Stored(mem, pa, bytes))
      else (if Bare(c) then AccessFault else PageFault, mem)
  }

  // ----- Permissions against the standard

  /** The mode whose rights an access uses; fetches ignore mprv. */
  function AccessPriv(kind: Access, c: Context): Mode {
    if kind == Fetch then c.priv else EffectivePriv(c)
  }

  /** Sections 4.3.1 and 4.3.2: the leaf permits the access. */
  predicate StandardAllows(kind: Access, c: Context, t: Translation) {
    var priv := AccessPriv(kind, c);
    t.a && (priv == U_MODE ==> t.u) &&
    match kind
    case Load => (t.r || (c.status.mxr && t.x)) && (priv == S_MODE && t.u ==> c.status.sum)
    case Store => t.d && t.w && (priv == S_MODE && t.u ==> c.status.sum)
    case Fetch => t.x && (priv == S_MODE ==> !t.u)
  }

  /** What a valid leaf carries. */
  predicate LeafBits(t: Translation) {
    (t.r || t.x) && (t.w ==> t.r)
  }

  /** A load that M-mode makes with S-mode rights from a user page, SUM clear. */
  predicate LoadAsSupervisor(c: Context, t: Translation) {
    c.priv == M_MODE && EffectivePriv(c) == S_MODE && t.u && !c.status.sum && t.a && t.r
  }

  /** A load from an executable page that MXR should make readable. */
  predicate LoadOfExecutable(c: Context, t: Translation) {
    !t.r && t.x && c.status.mxr && t.a && (EffectivePriv(c) == U_MODE ==> t.u) &&
    (EffectivePriv(c) == S_MODE && t.u ==> c.status.sum)
  }

  /** The permission tests meet the standard exactly outside two kinds of loads:
      SUM is tested on the current mode, and MXR has no effect. */
  lemma PermissionsMeetStandard(kind: Access, c: Context, t: Translation)
    requires LeafBits(t) && c.priv != 2
    ensures (Check(kind, c, t) == AccessOk <==> StandardAllows(kind, c, t)) <==>
              !(kind == Load && (LoadAsSupervisor(c, t) || LoadOfExecutable(c, t)))
  {
  }

  /** A valid leaf entry carries bits that the lemma above asks for. */
  lemma ValidLeafBits(pte: Pte, pagesize: nat)
    requires IsValidLeafPte(pte)
    ensures LeafBits(Leaf(pte, pagesize))
  {
  }

  /** Every translation that a walk finds carries such bits. */
  lemma WalkGivesLeafBits(pt: Tables, root: nat, v: nat)
    requires Walk(pt, root, v).Some?
    ensures LeafBits(Walk(pt, root, v).value)
  {
    hide IsValidLeafPte, IsValidDirPte, VpnOf, PteAddr;
    var l2 := pt(root * 0x1000 + VpnOf(v, 2) * 8);
    if IsValidLeafPte(l2) {
      ValidLeafBits(l2, 3);
    } else {
      var l1 := pt(PteAddr(l2) + VpnOf(v, 1) * 8);
      if IsValidLeafPte(l1) {
        ValidLeafBits(l1, 2);
      } else {
        ValidLeafBits(pt(PteAddr(l1) + VpnOf(v, 0) * 8), 1);
      }
    }
  }

  /** A load of S-mode from a readable user page, SUM clear: refused as the
      standard says, but as an access fault. */
  predicate SumRefusal(c: Context, t: Translation) {
    c.priv == S_MODE && t.u && !c.status.sum && t.a && (t.r || (c.status.mxr && !t.x))
  }

  /** So a mapped address is accessed, or refused with a page fault, as the standard
      says, exactly outside these three kinds of loads. */
  lemma AccessMeetsStandard(pt: Tables, c: Context, kind: Access, addr: nat)
    requires Walk(pt, c.satp.ppn, addr).Some? && c.priv != 2
    ensures
      var t := Walk(pt, c.satp.ppn, addr).value;
      Resolve(pt, c, kind, addr) ==
        (if StandardAllows(kind, c, t) then Physical(PhysAddr(t, addr)) else Refused(PageFault))
      <==> !(kind == Load && (LoadAsSupervisor(c, t) || LoadOfExecutable(c, t) || SumRefusal(c, t)))
  {
    hide Walk, PhysAddr;
    var t := Walk(pt, c.satp.ppn, addr).value;
    WalkGivesLeafBits(pt, c.satp.ppn, addr);
    PermissionsMeetStandard(kind, c, t);
    AccessFaultIsSum(kind, c, t);
  }

  /** A readable user page, and an executable page of the supervisor. */
  const USER_PAGE: Translation := Translation(1, 0, true, false, false, true, false, true, true)
  const CODE_PAGE: Translation := Translation(1, 0, false, false, true, false, false, true, true)

  /** M-mode loading as S-mode from the first, SUM clear: permitted here only. */
  lemma SumIgnoredForMachine()
    ensures
      var c := Context(Satp(SV39_MODE, 0, 0), Status(true, S_MODE, false, false), M_MODE);
      Check(Load, c, USER_PAGE) == AccessOk && !StandardAllows(Load, c, USER_PAGE)
  {
  }

  /** S-mode loading from the second, MXR set: permitted by the standard only. */
  lemma ExecutableNotReadable()
    ensures
      var c := Context(Satp(SV39_MODE, 0, 0), Status(false, U_MODE, false, true), S_MODE);
      Check(Load, c, CODE_PAGE) == PageFault && StandardAllows(Load, c, CODE_PAGE)
  {
  }

  /** The only refusal that is not a page fault is SUM on a load in S-mode. */
  lemma AccessFaultIsSum(kind: Access, c: Context, t: Translation)
    ensures Check(kind, c, t) == AccessFault <==>
      kind == Load && c.priv == S_MODE && t.u && !c.status.sum && t.a && (t.r || (c.status.mxr && !t.x))
  {
  }

  // ----- Laws of the plain accesses

  /** A size-aligned access and a halfword fetch at an even address stay inside
      one page, so neither reaches the cross-page branch. */
  lemma AlignedStaysInPage(addr: U64, size: nat)
    requires size in {1, 2, 4, 8} && addr % size == 0
    ensures !CrossesPage(addr, size)
  {
    RoomInPage(addr, size);
    FirstAndLastAgree(addr, size);
  }

  lemma RoomInPage(addr: U64, size: nat)
    requires size in {1, 2, 4, 8} && addr % size == 0
    ensures addr % 0x1000 + size <= 0x1000
  {
  }

  lemma FirstAndLastAgree(addr: U64, size: nat)
    requires 1 <= size && addr % 0x1000 + size <= 0x1000
    ensures !CrossesPage(addr, size)
  {
    assert addr + size <= TWO_64;
    assert (addr + size - 1) / 0x1000 == addr / 0x1000;
  }

  /** Inside one page byte i of the access lies in the page of its first byte. */
  lemma InsideOnePage(addr: U64, size: nat, i: nat)
    requires 1 <= size <= 0x1000 && !CrossesPage(addr, size) && i < size
    ensures addr + i < TWO_64
    ensures (addr + i) / 0x1000 == addr / 0x1000
    ensures addr % 0x1000 + i < 0x1000
    ensures PageBase(addr + i, 1) == PageBase(addr, 1)
    ensures !CrossesPage(addr + i, 1)
  {
    assert addr + size - 1 < TWO_64;
    assert (addr + size - 1) / 0x1000 == addr / 0x1000;
  }

  /** Offsets inside a 4K page move the physical address by the same amount. */
  lemma OffsetMovesPhysical(t: Translation, addr: nat, i: nat)
    requires 1 <= t.pagesize <= 3 && addr % 0x1000 + i < 0x1000
    ensures PhysAddr(t, addr + i) == PhysAddr(t, addr) + i
  {
    OffsetFields(addr);
    OffsetFields(addr + i);
    SamePageFields(addr, addr + i, 1);
  }

  /** Every byte of an access inside one page is translated where the first byte
      is, moved by its offset, and refused as it is. */
  lemma ByteTargets(pt: Tables, c: Context, addr: U64, size: nat, i: nat, kind: Access)
    requires 1 <= size <= 0x1000 && !CrossesPage(addr, size) && i < size
    ensures
      Resolve(pt, c, kind, addr + i) ==
        match Resolve(pt, c, kind, addr)
        case Refused(fb) => Refused(fb)
        case Physical(pa) => Physical(pa + i)
  {
    InsideOnePage(addr, size, i);
    WalkSame4K(pt, c.satp.ppn, addr, addr + i);
    if Walk(pt, c.satp.ppn, addr).Some? {
      OffsetMovesPhysical(Walk(pt, c.satp.ppn, addr).value, addr, i);
    }
  }

  function Moved(target: Target, i: nat): Target {
    match target
    case Refused(_) => target
    case Physical(pa) => Physical(pa + i)
  }

  lemma ReadTargetOfByte(pt: Tables, c: Context, addr: U64, size: nat, i: nat)
    requires 1 <= size <= 0x1000 && !CrossesPage(addr, size) && i < size
    ensures TargetOf(pt, c, Load, addr + i, 1) == Moved(TargetOf(pt, c, Load, addr, size), i)
  {
    InsideOnePage(addr, size, i);
    ByteTargets(pt, c, addr, size, i, Load);
  }

  /** Byte i of a bus access. */
  function BusByte(mem: Memory, target: Target, i: nat): (Feedback, seq<Byte>) {
    BusRead(mem, Moved(target, i), 1)
  }

  lemma BusReadIsBytewise(mem: Memory, target: Target, size: nat)
    requires 1 <= size && target != Refused(AccessOk)
    ensures BusRead(mem, target, size).0 == AccessOk
       <==> forall i :: 0 <= i < size ==> BusByte(mem, target, i).0 == AccessOk
    ensures BusRead(mem, target, size).0 == AccessOk ==>
              |BusRead(mem, target, size).1| == size &&
              forall i :: 0 <= i < size ==> BusByte(mem, target, i).1 == [BusRead(mem, target, size).1[i]]
  {
    if target.Refused? {
      assert BusByte(mem, target, 0).0 == target.feedback;
    } else if forall i :: 0 <= i < size ==> BusByte(mem, target, i).0 == AccessOk {
      forall a | target.addr <= a < target.addr + size ensures a in mem {
        assert BusByte(mem, target, a - target.addr).0 == AccessOk;
      }
    } else {
      var i :| 0 <= i < size && BusByte(mem, target, i).0 != AccessOk;
      assert target.addr + i !in mem;
    }
  }

  lemma PlainReadLength(mem: Memory, pt: Tables, c: Context, addr: nat, size: nat)
    ensures PlainRead(mem, pt, c, addr, size).0 == AccessOk ==> |PlainRead(mem, pt, c, addr, size).1| == size
  {
  }

  /** The read of byte i of an access, on its own. */
  function PlainReadByte(mem: Memory, pt: Tables, c: Context, addr: nat, i: nat): (Feedback, seq<Byte>) {
    PlainRead(mem, pt, c, addr + i, 1)
  }

  /** A read inside one page succeeds exactly when the read of each of its bytes
      does, and then returns those bytes. */
  lemma ReadIsBytewise(mem: Memory, pt: Tables, c: Context, addr: U64, size: nat)
    requires 1 <= size <= 0x1000 && !CrossesPage(addr, size)
    ensures PlainRead(mem, pt, c, addr, size).0 == AccessOk
       <==> forall i :: 0 <= i < size ==> PlainReadByte(mem, pt, c, addr, i).0 == AccessOk
    ensures PlainRead(mem, pt, c, addr, size).0 == AccessOk ==>
              |PlainRead(mem, pt, c, addr, size).1| == size &&
              forall i :: 0 <= i < size ==>
                PlainReadByte(mem, pt, c, addr, i).1 == [PlainRead(mem, pt, c, addr, size).1[i]]
  {
    var target := TargetOf(pt, c, Load, addr, size);
    BusReadIsBytewise(mem, target, size);
    forall i | 0 <= i < size
      ensures PlainReadByte(mem, pt, c, addr, i) == BusByte(mem, target, i)
    {
      ReadTargetOfByte(pt, c, addr, size, i);
    }
  }

  /** The bytes of a write one at a time, from byte i on, under the same tables:
      whether all succeed, and the memory so far. */
  function BytewiseWrite(mem: Memory, pt: Tables, c: Context, addr: nat, bytes: seq<Byte>, i: nat): (bool, Memory)
    requires i <= |bytes|
    decreases |bytes| - i
  {
    if i == |bytes| then (true, mem)
    else
      var (fb, now) := PlainWrite(mem, pt, c, addr + i, [bytes[i]]);
      if fb != AccessOk then (false, now) else BytewiseWrite(now, pt, c, addr, bytes, i + 1)
  }

  lemma WriteTargetOfByte(pt: Tables, c: Context, addr: U64, size: nat, i: nat)
    requires 1 <= size <= 0x1000 && !CrossesPage(addr, size) && i < size
    ensures TargetOf(pt, c, Store, addr + i, 1) == Moved(TargetOf(pt, c, Store, addr, size), i)
  {
    InsideOnePage(addr, size, i);
    ByteTargets(pt, c, addr, size, i, Store);
  }

  lemma StoredOneMore(mem: Memory, pa: nat, bytes: seq<Byte>, i: nat)
    requires i < |bytes|
    ensures Stored(Stored(mem, pa, bytes[..i]), pa + i, [bytes[i]]) == Stored(mem, pa, bytes[..i + 1])
  {
  }

  /** One byte of a write that is translated to pa. */
  lemma ByteWritten(now: Memory, pt: Tables, c: Context, addr: U64, size: nat, pa: nat, i: nat, b: Byte)
    requires 1 <= size <= 0x1000 && !CrossesPage(addr, size) && i < size
    requires TargetOf(pt, c, Store, addr, size) == Physical(pa)
    ensures PlainWrite(now, pt, c, addr + i, [b]).0 == AccessOk <==> pa + i in now
    ensures pa + i in now ==> PlainWrite(now, pt, c, addr + i, [b]).1 == Stored(now, pa + i, [b])
  {
    WriteTargetOfByte(pt, c, addr, size, i);
    assert Accessible(now, pa + i, 1) <==> pa + i in now;
  }

  lemma AccessibleOneMore(mem: Memory, pa: nat, i: nat)
    ensures Accessible(mem, pa, i + 1) <==> Accessible(mem, pa, i) && pa + i in mem
  {
    if Accessible(mem, pa, i) && pa + i in mem {
      forall a | pa <= a < pa + i + 1 ensures a in mem {
        assert a < pa + i || a == pa + i;
      }
    }
  }

  lemma LongerNeedsMore(mem: Memory, pa: nat, i: nat, size: nat)
    requires i < size && pa + i !in mem
    ensures !Accessible(mem, pa, size)
  {
  }

  /** From byte i on, when the first i are stored. */
  lemma {:induction false} BytewiseFrom(mem: Memory, pt: Tables, c: Context, addr: U64, bytes: seq<Byte>,
                                        pa: nat, i: nat)
    requires 1 <= |bytes| <= 0x1000 && !CrossesPage(addr, |bytes|) && i <= |bytes|
    requires TargetOf(pt, c, Store, addr, |bytes|) == Physical(pa)
    requires Accessible(mem, pa, i)
    ensures BytewiseWrite(Stored(mem, pa, bytes[..i]), pt, c, addr, bytes, i).0 <==> Accessible(mem, pa, |bytes|)
    ensures Accessible(mem, pa, |bytes|) ==>
              BytewiseWrite(Stored(mem, pa, bytes[..i]), pt, c, addr, bytes, i).1 == Stored(mem, pa, bytes)
    decreases |bytes| - i
  {
    if i == |bytes| {
      assert bytes[..i] == bytes;
    } else {
      var now := Stored(mem, pa, bytes[..i]);
      assert pa + i in now <==> pa + i in mem;
      ByteWritten(now, pt, c, addr, |bytes|, pa, i, bytes[i]);
      if pa + i in mem {
        StoredOneMore(mem, pa, bytes, i);
        AccessibleOneMore(mem, pa, i);
        BytewiseFrom(mem, pt, c, addr, bytes, pa, i + 1);
      } else {
        LongerNeedsMore(mem, pa, i, |bytes|);
      }
    }
  }

  /** A write inside one page succeeds exactly when its bytes can be written one
      at a time under the tables it started with, and leaves the same memory. */
  lemma WriteIsBytewise(mem: Memory, pt: Tables, c: Context, addr: U64, bytes: seq<Byte>)
    requires 1 <= |bytes| <= 0x1000 && !CrossesPage(addr, |bytes|)
    ensures PlainWrite(mem, pt, c, addr, bytes).0 == AccessOk <==> BytewiseWrite(mem, pt, c, addr, bytes, 0).0
    ensures PlainWrite(mem, pt, c, addr, bytes).0 == AccessOk ==>
              BytewiseWrite(mem, pt, c, addr, bytes, 0).1 == PlainWrite(mem, pt, c, addr, bytes).1
  {
    var target := TargetOf(pt, c, Store, addr, |bytes|);
    WriteTargetOfByte(pt, c, addr, |bytes|, 0);
    if target.Physical? {
      assert Stored(mem, target.addr, bytes[..0]) == mem;
      BytewiseFrom(mem, pt, c, addr, bytes, target.addr, 0);
    }
  }

  lemma HalvesStayInPage(addr: U64)
    requires addr % 4 == 2 && addr % 0x1000 != 0xffe
    ensures addr + 4 <= TWO_64
    ensures !CrossesPage(addr, 2) && !CrossesPage(addr + 2, 2) && !CrossesPage(addr, 4)
  {
    assert addr % 0x1000 % 4 == 2;
    assert addr % 0x1000 + 4 <= 0x1000;
    assert addr / 0x1000 * 0x1000 + 0x1000 <= TWO_64;
    assert (addr + 1) / 0x1000 == addr / 0x1000;
    assert (addr + 2) / 0x1000 == addr / 0x1000;
    assert (addr + 3) / 0x1000 == addr / 0x1000;
  }

  lemma FetchTargetOfHalves(pt: Tables, c: Context, addr: U64)
    requires addr % 4 == 2 && addr % 0x1000 != 0xffe
    ensures TargetOf(pt, c, Fetch, addr, 2) == TargetOf(pt, c, Fetch, addr, 4) != Refused(AccessOk)
    ensures TargetOf(pt, c, Fetch, addr + 2, 2) == Moved(TargetOf(pt, c, Fetch, addr, 4), 2)
  {
    HalvesStayInPage(addr);
    if !BareFetch(c) {
      ByteTargets(pt, c, addr, 4, 2, Fetch);
    }
  }

  lemma BusReadOfHalves(mem: Memory, pa: nat)
    ensures Accessible(mem, pa, 4) <==> Accessible(mem, pa, 2) && Accessible(mem, pa + 2, 2)
    ensures BytesAt(mem, pa, 4) == BytesAt(mem, pa, 2) + BytesAt(mem, pa + 2, 2)
  {
    if Accessible(mem, pa, 2) && Accessible(mem, pa + 2, 2) {
      forall a | pa <= a < pa + 4 ensures a in mem {
        assert a < pa + 2 || pa + 2 <= a < pa + 2 + 2;
      }
    }
  }

  /** Splitting a fetch that lies inside one page changes nothing. */
  lemma SplitFetchIsWhole(mem: Memory, pt: Tables, c: Context, addr: U64)
    requires addr % 4 == 2 && addr % 0x1000 != 0xffe
    ensures PlainFetch(mem, pt, c, addr, 4) == PlainFetchPart(mem, pt, c, addr, 4)
  {
    FetchTargetOfHalves(pt, c, addr);
    assert (addr + 2) % TWO_64 == addr + 2;
    var target := TargetOf(pt, c, Fetch, addr, 4);
    SplitBusRead(mem, target);
  }

  lemma SplitBusRead(mem: Memory, target: Target)
    requires target != Refused(AccessOk)
    ensures
      var (fb1, low) := BusRead(mem, target, 2);
      var (fb2, high) := BusRead(mem, Moved(target, 2), 2);
      BusRead(mem, target, 4) ==
        if fb1 != AccessOk then (fb1, []) else if fb2 != AccessOk then (fb2, []) else (AccessOk, low + high)
  {
    if target.Physical? {
      BusReadOfHalves(mem, target.addr);
    }
  }
}
