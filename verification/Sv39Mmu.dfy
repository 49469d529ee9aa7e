/** The Sv39 MMU object: a TLB array, a hash index and a replacement pointer,
    updated in place.  Each method is tied to the value operations of Sv39Tlb,
    and each access to its meaning over the plain walk. */
module Sv39Mmu {
  import opened Words
  import opened Sv39Walk
  import opened Sv39Tlb
  import opened Sv39Runs
  import opened Sv39Access
  import opened Sv39Uses

  /** The core's registers that the MMU reads by reference. */
  class CoreRegisters {
    var satp: Satp
    var status: Status
    var currentPrivMode: Mode

    constructor ()
      ensures satp == Satp(0, 0, 0) && currentPrivMode == M_MODE
    {
      satp := Satp(0, 0, 0);
      status := Status(false, 0, false, false);
      currentPrivMode := M_MODE;
    }

    function Context(): Context
      reads this
    {
      Sv39Access.Context(satp, status, currentPrivMode)
    }
  }

  /** The system bus with plain memory behind it. */
  class SystemBus {
    var mem: Memory

    constructor (mem: Memory)
      ensures this.mem == mem
    {
      this.mem := mem;
    }

    method Read(addr: nat, size: nat) returns (ok: bool, bytes: seq<Byte>)
      ensures ok <==> Accessible(mem, addr, size)
      ensures ok ==> bytes == BytesAt(mem, addr, size)
    {
      bytes := [];
      for i := 0 to size
        invariant |bytes| == i
        invariant forall a :: addr <= a < addr + i ==> a in mem
        invariant forall k :: 0 <= k < i ==> bytes[k] == ByteAt(mem, addr + k)
      {
        if addr + i !in mem {
          return false, [];
        }
        bytes := bytes + [mem[addr + i]];
      }
      ok := true;
      assert bytes == BytesAt(mem, addr, size);
    }

    method Write(addr: nat, bytes: seq<Byte>) returns (ok: bool)
      modifies this
      ensures ok <==> Accessible(old(mem), addr, |bytes|)
      ensures mem == if ok then Stored(old(mem), addr, bytes) else old(mem)
    {
      ok := forall a :: addr <= a < addr + |bytes| ==> a in mem;
      if ok {
        mem := map a | a in mem :: if addr <= a < addr + |bytes| then bytes[a - addr] else mem[a];
      }
    }
  }

  predicate IsPageSize(bytes: nat) {
    bytes == 0x1000 || bytes == 0x20_0000 || bytes == 0x4000_0000
  }

  /** The size code that a TLB slot stores for a page of so many bytes. */
  function PageClass(bytes: nat): (pagesize: nat)
    ensures 1 <= pagesize <= 3
  {
    if bytes == 0x1000 then 1 else if bytes == 0x20_0000 then 2 else 3
  }

  class RV64Sv39Mmu {
    const regs: CoreRegisters
    const bus: SystemBus
    const tlb: array<TlbEntry>
    var tlbGetCache: map<nat, nat>
    var lastSwappedIndex: nat
    ghost var history: set<TlbEntry>

    ghost function State(): Tlb
      reads this, tlb
    {
      Tlb(tlb[..], tlbGetCache, lastSwappedIndex)
    }

    ghost predicate Valid()
      reads this, tlb
    {
      Inv(State(), history)
    }

    /** Slots come up not live but otherwise arbitrary, like `slots`. */
    constructor (regs: CoreRegisters, bus: SystemBus, slots: array<TlbEntry>)
      requires slots.Length == TLB_SIZE
      modifies slots
      ensures this.regs == regs && this.bus == bus && this.tlb == slots
      ensures Initial(State()) && history == {} && Valid()
    {
      this.regs := regs;
      this.bus := bus;
      this.tlb := slots;
      tlbGetCache := map[];
      lastSwappedIndex := 0;
      history := {};
      new;
      for i := 0 to TLB_SIZE
        invariant forall k :: 0 <= k < i ==> tlb[k].pagesize == 0
        invariant lastSwappedIndex == 0 && tlbGetCache == map[] && history == {}
      {
        tlb[i] := tlb[i].(pagesize := 0);
      }
      InitialInv(State());
    }

    method GetTlbIndexToSwapOut() returns (index: nat)
      modifies this`lastSwappedIndex
      ensures index == old(lastSwappedIndex)
      ensures lastSwappedIndex == (old(lastSwappedIndex) + 1) % TLB_SIZE
    {
      index := lastSwappedIndex;
      lastSwappedIndex := (lastSwappedIndex + 1) % TLB_SIZE;
    }

    /** The entry stored at a physical address that a device backs. */
    method ReadTableEntry(addr: nat) returns (pte: Pte)
      requires Accessible(bus.mem, addr, 8)
      ensures pte == TablesIn(bus.mem)(addr)
    {
      var ok, bytes := bus.Read(addr, 8);
      pte := DecodePte(BitsOf(bytes));
      assert pte == EntryAt(bus.mem, addr);
    }

    /** Take the next slot in turn and drop its entry from the index. */
    method EvictNext() returns (slot: nat)
      requires WellFormed(State())
      modifies this`tlbGetCache, this`lastSwappedIndex
      ensures slot == old(lastSwappedIndex) < tlb.Length
      ensures tlbGetCache == old(tlbGetCache) - {tlb[slot].vpa}
      ensures lastSwappedIndex == (slot + 1) % TLB_SIZE
    {
      slot := GetTlbIndexToSwapOut();
      if tlb[slot].vpa in tlbGetCache {
        tlbGetCache := tlbGetCache - {tlb[slot].vpa};
      }
      assert tlbGetCache == old(tlbGetCache) - {tlb[slot].vpa};
    }

    /** The fields that a fill stores. */
    method MakeEntry(leaf: Pte, pageSize: nat, vaddr: nat) returns (e: TlbEntry)
      requires IsPageSize(pageSize)
      ensures e == EntryFor(Leaf(leaf, PageClass(pageSize)), regs.satp.asid, vaddr)
    {
      hide PteAddr;
      var pagesize := PageClass(pageSize);
      assert pageSize == PageBytes(pagesize);
      e := TlbEntry(
        PteAddr(leaf), vaddr - vaddr % pageSize, regs.satp.asid, pagesize,
        leaf.r, leaf.w, leaf.x, leaf.u, leaf.g, leaf.a, leaf.d);
    }

    method WriteTlb(leaf: Pte, pageSize: nat, vaddr: nat) returns (slot: nat)
      requires WellFormed(State()) && IsPageSize(pageSize)
      modifies this`tlbGetCache, this`lastSwappedIndex, tlb
      ensures slot == old(lastSwappedIndex) < tlb.Length
      ensures State() == Fill(old(State()), Leaf(leaf, PageClass(pageSize)), regs.satp.asid, vaddr)
    {
      var e := MakeEntry(leaf, pageSize, vaddr);
      slot := EvictNext();
      tlb[slot] := e;
      tlbGetCache := tlbGetCache[e.vpa := slot];
      assert tlb[..] == old(tlb[..])[slot := e];
    }

    /** The scan is reached: no probe of the index answers. */
    ghost predicate IndexMisses(vaddr: nat)
      requires WellFormed(State())
      reads this, tlb, regs
    {
      FastPath(State(), regs.satp.asid, vaddr).None?
    }

    /** What the assertions of the source demand of a lookup: a canonical
        address, one match at most if the scan is reached, and readable tables
        if the walk is. */
    ghost predicate MayLookUp(vaddr: nat)
      requires WellFormed(State())
      reads this, tlb, regs, bus
    {
      Canonical(vaddr) &&
      (IndexMisses(vaddr) ==> AtMostOneHit(State(), regs.satp.asid, vaddr)) &&
      (IndexMisses(vaddr) && Scan(tlb[..], regs.satp.asid, vaddr, 0).None? && regs.satp.mode == SV39_MODE ==>
         TablesReadable(TablesIn(bus.mem), bus.mem, regs.satp.ppn * 0x1000, 2, vaddr))
    }

    /** The linear scan, refilling the index for the slot it finds. */
    method ScanSlots(vaddr: nat) returns (found: Option<nat>)
      requires WellFormed(State()) && AtMostOneHit(State(), regs.satp.asid, vaddr)
      modifies this`tlbGetCache
      ensures found == Scan(tlb[..], regs.satp.asid, vaddr, 0)
      ensures tlbGetCache == if found.None? then old(tlbGetCache)
                             else old(tlbGetCache)[tlb[found.value].vpa := found.value]
    {
      found := None;
      var i := 0;
      while i < TLB_SIZE
        invariant i <= TLB_SIZE
        invariant found.None? ==> tlbGetCache == old(tlbGetCache)
        invariant found.None? ==> forall k :: 0 <= k < i ==> !Hits(tlb[k], regs.satp.asid, vaddr)
        invariant found.Some? ==> found.value < i && Hits(State().slots[found.value], regs.satp.asid, vaddr)
        invariant found.Some? ==> tlbGetCache == old(tlbGetCache)[tlb[found.value].vpa := found.value]
      {
        if tlb[i].asid == regs.satp.asid || tlb[i].g {
          if 1 <= tlb[i].pagesize <= 3 {
            var page := vaddr - vaddr % PageBytes(tlb[i].pagesize);
            if page == tlb[i].vpa {
              assert Hits(State().slots[i], regs.satp.asid, vaddr);
              assert found == None;  // the assertion in the source's loop
              found := Some(i);
              tlbGetCache := tlbGetCache[page := i];
            }
          }
        }
        i := i + 1;
      }
      var s := Scan(tlb[..], regs.satp.asid, vaddr, 0);
      if s.Some? && found.Some? {
        assert Hits(State().slots[s.value], regs.satp.asid, vaddr);
        assert Hits(State().slots[found.value], regs.satp.asid, vaddr);
      }
    }

    /** One probe of the index. */
    method ProbeIndex(vaddr: nat, pagesize: nat) returns (found: Option<nat>)
      requires WellFormed(State()) && 1 <= pagesize <= 3
      ensures found == Probe(State(), regs.satp.asid, vaddr, pagesize)
    {
      found := None;
      var key := vaddr - vaddr % PageBytes(pagesize);
      if key in tlbGetCache {
        var slot := tlbGetCache[key];
        if tlb[slot].asid == regs.satp.asid || tlb[slot].g {
          if tlb[slot].pagesize == pagesize {
            found := Some(slot);
          }
        }
      }
    }

    /** The unrolled walk: the leaf entry and the size of its page in bytes. */
    method WalkTables(vaddr: nat) returns (leaf: Option<(Pte, nat)>)
      requires TablesReadable(TablesIn(bus.mem), bus.mem, regs.satp.ppn * 0x1000, 2, vaddr)
      ensures leaf.Some? ==> IsPageSize(leaf.value.1)
      ensures Walk(TablesIn(bus.mem), regs.satp.ppn, vaddr) ==
        if leaf.None? then None
        else Some(Leaf(leaf.value.0, PageClass(leaf.value.1)))
    {
      hide VpnOf, PteAddr, EntryAt, IsValidLeafPte, IsValidDirPte;
      var l2 := ReadTableEntry(regs.satp.ppn * 0x1000 + VpnOf(vaddr, 2) * 8);
      if IsValidLeafPte(l2) { return Some((l2, 0x4000_0000)); }
      if !IsValidDirPte(l2) { return None; }
      var l1 := ReadTableEntry(PteAddr(l2) + VpnOf(vaddr, 1) * 8);
      if IsValidLeafPte(l1) { return Some((l1, 0x20_0000)); }
      if !IsValidDirPte(l1) { return None; }
      var l0 := ReadTableEntry(PteAddr(l1) + VpnOf(vaddr, 0) * 8);
      if IsValidLeafPte(l0) { return Some((l0, 0x1000)); }
      return None;
    }

    /** Index, then scan, then walk. */
    method GetTlbEntry(vaddr: nat) returns (slot: Option<nat>)
      requires Valid() && MayLookUp(vaddr)
      modifies this, tlb
      ensures Valid()
      ensures (State(), slot) == Lookup(old(State()), regs.satp, TablesIn(bus.mem), vaddr)
      ensures history == Recall(old(history), regs.satp, TablesIn(bus.mem), vaddr)
    {
      hide Walk, TablesReadable, Canonical, AtMostOneHit;
      LookupKeepsInv(State(), history, regs.satp, TablesIn(bus.mem), vaddr);
      history := Recall(history, regs.satp, TablesIn(bus.mem), vaddr);
      slot := ProbeIndex(vaddr, 1);
      if slot.Some? { return; }
      slot := ProbeIndex(vaddr, 2);
      if slot.Some? { return; }
      slot := ProbeIndex(vaddr, 3);
      if slot.Some? { return; }
      slot := ScanSlots(vaddr);
      if slot.Some? { return; }
      if regs.satp.mode != SV39_MODE {
        return None;
      }
      var leaf := WalkTables(vaddr);
      if leaf.None? {
        return None;
      }
      var filled := WriteTlb(leaf.value.0, leaf.value.1, vaddr);
      slot := Some(filled);
    }

    method DropIfCovered(i: nat, vaddr: nat, asid: nat)
      requires i < tlb.Length
      modifies tlb
      ensures tlb[..] == old(tlb[..])[i := Dropped(old(tlb[i]), vaddr, asid)]
    {
      if tlb[i].asid == asid || asid == 0 {
        if vaddr == 0 {
          tlb[i] := tlb[i].(pagesize := 0);
        } else if 1 <= tlb[i].pagesize <= 3 {
          var bytes := PageBytes(tlb[i].pagesize);
          if tlb[i].vpa - tlb[i].vpa % bytes == vaddr - vaddr % bytes {
            tlb[i] := tlb[i].(pagesize := 0);
          }
        }
      }
    }

    /** `sfence.vma`: stale keys stay in the index, dead slots are never used. */
    method FlushTlb(vaddr: nat, asid: nat)
      requires Valid()
      modifies this`history, tlb
      ensures Valid()
      ensures State() == Fence(old(State()), vaddr, asid)
      ensures history == Forget(old(history), vaddr, asid)
    {
      FenceKeepsInv(State(), history, vaddr, asid);
      ghost var fenced := Fence(State(), vaddr, asid);
      for i := 0 to TLB_SIZE
        invariant tlb[..] == fenced.slots[..i] + old(tlb[..])[i..]
        invariant history == old(history)
      {
        DropIfCovered(i, vaddr, asid);
      }
      history := Forget(history, vaddr, asid);
      assert tlb[..] == fenced.slots;
    }

    // ----- Accesses

    /** What software owes for a translated access to v. */
    ghost predicate MayUse(v: nat)
      reads this, regs, bus
    {
      Usable(history, regs.satp, TablesIn(bus.mem), bus.mem, v)
    }

    ghost predicate MayUseByte(start: nat, i: nat)
      reads this, regs, bus
    {
      UsableAt(history, regs.satp, TablesIn(bus.mem), bus.mem, start, i)
    }

    /** A disciplined lookup yields the translation of the plain walk. */
    method Translate(v: nat) returns (t: Option<Translation>)
      requires Valid() && MayUse(v)
      modifies this, tlb
      ensures Valid() && history == Recall(old(history), regs.satp, TablesIn(bus.mem), v)
      ensures t == Walk(TablesIn(bus.mem), regs.satp.ppn, v)
      ensures t.Some? ==> 1 <= t.value.pagesize <= 3
    {
      LookupIsWalk(State(), history, regs.satp, TablesIn(bus.mem), v);
      DisciplineGivesUniqueness(State(), history, regs.satp, TablesIn(bus.mem), v);
      var slot := GetTlbEntry(v);
      t := if slot.None? then None else Some(Carried(tlb[slot.value]));
    }

    /** The translated half of a read: lookup, permission checks, address. */
    method ResolveLoad(addr: nat) returns (target: Target)
      requires Valid() && MayUse(addr)
      modifies this, tlb
      ensures Valid() && history == Recall(old(history), regs.satp, TablesIn(bus.mem), addr)
      ensures target == Resolve(TablesIn(bus.mem), regs.Context(), Load, addr)
    {
      hide Walk, Usable, Recall, Inv;
      var t := Translate(addr);
      if t.None? || !t.value.a || (!t.value.r && !(regs.status.mxr && !t.value.x)) {
        return Refused(PageFault);
      }
      var priv := if regs.status.mprv && regs.currentPrivMode == M_MODE then regs.status.mpp else regs.currentPrivMode;
      if priv == U_MODE && !t.value.u {
        return Refused(PageFault);
      }
      if !regs.status.sum && regs.currentPrivMode == S_MODE && t.value.u {
        return Refused(AccessFault);
      }
      target := Physical(t.value.ppa + addr % PageBytes(t.value.pagesize));
    }

    /** Where a load goes. */
    method LoadTarget(addr: U64, size: nat) returns (target: Target)
      requires Valid() && MayAccess(history, bus.mem, regs.Context(), Load, addr, size)
      modifies this, tlb
      ensures Valid() && history == Touched(old(history), bus.mem, regs.Context(), Load, addr, size)
      ensures target == TargetOf(TablesIn(bus.mem), regs.Context(), Load, addr, size)
    {
      if (regs.currentPrivMode == M_MODE && (!regs.status.mprv || regs.status.mpp == M_MODE)) || regs.satp.mode == 0 {
        target := Physical(addr);
      } else if addr / 0x1000 != (addr + size - 1) % TWO_64 / 0x1000 {
        target := Refused(Misaligned);
      } else {
        target := ResolveLoad(addr);
      }
    }

    method VAddrRead(addr: U64, size: nat) returns (fb: Feedback, buffer: seq<Byte>)
      requires Valid() && size >= 1
      requires MayAccess(history, bus.mem, regs.Context(), Load, addr, size)
      modifies this, tlb
      ensures Valid() && history == Touched(old(history), bus.mem, regs.Context(), Load, addr, size)
      ensures (fb, buffer) == PlainRead(bus.mem, TablesIn(bus.mem), regs.Context(), addr, size)
    {
      var target := LoadTarget(addr, size);
      fb, buffer := ReadTarget(target, size);
    }

    method ReadTarget(target: Target, size: nat) returns (fb: Feedback, buffer: seq<Byte>)
      ensures (fb, buffer) == BusRead(bus.mem, target, size)
    {
      if target.Refused? {
        return target.feedback, [];
      }
      var ok;
      ok, buffer := bus.Read(target.addr, size);
      if !ok { return AccessFault, []; }
      fb := AccessOk;
    }

    method ResolveStore(addr: nat) returns (target: Target)
      requires Valid() && MayUse(addr)
      modifies this, tlb
      ensures Valid() && history == Recall(old(history), regs.satp, TablesIn(bus.mem), addr)
      ensures target == Resolve(TablesIn(bus.mem), regs.Context(), Store, addr)
    {
      hide Walk, Usable, Recall, Inv;
      var t := Translate(addr);
      if t.None? || !t.value.a || !t.value.d || !t.value.w {
        return Refused(PageFault);
      }
      var priv := if regs.status.mprv && regs.currentPrivMode == M_MODE then regs.status.mpp else regs.currentPrivMode;
      if priv == U_MODE && !t.value.u {
        return Refused(PageFault);
      }
      if !regs.status.sum && priv == S_MODE && t.value.u {
        return Refused(PageFault);
      }
      target := Physical(t.value.ppa + addr % PageBytes(t.value.pagesize));
    }

    /** Where a store goes. */
    method StoreTarget(addr: U64, size: nat) returns (target: Target)
      requires Valid() && MayAccess(history, bus.mem, regs.Context(), Store, addr, size)
      modifies this, tlb
      ensures Valid() && history == Touched(old(history), bus.mem, regs.Context(), Store, addr, size)
      ensures target == TargetOf(TablesIn(bus.mem), regs.Context(), Store, addr, size)
    {
      if (regs.currentPrivMode == M_MODE && (!regs.status.mprv || regs.status.mpp == M_MODE)) || regs.satp.mode == 0 {
        target := Physical(addr);
      } else if addr / 0x1000 != (addr + size - 1) % TWO_64 / 0x1000 {
        target := Refused(Misaligned);
      } else {
        target := ResolveStore(addr);
      }
    }

    method VAddrWrite(addr: U64, buffer: seq<Byte>) returns (fb: Feedback)
      requires Valid() && |buffer| >= 1
      requires MayAccess(history, bus.mem, regs.Context(), Store, addr, |buffer|)
      modifies this, tlb, bus
      ensures Valid() && history == Touched(old(history), old(bus.mem), regs.Context(), Store, addr, |buffer|)
      ensures (fb, bus.mem) == PlainWrite(old(bus.mem), TablesIn(old(bus.mem)), regs.Context(), addr, buffer)
    {
      var machine := regs.currentPrivMode == M_MODE && (!regs.status.mprv || regs.status.mpp == M_MODE);
      var bare := machine || regs.satp.mode == 0;
      var target := StoreTarget(addr, |buffer|);
      if target.Refused? {
        return target.feedback;
      }
      var ok := bus.Write(target.addr, buffer);
      fb := if ok then AccessOk else if bare then AccessFault else PageFault;
    }

    method ResolveFetch(addr: nat) returns (target: Target)
      requires Valid() && MayUse(addr)
      modifies this, tlb
      ensures Valid() && history == Recall(old(history), regs.satp, TablesIn(bus.mem), addr)
      ensures target == Resolve(TablesIn(bus.mem), regs.Context(), Fetch, addr)
    {
      hide Walk, Usable, Recall, Inv;
      var t := Translate(addr);
      if t.None? || !t.value.a || !t.value.x {
        return Refused(PageFault);
      }
      if (regs.currentPrivMode == U_MODE && !t.value.u) || (regs.currentPrivMode == S_MODE && t.value.u) {
        return Refused(PageFault);
      }
      target := Physical(t.value.ppa + addr % PageBytes(t.value.pagesize));
    }

    /** Where a fetch goes. */
    method FetchTarget(addr: U64, size: nat) returns (target: Target)
      requires Valid() && MayAccess(history, bus.mem, regs.Context(), Fetch, addr, size)
      modifies this, tlb
      ensures Valid() && history == Touched(old(history), bus.mem, regs.Context(), Fetch, addr, size)
      ensures target == TargetOf(TablesIn(bus.mem), regs.Context(), Fetch, addr, size)
    {
      if regs.currentPrivMode == M_MODE || regs.satp.mode == 0 {
        target := Physical(addr);
      } else if addr / 0x1000 != (addr + size - 1) % TWO_64 / 0x1000 {
        target := Refused(Misaligned);
      } else {
        target := ResolveFetch(addr);
      }
    }

    /** A fetch that is not split. */
    method FetchPart(addr: U64, size: nat) returns (fb: Feedback, buffer: seq<Byte>)
      requires Valid() && size >= 1
      requires MayAccess(history, bus.mem, regs.Context(), Fetch, addr, size)
      modifies this, tlb
      ensures Valid() && history == Touched(old(history), bus.mem, regs.Context(), Fetch, addr, size)
      ensures (fb, buffer) == PlainFetchPart(bus.mem, TablesIn(bus.mem), regs.Context(), addr, size)
    {
      var target := FetchTarget(addr, size);
      fb, buffer := ReadTarget(target, size);
    }

    /** Four bytes at 2 modulo 4, as two halfword fetches. */
    method FetchHalves(addr: U64) returns (fb: Feedback, buffer: seq<Byte>)
      requires Valid() && addr % 4 == 2 && MayFetch(history, bus.mem, regs.Context(), addr, 4)
      modifies this, tlb
      ensures Valid() && history == FetchTouched(old(history), bus.mem, regs.Context(), addr, 4)
      ensures (fb, buffer) == PlainFetch(bus.mem, TablesIn(bus.mem), regs.Context(), addr, 4)
    {
      var low;
      fb, low := FetchPart(addr, 2);
      if fb != AccessOk { return fb, []; }
      fb, buffer := FetchPart((addr + 2) % TWO_64, 2);
      if fb != AccessOk { return fb, []; }
      buffer := low + buffer;
    }

    /** An instruction fetch of two or four bytes at an even address. */
    method VAddrInstFetch(addr: U64, size: nat) returns (fb: Feedback, buffer: seq<Byte>)
      requires Valid() && (size == 2 || size == 4) && addr % 2 == 0
      requires MayFetch(history, bus.mem, regs.Context(), addr, size)
      modifies this, tlb
      ensures Valid() && history == FetchTouched(old(history), bus.mem, regs.Context(), addr, size)
      ensures (fb, buffer) == PlainFetch(bus.mem, TablesIn(bus.mem), regs.Context(), addr, size)
    {
      if size == 4 && addr % 4 == 2 {
        fb, buffer := FetchHalves(addr);
      } else {
        fb, buffer := FetchPart(addr, size);
      }
    }

    /** One single-byte read; the later addresses stay usable. */
    method ReadOneByte(start: U64, i: nat, size: nat) returns (fb: Feedback, bytes: seq<Byte>)
      requires Valid() && start + size <= TWO_64 && i < size && !BareFetch(regs.Context())
      requires forall k :: i <= k < size ==> MayUseByte(start, k)
      modifies this, tlb
      ensures Valid()
      ensures forall k :: i + 1 <= k < size ==> MayUseByte(start, k)
      ensures (fb, bytes) == ByteRead(bus.mem, regs.Context(), start, i)
    {
      assert MayUseByte(start, i);
      ghost var was := history;
      assert forall k :: i <= k < size ==> UsableAt(was, regs.satp, TablesIn(bus.mem), bus.mem, start, k) by {
        forall k | i <= k < size ensures UsableAt(was, regs.satp, TablesIn(bus.mem), bus.mem, start, k) {
          assert MayUseByte(start, k);
        }
      }
      fb, bytes := VAddrRead(start + i, 1);
      RestStillUsable(was, history, regs.satp, TablesIn(bus.mem), bus.mem, start, i, size);
    }

    /** Byte by byte, whatever fills and evictions happen between the bytes. */
    method ReadByBytes(start: U64, size: nat) returns (ok: bool, buffer: seq<Byte>)
      requires Valid() && start + size <= TWO_64 && !BareFetch(regs.Context())
      requires forall i :: 0 <= i < size ==> MayUseByte(start, i)
      modifies this, tlb
      ensures Valid()
      ensures ok <==> forall i :: 0 <= i < size ==> ByteRead(bus.mem, regs.Context(), start, i).0 == AccessOk
      ensures ok ==> |buffer| == size
      ensures ok ==> forall i :: 0 <= i < size ==> ByteRead(bus.mem, regs.Context(), start, i).1 == [buffer[i]]
    {
      hide PlainRead, Usable;
      ghost var mem, context := bus.mem, regs.Context();
      ghost var wanted := seq(size, i requires 0 <= i < size => ByteRead(mem, context, start, i));
      assert forall k :: 0 <= k < size ==> wanted[k] == ByteRead(bus.mem, regs.Context(), start, k);
      buffer := [];
      for i := 0 to size
        invariant Valid() && |buffer| == i
        invariant forall k :: i <= k < size ==> MayUseByte(start, k)
        invariant forall k :: 0 <= k < i ==> wanted[k] == (AccessOk, [buffer[k]])
      {
        var fb, bytes := ReadOneByte(start, i, size);
        assert (fb, bytes) == wanted[i];
        if fb != AccessOk {
          return false, [];
        }
        PlainReadLength(bus.mem, TablesIn(bus.mem), regs.Context(), start + i, 1);
        assert bytes == [bytes[0]];
        buffer := buffer + bytes;
      }
      ok := true;
    }

    /** The debugger's read: untranslated in M-mode or with translation off, else
        the bytes that single-byte reads return. */
    method MemReadDebug(start: U64, size: nat) returns (ok: bool, buffer: seq<Byte>)
      requires Valid() && start + size <= TWO_64
      requires !BareFetch(regs.Context()) ==> forall i :: 0 <= i < size ==> MayUseByte(start, i)
      modifies this, tlb
      ensures Valid()
      ensures BareFetch(regs.Context()) ==> (ok <==> Accessible(bus.mem, start, size))
      ensures BareFetch(regs.Context()) && ok ==> buffer == BytesAt(bus.mem, start, size)
      ensures !BareFetch(regs.Context()) && 1 <= size <= 0x1000 && !CrossesPage(start, size) ==>
        (ok <==> PlainRead(bus.mem, TablesIn(bus.mem), regs.Context(), start, size).0 == AccessOk) &&
        (ok ==> buffer == PlainRead(bus.mem, TablesIn(bus.mem), regs.Context(), start, size).1)
      ensures !BareFetch(regs.Context()) ==>
        (ok <==> forall i :: 0 <= i < size ==> ByteRead(bus.mem, regs.Context(), start, i).0 == AccessOk)
    {
      hide PlainRead, ByteRead, CrossesPage, Inv, Usable;
      if regs.currentPrivMode == M_MODE || regs.satp.mode == 0 {
        ok, buffer := bus.Read(start, size);
      } else {
        ok, buffer := ReadByBytes(start, size);
        if 1 <= size <= 0x1000 && !CrossesPage(start, size) {
          ByteReadsAreRead(bus.mem, regs.Context(), start, size);
        }
      }
    }

    /** Byte by byte, each under the tables that the bytes before it left. */
    method WriteByBytes(start: U64, bytes: seq<Byte>) returns (ok: bool)
      requires Valid() && start + |bytes| <= TWO_64
      requires MayWriteBytes(history, bus.mem, regs.Context(), start, bytes, 0)
      modifies this, tlb, bus
      ensures Valid()
      ensures (ok, bus.mem) == LiveWrite(old(bus.mem), regs.Context(), start, bytes, 0)
      ensures history == BytesTouched(old(history), old(bus.mem), regs.Context(), start, bytes, 0)
    {
      hide PlainWrite, MayAccess, Touched, Inv;
      ghost var c := regs.Context();
      ghost var written := LiveWrite(bus.mem, c, start, bytes, 0);
      ghost var touched := BytesTouched(history, bus.mem, c, start, bytes, 0);
      for i := 0 to |bytes|
        invariant Valid() && MayWriteBytes(history, bus.mem, c, start, bytes, i)
        invariant LiveWrite(bus.mem, c, start, bytes, i) == written
        invariant BytesTouched(history, bus.mem, c, start, bytes, i) == touched
      {
        var fb := VAddrWrite(start + i, [bytes[i]]);
        if fb != AccessOk {
          return false;
        }
      }
      ok := true;
    }

    /** The debugger's write: untranslated in M-mode or with translation off, else
        single-byte writes.  Inside one page it is the whole write, whenever its
        bytes may be used. */
    method MemWriteDebug(start: U64, bytes: seq<Byte>) returns (ok: bool)
      requires Valid() && start + |bytes| <= TWO_64
      requires !BareFetch(regs.Context()) ==> MayWriteBytes(history, bus.mem, regs.Context(), start, bytes, 0)
      modifies this, tlb, bus
      ensures Valid()
      ensures BareFetch(regs.Context()) ==> (ok <==> Accessible(old(bus.mem), start, |bytes|))
      ensures BareFetch(regs.Context()) ==>
        bus.mem == if ok then Stored(old(bus.mem), start, bytes) else old(bus.mem)
      ensures !BareFetch(regs.Context()) ==>
        (ok, bus.mem) == LiveWrite(old(bus.mem), regs.Context(), start, bytes, 0)
      ensures !BareFetch(regs.Context()) && 1 <= |bytes| <= 0x1000 && !CrossesPage(start, |bytes|) ==>
        var whole := PlainWrite(old(bus.mem), TablesIn(old(bus.mem)), regs.Context(), start, bytes);
        (ok <==> whole.0 == AccessOk) && (ok ==> bus.mem == whole.1)
    {
      if regs.currentPrivMode == M_MODE || regs.satp.mode == 0 {
        ok := bus.Write(start, bytes);
      } else {
        if 1 <= |bytes| <= 0x1000 && !CrossesPage(start, |bytes|) {
          LiveWriteIsWhole(history, bus.mem, regs.Context(), start, bytes);
        }
        ok := WriteByBytes(start, bytes);
      }
    }
  }
}
