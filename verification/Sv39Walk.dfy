/** The Sv39 page-table walk: the emulator's three unrolled levels, and the
    recursive translation algorithm of section 4.3.2 of the RISC-V Privileged
    Architecture, version 1.12. */
module Sv39Walk {
  import opened Words
  import Alu

  type Vpn = x: int | 0 <= x < 0x200

  /** One page-table entry, field by field. */
  datatype Pte = Pte(
    v: bool, r: bool, w: bool, x: bool, u: bool, g: bool, a: bool, d: bool,
    ppn0: nat, ppn1: nat, ppn2: nat, reserved: nat, pbmt: nat, n: bool)

  /** What a translation carries: page size class (1: 4K, 2: 2M, 3: 1G), the
      physical page address and the permission bits of the leaf. */
  datatype Translation = Translation(
    pagesize: nat, ppa: nat,
    r: bool, w: bool, x: bool, u: bool, g: bool, a: bool, d: bool)

  /** The bit-field layout of the entry, bit 0 first. */
  function DecodePte(bits: seq<bool>): Pte
    requires |bits| == 64
  {
    Pte(bits[0], bits[1], bits[2], bits[3], bits[4], bits[5], bits[6], bits[7],
        Number(bits[10..19]), Number(bits[19..28]), Number(bits[28..54]),
        Number(bits[54..61]), Number(bits[61..63]), bits[63])
  }

  /** Memory as the walk reads it: the entry stored at each physical address. */
  type Tables = nat -> Pte

  function EntryAt(mem: Memory, addr: nat): Pte {
    DecodePte(BitsOf(BytesAt(mem, addr, 8)))
  }

  function TablesIn(mem: Memory): (pt: Tables)
    ensures Views(pt, mem)
  {
    (addr: nat) => EntryAt(mem, addr)
  }

  /** pt is what the walk reads from mem. */
  ghost predicate Views(pt: Tables, mem: Memory) {
    forall addr {:trigger EntryAt(mem, addr)} :: pt(addr) == EntryAt(mem, addr)
  }

  /** Each PPN field fits its width. */
  predicate FieldsFit(pte: Pte) {
    pte.ppn0 < 0x200 && pte.ppn1 < 0x200 && pte.ppn2 < 0x400_0000
  }

  lemma {:induction false} NumberFits(bits: seq<bool>)
    ensures Number(bits) < Alu.Pow2(|bits|)
    decreases |bits|
  {
    if bits != [] {
      NumberFits(bits[1..]);
    }
  }

  lemma DecodedFieldsFit(bits: seq<bool>)
    requires |bits| == 64
    ensures FieldsFit(DecodePte(bits))
  {
    NumberFits(bits[10..19]);
    NumberFits(bits[19..28]);
    NumberFits(bits[28..54]);
    assert Alu.Pow2(9) == 0x200;
    assert Alu.Pow2(18) == 0x4_0000;
    assert Alu.Pow2(26) == 0x400_0000;
  }

  predicate IsValidDirPte(pte: Pte) {
    if !pte.v then false
    else if pte.r || pte.w || pte.x then false
    else if pte.reserved != 0 then false
    else pte.pbmt == 0
  }

  predicate IsValidLeafPte(pte: Pte) {
    if !pte.v then false
    else if pte.w && !pte.r then false
    else if !pte.r && !pte.w && !pte.x then false
    else if pte.reserved != 0 then false
    else pte.pbmt == 0
  }

  /** PPN2, PPN1 and PPN0 joined; the fields do not overlap, so the shifts and
      ors of the source are sums. */
  function PteAddr(pte: Pte): nat {
    (pte.ppn2 * 0x4_0000 + pte.ppn1 * 0x200 + pte.ppn0) * 0x1000
  }

  /** The virtual page number field of level i. */
  function VpnOf(v: nat, i: nat): Vpn
    requires i < 3
  {
    if i == 0 then v / 0x1000 % 0x200
    else if i == 1 then v / 0x20_0000 % 0x200
    else v / 0x4000_0000 % 0x200
  }

  function PageBytes(pagesize: nat): (bytes: nat)
    requires 1 <= pagesize <= 3
    ensures bytes > 0
  {
    if pagesize == 1 then 0x1000 else if pagesize == 2 then 0x20_0000 else 0x4000_0000
  }

  /** The address with its in-page offset cleared: the page masks of the source. */
  function PageBase(v: nat, pagesize: nat): nat
    requires 1 <= pagesize <= 3
  {
    v - v % PageBytes(pagesize)
  }

  /** Bits 63 to 39 all repeat bit 38. */
  predicate Canonical(v: nat) {
    v < 0x40_0000_0000 || TWO_64 - 0x40_0000_0000 <= v < TWO_64
  }

  function Leaf(pte: Pte, pagesize: nat): Translation {
    Translation(pagesize, PteAddr(pte), pte.r, pte.w, pte.x, pte.u, pte.g, pte.a, pte.d)
  }

  /** The walk as the emulator codes it: three levels, unrolled. */
  function Walk(pt: Tables, root: nat, v: nat): Option<Translation> {
    var l2 := pt(root * 0x1000 + VpnOf(v, 2) * 8);
    if IsValidLeafPte(l2) then Some(Leaf(l2, 3))
    else if !IsValidDirPte(l2) then None
    else
      var l1 := pt(PteAddr(l2) + VpnOf(v, 1) * 8);
      if IsValidLeafPte(l1) then Some(Leaf(l1, 2))
      else if !IsValidDirPte(l1) then None
      else
        var l0 := pt(PteAddr(l1) + VpnOf(v, 0) * 8);
        if IsValidLeafPte(l0) then Some(Leaf(l0, 1)) else None
  }

  /** Every table entry the walk visits is backed by a device; the source
      asserts this at each level. */
  predicate TablesReadable(pt: Tables, mem: Memory, table: nat, i: nat, v: nat)
    requires i < 3
    decreases i
  {
    var at := table + VpnOf(v, i) * 8;
    Accessible(mem, at, 8) &&
    (i > 0 && IsValidDirPte(pt(at)) ==>
       TablesReadable(pt, mem, PteAddr(pt(at)), i - 1, v))
  }

  // ----- The algorithm of the standard

  /** A field that must be zero is set (N included: Svnapot is absent). */
  predicate ReservedSet(pte: Pte) {
    pte.reserved != 0 || pte.pbmt != 0 || pte.n
  }

  /** D, A and U are reserved in an entry that is not a leaf. */
  predicate PointerReservedSet(pte: Pte) {
    pte.d || pte.a || pte.u
  }

  /** The low PPN fields that a superpage leaf of level i must have clear. */
  predicate AlignedLeaf(pte: Pte, i: nat) {
    (i >= 1 ==> pte.ppn0 == 0) && (i >= 2 ==> pte.ppn1 == 0)
  }

  /** Steps 2 to 6 of section 4.3.2, for the table at `table` and level i. */
  function SpecWalk(pt: Tables, table: nat, i: nat, v: nat): Option<Translation>
    requires i < 3
    decreases i
  {
    var pte := pt(table + VpnOf(v, i) * 8);
    if !pte.v || (!pte.r && pte.w) || ReservedSet(pte) then None
    else if pte.r || pte.x then
      if AlignedLeaf(pte, i) then Some(Leaf(pte, i + 1)) else None
    else if i == 0 || PointerReservedSet(pte) then None
    else SpecWalk(pt, PteAddr(pte), i - 1, v)
  }

  /** The table entries from level i down carry no N bit, those that point to a
      table carry no D, A or U bit, and the leaf they lead to, if any, is aligned to
      its page size. */
  predicate ConformingPath(pt: Tables, table: nat, i: nat, v: nat)
    requires i < 3
    decreases i
  {
    var pte := pt(table + VpnOf(v, i) * 8);
    !pte.n &&
    (IsValidLeafPte(pte) ==> AlignedLeaf(pte, i)) &&
    (i > 0 && IsValidDirPte(pte) ==> !PointerReservedSet(pte) && ConformingPath(pt, PteAddr(pte), i - 1, v))
  }

  /** The entries from level i down lead to a valid leaf. */
  predicate LeadsToLeaf(pt: Tables, table: nat, i: nat, v: nat)
    requires i < 3
    decreases i
  {
    var pte := pt(table + VpnOf(v, i) * 8);
    IsValidLeafPte(pte) || (i > 0 && IsValidDirPte(pte) && LeadsToLeaf(pt, PteAddr(pte), i - 1, v))
  }

  /** The unrolled walk is the standard's algorithm exactly when its entries lead to
      no valid leaf or its path conforms: the code ignores N, superpage alignment, and
      the reserved bits of entries that point to tables. */
  lemma WalkMeetsStandard(pt: Tables, root: nat, v: nat)
    ensures Walk(pt, root, v) == SpecWalk(pt, root * 0x1000, 2, v)
       <==> !LeadsToLeaf(pt, root * 0x1000, 2, v) || ConformingPath(pt, root * 0x1000, 2, v)
  {
    WalkUnrolled(pt, root, v);
    WalkFromMeetsStandard(pt, root * 0x1000, 2, v);
  }

  /** The walk from one table down, rolled up again. */
  function WalkFrom(pt: Tables, table: nat, i: nat, v: nat): Option<Translation>
    requires i < 3
    decreases i
  {
    var pte := pt(table + VpnOf(v, i) * 8);
    if IsValidLeafPte(pte) then Some(Leaf(pte, i + 1))
    else if !IsValidDirPte(pte) || i == 0 then None
    else WalkFrom(pt, PteAddr(pte), i - 1, v)
  }

  lemma WalkUnrolled(pt: Tables, root: nat, v: nat)
    ensures Walk(pt, root, v) == WalkFrom(pt, root * 0x1000, 2, v)
  {
    var l2 := pt(root * 0x1000 + VpnOf(v, 2) * 8);
    if IsValidDirPte(l2) {
      var l1 := pt(PteAddr(l2) + VpnOf(v, 1) * 8);
      assert WalkFrom(pt, PteAddr(l2), 1, v) ==
        if IsValidLeafPte(l1) then Some(Leaf(l1, 2))
        else if !IsValidDirPte(l1) then None else WalkFrom(pt, PteAddr(l1), 0, v);
    }
  }

  /** The walk finds a leaf exactly where its entries lead to one. */
  lemma {:induction false} LeafIsFound(pt: Tables, table: nat, i: nat, v: nat)
    requires i < 3
    ensures WalkFrom(pt, table, i, v).Some? <==> LeadsToLeaf(pt, table, i, v)
    decreases i
  {
    var pte := pt(table + VpnOf(v, i) * 8);
    if IsValidDirPte(pte) && i > 0 {
      LeafIsFound(pt, PteAddr(pte), i - 1, v);
    }
  }

  lemma {:induction false} WalkFromMeetsStandard(pt: Tables, table: nat, i: nat, v: nat)
    requires i < 3
    ensures WalkFrom(pt, table, i, v) == SpecWalk(pt, table, i, v)
       <==> !LeadsToLeaf(pt, table, i, v) || ConformingPath(pt, table, i, v)
    decreases i
  {
    var pte := pt(table + VpnOf(v, i) * 8);
    StandardStep(pt, table, i, v);
    LeafIsFound(pt, table, i, v);
    if IsValidDirPte(pte) && i > 0 {
      WalkFromMeetsStandard(pt, PteAddr(pte), i - 1, v);
    }
  }

  /** One level of the standard's algorithm in the terms of the code. */
  lemma StandardStep(pt: Tables, table: nat, i: nat, v: nat)
    requires i < 3
    ensures
      var pte := pt(table + VpnOf(v, i) * 8);
      SpecWalk(pt, table, i, v) ==
        if pte.n then None
        else if IsValidLeafPte(pte) then (if AlignedLeaf(pte, i) then Some(Leaf(pte, i + 1)) else None)
        else if IsValidDirPte(pte) && i > 0 && !PointerReservedSet(pte) then SpecWalk(pt, PteAddr(pte), i - 1, v)
        else None
  {
  }

  lemma {:induction false} StandardConforms(pt: Tables, table: nat, i: nat, v: nat)
    requires i < 3 && SpecWalk(pt, table, i, v).Some?
    ensures ConformingPath(pt, table, i, v)
    decreases i
  {
    var pte := pt(table + VpnOf(v, i) * 8);
    if IsValidDirPte(pte) && i > 0 {
      StandardConforms(pt, PteAddr(pte), i - 1, v);
    }
  }

  /** Whenever the standard maps an address, the emulator maps it alike. */
  lemma StandardMappingKept(pt: Tables, root: nat, v: nat)
    requires SpecWalk(pt, root * 0x1000, 2, v).Some?
    ensures Walk(pt, root, v) == SpecWalk(pt, root * 0x1000, 2, v)
  {
    StandardConforms(pt, root * 0x1000, 2, v);
    WalkMeetsStandard(pt, root, v);
  }

  // ----- Where the two part

  const INVALID_PTE: Pte :=
    Pte(false, false, false, false, false, false, false, false, 0, 0, 0, 0, 0, false)

  /** A valid entry that points to the table at page ppn. */
  function PointerPte(ppn: nat): Pte {
    INVALID_PTE.(v := true, ppn0 := ppn)
  }

  /** A readable and accessed leaf for page ppn. */
  function ReadablePte(ppn: nat): Pte {
    INVALID_PTE.(v := true, r := true, a := true, ppn0 := ppn)
  }

  /** Three levels at pages 1, 2 and 3 that map the page at 0x1000. */
  function OnePageTables(pointer: Pte, leaf: Pte): Tables {
    (addr: nat) =>
      if addr == 0x1000 then pointer
      else if addr == 0x2000 then PointerPte(3)
      else if addr == 0x3008 then leaf
      else INVALID_PTE
  }

  /** A pointer with its reserved U bit set: the standard faults, the code maps. */
  lemma ReservedPointerParts()
    ensures
      var pt := OnePageTables(PointerPte(2).(u := true), ReadablePte(7));
      SpecWalk(pt, 0x1000, 2, 0x1000).None? && Walk(pt, 1, 0x1000) == Some(Leaf(ReadablePte(7), 1))
  {
  }

  /** A 1G leaf with low bits in its page number: the same. */
  lemma MisalignedSuperpageParts()
    ensures
      var pt := (addr: nat) => if addr == 0x1000 then ReadablePte(7) else INVALID_PTE;
      SpecWalk(pt, 0x1000, 2, 0x1000).None? && Walk(pt, 1, 0x1000) == Some(Leaf(ReadablePte(7), 3))
  {
  }

  /** Without such bits the one-page tables map the page. */
  lemma OnePageTablesMap(ppn: nat)
    ensures Walk(OnePageTables(PointerPte(2), ReadablePte(ppn)), 1, 0x1000) == Some(Leaf(ReadablePte(ppn), 1))
  {
  }

  // ----- Addresses

  /** The physical address the source computes: page address plus offset. */
  function PhysAddr(t: Translation, v: nat): nat
    requires 1 <= t.pagesize <= 3
  {
    t.ppa + v % PageBytes(t.pagesize)
  }

  /** Step 8 of section 4.3.2: PPN fields above the leaf level, VPN fields of
      the address below it, and the page offset. */
  function ConcatenatedAddr(pte: Pte, i: nat, v: nat): nat {
    (pte.ppn2 * 0x4_0000 +
     (if i >= 2 then VpnOf(v, 1) else pte.ppn1) * 0x200 +
     (if i >= 1 then VpnOf(v, 0) else pte.ppn0)) * 0x1000 + v % 0x1000
  }

  /** For an aligned leaf the sum is the concatenation, a 56-bit address. */
  lemma PhysAddrIsConcatenation(pte: Pte, i: nat, v: nat)
    requires i < 3 && AlignedLeaf(pte, i) && FieldsFit(pte)
    ensures PhysAddr(Leaf(pte, i + 1), v) == ConcatenatedAddr(pte, i, v)
    ensures PhysAddr(Leaf(pte, i + 1), v) < 0x100_0000_0000_0000
  {
    OffsetFields(v);
  }

  lemma OffsetFields(v: nat)
    ensures v % 0x20_0000 == VpnOf(v, 0) * 0x1000 + v % 0x1000
    ensures v % 0x4000_0000 == VpnOf(v, 1) * 0x20_0000 + v % 0x20_0000
  {
    OffsetIn2M(v);
    OffsetIn1G(v);
  }

  lemma OffsetIn2M(v: nat)
    ensures v % 0x20_0000 == v / 0x1000 % 0x200 * 0x1000 + v % 0x1000
  {
    var page := v / 0x1000;
    assert v == page * 0x1000 + v % 0x1000;
    assert page == page / 0x200 * 0x200 + page % 0x200;
    assert v == page / 0x200 * 0x20_0000 + (page % 0x200 * 0x1000 + v % 0x1000);
  }

  lemma OffsetIn1G(v: nat)
    ensures v % 0x4000_0000 == v / 0x20_0000 % 0x200 * 0x20_0000 + v % 0x20_0000
  {
    var page := v / 0x20_0000;
    assert v == page * 0x20_0000 + v % 0x20_0000;
    assert page == page / 0x200 * 0x200 + page % 0x200;
    assert v == page / 0x200 * 0x4000_0000 + (page % 0x200 * 0x20_0000 + v % 0x20_0000);
  }

  /** Addresses of one page share the page number fields at and above its level. */
  lemma SamePageFields(v: nat, w: nat, pagesize: nat)
    requires 1 <= pagesize <= 3 && PageBase(v, pagesize) == PageBase(w, pagesize)
    ensures VpnOf(v, 2) == VpnOf(w, 2)
    ensures pagesize <= 2 ==> VpnOf(v, 1) == VpnOf(w, 1)
    ensures pagesize <= 1 ==> VpnOf(v, 0) == VpnOf(w, 0)
    ensures forall larger :: pagesize <= larger <= 3 ==> PageBase(v, larger) == PageBase(w, larger)
  {
    var bytes := PageBytes(pagesize);
    assert v / bytes == w / bytes by {
      assert v == bytes * (v / bytes) + v % bytes && w == bytes * (w / bytes) + w % bytes;
    }
    NestedPages(v);
    NestedPages(w);
  }

  lemma NestedPages(v: nat)
    ensures v / 0x20_0000 == v / 0x1000 / 0x200
    ensures v / 0x4000_0000 == v / 0x20_0000 / 0x200
    ensures v - v % 0x20_0000 == v / 0x20_0000 * 0x20_0000
    ensures v - v % 0x4000_0000 == v / 0x4000_0000 * 0x4000_0000
  {
  }

  lemma PageBaseIdempotent(v: nat, pagesize: nat)
    requires 1 <= pagesize <= 3
    ensures PageBase(PageBase(v, pagesize), pagesize) == PageBase(v, pagesize)
  {
    var bytes := PageBytes(pagesize);
    assert v - v % bytes == v / bytes * bytes;
    assert v / bytes * bytes % bytes == 0;
  }

  /** All addresses of a mapped page walk to the same leaf. */
  lemma WalkSamePage(pt: Tables, root: nat, v: nat, w: nat)
    requires Walk(pt, root, v).Some?
    requires 1 <= Walk(pt, root, v).value.pagesize <= 3
    requires PageBase(v, Walk(pt, root, v).value.pagesize) == PageBase(w, Walk(pt, root, v).value.pagesize)
    ensures Walk(pt, root, w) == Walk(pt, root, v)
  {
    SamePageFields(v, w, Walk(pt, root, v).value.pagesize);
  }

  /** Addresses of one 4K page walk to the same result, faults included. */
  lemma WalkSame4K(pt: Tables, root: nat, v: nat, w: nat)
    requires PageBase(v, 1) == PageBase(w, 1)
    ensures Walk(pt, root, v) == Walk(pt, root, w)
  {
    SamePageFields(v, w, 1);
  }
}
