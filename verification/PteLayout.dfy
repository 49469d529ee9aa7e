/** Where the fields of a page-table entry and of a virtual address are: the entry
    that a walk reads, as arithmetic on the number stored in memory (section 4.4 of
    the RISC-V Privileged Architecture). */
module PteLayout {
  import opened Words
  import opened BitFields
  import opened Sv39Walk
  import Alu

  // ----- The entry in memory

  /** The eight bytes of an entry as one number. */
  function EntryNumber(mem: Memory, addr: nat): nat {
    LittleEndian(BytesAt(mem, addr, 8))
  }

  predicate BitIs(w: nat, k: nat, on: bool) {
    on <==> Field(w, k, 1) == 1
  }

  lemma DecodedBit(bits: seq<bool>, w: nat, k: nat)
    requires k < |bits| && Number(bits) == w
    ensures BitIs(w, k, bits[k])
  {
    BitIsField(bits, k);
  }

  /** V, R, W, X, U, G, A and D are bits 0 to 7, N is bit 63. */
  lemma EntryFlags(mem: Memory, addr: nat)
    ensures
      var pte, w := EntryAt(mem, addr), EntryNumber(mem, addr);
      BitIs(w, 0, pte.v) && BitIs(w, 1, pte.r) && BitIs(w, 2, pte.w) && BitIs(w, 3, pte.x) &&
      BitIs(w, 4, pte.u) && BitIs(w, 5, pte.g) && BitIs(w, 6, pte.a) && BitIs(w, 7, pte.d) && BitIs(w, 63, pte.n)
  {
    hide BitIs, Number, LittleEndian;
    var bits, w := BitsOf(BytesAt(mem, addr, 8)), EntryNumber(mem, addr);
    BitsOfBytes(BytesAt(mem, addr, 8));
    DecodedBit(bits, w, 0);
    DecodedBit(bits, w, 1);
    DecodedBit(bits, w, 2);
    DecodedBit(bits, w, 3);
    DecodedBit(bits, w, 4);
    DecodedBit(bits, w, 5);
    DecodedBit(bits, w, 6);
    DecodedBit(bits, w, 7);
    DecodedBit(bits, w, 63);
  }

  /** The page number is bits 10 to 53 in its three parts; bits 54 to 60 are reserved,
      and PBMT is bits 61 and 62. */
  lemma EntryFields(mem: Memory, addr: nat)
    ensures
      var pte, w := EntryAt(mem, addr), EntryNumber(mem, addr);
      pte.ppn0 == Field(w, 10, 9) && pte.ppn1 == Field(w, 19, 9) && pte.ppn2 == Field(w, 28, 26) &&
      pte.reserved == Field(w, 54, 7) && pte.pbmt == Field(w, 61, 2)
  {
    hide Number, LittleEndian, Field;
    var bits := BitsOf(BytesAt(mem, addr, 8));
    BitsOfBytes(BytesAt(mem, addr, 8));
    StretchIsField(bits, 10, 19);
    StretchIsField(bits, 19, 28);
    StretchIsField(bits, 28, 54);
    StretchIsField(bits, 54, 61);
    StretchIsField(bits, 61, 63);
  }

  /** So the page address is bits 10 to 53 of the entry, times the page size. */
  lemma EntryPage(mem: Memory, addr: nat)
    ensures PteAddr(EntryAt(mem, addr)) == EntryNumber(mem, addr) / 0x400 % 0x1000_0000_0000 * 0x1000
  {
    var w := EntryNumber(mem, addr);
    EntryFields(mem, addr);
    Powers();
    PageParts(w / 0x400);
    Nested(w);
  }

  lemma Powers()
    ensures Alu.Pow2(9) == 0x200 && Alu.Pow2(10) == 0x400 && Alu.Pow2(19) == 0x8_0000
    ensures Alu.Pow2(26) == 0x400_0000 && Alu.Pow2(28) == 0x1000_0000
  {
    assert Alu.Pow2(5) == 0x20;
    assert Alu.Pow2(14) == 0x4000;
    assert Alu.Pow2(23) == 0x80_0000;
  }

  lemma Nested(w: nat)
    ensures w / 0x8_0000 == w / 0x400 / 0x200 && w / 0x1000_0000 == w / 0x400 / 0x4_0000
  {
  }

  lemma PageParts(p: nat)
    ensures p / 0x4_0000 % 0x400_0000 * 0x4_0000 + p / 0x200 % 0x200 * 0x200 + p % 0x200 == p % 0x1000_0000_0000
  {
    assert p == p / 0x200 * 0x200 + p % 0x200;
    assert p / 0x200 == p / 0x4_0000 * 0x200 + p / 0x200 % 0x200;
    assert p / 0x4_0000 == p / 0x1000_0000_0000 * 0x400_0000 + p / 0x4_0000 % 0x400_0000;
  }

  /** What a translation takes from a leaf in memory. */
  lemma LeafFlags(mem: Memory, addr: nat, pagesize: nat)
    ensures
      var t, w := Leaf(EntryAt(mem, addr), pagesize), EntryNumber(mem, addr);
      t.pagesize == pagesize && t.ppa == w / 0x400 % 0x1000_0000_0000 * 0x1000 &&
      BitIs(w, 1, t.r) && BitIs(w, 2, t.w) && BitIs(w, 3, t.x) && BitIs(w, 4, t.u) &&
      BitIs(w, 5, t.g) && BitIs(w, 6, t.a) && BitIs(w, 7, t.d)
  {
    hide BitIs, EntryAt, EntryNumber;
    EntryFlags(mem, addr);
    EntryPage(mem, addr);
  }

  // ----- The virtual address

  /** The page number fields and the offset make up the low 39 bits of the address. */
  lemma AddressFields(v: nat)
    ensures VpnOf(v, 2) * 0x4000_0000 + VpnOf(v, 1) * 0x20_0000 + VpnOf(v, 0) * 0x1000 + v % 0x1000
         == v % 0x80_0000_0000
  {
    OffsetFields(v);
    assert v / 0x4000_0000 == v / 0x80_0000_0000 * 0x200 + v / 0x4000_0000 % 0x200;
  }
}
