/** What software owes for a translated access, what the access adds to the
    history of translations in use, and the debugger's byte-by-byte store over
    page tables that live in the memory being stored to. */
module Sv39Uses {
  import opened Words
  import opened Sv39Walk
  import opened Sv39Tlb
  import opened Sv39Runs
  import opened Sv39Access

  /** Translation is on, and v is canonical, looked up in readable tables and
      used with discipline. */
  ghost predicate Usable(history: set<TlbEntry>, satp: Satp, pt: Tables, mem: Memory, v: nat) {
    satp.mode == SV39_MODE && Canonical(v) &&
    TablesReadable(pt, mem, satp.ppn * 0x1000, 2, v) &&
    Disciplined(history, satp, pt, v)
  }

  /** The access reaches the TLB. */
  predicate LooksUp(c: Context, kind: Access, addr: nat, size: nat) {
    !Untranslated(c, kind) && !CrossesPage(addr, size)
  }

  /** The premise of one access. */
  ghost predicate MayAccess(history: set<TlbEntry>, mem: Memory, c: Context, kind: Access, addr: nat, size: nat) {
    LooksUp(c, kind, addr, size) ==> Usable(history, c.satp, TablesIn(mem), mem, addr)
  }

  /** What one access adds to the history. */
  function Touched(history: set<TlbEntry>, mem: Memory, c: Context, kind: Access, addr: nat, size: nat): set<TlbEntry> {
    if LooksUp(c, kind, addr, size) then Recall(history, c.satp, TablesIn(mem), addr) else history
  }

  /** The premise of a fetch: that of its halves, the second one only if the first
      half is fetched. */
  ghost predicate MayFetch(history: set<TlbEntry>, mem: Memory, c: Context, addr: U64, size: nat) {
    if size == 4 && addr % 4 == 2 then
      MayAccess(history, mem, c, Fetch, addr, 2) &&
      (PlainFetchPart(mem, TablesIn(mem), c, addr, 2).0 == AccessOk ==>
         MayAccess(Touched(history, mem, c, Fetch, addr, 2), mem, c, Fetch, (addr + 2) % TWO_64, 2))
    else MayAccess(history, mem, c, Fetch, addr, size)
  }

  function FetchTouched(history: set<TlbEntry>, mem: Memory, c: Context, addr: U64, size: nat): set<TlbEntry> {
    if size == 4 && addr % 4 == 2 then
      var half := Touched(history, mem, c, Fetch, addr, 2);
      if PlainFetchPart(mem, TablesIn(mem), c, addr, 2).0 != AccessOk then half
      else Touched(half, mem, c, Fetch, (addr + 2) % TWO_64, 2)
    else Touched(history, mem, c, Fetch, addr, size)
  }

  /** Using one address leaves every other usable. */
  lemma StillUsable(history: set<TlbEntry>, now: set<TlbEntry>, satp: Satp, pt: Tables, mem: Memory, v: nat, w: nat)
    requires Usable(history, satp, pt, mem, w)
    requires now == history || now == Recall(history, satp, pt, v)
    ensures Usable(now, satp, pt, mem, w)
  {
    UseKeepsDiscipline(history, satp, pt, v, w);
  }

  /** The read of byte i of an access, on its own. */
  function ByteRead(mem: Memory, c: Context, addr: nat, i: nat): (Feedback, seq<Byte>) {
    PlainReadByte(mem, TablesIn(mem), c, addr, i)
  }

  /** ReadIsBytewise, under the tables in memory. */
  lemma ByteReadsAreRead(mem: Memory, c: Context, addr: U64, size: nat)
    requires 1 <= size <= 0x1000 && !CrossesPage(addr, size)
    ensures PlainRead(mem, TablesIn(mem), c, addr, size).0 == AccessOk
       <==> forall i :: 0 <= i < size ==> ByteRead(mem, c, addr, i).0 == AccessOk
    ensures PlainRead(mem, TablesIn(mem), c, addr, size).0 == AccessOk ==>
              |PlainRead(mem, TablesIn(mem), c, addr, size).1| == size &&
              forall i :: 0 <= i < size ==>
                ByteRead(mem, c, addr, i).1 == [PlainRead(mem, TablesIn(mem), c, addr, size).1[i]]
  {
    hide PlainRead, CrossesPage, PlainReadByte;
    ReadIsBytewise(mem, TablesIn(mem), c, addr, size);
    assert forall i :: ByteRead(mem, c, addr, i) == PlainReadByte(mem, TablesIn(mem), c, addr, i);
  }

  ghost predicate UsableAt(history: set<TlbEntry>, satp: Satp, pt: Tables, mem: Memory, start: nat, k: nat) {
    Usable(history, satp, pt, mem, start + k)
  }

  lemma RestStillUsable(history: set<TlbEntry>, now: set<TlbEntry>, satp: Satp, pt: Tables, mem: Memory,
                        start: nat, i: nat, size: nat)
    requires forall k :: i <= k < size ==> UsableAt(history, satp, pt, mem, start, k)
    requires now == history || now == Recall(history, satp, pt, start + i)
    ensures forall k :: i <= k < size ==> UsableAt(now, satp, pt, mem, start, k)
  {
    forall k | i <= k < size ensures UsableAt(now, satp, pt, mem, start, k) {
      assert UsableAt(history, satp, pt, mem, start, k);
      StillUsable(history, now, satp, pt, mem, start + i, start + k);
    }
  }

  // ----- Stores beside the tables of a walk

  /** The entries that the walk of v reads from the table of level i down. */
  function Visited(pt: Tables, table: nat, i: nat, v: nat): set<nat>
    requires i < 3
    decreases i
  {
    var at := table + VpnOf(v, i) * 8;
    {at} + if i > 0 && IsValidDirPte(pt(at)) then Visited(pt, PteAddr(pt(at)), i - 1, v) else {}
  }

  /** No byte of the run belongs to one of the entries. */
  predicate Apart(entries: set<nat>, pa: nat, size: nat) {
    forall at :: at in entries ==> at + 8 <= pa || pa + size <= at
  }

  /** The tables hold the same entries at these addresses. */
  predicate AgreeOn(pt: Tables, now: Tables, entries: set<nat>) {
    forall at :: at in entries ==> now(at) == pt(at)
  }

  /** A walk depends on the entries it visits only. */
  lemma {:induction false} AgreeingWalk(pt: Tables, now: Tables, table: nat, i: nat, v: nat)
    requires i < 3 && AgreeOn(pt, now, Visited(pt, table, i, v))
    ensures WalkFrom(now, table, i, v) == WalkFrom(pt, table, i, v)
    ensures Visited(now, table, i, v) == Visited(pt, table, i, v)
    decreases i
  {
    var at := table + VpnOf(v, i) * 8;
    assert at in Visited(pt, table, i, v);
    if i > 0 && IsValidDirPte(pt(at)) {
      AgreeingWalk(pt, now, PteAddr(pt(at)), i - 1, v);
    }
  }

  lemma StoreKeepsEntry(mem: Memory, pa: nat, bytes: seq<Byte>, at: nat)
    requires at + 8 <= pa || pa + |bytes| <= at
    ensures EntryAt(Stored(mem, pa, bytes), at) == EntryAt(mem, at)
  {
    var now := Stored(mem, pa, bytes);
    forall a: nat | a < pa || pa + |bytes| <= a ensures ByteAt(now, a) == ByteAt(mem, a) {
    }
    assert BytesAt(now, at, 8) == BytesAt(mem, at, 8);
  }

  lemma StoreAgrees(mem: Memory, pa: nat, bytes: seq<Byte>, entries: set<nat>)
    requires Apart(entries, pa, |bytes|)
    ensures AgreeOn(TablesIn(mem), TablesIn(Stored(mem, pa, bytes)), entries)
  {
    forall at | at in entries ensures TablesIn(Stored(mem, pa, bytes))(at) == TablesIn(mem)(at) {
      StoreKeepsEntry(mem, pa, bytes, at);
    }
  }

  /** A store outside the entries that a walk visits leaves the walk as it was. */
  lemma StoreKeepsWalk(mem: Memory, pa: nat, bytes: seq<Byte>, root: nat, v: nat)
    requires Apart(Visited(TablesIn(mem), root * 0x1000, 2, v), pa, |bytes|)
    ensures Walk(TablesIn(Stored(mem, pa, bytes)), root, v) == Walk(TablesIn(mem), root, v)
    ensures Visited(TablesIn(Stored(mem, pa, bytes)), root * 0x1000, 2, v)
         == Visited(TablesIn(mem), root * 0x1000, 2, v)
  {
    var pt, now := TablesIn(mem), TablesIn(Stored(mem, pa, bytes));
    StoreAgrees(mem, pa, bytes, Visited(pt, root * 0x1000, 2, v));
    AgreeingWalk(pt, now, root * 0x1000, 2, v);
    WalkUnrolled(pt, root, v);
    WalkUnrolled(now, root, v);
  }

  /** The walk can read its tables when every entry it visits has devices. */
  predicate AllAccessible(mem: Memory, entries: set<nat>) {
    forall at :: at in entries ==> Accessible(mem, at, 8)
  }

  lemma {:induction false} ReadableIsAllAccessible(pt: Tables, mem: Memory, table: nat, i: nat, v: nat)
    requires i < 3
    ensures TablesReadable(pt, mem, table, i, v) <==> AllAccessible(mem, Visited(pt, table, i, v))
    decreases i
  {
    var at := table + VpnOf(v, i) * 8;
    assert at in Visited(pt, table, i, v);
    if i > 0 && IsValidDirPte(pt(at)) {
      ReadableIsAllAccessible(pt, mem, PteAddr(pt(at)), i - 1, v);
      assert Visited(pt, table, i, v) == {at} + Visited(pt, PteAddr(pt(at)), i - 1, v);
    }
  }

  lemma StoreKeepsReadable(mem: Memory, pa: nat, bytes: seq<Byte>, root: nat, v: nat)
    requires Apart(Visited(TablesIn(mem), root * 0x1000, 2, v), pa, |bytes|)
    requires TablesReadable(TablesIn(mem), mem, root * 0x1000, 2, v)
    ensures TablesReadable(TablesIn(Stored(mem, pa, bytes)), Stored(mem, pa, bytes), root * 0x1000, 2, v)
  {
    var now := Stored(mem, pa, bytes);
    StoreKeepsWalk(mem, pa, bytes, root, v);
    ReadableIsAllAccessible(TablesIn(mem), mem, root * 0x1000, 2, v);
    ReadableIsAllAccessible(TablesIn(now), now, root * 0x1000, 2, v);
    assert now.Keys == mem.Keys;
    forall at | at in Visited(TablesIn(mem), root * 0x1000, 2, v) ensures Accessible(now, at, 8) {
      assert Accessible(mem, at, 8);
    }
  }

  // ----- Byte by byte, each byte under the tables as they then are

  /** The debugger's translated store from byte i on. */
  function LiveWrite(mem: Memory, c: Context, addr: nat, bytes: seq<Byte>, i: nat): (bool, Memory)
    requires i <= |bytes|
    decreases |bytes| - i
  {
    if i == |bytes| then (true, mem)
    else
      var (fb, now) := PlainWrite(mem, TablesIn(mem), c, addr + i, [bytes[i]]);
      if fb != AccessOk then (false, now) else LiveWrite(now, c, addr, bytes, i + 1)
  }

  /** The premise of every byte that is stored. */
  ghost predicate MayWriteBytes(history: set<TlbEntry>, mem: Memory, c: Context, addr: nat, bytes: seq<Byte>, i: nat)
    requires i <= |bytes|
    decreases |bytes| - i
  {
    i == |bytes| || (
      MayAccess(history, mem, c, Store, addr + i, 1) &&
      var (fb, now) := PlainWrite(mem, TablesIn(mem), c, addr + i, [bytes[i]]);
      (fb == AccessOk ==>
         MayWriteBytes(Touched(history, mem, c, Store, addr + i, 1), now, c, addr, bytes, i + 1)))
  }

  /** The history that the store leaves. */
  function BytesTouched(history: set<TlbEntry>, mem: Memory, c: Context, addr: nat, bytes: seq<Byte>, i: nat)
    : set<TlbEntry>
    requires i <= |bytes|
    decreases |bytes| - i
  {
    if i == |bytes| then history
    else
      var (fb, now) := PlainWrite(mem, TablesIn(mem), c, addr + i, [bytes[i]]);
      var touched := Touched(history, mem, c, Store, addr + i, 1);
      if fb != AccessOk then touched else BytesTouched(touched, now, c, addr, bytes, i + 1)
  }

  /** The translation of addr under the tables pt is in use. */
  predicate InUse(history: set<TlbEntry>, satp: Satp, pt: Tables, addr: nat) {
    Walk(pt, satp.ppn, addr).Some? ==> EntryFor(Walk(pt, satp.ppn, addr).value, satp.asid, addr) in history
  }

  /** While it is, a disciplined use in the same page finds the walk unchanged. */
  lemma InUseKeepsWalk(history: set<TlbEntry>, satp: Satp, pt: Tables, now: Tables, addr: nat, w: nat)
    requires Walk(pt, satp.ppn, addr).Some? && InUse(history, satp, pt, addr)
    requires PageBase(addr, 1) == PageBase(w, 1) && Disciplined(history, satp, now, w)
    ensures Walk(now, satp.ppn, w) == Walk(pt, satp.ppn, w)
  {
    var t := Walk(pt, satp.ppn, addr).value;
    var e := EntryFor(t, satp.asid, addr);
    SamePageFields(addr, w, 1);
    assert Hits(e, satp.asid, w);
    assert Carried(e) == t;
    WalkSame4K(pt, satp.ppn, addr, w);
  }

  /** Tables that agree on one address write one byte alike. */
  lemma SameWalkSameWrite(mem: Memory, pt: Tables, now: Tables, c: Context, a: nat, b: Byte)
    requires Walk(now, c.satp.ppn, a) == Walk(pt, c.satp.ppn, a)
    ensures PlainWrite(mem, now, c, a, [b]) == PlainWrite(mem, pt, c, a, [b])
  {
  }

  lemma TouchedKeepsInUse(history: set<TlbEntry>, mem: Memory, c: Context, a: nat, pt: Tables, addr: nat)
    requires InUse(history, c.satp, pt, addr)
    ensures InUse(Touched(history, mem, c, Store, a, 1), c.satp, pt, addr)
  {
  }

  /** One byte under the live tables is the byte under the first ones. */
  lemma LiveByteIsFixed(history: set<TlbEntry>, now: Memory, pt: Tables, c: Context, addr: U64, size: nat, i: nat,
                        b: Byte)
    requires 1 <= size <= 0x1000 && !CrossesPage(addr, size) && i < size && !Bare(c)
    requires MayAccess(history, now, c, Store, addr + i, 1)
    requires Walk(pt, c.satp.ppn, addr).Some? && InUse(history, c.satp, pt, addr)
    ensures PlainWrite(now, TablesIn(now), c, addr + i, [b]) == PlainWrite(now, pt, c, addr + i, [b])
  {
    hide PlainWrite, Walk, Canonical, TablesReadable;
    InsideOnePage(addr, size, i);
    InUseKeepsWalk(history, c.satp, pt, TablesIn(now), addr, addr + i);
    WalkSame4K(pt, c.satp.ppn, addr, addr + i);
    SameWalkSameWrite(now, pt, TablesIn(now), c, addr + i, b);
  }

  /** So both stores take the same step, and the premise goes on. */
  lemma LiveStep(history: set<TlbEntry>, now: Memory, pt: Tables, c: Context, addr: U64, bytes: seq<Byte>, i: nat)
    returns (fb: Feedback, next: Memory, touched: set<TlbEntry>)
    requires 1 <= |bytes| <= 0x1000 && !CrossesPage(addr, |bytes|) && i < |bytes| && !Bare(c)
    requires MayWriteBytes(history, now, c, addr, bytes, i)
    requires Walk(pt, c.satp.ppn, addr).Some? && InUse(history, c.satp, pt, addr)
    ensures LiveWrite(now, c, addr, bytes, i) ==
      if fb != AccessOk then (false, next) else LiveWrite(next, c, addr, bytes, i + 1)
    ensures BytewiseWrite(now, pt, c, addr, bytes, i) ==
      if fb != AccessOk then (false, next) else BytewiseWrite(next, pt, c, addr, bytes, i + 1)
    ensures fb == AccessOk ==> MayWriteBytes(touched, next, c, addr, bytes, i + 1)
    ensures InUse(touched, c.satp, pt, addr)
  {
    LiveByteIsFixed(history, now, pt, c, addr, |bytes|, i, bytes[i]);
    TouchedKeepsInUse(history, now, c, addr + i, pt, addr);
    var r := PlainWrite(now, TablesIn(now), c, addr + i, [bytes[i]]);
    fb, next := r.0, r.1;
    touched := Touched(history, now, c, Store, addr + i, 1);
  }

  /** From byte i on, under the premise, the live tables answer as the first ones. */
  lemma {:induction false} LiveIsFixed(history: set<TlbEntry>, now: Memory, pt: Tables, c: Context, addr: U64,
                                       bytes: seq<Byte>, i: nat)
    requires 1 <= |bytes| <= 0x1000 && !CrossesPage(addr, |bytes|) && 1 <= i <= |bytes| && !Bare(c)
    requires MayWriteBytes(history, now, c, addr, bytes, i)
    requires Walk(pt, c.satp.ppn, addr).Some? && InUse(history, c.satp, pt, addr)
    ensures LiveWrite(now, c, addr, bytes, i) == BytewiseWrite(now, pt, c, addr, bytes, i)
    decreases |bytes| - i
  {
    hide PlainWrite, MayAccess, Touched, CrossesPage;
    if i < |bytes| {
      var fb, next, touched := LiveStep(history, now, pt, c, addr, bytes, i);
      if fb == AccessOk {
        LiveIsFixed(touched, next, pt, c, addr, bytes, i + 1);
      }
    }
  }

  /** Under the use premise of its bytes, the debugger's store inside one page
      succeeds exactly when the whole write does, and leaves the same memory. */
  lemma LiveWriteIsWhole(history: set<TlbEntry>, mem: Memory, c: Context, addr: U64, bytes: seq<Byte>)
    requires 1 <= |bytes| <= 0x1000 && !CrossesPage(addr, |bytes|) && !Bare(c)
    requires MayWriteBytes(history, mem, c, addr, bytes, 0)
    ensures LiveWrite(mem, c, addr, bytes, 0).0 <==> PlainWrite(mem, TablesIn(mem), c, addr, bytes).0 == AccessOk
    ensures LiveWrite(mem, c, addr, bytes, 0).0 ==>
              LiveWrite(mem, c, addr, bytes, 0).1 == PlainWrite(mem, TablesIn(mem), c, addr, bytes).1
  {
    var pt := TablesIn(mem);
    InsideOnePage(addr, |bytes|, 0);
    WriteIsBytewise(mem, pt, c, addr, bytes);
    var (fb, now) := PlainWrite(mem, pt, c, addr, [bytes[0]]);
    if fb == AccessOk {
      LiveIsFixed(Touched(history, mem, c, Store, addr, 1), now, pt, c, addr, bytes, 1);
    }
    assert LiveWrite(mem, c, addr, bytes, 0) == BytewiseWrite(mem, pt, c, addr, bytes, 0);
  }

  // ----- A store that stays off its own tables

  /** What one address of a page may do, so may any other. */
  lemma UsableInPage(history: set<TlbEntry>, satp: Satp, pt: Tables, mem: Memory, v: U64, w: U64)
    requires Usable(history, satp, pt, mem, v) && PageBase(v, 1) == PageBase(w, 1)
    ensures Usable(history, satp, pt, mem, w)
  {
    SamePageFields(v, w, 1);
    WalkSame4K(pt, satp.ppn, v, w);
    ReadableInPage(pt, mem, satp.ppn * 0x1000, 2, v, w);
    CanonicalInPage(v, w);
    forall e | e in history && Hits(e, satp.asid, w) ensures Walk(pt, satp.ppn, w) == Some(Carried(e)) {
      assert Hits(e, satp.asid, v);
    }
  }

  lemma CanonicalInPage(v: U64, w: U64)
    requires Canonical(v) && PageBase(v, 1) == PageBase(w, 1)
    ensures Canonical(w)
  {
    assert v / 0x1000 == w / 0x1000 by {
      assert v == v / 0x1000 * 0x1000 + v % 0x1000 && w == w / 0x1000 * 0x1000 + w % 0x1000;
    }
  }

  lemma {:induction false} ReadableInPage(pt: Tables, mem: Memory, table: nat, i: nat, v: nat, w: nat)
    requires i < 3 && VpnOf(v, 0) == VpnOf(w, 0) && VpnOf(v, 1) == VpnOf(w, 1) && VpnOf(v, 2) == VpnOf(w, 2)
    ensures TablesReadable(pt, mem, table, i, v) == TablesReadable(pt, mem, table, i, w)
    decreases i
  {
    hide VpnOf, IsValidDirPte, PteAddr, Accessible;
    var at := table + VpnOf(v, i) * 8;
    if i > 0 && IsValidDirPte(pt(at)) {
      ReadableInPage(pt, mem, PteAddr(pt(at)), i - 1, v, w);
    }
  }

  /** addr may be used, and a write of so many bytes to it stays off the entries
      that its translation visits. */
  ghost predicate WritesApart(history: set<TlbEntry>, mem: Memory, c: Context, addr: nat, size: nat) {
    Usable(history, c.satp, TablesIn(mem), mem, addr) &&
    match Resolve(TablesIn(mem), c, Store, addr)
    case Refused(_) => true
    case Physical(pa) => Apart(Visited(TablesIn(mem), c.satp.ppn * 0x1000, 2, addr), pa, size)
  }

  lemma SameWalkSameDiscipline(history: set<TlbEntry>, satp: Satp, pt: Tables, now: Tables, v: nat)
    requires Disciplined(history, satp, pt, v) && Walk(now, satp.ppn, v) == Walk(pt, satp.ppn, v)
    ensures Disciplined(history, satp, now, v)
  {
    hide Walk, Hits;
  }

  lemma SameWalkSameTarget(pt: Tables, now: Tables, c: Context, v: nat)
    requires Walk(now, c.satp.ppn, v) == Walk(pt, c.satp.ppn, v)
    ensures Resolve(now, c, Store, v) == Resolve(pt, c, Store, v)
  {
    hide Walk, Check;
  }

  /** A store off the entries that addr visits, whatever address of its page was
      used for it, keeps all of that. */
  lemma StoreKeepsApart(history: set<TlbEntry>, mem: Memory, c: Context, addr: nat, size: nat, w: nat, pa: nat, b: Byte)
    requires WritesApart(history, mem, c, addr, size)
    requires Apart(Visited(TablesIn(mem), c.satp.ppn * 0x1000, 2, addr), pa, 1)
    ensures WritesApart(Recall(history, c.satp, TablesIn(mem), w), Stored(mem, pa, [b]), c, addr, size)
  {
    hide Disciplined, Walk, Visited, Apart, TablesReadable, Resolve, Recall, Stored;
    var next := Stored(mem, pa, [b]);
    StoreKeepsWalk(mem, pa, [b], c.satp.ppn, addr);
    StoreKeepsReadable(mem, pa, [b], c.satp.ppn, addr);
    UseKeepsDiscipline(history, c.satp, TablesIn(mem), w, addr);
    SameWalkSameDiscipline(Recall(history, c.satp, TablesIn(mem), w), c.satp, TablesIn(mem), TablesIn(next), addr);
    SameWalkSameTarget(TablesIn(mem), TablesIn(next), c, addr);
  }

  lemma ByteApart(entries: set<nat>, pa: nat, size: nat, i: nat)
    requires Apart(entries, pa, size) && i < size
    ensures Apart(entries, pa + i, 1)
  {
  }

  /** Storing one byte does. */
  lemma ByteKeepsApart(history: set<TlbEntry>, mem: Memory, c: Context, addr: U64, bytes: seq<Byte>, i: nat, pa: nat)
    requires 1 <= |bytes| <= 0x1000 && !CrossesPage(addr, |bytes|) && i < |bytes| && !Bare(c)
    requires WritesApart(history, mem, c, addr, |bytes|) && Resolve(TablesIn(mem), c, Store, addr) == Physical(pa)
    ensures WritesApart(Touched(history, mem, c, Store, addr + i, 1), Stored(mem, pa + i, [bytes[i]]), c, addr, |bytes|)
  {
    hide Usable, Visited, Apart, Resolve, Recall, Stored, CrossesPage;
    InsideOnePage(addr, |bytes|, i);
    ByteApart(Visited(TablesIn(mem), c.satp.ppn * 0x1000, 2, addr), pa, |bytes|, i);
    StoreKeepsApart(history, mem, c, addr, |bytes|, addr + i, pa + i, bytes[i]);
  }

  lemma ByteWrites(mem: Memory, c: Context, addr: U64, size: nat, i: nat, b: Byte)
    requires 1 <= size <= 0x1000 && !CrossesPage(addr, size) && i < size && !Bare(c)
    requires PlainWrite(mem, TablesIn(mem), c, addr + i, [b]).0 == AccessOk
    ensures Resolve(TablesIn(mem), c, Store, addr).Physical?
    ensures PlainWrite(mem, TablesIn(mem), c, addr + i, [b]).1
         == Stored(mem, Resolve(TablesIn(mem), c, Store, addr).addr + i, [b])
  {
    WriteTargetOfByte(TablesIn(mem), c, addr, size, i);
    RefusedIsFault(TablesIn(mem), c, addr);
  }

  lemma RefusedIsFault(pt: Tables, c: Context, addr: nat)
    ensures Resolve(pt, c, Store, addr) != Refused(AccessOk)
  {
  }

  /** Such a store meets the premise of every one of its bytes. */
  lemma {:induction false} ApartMayWrite(history: set<TlbEntry>, mem: Memory, c: Context, addr: U64,
                                         bytes: seq<Byte>, i: nat)
    requires 1 <= |bytes| <= 0x1000 && !CrossesPage(addr, |bytes|) && i <= |bytes| && !Bare(c)
    requires WritesApart(history, mem, c, addr, |bytes|)
    ensures MayWriteBytes(history, mem, c, addr, bytes, i)
    decreases |bytes| - i
  {
    hide CrossesPage, Usable, PlainWrite, Touched, Resolve;
    if i < |bytes| {
      InsideOnePage(addr, |bytes|, i);
      UsableInPage(history, c.satp, TablesIn(mem), mem, addr, addr + i);
      var r := PlainWrite(mem, TablesIn(mem), c, addr + i, [bytes[i]]);
      if r.0 == AccessOk {
        ByteWrites(mem, c, addr, |bytes|, i, bytes[i]);
        ByteKeepsApart(history, mem, c, addr, bytes, i, Resolve(TablesIn(mem), c, Store, addr).addr);
        ApartMayWrite(Touched(history, mem, c, Store, addr + i, 1), r.1, c, addr, bytes, i + 1);
      }
    }
  }

  /** Then the debugger's store is the whole write. */
  lemma ApartWriteIsWhole(history: set<TlbEntry>, mem: Memory, c: Context, addr: U64, bytes: seq<Byte>)
    requires 1 <= |bytes| <= 0x1000 && !CrossesPage(addr, |bytes|) && !Bare(c)
    requires WritesApart(history, mem, c, addr, |bytes|)
    ensures MayWriteBytes(history, mem, c, addr, bytes, 0)
    ensures LiveWrite(mem, c, addr, bytes, 0).0 <==> PlainWrite(mem, TablesIn(mem), c, addr, bytes).0 == AccessOk
    ensures LiveWrite(mem, c, addr, bytes, 0).0 ==>
              LiveWrite(mem, c, addr, bytes, 0).1 == PlainWrite(mem, TablesIn(mem), c, addr, bytes).1
  {
    ApartMayWrite(history, mem, c, addr, bytes, 0);
    LiveWriteIsWhole(history, mem, c, addr, bytes);
  }
}
