/** The translation cache of the Sv39 MMU as a value: a 32-slot round-robin
    TLB, an index from page address to slot in front of it, and the walk behind
    both.  Proved here: over every disciplined run the two caches are invisible. */
module Sv39Tlb {
  import opened Words
  import opened Sv39Walk

  const TLB_SIZE: nat := 32

  const SV39_MODE: nat := 8

  datatype TlbEntry = TlbEntry(
    ppa: nat, vpa: nat, asid: nat, pagesize: nat,
    r: bool, w: bool, x: bool, u: bool, g: bool, a: bool, d: bool)

  datatype Satp = Satp(mode: nat, asid: nat, ppn: nat)

  /** `index` is the source's `tlbGetCache` with slot numbers for pointers. */
  datatype Tlb = Tlb(slots: seq<TlbEntry>, index: map<nat, nat>, next: nat)

  predicate Live(e: TlbEntry) {
    1 <= e.pagesize <= 3
  }

  /** The tag test of the fast path and of the scan. */
  predicate TagMatches(e: TlbEntry, asid: nat) {
    e.asid == asid || e.g
  }

  /** The slot translates v for this address space: the match of the scan. */
  predicate Hits(e: TlbEntry, asid: nat, v: nat) {
    TagMatches(e, asid) && Live(e) && PageBase(v, e.pagesize) == e.vpa
  }

  /** The translation a slot carries. */
  function Carried(e: TlbEntry): Translation {
    Translation(e.pagesize, e.ppa, e.r, e.w, e.x, e.u, e.g, e.a, e.d)
  }

  /** The slot contents that a fill writes for a leaf found for v. */
  function EntryFor(t: Translation, asid: nat, v: nat): TlbEntry
    requires 1 <= t.pagesize <= 3
  {
    TlbEntry(t.ppa, PageBase(v, t.pagesize), asid, t.pagesize, t.r, t.w, t.x, t.u, t.g, t.a, t.d)
  }

  // ----- The three operations

  predicate WellFormed(t: Tlb) {
    |t.slots| == TLB_SIZE && t.next < TLB_SIZE &&
    forall k :: k in t.index ==> t.index[k] < TLB_SIZE
  }

  /** One probe of the index: the slot filed under the page address, if its tag
      and page size fit. */
  function Probe(t: Tlb, asid: nat, v: nat, pagesize: nat): Option<nat>
    requires WellFormed(t) && 1 <= pagesize <= 3
  {
    var key := PageBase(v, pagesize);
    if key in t.index && TagMatches(t.slots[t.index[key]], asid)
       && t.slots[t.index[key]].pagesize == pagesize
    then Some(t.index[key]) else None
  }

  function FastPath(t: Tlb, asid: nat, v: nat): Option<nat>
    requires WellFormed(t)
  {
    var p1, p2 := Probe(t, asid, v, 1), Probe(t, asid, v, 2);
    if p1.Some? then p1 else if p2.Some? then p2 else Probe(t, asid, v, 3)
  }

  /** The first slot from i on that hits v. */
  function Scan(slots: seq<TlbEntry>, asid: nat, v: nat, i: nat): (hit: Option<nat>)
    requires i <= |slots|
    ensures hit.Some? ==> i <= hit.value < |slots| && Hits(slots[hit.value], asid, v)
    ensures forall k :: i <= k < (if hit.Some? then hit.value else |slots|) ==> !Hits(slots[k], asid, v)
    decreases |slots| - i
  {
    if i == |slots| then None
    else if Hits(slots[i], asid, v) then Some(i)
    else Scan(slots, asid, v, i + 1)
  }

  /** `writeTLB`: evict the next slot and its index entry, then file the leaf. */
  function Fill(t: Tlb, tr: Translation, asid: nat, v: nat): Tlb
    requires WellFormed(t) && 1 <= tr.pagesize <= 3
  {
    var e := EntryFor(tr, asid, v);
    Tlb(t.slots[t.next := e],
        (t.index - {t.slots[t.next].vpa})[e.vpa := t.next],
        (t.next + 1) % TLB_SIZE)
  }

  /** `getTLBEntry`: index, scan, walk; the slot that answers, or None. */
  function Lookup(t: Tlb, satp: Satp, pt: Tables, v: nat): (Tlb, Option<nat>)
    requires WellFormed(t)
  {
    var fast := FastPath(t, satp.asid, v);
    var hit := Scan(t.slots, satp.asid, v, 0);
    if fast.Some? then (t, fast)
    else if hit.Some? then
      (t.(index := t.index[t.slots[hit.value].vpa := hit.value]), hit)
    else if satp.mode != SV39_MODE then (t, None)
    else
      match Walk(pt, satp.ppn, v)
      case None => (t, None)
      case Some(tr) => (Fill(t, tr, satp.asid, v), Some(t.next))
  }

  /** The slot is one that `sfence.vma(v, asid)` must drop. */
  predicate Covered(e: TlbEntry, v: nat, asid: nat) {
    (e.asid == asid || asid == 0) &&
    (v == 0 || (Live(e) && PageBase(e.vpa, e.pagesize) == PageBase(v, e.pagesize)))
  }

  function Dropped(e: TlbEntry, v: nat, asid: nat): TlbEntry {
    if Covered(e, v, asid) then e.(pagesize := 0) else e
  }

  /** `SV39_FlushTLB_sfence_vma`; the index keeps its keys. */
  function Fence(t: Tlb, v: nat, asid: nat): Tlb {
    t.(slots := seq(|t.slots|, i requires 0 <= i < |t.slots| => Dropped(t.slots[i], v, asid)))
  }

  // ----- The invariant

  /** Every key of the index names a slot that carries that page address. */
  predicate IndexTruthful(t: Tlb)
    requires WellFormed(t)
  {
    forall k :: k in t.index ==> t.slots[t.index[k]].vpa == k
  }

  /** No address space could use both entries for one page. */
  predicate Rivals(e: TlbEntry, f: TlbEntry) {
    Live(e) && e.pagesize == f.pagesize && e.vpa == f.vpa && (e.asid == f.asid || (e.g && f.g))
  }

  predicate NoRivals(slots: seq<TlbEntry>) {
    forall i, j :: 0 <= i < j < |slots| ==> !Rivals(slots[i], slots[j])
  }

  /** `history` collects every translation used since a fence last covered it:
      an ideal TLB without capacity, defined by the run alone. */
  predicate DrawnFrom(slots: seq<TlbEntry>, history: set<TlbEntry>) {
    forall i :: 0 <= i < |slots| && Live(slots[i]) ==> slots[i] in history
  }

  predicate AlignedHistory(history: set<TlbEntry>) {
    forall e :: e in history ==> Live(e) && PageBase(e.vpa, e.pagesize) == e.vpa
  }

  predicate Inv(t: Tlb, history: set<TlbEntry>) {
    WellFormed(t) && IndexTruthful(t) && NoRivals(t.slots) &&
    DrawnFrom(t.slots, history) && AlignedHistory(history)
  }

  /** A freshly built MMU: no live slot, empty index, slot addresses arbitrary. */
  predicate Initial(t: Tlb) {
    |t.slots| == TLB_SIZE && t.next == 0 && t.index == map[] &&
    forall i :: 0 <= i < |t.slots| ==> t.slots[i].pagesize == 0
  }

  /** What a lookup of v adds to the history. */
  function Recall(history: set<TlbEntry>, satp: Satp, pt: Tables, v: nat): set<TlbEntry> {
    match Walk(pt, satp.ppn, v)
    case None => history
    case Some(tr) => history + {EntryFor(tr, satp.asid, v)}
  }

  /** What a fence removes from the history. */
  function Forget(history: set<TlbEntry>, v: nat, asid: nat): set<TlbEntry> {
    set e | e in history && !Covered(e, v, asid)
  }

  /** The software discipline for a use of v: every translation of v that is
      still unfenced is the one the tables hold now. */
  predicate Disciplined(history: set<TlbEntry>, satp: Satp, pt: Tables, v: nat) {
    forall e :: e in history && Hits(e, satp.asid, v) ==> Walk(pt, satp.ppn, v) == Some(Carried(e))
  }

  /** No two slots answer for v: the scan's assertion. */
  predicate AtMostOneHit(t: Tlb, asid: nat, v: nat) {
    forall i, j :: 0 <= i < j < |t.slots| ==> !(Hits(t.slots[i], asid, v) && Hits(t.slots[j], asid, v))
  }

  // ----- Preservation

  lemma InitialInv(t: Tlb)
    requires Initial(t)
    ensures Inv(t, {})
  {
  }

  lemma FillKeepsInv(t: Tlb, history: set<TlbEntry>, tr: Translation, asid: nat, v: nat)
    requires Inv(t, history) && 1 <= tr.pagesize <= 3
    requires forall i :: 0 <= i < |t.slots| ==> !Hits(t.slots[i], asid, v)
    ensures Inv(Fill(t, tr, asid, v), history + {EntryFor(tr, asid, v)})
  {
    var e, f := EntryFor(tr, asid, v), Fill(t, tr, asid, v);
    PageBaseIdempotent(v, tr.pagesize);
    forall i | 0 <= i < |t.slots| ensures !Rivals(e, t.slots[i]) && !Rivals(t.slots[i], e) {
      assert !Hits(t.slots[i], asid, v);
    }
  }

  lemma LookupKeepsInv(t: Tlb, history: set<TlbEntry>, satp: Satp, pt: Tables, v: nat)
    requires Inv(t, history)
    ensures Inv(Lookup(t, satp, pt, v).0, Recall(history, satp, pt, v))
  {
    var walk := Walk(pt, satp.ppn, v);
    if walk.Some? {
      PageBaseIdempotent(v, walk.value.pagesize);
      if FastPath(t, satp.asid, v).None? && Scan(t.slots, satp.asid, v, 0).None? {
        FillKeepsInv(t, history, walk.value, satp.asid, v);
      }
    }
  }

  lemma FenceKeepsInv(t: Tlb, history: set<TlbEntry>, v: nat, asid: nat)
    requires Inv(t, history)
    ensures Inv(Fence(t, v, asid), Forget(history, v, asid))
  {
    var f := Fence(t, v, asid);
    forall i, j | 0 <= i < j < |f.slots| ensures !Rivals(f.slots[i], f.slots[j]) {
      assert !Rivals(t.slots[i], t.slots[j]);
    }
  }

  // ----- What a lookup returns

  /** Two translations in use for one address carry the same leaf. */
  lemma TwoHitsRival(e: TlbEntry, f: TlbEntry, history: set<TlbEntry>, satp: Satp, pt: Tables, v: nat)
    requires e in history && f in history && Disciplined(history, satp, pt, v)
    requires Hits(e, satp.asid, v) && Hits(f, satp.asid, v)
    ensures Rivals(e, f) && Carried(e) == Carried(f)
  {
    assert Some(Carried(e)) == Some(Carried(f));
  }

  /** In a disciplined state the scan's assertion never fires. */
  lemma DisciplineGivesUniqueness(t: Tlb, history: set<TlbEntry>, satp: Satp, pt: Tables, v: nat)
    requires Inv(t, history) && Disciplined(history, satp, pt, v)
    ensures AtMostOneHit(t, satp.asid, v)
  {
    forall i, j | 0 <= i < j < |t.slots| && Hits(t.slots[i], satp.asid, v)
      ensures !Hits(t.slots[j], satp.asid, v)
    {
      if Hits(t.slots[j], satp.asid, v) {
        TwoHitsRival(t.slots[i], t.slots[j], history, satp, pt, v);
        assert false;
      }
    }
  }

  /** The fast path only returns slots that the scan would match. */
  lemma FastPathHits(t: Tlb, history: set<TlbEntry>, asid: nat, v: nat)
    requires Inv(t, history) && FastPath(t, asid, v).Some?
    ensures FastPath(t, asid, v).value < |t.slots|
    ensures Hits(t.slots[FastPath(t, asid, v).value], asid, v)
  {
  }

  /** With one hit at most, the fast path is the scan. */
  lemma FastPathIsScan(t: Tlb, history: set<TlbEntry>, asid: nat, v: nat)
    requires Inv(t, history) && AtMostOneHit(t, asid, v) && FastPath(t, asid, v).Some?
    ensures FastPath(t, asid, v) == Scan(t.slots, asid, v, 0)
  {
    FastPathHits(t, history, asid, v);
    assert Hits(t.slots[Scan(t.slots, asid, v, 0).value], asid, v);
  }

  /** The answer of a lookup as a translation. */
  function Answer(r: (Tlb, Option<nat>)): Option<Translation>
    requires r.1.Some? ==> r.1.value < |r.0.slots|
  {
    if r.1.None? then None else Some(Carried(r.0.slots[r.1.value]))
  }

  /** A disciplined lookup answers exactly what the plain walk answers. */
  lemma LookupIsWalk(t: Tlb, history: set<TlbEntry>, satp: Satp, pt: Tables, v: nat)
    requires Inv(t, history) && satp.mode == SV39_MODE && Disciplined(history, satp, pt, v)
    ensures
      var r := Lookup(t, satp, pt, v);
      (r.1.Some? ==> r.1.value < |r.0.slots| && Hits(r.0.slots[r.1.value], satp.asid, v)) &&
      Answer(r) == Walk(pt, satp.ppn, v)
  {
    var r := Lookup(t, satp, pt, v);
    if FastPath(t, satp.asid, v).Some? {
      FastPathHits(t, history, satp.asid, v);
    }
  }
}
