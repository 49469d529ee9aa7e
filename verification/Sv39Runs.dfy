/** Runs of the MMU: lookups, address-space switches, fences and page-table
    writes in any order, and what software must do for the caches not to show. */
module Sv39Runs {
  import opened Words
  import opened Sv39Walk
  import opened Sv39Tlb

  /** The MMU with what surrounds it.  `history` is bookkeeping of the model: it
      depends on the events and the tables only, never on `tlb`. */
  datatype Mmu = Mmu(tlb: Tlb, satp: Satp, pt: Tables, history: set<TlbEntry>)

  datatype Event =
    | Use(v: nat)
    | SwitchSpace(satp: Satp)
    | FenceVma(v: nat, asid: nat)
    | WriteTables(pt: Tables)

  function Step(m: Mmu, e: Event): Mmu
    requires WellFormed(m.tlb)
  {
    match e
    case Use(v) =>
      m.(tlb := Lookup(m.tlb, m.satp, m.pt, v).0, history := Recall(m.history, m.satp, m.pt, v))
    case SwitchSpace(satp) => m.(satp := satp)
    case FenceVma(v, asid) =>
      m.(tlb := Fence(m.tlb, v, asid), history := Forget(m.history, v, asid))
    case WriteTables(pt) => m.(pt := pt)
  }

  /** The only obligation on software: translation is on and disciplined when an
      address is used.  Everything else may happen at any time. */
  predicate Permitted(m: Mmu, e: Event) {
    e.Use? ==> m.satp.mode == SV39_MODE && Disciplined(m.history, m.satp, m.pt, e.v)
  }

  /** The state after a run. */
  function Run(m: Mmu, es: seq<Event>): Mmu
    requires Inv(m.tlb, m.history)
    decreases |es|
  {
    if es == [] then m else StepKeepsInv(m, es[0]); Run(Step(m, es[0]), es[1..])
  }

  lemma StepKeepsInv(m: Mmu, e: Event)
    requires Inv(m.tlb, m.history)
    ensures Inv(Step(m, e).tlb, Step(m, e).history)
  {
    match e
    case Use(v) => LookupKeepsInv(m.tlb, m.history, m.satp, m.pt, v);
    case FenceVma(v, asid) => FenceKeepsInv(m.tlb, m.history, v, asid);
    case _ =>
  }

  /** The invariant of both caches holds after every run, disciplined or not. */
  lemma {:induction false} RunKeepsInv(m: Mmu, es: seq<Event>)
    requires Inv(m.tlb, m.history)
    ensures Inv(Run(m, es).tlb, Run(m, es).history)
    decreases |es|
  {
    if es != [] {
      StepKeepsInv(m, es[0]);
      RunKeepsInv(Step(m, es[0]), es[1..]);
    }
  }

  /** TLB refinement: whatever the run from a fresh MMU, a permitted use of v has
      at most one matching slot and answers exactly what the plain walk answers. */
  lemma CachesInvisible(m: Mmu, es: seq<Event>, v: nat)
    requires Initial(m.tlb) && m.history == {}
    ensures Inv(m.tlb, m.history)
    ensures
      var s := Run(m, es);
      Permitted(s, Use(v)) ==>
        WellFormed(s.tlb) && AtMostOneHit(s.tlb, s.satp.asid, v) &&
        var r := Lookup(s.tlb, s.satp, s.pt, v);
        (r.1.Some? ==> r.1.value < |r.0.slots|) && Answer(r) == Walk(s.pt, s.satp.ppn, v)
  {
    InitialInv(m.tlb);
    RunKeepsInv(m, es);
    var s := Run(m, es);
    if Permitted(s, Use(v)) {
      DisciplineGivesUniqueness(s.tlb, s.history, s.satp, s.pt, v);
      LookupIsWalk(s.tlb, s.history, s.satp, s.pt, v);
    }
  }

  /** The obligation is about software alone: two MMUs whose caches hold anything
      at all go through the same address spaces, tables and histories. */
  lemma {:induction false} HistoryIgnoresCaches(m: Mmu, tlb: Tlb, es: seq<Event>)
    requires Inv(m.tlb, m.history) && Inv(tlb, m.history)
    ensures Run(m, es) == Run(m.(tlb := tlb), es).(tlb := Run(m, es).tlb)
    decreases |es|
  {
    if es != [] {
      var n := m.(tlb := tlb);
      StepKeepsInv(m, es[0]);
      StepKeepsInv(n, es[0]);
      assert Step(n, es[0]) == Step(m, es[0]).(tlb := Step(n, es[0]).tlb);
      HistoryIgnoresCaches(Step(m, es[0]), Step(n, es[0]).tlb, es[1..]);
    }
  }

  // ----- How software meets the obligation

  /** Using an address never makes another address undisciplined. */
  lemma UseKeepsDiscipline(history: set<TlbEntry>, satp: Satp, pt: Tables, v: nat, w: nat)
    requires Disciplined(history, satp, pt, w)
    ensures Disciplined(Recall(history, satp, pt, v), satp, pt, w)
  {
    var walk := Walk(pt, satp.ppn, v);
    if walk.Some? && PageBase(w, walk.value.pagesize) == PageBase(v, walk.value.pagesize) {
      WalkSamePage(pt, satp.ppn, v, w);
    }
  }

  /** A fence for an address, in every address space, permits the use of its 4K
      page whatever was done to the tables before. */
  lemma FencePermitsUse(m: Mmu, pt: Tables, v: nat, w: nat)
    requires Inv(m.tlb, m.history) && m.satp.mode == SV39_MODE
    requires v == 0 || PageBase(v, 1) == PageBase(w, 1)
    ensures
      var n := Step(m, WriteTables(pt));
      WellFormed(n.tlb) && Permitted(Step(n, FenceVma(v, 0)), Use(w))
  {
    if v != 0 {
      SamePageFields(v, w, 1);
    }
    var h := Forget(m.history, v, 0);
    forall e | e in h ensures !Hits(e, m.satp.asid, w) {
      assert PageBase(e.vpa, e.pagesize) == e.vpa;
    }
  }

  /** A fence for one address space suffices when no global translation from
      another address space is in use for the page. */
  lemma FenceOneSpacePermitsUse(m: Mmu, pt: Tables, v: nat, w: nat)
    requires Inv(m.tlb, m.history) && m.satp.mode == SV39_MODE
    requires v == 0 || PageBase(v, 1) == PageBase(w, 1)
    requires forall e :: e in m.history && Hits(e, m.satp.asid, w) ==> e.asid == m.satp.asid
    ensures
      var n := Step(m, WriteTables(pt));
      WellFormed(n.tlb) && Permitted(Step(n, FenceVma(v, m.satp.asid)), Use(w))
  {
    if v != 0 {
      SamePageFields(v, w, 1);
    }
    var h := Forget(m.history, v, m.satp.asid);
    forall e | e in h ensures !Hits(e, m.satp.asid, w) {
      assert PageBase(e.vpa, e.pagesize) == e.vpa;
    }
  }

  /** Failures are never cached: an address that faults may be mapped, and used,
      without any fence. */
  lemma MappingNeedsNoFence(m: Mmu, pt: Tables, v: nat)
    requires Inv(m.tlb, m.history) && Permitted(m, Use(v)) && Walk(m.pt, m.satp.ppn, v).None?
    ensures Permitted(Step(m, WriteTables(pt)), Use(v))
    ensures Answer(Lookup(m.tlb, m.satp, pt, v)) == Walk(pt, m.satp.ppn, v)
  {
    forall e | e in m.history ensures !Hits(e, m.satp.asid, v) {
    }
    LookupIsWalk(m.tlb, m.history, m.satp, pt, v);
  }

  /** Without the discipline the caches do show: an address used, remapped and
      used again with no fence answers with the old leaf. */
  lemma UnfencedRemapShows(m: Mmu, pt: Tables, v: nat)
    requires Initial(m.tlb) && m.history == {} && m.satp.mode == SV39_MODE
    requires Walk(m.pt, m.satp.ppn, v).Some?
    requires Walk(pt, m.satp.ppn, v) != Walk(m.pt, m.satp.ppn, v)
    ensures Inv(m.tlb, m.history)
    ensures
      var s := Run(m, [Use(v), WriteTables(pt)]);
      WellFormed(s.tlb) && Lookup(s.tlb, s.satp, s.pt, v).1 == Some(0) &&
      Answer(Lookup(s.tlb, s.satp, s.pt, v)) == Walk(m.pt, s.satp.ppn, v) != Walk(s.pt, s.satp.ppn, v)
  {
    hide Walk, PageBase;
    InitialInv(m.tlb);
    var n := Step(m, Use(v));
    StepKeepsInv(m, Use(v));
    assert [Use(v), WriteTables(pt)][1..] == [WriteTables(pt)];
    assert Run(n, [WriteTables(pt)]) == n.(pt := pt);
    var e := EntryFor(Walk(m.pt, m.satp.ppn, v).value, m.satp.asid, v);
    assert n.tlb.slots[0] == e && Hits(e, m.satp.asid, v);
    assert AtMostOneHit(n.tlb, m.satp.asid, v);
  }

  // ----- What a fence does

  /** After a fence nothing in its scope is left: no slot of that address space
      (any, for 0) answers for the address (any, for 0). */
  lemma FenceDropsScope(t: Tlb, history: set<TlbEntry>, v: nat, asid: nat, w: nat, k: nat)
    requires Inv(t, history) && k < TLB_SIZE
    requires v == 0 || v == w
    ensures
      var e := Fence(t, v, asid).slots[k];
      Live(e) && (e.asid == asid || asid == 0) ==> PageBase(w, e.pagesize) != e.vpa
  {
    var e := t.slots[k];
    if Live(e) {
      assert PageBase(e.vpa, e.pagesize) == e.vpa;
    }
  }

  /** Outside the scope of the fence every slot keeps its contents, and an
      address cached there is answered by the same slot as before. */
  lemma FenceSparesOthers(t: Tlb, history: set<TlbEntry>, v: nat, asid: nat, satp: Satp, pt: Tables, w: nat)
    requires Inv(t, history) && AtMostOneHit(t, satp.asid, w)
    ensures forall k :: 0 <= k < TLB_SIZE && !Covered(t.slots[k], v, asid)
                   ==> Fence(t, v, asid).slots[k] == t.slots[k]
    ensures WellFormed(Fence(t, v, asid))
    ensures forall k :: 0 <= k < TLB_SIZE && Hits(t.slots[k], satp.asid, w) && !Covered(t.slots[k], v, asid)
                   ==> Lookup(Fence(t, v, asid), satp, pt, w).1 == Lookup(t, satp, pt, w).1 == Some(k)
  {
    var f := Fence(t, v, asid);
    FenceKeepsInv(t, history, v, asid);
    forall k | 0 <= k < TLB_SIZE && Hits(t.slots[k], satp.asid, w) && !Covered(t.slots[k], v, asid)
      ensures Lookup(f, satp, pt, w).1 == Lookup(t, satp, pt, w).1 == Some(k)
    {
      UniqueHitAnswers(t, history, satp, pt, w, k);
      assert AtMostOneHit(f, satp.asid, w);
      UniqueHitAnswers(f, Forget(history, v, asid), satp, pt, w, k);
    }
  }

  /** The only slot that hits an address is the one a lookup returns. */
  lemma UniqueHitAnswers(t: Tlb, history: set<TlbEntry>, satp: Satp, pt: Tables, w: nat, k: nat)
    requires Inv(t, history) && AtMostOneHit(t, satp.asid, w)
    requires k < TLB_SIZE && Hits(t.slots[k], satp.asid, w)
    ensures Lookup(t, satp, pt, w).1 == Some(k)
  {
    if FastPath(t, satp.asid, w).Some? {
      FastPathHits(t, history, satp.asid, w);
    }
  }
}
