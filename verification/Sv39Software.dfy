/** What software does so that it never sees the caches of the MMU.  The rule is
    about software alone: a mapping that was changed or removed is stale until a
    fence covers it, and an address is used only where no stale translation of it
    differs from the tables.  Anything may happen between a change and its fence,
    uses of other addresses included, such as the fetch of the fence itself.  An
    edit that is fenced before the next use is the special case at the end. */
module Sv39Software {
  import opened Words
  import opened Sv39Walk
  import opened Sv39Tlb
  import opened Sv39Runs

  /** The root page number of each address space. */
  type Spaces = nat -> nat

  // ----- What software knows

  /** A translation t that address v had in an address space. */
  datatype Mapping = Mapping(space: nat, v: nat, t: Translation)

  /** The tables, the current space, the root of every space, and the mappings that
      may still be cached although the tables have lost them. */
  datatype World = World(pt: Tables, satp: Satp, roots: Spaces, stale: iset<Mapping>)

  predicate Holds(pt: Tables, roots: Spaces, s: Mapping) {
    Walk(pt, roots(s.space), s.v) == Some(s.t)
  }

  /** New tables or roots: every mapping of a canonical address that they lack is stale
      from here on. */
  ghost function Replaced(w: World, pt: Tables, roots: Spaces): World {
    var lost := iset s: Mapping | Canonical(s.v) && Holds(w.pt, w.roots, s) && !Holds(pt, roots, s);
    w.(pt := pt, roots := roots, stale := w.stale + lost)
  }

  /** Entering a space with another root changes the root of that space. */
  function RootsAfter(roots: Spaces, satp: Satp): Spaces {
    if satp.mode != SV39_MODE || roots(satp.asid) == satp.ppn then roots
    else (a: nat) => if a == satp.asid then satp.ppn else roots(a)
  }

  /** A fence lies in the page that t maps for address w of space b. */
  predicate FenceCovers(fence: (nat, nat), t: Translation, b: nat, w: nat) {
    (fence.1 == 0 || fence.1 == b) &&
    (fence.0 == 0 || (1 <= t.pagesize <= 3 && PageBase(w, t.pagesize) == PageBase(fence.0, t.pagesize)))
  }

  ghost function Fenced(w: World, v: nat, asid: nat): World {
    w.(stale := iset s: Mapping | s in w.stale && !FenceCovers((v, asid), s.t, s.space, s.v))
  }

  ghost function Observe(w: World, e: Event): World {
    match e
    case Use(_) => w
    case SwitchSpace(satp) => Replaced(w, w.pt, RootsAfter(w.roots, satp)).(satp := satp)
    case FenceVma(v, asid) => Fenced(w, v, asid)
    case WriteTables(pt) => Replaced(w, pt, w.roots)
  }

  // ----- The rule

  /** Every stale translation of v that the current space could use is the one that
      the tables hold again. */
  ghost predicate Fresh(w: World, v: nat) {
    forall s :: s in w.stale && s.v == v && (s.space == w.satp.asid || s.t.g) ==> Walk(w.pt, w.satp.ppn, v) == Some(s.t)
  }

  /** A translation of v that is global in some space is that of the current one. */
  ghost predicate GlobalsAgreeAt(w: World, v: nat) {
    forall b :: Walk(w.pt, w.roots(b), v).Some? && Walk(w.pt, w.roots(b), v).value.g
      ==> Walk(w.pt, w.satp.ppn, v) == Walk(w.pt, w.roots(b), v)
  }

  /** When software may use v. */
  ghost predicate MayTouch(w: World, v: nat) {
    w.satp.mode == SV39_MODE && Canonical(v) && Fresh(w, v) && GlobalsAgreeAt(w, v)
  }

  ghost predicate Obeys(w: World, es: seq<Event>)
    decreases |es|
  {
    es == [] || ((es[0].Use? ==> MayTouch(w, es[0].v)) && Obeys(Observe(w, es[0]), es[1..]))
  }

  /** The world after a run. */
  ghost function Watch(w: World, es: seq<Event>): World
    decreases |es|
  {
    if es == [] then w else Watch(Observe(w, es[0]), es[1..])
  }

  // ----- What the rule keeps

  /** The mapping of v that a slot carries. */
  function Loaded(e: TlbEntry, v: nat): Mapping {
    Mapping(e.asid, v, Carried(e))
  }

  /** Every translation in use is current or stale at each address of its page. */
  ghost predicate Tracked(history: set<TlbEntry>, w: World) {
    forall e, v :: e in history && Live(e) && Canonical(v) && PageBase(v, e.pagesize) == e.vpa
      ==> Holds(w.pt, w.roots, Loaded(e, v)) || Loaded(e, v) in w.stale
  }

  predicate Rooted(w: World) {
    w.satp.mode == SV39_MODE ==> w.roots(w.satp.asid) == w.satp.ppn
  }

  ghost predicate Follows(m: Mmu, w: World) {
    m.pt == w.pt && m.satp == w.satp && Rooted(w) && Tracked(m.history, w)
  }

  /** An address that may be touched is used with discipline, whatever was loaded. */
  lemma MayTouchIsDisciplined(history: set<TlbEntry>, w: World, v: nat)
    requires Rooted(w) && Tracked(history, w) && MayTouch(w, v)
    ensures Disciplined(history, w.satp, w.pt, v)
  {
    hide Walk, Canonical;
    forall e | e in history && Hits(e, w.satp.asid, v) ensures Walk(w.pt, w.satp.ppn, v) == Some(Carried(e)) {
      assert Holds(w.pt, w.roots, Loaded(e, v)) || Loaded(e, v) in w.stale;
    }
  }

  lemma UseTracked(history: set<TlbEntry>, w: World, v: nat)
    requires Rooted(w) && Tracked(history, w) && w.satp.mode == SV39_MODE
    ensures Tracked(Recall(history, w.satp, w.pt, v), w)
  {
    var walk := Walk(w.pt, w.satp.ppn, v);
    if walk.Some? {
      var entry := EntryFor(walk.value, w.satp.asid, v);
      forall u | PageBase(u, entry.pagesize) == entry.vpa ensures Holds(w.pt, w.roots, Loaded(entry, u)) {
        WalkSamePage(w.pt, w.satp.ppn, v, u);
      }
    }
  }

  lemma ReplacedTracked(history: set<TlbEntry>, w: World, pt: Tables, roots: Spaces)
    requires Tracked(history, w)
    ensures Tracked(history, Replaced(w, pt, roots))
  {
    hide Walk, Canonical, PageBase;
  }

  lemma FenceTracked(history: set<TlbEntry>, w: World, v: nat, asid: nat)
    requires AlignedHistory(history) && Tracked(history, w)
    ensures Tracked(Forget(history, v, asid), Fenced(w, v, asid))
  {
    hide Walk, Canonical;
    var kept := Forget(history, v, asid);
    forall e, u | e in kept && Live(e) && Canonical(u) && PageBase(u, e.pagesize) == e.vpa
      ensures Holds(w.pt, w.roots, Loaded(e, u)) || Loaded(e, u) in Fenced(w, v, asid).stale
    {
      assert Holds(w.pt, w.roots, Loaded(e, u)) || Loaded(e, u) in w.stale;
      assert PageBase(e.vpa, e.pagesize) == e.vpa;
    }
  }

  lemma StepFollows(m: Mmu, w: World, e: Event)
    requires Inv(m.tlb, m.history) && Follows(m, w) && (e.Use? ==> MayTouch(w, e.v))
    ensures Follows(Step(m, e), Observe(w, e))
  {
    hide Walk, Canonical, Tracked, Lookup, Fence, Recall, Forget, Fresh, GlobalsAgreeAt;
    match e
    case Use(v) => UseTracked(m.history, w, v);
    case SwitchSpace(satp) => SpaceTracked(m.history, w, satp);
    case FenceVma(v, asid) => FenceTracked(m.history, w, v, asid);
    case WriteTables(pt) => ReplacedTracked(m.history, w, pt, w.roots);
  }

  lemma SpaceTracked(history: set<TlbEntry>, w: World, satp: Satp)
    requires Tracked(history, w)
    ensures Tracked(history, Observe(w, SwitchSpace(satp)))
  {
    ReplacedTracked(history, w, w.pt, RootsAfter(w.roots, satp));
  }

  /** Every use of the run is permitted. */
  predicate AllPermitted(m: Mmu, es: seq<Event>)
    requires Inv(m.tlb, m.history)
    decreases |es|
  {
    es == [] || (Permitted(m, es[0]) && (StepKeepsInv(m, es[0]); AllPermitted(Step(m, es[0]), es[1..])))
  }

  lemma {:induction false} ObedientRunFollows(m: Mmu, w: World, es: seq<Event>)
    requires Inv(m.tlb, m.history) && Follows(m, w) && Obeys(w, es)
    ensures AllPermitted(m, es) && Follows(Run(m, es), Watch(w, es))
    decreases |es|
  {
    hide Follows, MayTouch, Lookup, Fence, Recall, Forget;
    if es != [] {
      StepKeepsInv(m, es[0]);
      StepFollows(m, w, es[0]);
      ObedientUsePermitted(m, w, es[0]);
      ObedientRunFollows(Step(m, es[0]), Observe(w, es[0]), es[1..]);
    }
  }

  lemma ObedientUsePermitted(m: Mmu, w: World, e: Event)
    requires Follows(m, w) && (e.Use? ==> MayTouch(w, e.v))
    ensures Permitted(m, e)
  {
    if e.Use? {
      MayTouchIsDisciplined(m.history, w, e.v);
    }
  }

  /** Software that obeys the rule over any run from a new MMU, whatever it does
      between a change and its fence, uses every address with discipline, and where
      it may use an address after the run, one slot at most answers for it and the
      answer is the walk. */
  lemma ObedientSoftwareSeesTheTables(m: Mmu, roots: Spaces, es: seq<Event>, v: nat)
    requires Initial(m.tlb) && m.history == {} && Rooted(World(m.pt, m.satp, roots, iset{}))
    requires Obeys(World(m.pt, m.satp, roots, iset{}), es)
    ensures Inv(m.tlb, m.history) && AllPermitted(m, es)
    ensures
      var s := Run(m, es);
      MayTouch(Watch(World(m.pt, m.satp, roots, iset{}), es), v) ==>
        WellFormed(s.tlb) && AtMostOneHit(s.tlb, s.satp.asid, v) &&
        var r := Lookup(s.tlb, s.satp, s.pt, v);
        (r.1.Some? ==> r.1.value < |r.0.slots|) && Answer(r) == Walk(s.pt, s.satp.ppn, v)
  {
    hide Walk, Lookup, MayTouch, AtMostOneHit;
    InitialInv(m.tlb);
    var w := World(m.pt, m.satp, roots, iset{});
    ObedientRunFollows(m, w, es);
    if MayTouch(Watch(w, es), v) {
      ObedientUsePermitted(Run(m, es), Watch(w, es), Use(v));
      CachesInvisible(m, es, v);
    }
  }

  // ----- The rule asks no more than it must

  /** A stale mapping is stale or current at every other address of its page. */
  ghost predicate WholePage(w: World, s: Mapping) {
    1 <= s.t.pagesize <= 3 &&
    forall u :: Canonical(u) && PageBase(u, s.t.pagesize) == PageBase(s.v, s.t.pagesize)
      ==> Mapping(s.space, u, s.t) in w.stale || Holds(w.pt, w.roots, Mapping(s.space, u, s.t))
  }

  ghost predicate WholePages(w: World) {
    forall s :: s in w.stale ==> WholePage(w, s)
  }

  lemma ReplacedWholePages(w: World, pt: Tables, roots: Spaces)
    requires WholePages(w)
    ensures WholePages(Replaced(w, pt, roots))
  {
    var n := Replaced(w, pt, roots);
    forall s | s in n.stale ensures WholePage(n, s) {
      forall u | Canonical(u) && PageBase(u, s.t.pagesize) == PageBase(s.v, s.t.pagesize)
        ensures Mapping(s.space, u, s.t) in n.stale || Holds(pt, roots, Mapping(s.space, u, s.t))
      {
        hide PageBase, Canonical;
        if s in w.stale {
          assert WholePage(w, s);
        } else {
          WalkSamePage(w.pt, w.roots(s.space), s.v, u);
        }
      }
    }
  }

  lemma FencedWholePages(w: World, v: nat, asid: nat)
    requires WholePages(w)
    ensures WholePages(Fenced(w, v, asid))
  {
    hide PageBase, Canonical, Walk;
    forall s | s in Fenced(w, v, asid).stale ensures WholePage(Fenced(w, v, asid), s) {
      assert WholePage(w, s);
    }
  }

  lemma ObserveWholePages(w: World, e: Event)
    requires WholePages(w)
    ensures WholePages(Observe(w, e))
  {
    match e
    case Use(_) =>
    case SwitchSpace(satp) => ReplacedWholePages(w, w.pt, RootsAfter(w.roots, satp));
    case FenceVma(v, asid) => FencedWholePages(w, v, asid);
    case WriteTables(pt) => ReplacedWholePages(w, pt, w.roots);
  }

  /** This holds in any world that software reaches from one with nothing stale. */
  lemma {:induction false} WatchWholePages(w: World, es: seq<Event>)
    requires WholePages(w)
    ensures WholePages(Watch(w, es))
    decreases |es|
  {
    if es != [] {
      ObserveWholePages(w, es[0]);
      WatchWholePages(Observe(w, es[0]), es[1..]);
    }
  }

  /** What may be loaded, as far as software can tell. */
  ghost predicate Possible(history: set<TlbEntry>, w: World) {
    AlignedHistory(history) && Tracked(history, w)
  }

  ghost predicate PermittedHere(history: set<TlbEntry>, w: World, v: nat) {
    Disciplined(history, w.satp, w.pt, v)
  }

  /** One mapping may be what the TLB holds. */
  lemma OneLoaded(w: World, s: Mapping)
    requires WholePages(w) && 1 <= s.t.pagesize <= 3 && Canonical(s.v)
    requires s in w.stale || Holds(w.pt, w.roots, s)
    ensures Possible({EntryFor(s.t, s.space, s.v)}, w)
  {
    var e := EntryFor(s.t, s.space, s.v);
    PageBaseIdempotent(s.v, s.t.pagesize);
    forall u | Canonical(u) && PageBase(u, e.pagesize) == e.vpa
      ensures Holds(w.pt, w.roots, Loaded(e, u)) || Loaded(e, u) in w.stale
    {
      assert Loaded(e, u) == Mapping(s.space, u, s.t);
      if s in w.stale {
        assert WholePage(w, s);
      } else {
        WalkSamePage(w.pt, w.roots(s.space), s.v, u);
      }
    }
  }

  /** The rule is exact: a use is safe for everything that may be loaded if and only
      if the rule allows it. */
  lemma RuleIsExact(w: World, v: nat)
    requires Rooted(w) && WholePages(w) && w.satp.mode == SV39_MODE && Canonical(v)
    ensures MayTouch(w, v) <==> forall history :: Possible(history, w) ==> PermittedHere(history, w, v)
  {
    if MayTouch(w, v) {
      forall history | Possible(history, w) ensures PermittedHere(history, w, v) {
        MayTouchIsDisciplined(history, w, v);
      }
    } else if !Fresh(w, v) {
      var s :| s in w.stale && s.v == v && (s.space == w.satp.asid || s.t.g) && Walk(w.pt, w.satp.ppn, v) != Some(s.t);
      assert WholePage(w, s);
      UnsafeLoaded(w, s);
    } else {
      var b :| Walk(w.pt, w.roots(b), v).Some? && Walk(w.pt, w.roots(b), v).value.g &&
        Walk(w.pt, w.satp.ppn, v) != Walk(w.pt, w.roots(b), v);
      UnsafeLoaded(w, Mapping(b, v, Walk(w.pt, w.roots(b), v).value));
    }
  }

  lemma UnsafeLoaded(w: World, s: Mapping)
    requires WholePages(w) && 1 <= s.t.pagesize <= 3 && Canonical(s.v)
    requires s in w.stale || Holds(w.pt, w.roots, s)
    requires (s.space == w.satp.asid || s.t.g) && Walk(w.pt, w.satp.ppn, s.v) != Some(s.t)
    ensures exists history :: Possible(history, w) && !PermittedHere(history, w, s.v)
  {
    hide Walk, Canonical, WholePages, Tracked;
    OneLoaded(w, s);
    var e := EntryFor(s.t, s.space, s.v);
    assert e in {e} && Hits(e, w.satp.asid, s.v) && Carried(e) == s.t;
    assert !PermittedHere({e}, w, s.v);
  }

  // ----- A remap whose fence comes later

  /** The edit changes mappings of one page in one space only. */
  ghost predicate OnlyPageChanges(before: Tables, after: Tables, spaces: Spaces, b: nat, v: nat) {
    forall a, w ::
      Canonical(w) && Walk(before, spaces(a), w).Some? && Walk(after, spaces(a), w) != Walk(before, spaces(a), w)
      ==> a == b && PageBase(w, 1) == PageBase(v, 1)
  }

  /** Addresses of one 4K page lie in one page of every size. */
  lemma SamePage4K(v: nat, w: nat, pagesize: nat)
    requires 1 <= pagesize <= 3 && PageBase(v, 1) == PageBase(w, 1)
    ensures PageBase(v, pagesize) == PageBase(w, pagesize)
  {
    SamePageFields(v, w, 1);
  }

  /** A translation that is global in one space is the same in all of them. */
  ghost predicate GlobalsAgree(pt: Tables, spaces: Spaces) {
    forall a, b, w :: Canonical(w) && Walk(pt, spaces(a), w).Some? && Walk(pt, spaces(a), w).value.g
      ==> Walk(pt, spaces(b), w) == Walk(pt, spaces(a), w)
  }

  /** The page that the edit leaves stale is the only one. */
  lemma OnlyPageStale(w: World, pt: Tables, v: nat, s: Mapping)
    requires w.stale == iset{} && OnlyPageChanges(w.pt, pt, w.roots, w.satp.asid, v)
    requires s in Replaced(w, pt, w.roots).stale
    ensures s.space == w.satp.asid && PageBase(s.v, 1) == PageBase(v, 1) && 1 <= s.t.pagesize <= 3
  {
    assert Walk(w.pt, w.roots(s.space), s.v) == Some(s.t);
  }

  /** Between the store and the fence other pages are in use, such as that of the
      code which executes the fence; after it all pages are. */
  lemma RemapFencedLater(w: World, pt: Tables, v: nat, code: nat)
    requires Rooted(w) && w.satp.mode == SV39_MODE && w.stale == iset{} && GlobalsAgree(pt, w.roots)
    requires OnlyPageChanges(w.pt, pt, w.roots, w.satp.asid, v)
    requires Canonical(v) && Canonical(code) && PageBase(code, 1) != PageBase(v, 1)
    ensures Obeys(w, [WriteTables(pt), Use(code), FenceVma(v, w.satp.asid), Use(v), Use(code)])
    ensures Watch(w, [WriteTables(pt), Use(code), FenceVma(v, w.satp.asid)]).stale == iset{}
  {
    var asid := w.satp.asid;
    var n := Replaced(w, pt, w.roots);
    var f := Fenced(n, v, asid);
    forall s | s in n.stale ensures s.v != code && FenceCovers((v, asid), s.t, s.space, s.v) {
      OnlyPageStale(w, pt, v, s);
      SamePage4K(s.v, v, s.t.pagesize);
    }
    assert f.stale == iset{};
    assert MayTouch(n, code) && MayTouch(f, v) && MayTouch(f, code);
    LaterObeys(w, pt, v, code, n, f);
  }

  lemma LaterObeys(w: World, pt: Tables, v: nat, code: nat, n: World, f: World)
    requires n == Replaced(w, pt, w.roots) && f == Fenced(n, v, w.satp.asid)
    requires MayTouch(n, code) && MayTouch(f, v) && MayTouch(f, code)
    ensures Obeys(w, [WriteTables(pt), Use(code), FenceVma(v, w.satp.asid), Use(v), Use(code)])
    ensures Watch(w, [WriteTables(pt), Use(code), FenceVma(v, w.satp.asid)]) == f
  {
    hide Replaced, Fenced, MayTouch;
    var e1, e2, e3, e4 := WriteTables(pt), Use(code), FenceVma(v, w.satp.asid), Use(v);
    assert [e1, e2, e3, e4, e2][1..] == [e2, e3, e4, e2] && [e2, e3, e4, e2][1..] == [e3, e4, e2];
    assert [e3, e4, e2][1..] == [e4, e2] && [e4, e2][1..] == [e2] && [e2][1..] == [];
    assert Obeys(f, [e2]) && Obeys(f, [e4, e2]);
    assert Obeys(n, [e3, e4, e2]) && Obeys(n, [e2, e3, e4, e2]);
    assert [e1, e2, e3][1..] == [e2, e3] && [e2, e3][1..] == [e3] && [e3][1..] == [];
    assert Watch(n, [e3]) == f && Watch(n, [e2, e3]) == f;
  }

  // ----- Edits that are fenced at once

  /** Edit writes the tables and then executes the fences, in order. */
  datatype Action =
    | Touch(v: nat)
    | Enter(asid: nat)
    | Edit(pt: Tables, fences: seq<(nat, nat)>)

  function FenceAll(m: Mmu, fences: seq<(nat, nat)>): Mmu
    requires Inv(m.tlb, m.history)
    decreases |fences|
  {
    if fences == [] then m
    else
      var e := FenceVma(fences[0].0, fences[0].1);
      StepKeepsInv(m, e);
      FenceAll(Step(m, e), fences[1..])
  }

  function Act(m: Mmu, spaces: Spaces, a: Action): Mmu
    requires Inv(m.tlb, m.history)
  {
    match a
    case Touch(v) => Step(m, Use(v))
    case Enter(asid) => Step(m, SwitchSpace(Satp(SV39_MODE, asid, spaces(asid))))
    case Edit(pt, fences) => FenceAll(Step(m, WriteTables(pt)), fences)
  }

  /** Every mapping of a canonical address that the edit changes or removes is
      covered by one of its fences.  Mappings that appear where there was a fault
      need none. */
  ghost predicate EditFenced(m: Mmu, spaces: Spaces, pt: Tables, fences: seq<(nat, nat)>) {
    forall b, w ::
      Canonical(w) && Walk(m.pt, spaces(b), w).Some? && Walk(pt, spaces(b), w) != Walk(m.pt, spaces(b), w)
      ==> exists f :: f in fences && FenceCovers(f, Walk(m.pt, spaces(b), w).value, b, w)
  }

  ghost predicate Careful(m: Mmu, spaces: Spaces, a: Action) {
    a.Edit? ==> GlobalsAgree(a.pt, spaces) && EditFenced(m, spaces, a.pt, a.fences)
  }

  /** The state after a sequence of actions. */
  function Perform(m: Mmu, spaces: Spaces, actions: seq<Action>): Mmu
    requires Inv(m.tlb, m.history)
    decreases |actions|
  {
    if actions == [] then m
    else ActKeepsInv(m, spaces, actions[0]); Perform(Act(m, spaces, actions[0]), spaces, actions[1..])
  }

  ghost predicate CarefulRun(m: Mmu, spaces: Spaces, actions: seq<Action>)
    requires Inv(m.tlb, m.history)
    decreases |actions|
  {
    actions == [] ||
    (Careful(m, spaces, actions[0]) &&
     (ActKeepsInv(m, spaces, actions[0]); CarefulRun(Act(m, spaces, actions[0]), spaces, actions[1..])))
  }

  lemma {:induction false} FenceAllKeepsInv(m: Mmu, fences: seq<(nat, nat)>)
    requires Inv(m.tlb, m.history)
    ensures Inv(FenceAll(m, fences).tlb, FenceAll(m, fences).history)
    decreases |fences|
  {
    if fences != [] {
      var e := FenceVma(fences[0].0, fences[0].1);
      StepKeepsInv(m, e);
      FenceAllKeepsInv(Step(m, e), fences[1..]);
    }
  }

  lemma ActKeepsInv(m: Mmu, spaces: Spaces, a: Action)
    requires Inv(m.tlb, m.history)
    ensures Inv(Act(m, spaces, a).tlb, Act(m, spaces, a).history)
  {
    match a
    case Touch(v) => StepKeepsInv(m, Use(v));
    case Enter(asid) =>
    case Edit(pt, fences) => FenceAllKeepsInv(Step(m, WriteTables(pt)), fences);
  }

  /** Nothing is stale. */
  ghost function Settled(m: Mmu, spaces: Spaces): World {
    World(m.pt, m.satp, spaces, iset{})
  }

  /** What careful software maintains between its actions. */
  ghost predicate Orderly(m: Mmu, spaces: Spaces) {
    Inv(m.tlb, m.history) && m.satp.mode == SV39_MODE && GlobalsAgree(m.pt, spaces) && Follows(m, Settled(m, spaces))
  }

  lemma OrderlyPermitsEveryUse(m: Mmu, spaces: Spaces, v: nat)
    requires Orderly(m, spaces) && Canonical(v)
    ensures Permitted(m, Use(v))
  {
    hide Walk, Canonical;
    MayTouchIsDisciplined(m.history, Settled(m, spaces), v);
  }

  lemma TouchKeepsOrder(m: Mmu, spaces: Spaces, v: nat)
    requires Orderly(m, spaces)
    ensures Orderly(Act(m, spaces, Touch(v)), spaces)
  {
    hide Walk, Canonical, Tracked, Lookup, Recall, GlobalsAgree;
    ActKeepsInv(m, spaces, Touch(v));
    UseTracked(m.history, Settled(m, spaces), v);
  }

  ghost function AllFenced(w: World, fences: seq<(nat, nat)>): World
    decreases |fences|
  {
    if fences == [] then w else AllFenced(Fenced(w, fences[0].0, fences[0].1), fences[1..])
  }

  lemma {:induction false} FencesFollow(m: Mmu, w: World, fences: seq<(nat, nat)>)
    requires Inv(m.tlb, m.history) && Follows(m, w)
    ensures Follows(FenceAll(m, fences), AllFenced(w, fences))
    decreases |fences|
  {
    hide Follows, Fence, Forget;
    if fences != [] {
      var head := FenceVma(fences[0].0, fences[0].1);
      StepKeepsInv(m, head);
      StepFollows(m, w, head);
      FencesFollow(Step(m, head), Fenced(w, fences[0].0, fences[0].1), fences[1..]);
    }
  }

  lemma {:induction false} FencesChangeStale(w: World, fences: seq<(nat, nat)>)
    ensures AllFenced(w, fences) == w.(stale := AllFenced(w, fences).stale)
    decreases |fences|
  {
    if fences != [] {
      FencesChangeStale(Fenced(w, fences[0].0, fences[0].1), fences[1..]);
    }
  }

  /** Fences leave stale exactly what none of them covers. */
  lemma {:induction false} StaleAfterFences(w: World, fences: seq<(nat, nat)>, s: Mapping)
    ensures s in AllFenced(w, fences).stale <==>
            s in w.stale && forall f :: f in fences ==> !FenceCovers(f, s.t, s.space, s.v)
    decreases |fences|
  {
    hide FenceCovers;
    if fences != [] {
      StaleAfterFences(Fenced(w, fences[0].0, fences[0].1), fences[1..], s);
      assert fences[0] == (fences[0].0, fences[0].1);
      assert forall f :: f in fences <==> f == fences[0] || f in fences[1..];
    }
  }

  lemma EditKeepsOrder(m: Mmu, spaces: Spaces, pt: Tables, fences: seq<(nat, nat)>)
    requires Orderly(m, spaces) && Careful(m, spaces, Edit(pt, fences))
    ensures Orderly(Act(m, spaces, Edit(pt, fences)), spaces)
  {
    hide Tracked, Canonical;
    ActKeepsInv(m, spaces, Edit(pt, fences));
    var n := Step(m, WriteTables(pt));
    var w := Replaced(Settled(m, spaces), pt, spaces);
    StepFollows(m, Settled(m, spaces), WriteTables(pt));
    FencesFollow(n, w, fences);
    FencesChangeStale(w, fences);
    forall s ensures s !in AllFenced(w, fences).stale {
      StaleAfterFences(w, fences, s);
      if s in w.stale {
        assert Holds(m.pt, spaces, s) && !Holds(pt, spaces, s);
        var f :| f in fences && FenceCovers(f, s.t, s.space, s.v);
      }
    }
    assert AllFenced(w, fences).stale == iset{};
    assert AllFenced(w, fences) == Settled(FenceAll(n, fences), spaces);
  }

  lemma {:induction false} CarefulRunStaysOrderly(m: Mmu, spaces: Spaces, actions: seq<Action>)
    requires Orderly(m, spaces) && CarefulRun(m, spaces, actions)
    ensures Orderly(Perform(m, spaces, actions), spaces)
    decreases |actions|
  {
    if actions != [] {
      match actions[0] {
        case Touch(v) => TouchKeepsOrder(m, spaces, v);
        case Enter(asid) =>
        case Edit(pt, fences) => EditKeepsOrder(m, spaces, pt, fences);
      }
      CarefulRunStaysOrderly(Act(m, spaces, actions[0]), spaces, actions[1..]);
    }
  }

  /** The MMU refines the plain walk for careful software: after any number of
      uses, evictions, switches, edits and fences, every address has at most one
      slot and a lookup answers the current walk in the current space. */
  lemma CarefulSoftwareSeesTheTables(m: Mmu, spaces: Spaces, actions: seq<Action>, v: nat)
    requires Initial(m.tlb) && m.history == {} && m.satp.mode == SV39_MODE
    requires m.satp.ppn == spaces(m.satp.asid) && GlobalsAgree(m.pt, spaces) && Canonical(v)
    ensures Inv(m.tlb, m.history)
    ensures CarefulRun(m, spaces, actions) ==>
      var s := Perform(m, spaces, actions);
      WellFormed(s.tlb) && AtMostOneHit(s.tlb, s.satp.asid, v) &&
      var r := Lookup(s.tlb, s.satp, s.pt, v);
      (r.1.Some? ==> r.1.value < |r.0.slots|) &&
      Answer(r) == Walk(s.pt, spaces(s.satp.asid), v)
  {
    InitialInv(m.tlb);
    if CarefulRun(m, spaces, actions) {
      CarefulRunStaysOrderly(m, spaces, actions);
      var s := Perform(m, spaces, actions);
      OrderlyPermitsEveryUse(s, spaces, v);
      DisciplineGivesUniqueness(s.tlb, s.history, s.satp, s.pt, v);
      LookupIsWalk(s.tlb, s.history, s.satp, s.pt, v);
    }
  }

  // ----- Fences by page address

  /** One fence of that page in that space is enough. */
  lemma PageFenceSuffices(m: Mmu, spaces: Spaces, pt: Tables, b: nat, v: nat)
    requires OnlyPageChanges(m.pt, pt, spaces, b, v)
    ensures EditFenced(m, spaces, pt, [(v, b)])
  {
    forall a, w | Canonical(w) && Walk(m.pt, spaces(a), w).Some? && Walk(pt, spaces(a), w) != Walk(m.pt, spaces(a), w)
      ensures FenceCovers((v, b), Walk(m.pt, spaces(a), w).value, a, w)
    {
      SamePage4K(v, w, Walk(m.pt, spaces(a), w).value.pagesize);
    }
  }

  /** Space 1 has its root at page 1, all others at an empty page 9. */
  const TWO_ROOTS: Spaces := (a: nat) => if a == 1 then 1 else 9

  /** Remapping the one page of space 1 and fencing it by its address is careful. */
  lemma OnePageRemapIsCareful(m: Mmu, was: nat, now: nat)
    requires m.pt == OnePageTables(PointerPte(2), ReadablePte(was)) && was != now
    ensures
      var pt := OnePageTables(PointerPte(2), ReadablePte(now));
      Walk(m.pt, 1, 0x1000).Some? && Walk(pt, 1, 0x1000) != Walk(m.pt, 1, 0x1000) &&
      Careful(m, TWO_ROOTS, Edit(pt, [(0x1000, 1)]))
  {
    hide Walk, OnePageTables, Canonical, FenceCovers;
    OnePageTablesMap(was);
    OnePageTablesMap(now);
    OnePageNoGlobals(now);
    OnePageRemapped(was, OnePageTables(PointerPte(2), ReadablePte(now)));
    PageFenceSuffices(m, TWO_ROOTS, OnePageTables(PointerPte(2), ReadablePte(now)), 1, 0x1000);
  }

  lemma OnePageNoGlobals(ppn: nat)
    ensures GlobalsAgree(OnePageTables(PointerPte(2), ReadablePte(ppn)), TWO_ROOTS)
  {
    hide Walk, OnePageTables, Canonical;
    var pt := OnePageTables(PointerPte(2), ReadablePte(ppn));
    forall a, w | Canonical(w) && Walk(pt, TWO_ROOTS(a), w).Some? ensures !Walk(pt, TWO_ROOTS(a), w).value.g {
      OnePageMapped(ppn, TWO_ROOTS(a), w);
    }
  }

  lemma OnePageRemapped(was: nat, pt: Tables)
    ensures OnlyPageChanges(OnePageTables(PointerPte(2), ReadablePte(was)), pt, TWO_ROOTS, 1, 0x1000)
  {
    hide Walk, OnePageTables, Canonical;
    var before := OnePageTables(PointerPte(2), ReadablePte(was));
    forall a, w | Canonical(w) && Walk(before, TWO_ROOTS(a), w).Some?
      ensures a == 1 && PageBase(w, 1) == PageBase(0x1000, 1)
    {
      OnePageMapped(was, TWO_ROOTS(a), w);
    }
  }

  /** The one-page tables map nothing else. */
  lemma OnePageMapped(ppn: nat, root: nat, w: nat)
    requires Canonical(w) && (root == 1 || root == 9)
    requires Walk(OnePageTables(PointerPte(2), ReadablePte(ppn)), root, w).Some?
    ensures root == 1 && PageBase(w, 1) == 0x1000
    ensures !Walk(OnePageTables(PointerPte(2), ReadablePte(ppn)), root, w).value.g
  {
    assert VpnOf(w, 2) == 0;
    assert VpnOf(w, 1) == 0;
    assert VpnOf(w, 0) == 1;
    FieldsLocate(w);
  }

  /** A canonical address with these page-number fields lies in the page at 0x1000. */
  lemma FieldsLocate(w: nat)
    requires Canonical(w) && VpnOf(w, 2) == 0 && VpnOf(w, 1) == 0 && VpnOf(w, 0) == 1
    ensures PageBase(w, 1) == 0x1000
  {
    assert w < 0x40_0000_0000;
    assert w / 0x4000_0000 == 0;
    assert w / 0x20_0000 == 0;
    assert w / 0x1000 == 1;
  }
}
