/** The platform-level interrupt controller on values: what it offers, claims and
    completes, and what every run of it keeps. */
module Plic {
  import opened Words

  type U32 = x: int | 0 <= x < 0x1_0000_0000

  /** Bit s of pending, of claimed and of each enable row belongs to source s;
      source 0 is reserved. */
  datatype State = State(
    priority: seq<U32>, pending: seq<bool>, claimed: seq<bool>,
    enable: seq<seq<bool>>, threshold: seq<U32>, claim: seq<nat>)

  /** The bit rows cover the sources, and the claim registers hold a source or 0. */
  predicate Valid(p: State) {
    1 <= |p.priority| <= |p.pending| == |p.claimed| &&
    |p.enable| == |p.threshold| == |p.claim| &&
    (forall c :: 0 <= c < |p.enable| ==> |p.enable[c]| == |p.pending|) &&
    (forall c :: 0 <= c < |p.claim| ==> p.claim[c] < |p.priority|)
  }

  predicate IsSource(p: State, s: nat) {
    1 <= s < |p.priority|
  }

  predicate IsContext(p: State, c: nat) {
    c < |p.claim|
  }

  /** The test of the arbitration loop; the threshold itself passes. */
  predicate Eligible(p: State, c: nat, s: nat)
    requires Valid(p) && IsContext(p, c)
  {
    IsSource(p, s) && p.priority[s] >= p.threshold[c] && p.pending[s] && p.enable[c][s] && !p.claimed[s]
  }

  /** Sources of priority 0 are eligible but never offered. */
  predicate Serviceable(p: State, c: nat, s: nat)
    requires Valid(p) && IsContext(p, c)
  {
    Eligible(p, c, s) && p.priority[s] > 0
  }

  function PriorityOf(p: State, s: nat): nat
    requires Valid(p) && s < |p.priority|
  {
    if s == 0 then 0 else p.priority[s]
  }

  /** The arbitration loop after sources 1 to n. */
  function Scan(p: State, c: nat, n: nat): (s: nat)
    requires Valid(p) && IsContext(p, c) && n < |p.priority|
    ensures s <= n
  {
    if n == 0 then 0
    else
      var best := Scan(p, c, n - 1);
      if Eligible(p, c, n) && p.priority[n] > PriorityOf(p, best) then n else best
  }

  function Offered(p: State, c: nat): (s: nat)
    requires Valid(p) && IsContext(p, c)
    ensures s < |p.priority|
  {
    Scan(p, c, |p.priority| - 1)
  }

  /** Source s is served before t: a higher priority, or the same and a lower id. */
  predicate Before(p: State, s: nat, t: nat)
    requires s < |p.priority| && t < |p.priority|
  {
    p.priority[s] > p.priority[t] || (p.priority[s] == p.priority[t] && s < t)
  }

  lemma {:induction false} ScanIsBest(p: State, c: nat, n: nat)
    requires Valid(p) && IsContext(p, c) && n < |p.priority|
    ensures Scan(p, c, n) != 0 ==> Serviceable(p, c, Scan(p, c, n))
    ensures forall t :: 1 <= t <= n && Serviceable(p, c, t) ==>
              Scan(p, c, n) != 0 && (t == Scan(p, c, n) || Before(p, Scan(p, c, n), t))
  {
    if n > 0 {
      ScanIsBest(p, c, n - 1);
    }
  }

  /** The offer is the serviceable source that comes before all others; there is
      none exactly when no source is serviceable. */
  lemma OfferIsBest(p: State, c: nat)
    requires Valid(p) && IsContext(p, c)
    ensures Offered(p, c) != 0 ==> Serviceable(p, c, Offered(p, c))
    ensures forall t :: Serviceable(p, c, t) ==>
              Offered(p, c) != 0 && (t == Offered(p, c) || Before(p, Offered(p, c), t))
  {
    ScanIsBest(p, c, |p.priority| - 1);
  }

  // ----- Operations

  /** `update_ext`: a line that is not asserted changes nothing. */
  function Update(p: State, s: nat, fired: bool): State
    requires Valid(p) && s < |p.pending|
  {
    if fired then p.(pending := p.pending[s := true]) else p
  }

  /** `get_int`: the claim register takes the offer. */
  function Poll(p: State, c: nat): State
    requires Valid(p) && IsContext(p, c)
  {
    p.(claim := p.claim[c := Offered(p, c)])
  }

  /** The state after a read of the claim register; the register itself keeps. */
  function Claim(p: State, c: nat): State
    requires Valid(p) && IsContext(p, c)
  {
    p.(claimed := p.claimed[p.claim[c] := true])
  }

  /** A completion write. */
  function Complete(p: State, s: nat): State
    requires Valid(p) && s < |p.pending|
  {
    p.(claimed := p.claimed[s := false], pending := p.pending[s := false])
  }

  // ----- The adapter's update

  predicate LinesFit(p: State, lines: seq<(nat, bool)>) {
    forall i :: 0 <= i < |lines| ==> lines[i].0 < |p.pending|
  }

  function UpdateAll(p: State, lines: seq<(nat, bool)>): (n: State)
    requires Valid(p) && LinesFit(p, lines)
    ensures Valid(n) && n == p.(pending := n.pending) && |n.pending| == |p.pending|
    decreases lines
  {
    if lines == [] then p
    else
      var last := |lines| - 1;
      Update(UpdateAll(p, lines[..last]), lines[last].0, lines[last].1)
  }

  lemma UpdateOneMore(p: State, lines: seq<(nat, bool)>, i: nat)
    requires Valid(p) && LinesFit(p, lines) && i < |lines|
    ensures UpdateAll(p, lines[..i + 1]) == Update(UpdateAll(p, lines[..i]), lines[i].0, lines[i].1)
  {
    assert lines[..i + 1][..i] == lines[..i];
  }

  predicate Asserted(lines: seq<(nat, bool)>, s: nat) {
    (s, true) in lines
  }

  /** After an update exactly the sources whose line is asserted have joined the
      pending ones: no update withdraws a request. */
  lemma {:induction false} UpdatePends(p: State, lines: seq<(nat, bool)>, s: nat)
    requires Valid(p) && LinesFit(p, lines) && s < |p.pending|
    ensures UpdateAll(p, lines).pending[s] <==> p.pending[s] || Asserted(lines, s)
    decreases lines
  {
    if lines != [] {
      var last := |lines| - 1;
      UpdatePends(p, lines[..last], s);
      assert lines == lines[..last] + [lines[last]];
    }
  }

  /** The four polls that follow it. */
  function PollAll(p: State): State
    requires Valid(p) && |p.claim| == 4
  {
    Poll(Poll(Poll(Poll(p, 0), 1), 2), 3)
  }

  /** No poll disturbs another. */
  lemma PollsAreIndependent(p: State, c: nat, d: nat)
    requires Valid(p) && IsContext(p, c) && IsContext(p, d)
    ensures Valid(Poll(p, c)) && Offered(Poll(p, c), d) == Offered(p, d)
  {
    ScanIgnoresClaims(p, c, d, |p.priority| - 1);
  }

  lemma FourPolls(p: State)
    requires Valid(p) && |p.claim| == 4
    ensures
      var p1 := Poll(p, 0);
      var p2 := Poll(p1, 1);
      var p3 := Poll(p2, 2);
      Offered(p1, 1) == Offered(p, 1) && Offered(p2, 2) == Offered(p, 2) && Offered(p3, 3) == Offered(p, 3)
  {
    var p1 := Poll(p, 0);
    var p2 := Poll(p1, 1);
    PollsAreIndependent(p, 0, 1);
    PollsAreIndependent(p, 0, 2);
    PollsAreIndependent(p, 0, 3);
    PollsAreIndependent(p1, 1, 2);
    PollsAreIndependent(p1, 1, 3);
    PollsAreIndependent(p2, 2, 3);
  }

  lemma {:induction false} ScanIgnoresClaims(p: State, c: nat, d: nat, n: nat)
    requires Valid(p) && IsContext(p, c) && IsContext(p, d) && n < |p.priority|
    ensures Scan(Poll(p, c), d, n) == Scan(p, d, n)
  {
    if n > 0 {
      ScanIgnoresClaims(p, c, d, n - 1);
    }
  }

  // ----- Runs

  datatype Event =
    | Fire(source: nat, fired: bool)
    | Ask(context: nat)
    | Take(context: nat)
    | Finish(source: nat)
    | SetPriority(source: nat, priority: U32)
    | SetThreshold(context: nat, threshold: U32)
    | SetEnable(context: nat, row: seq<bool>)

  /** The event addresses registers that exist. */
  predicate Fits(p: State, e: Event) {
    match e
    case Fire(s, _) => s < |p.pending|
    case Ask(c) => IsContext(p, c)
    case Take(c) => IsContext(p, c)
    case Finish(s) => s < |p.pending|
    case SetPriority(s, _) => IsSource(p, s)
    case SetThreshold(c, _) => IsContext(p, c)
    case SetEnable(c, row) => IsContext(p, c) && |row| == |p.pending|
  }

  function Step(p: State, e: Event): (n: State)
    requires Valid(p)
    ensures Valid(n)
  {
    if !Fits(p, e) then p
    else
      match e
      case Fire(s, fired) => Update(p, s, fired)
      case Ask(c) => Poll(p, c)
      case Take(c) => Claim(p, c)
      case Finish(s) => Complete(p, s)
      case SetPriority(s, x) => p.(priority := p.priority[s := x])
      case SetThreshold(c, x) => p.(threshold := p.threshold[c := x])
      case SetEnable(c, row) => p.(enable := p.enable[c := row])
  }

  function Run(p: State, events: seq<Event>): (n: State)
    requires Valid(p)
    ensures Valid(n)
    decreases events
  {
    if events == [] then p else Run(Step(p, events[0]), events[1..])
  }

  predicate NotFinished(s: nat, events: seq<Event>) {
    forall i :: 0 <= i < |events| ==> events[i] != Finish(s)
  }

  /** Until its completion is written a claimed source stays claimed, whatever
      any context does meanwhile. */
  lemma {:induction false} ClaimLasts(p: State, events: seq<Event>, s: nat)
    requires Valid(p) && s < |p.claimed| && p.claimed[s] && NotFinished(s, events)
    ensures s < |Run(p, events).claimed| && Run(p, events).claimed[s]
    decreases events
  {
    if events != [] {
      assert events[0] != Finish(s);
      ClaimLasts(Step(p, events[0]), events[1..], s);
    }
  }

  /** So no poll of any context offers it. */
  lemma ClaimExcludes(p: State, events: seq<Event>, c: nat, s: nat, d: nat)
    requires Valid(p) && IsContext(p, c) && p.claim[c] == s != 0 && NotFinished(s, events)
    requires IsContext(Run(Claim(p, c), events), d)
    ensures Offered(Run(Claim(p, c), events), d) != s
    ensures Poll(Run(Claim(p, c), events), d).claim[d] != s
  {
    var q := Run(Claim(p, c), events);
    ClaimLasts(Claim(p, c), events, s);
    OfferIsBest(q, d);
  }

  predicate NotAsked(d: nat, events: seq<Event>) {
    forall i :: 0 <= i < |events| ==> events[i] != Ask(d)
  }

  /** Exclusion is about offers, not about claim reads: a claim register shows a
      source that is claimed already exactly when it showed it at the claim and its
      context has not polled since. */
  lemma {:induction false} StaleRegister(p: State, events: seq<Event>, s: nat, d: nat)
    requires Valid(p) && IsContext(p, d) && s < |p.claimed| && p.claimed[s] && s != 0 && NotFinished(s, events)
    ensures IsContext(Run(p, events), d)
    ensures Run(p, events).claim[d] == s <==> p.claim[d] == s && NotAsked(d, events)
    decreases events
  {
    if events != [] {
      var e := events[0];
      assert e != Finish(s);
      if e == Ask(d) {
        OfferIsBest(p, d);
      }
      StaleRegister(Step(p, e), events[1..], s, d);
      assert NotAsked(d, events) <==> e != Ask(d) && NotAsked(d, events[1..]) by {
        assert events == [e] + events[1..];
      }
    }
  }

  /** Such a register exists: two contexts poll, and the first claims. */
  lemma StaleRegisterIsClaimedTwice()
    ensures
      var p := State([0, 1], [false, true], [false, false], [[true, true], [true, true]], [0, 0], [0, 0]);
      Valid(p) &&
      var q := Run(p, [Ask(0), Ask(1), Take(0)]);
      q.claimed[1] && q.claim[1] == 1
  {
    var p := State([0, 1], [false, true], [false, false], [[true, true], [true, true]], [0, 0], [0, 0]);
    assert Scan(p, 0, 0) == 0 && Scan(p, 0, 1) == 1;
    var p1 := Step(p, Ask(0));
    assert Scan(p1, 1, 0) == 0 && Scan(p1, 1, 1) == 1;
    var p2 := Step(p1, Ask(1));
    var p3 := Step(p2, Take(0));
    assert [Ask(0), Ask(1), Take(0)][1..] == [Ask(1), Take(0)];
    assert [Ask(1), Take(0)][1..] == [Take(0)];
    assert [Take(0)][1..] == [];
    assert Run(p2, [Take(0)]) == p3;
    assert Run(p1, [Ask(1), Take(0)]) == p3;
  }

  /** A fired source stays pending until its completion. */
  lemma {:induction false} PendingLasts(p: State, events: seq<Event>, s: nat)
    requires Valid(p) && s < |p.pending| && p.pending[s] && NotFinished(s, events)
    ensures s < |Run(p, events).pending| && Run(p, events).pending[s]
    decreases events
  {
    if events != [] {
      assert events[0] != Finish(s);
      PendingLasts(Step(p, events[0]), events[1..], s);
    }
  }

  /** A claim read that returns s. */
  predicate TakesNow(p: State, e: Event, s: nat) {
    e.Take? && IsContext(p, e.context) && p.claim[e.context] == s
  }

  /** Some claim read of the run returns s. */
  predicate TakenIn(p: State, events: seq<Event>, s: nat)
    requires Valid(p)
    decreases events
  {
    events != [] && (TakesNow(p, events[0], s) || TakenIn(Step(p, events[0]), events[1..], s))
  }

  /** Between completions a source is pending once its line was seen asserted. */
  lemma {:induction false} PendingIsFired(p: State, events: seq<Event>, s: nat)
    requires Valid(p) && s < |p.pending| && NotFinished(s, events)
    ensures s < |Run(p, events).pending|
    ensures Run(p, events).pending[s] <==> p.pending[s] || Fire(s, true) in events
    decreases events
  {
    if events != [] {
      assert events[0] != Finish(s);
      PendingIsFired(Step(p, events[0]), events[1..], s);
      assert events == [events[0]] + events[1..];
    }
  }

  /** And it is claimed once a claim read returned it. */
  lemma {:induction false} ClaimedIsTaken(p: State, events: seq<Event>, s: nat)
    requires Valid(p) && s < |p.claimed| && NotFinished(s, events)
    ensures s < |Run(p, events).claimed|
    ensures Run(p, events).claimed[s] <==> p.claimed[s] || TakenIn(p, events, s)
    decreases events
  {
    if events != [] {
      assert events[0] != Finish(s);
      ClaimedIsTaken(Step(p, events[0]), events[1..], s);
    }
  }

  lemma {:induction false} RunKeepsContexts(p: State, events: seq<Event>)
    requires Valid(p)
    ensures |Run(p, events).claim| == |p.claim| && |Run(p, events).priority| == |p.priority|
    decreases events
  {
    if events != [] {
      RunKeepsContexts(Step(p, events[0]), events[1..]);
    }
  }

  /** After its completion, in any run up to the next one, a source is serviceable again
      exactly when an update saw its line asserted and no claim read returned it, under
      the enable, priority and threshold conditions that then hold. */
  lemma AssertedLineReturns(p: State, s: nat, c: nat, events: seq<Event>)
    requires Valid(p) && IsSource(p, s) && IsContext(p, c) && NotFinished(s, events)
    ensures
      var done := Step(p, Finish(s));
      var q := Run(done, events);
      IsSource(q, s) && IsContext(q, c) &&
      (Serviceable(q, c, s) <==>
         Fire(s, true) in events && !TakenIn(done, events, s) &&
         q.enable[c][s] && q.priority[s] > 0 && q.priority[s] >= q.threshold[c])
  {
    var done := Step(p, Finish(s));
    RunKeepsContexts(done, events);
    PendingIsFired(done, events, s);
    ClaimedIsTaken(done, events, s);
  }

  /** Event i is a claim read of a context whose register showed s from the start and
      which has not polled before it. */
  predicate StaleTake(claim: seq<nat>, events: seq<Event>, s: nat, i: nat) {
    i < |events| && events[i].Take? && events[i].context < |claim| && claim[events[i].context] == s &&
    NotAsked(events[i].context, events[..i])
  }

  /** Before an update sees the line of a completed source, a claim read returns it
      exactly through such a stale register. */
  lemma {:induction false} EarlyTakeIsStale(p: State, events: seq<Event>, s: nat)
    requires Valid(p) && IsSource(p, s) && !p.pending[s] && Fire(s, true) !in events
    ensures TakenIn(p, events, s) <==> exists i: nat :: StaleTake(p.claim, events, s, i)
    decreases events
  {
    if events != [] {
      var e, n, rest := events[0], Step(p, events[0]), events[1..];
      assert events == [e] + rest;
      EarlyTakeIsStale(n, rest, s);
      forall i: nat | StaleTake(p.claim, events, s, i) ensures TakenIn(p, events, s) {
        if i > 0 {
          StaleTakeLater(p, events, s, i - 1);
          assert StaleTake(n.claim, rest, s, i - 1);
        }
      }
      if TakesNow(p, e, s) {
        assert StaleTake(p.claim, events, s, 0);
      } else if TakenIn(n, rest, s) {
        var i: nat :| StaleTake(n.claim, rest, s, i);
        StaleTakeLater(p, events, s, i);
        assert StaleTake(p.claim, events, s, i + 1);
      }
    }
  }

  /** One event earlier: the register showed s then if it shows it now, unless it is
      polled, and a poll does not offer s. */
  lemma StaleTakeLater(p: State, events: seq<Event>, s: nat, i: nat)
    requires Valid(p) && IsSource(p, s) && !p.pending[s] && events != []
    ensures StaleTake(Step(p, events[0]).claim, events[1..], s, i) <==> StaleTake(p.claim, events, s, i + 1)
  {
    var e, n, rest := events[0], Step(p, events[0]), events[1..];
    if i < |rest| && rest[i].Take? && rest[i].context < |p.claim| {
      var d := rest[i].context;
      assert events[..i + 1] == [e] + rest[..i];
      assert NotAsked(d, events[..i + 1]) <==> e != Ask(d) && NotAsked(d, rest[..i]);
      if e == Ask(d) {
        OfferIsBest(p, d);
      }
    }
  }

  // ----- Draining one context

  /** Poll, claim and complete: the state after a round that found a source. */
  function Round(p: State, c: nat): (n: State)
    requires Valid(p) && IsContext(p, c)
    ensures Valid(n)
  {
    var taken := Claim(Poll(p, c), c);
    Complete(taken, taken.claim[c])
  }

  ghost function ServiceableSet(p: State, c: nat): set<nat>
    requires Valid(p) && IsContext(p, c)
  {
    set s: nat | s < |p.priority| && Serviceable(p, c, s)
  }

  /** A round serves the offer and nothing else. */
  lemma RoundServes(p: State, c: nat)
    requires Valid(p) && IsContext(p, c) && Offered(p, c) != 0
    ensures IsContext(Round(p, c), c) && Round(p, c).priority == p.priority
    ensures forall s :: Serviceable(Round(p, c), c, s) <==> Serviceable(p, c, s) && s != Offered(p, c)
    ensures ServiceableSet(Round(p, c), c) == ServiceableSet(p, c) - {Offered(p, c)}
    ensures Offered(p, c) in ServiceableSet(p, c)
  {
    OfferIsBest(p, c);
  }

  /** The sources served, in order, until a poll offers none. */
  function Drain(p: State, c: nat): (served: seq<nat>)
    requires Valid(p) && IsContext(p, c)
    ensures forall i :: 0 <= i < |served| ==> served[i] < |p.priority|
    decreases |ServiceableSet(p, c)|
  {
    if Offered(p, c) == 0 then []
    else
      RoundServes(p, c);
      [Offered(p, c)] + Drain(Round(p, c), c)
  }

  /** The state after k rounds. */
  function Rounds(p: State, c: nat, k: nat): (n: State)
    requires Valid(p) && IsContext(p, c)
    ensures Valid(n) && IsContext(n, c)
    decreases k
  {
    if k == 0 then p else Rounds(Round(p, c), c, k - 1)
  }

  lemma {:induction false} DrainIsServiceable(p: State, c: nat)
    requires Valid(p) && IsContext(p, c)
    ensures forall s :: s in Drain(p, c) <==> Serviceable(p, c, s)
    decreases |ServiceableSet(p, c)|
  {
    OfferIsBest(p, c);
    if Offered(p, c) != 0 {
      RoundServes(p, c);
      DrainIsServiceable(Round(p, c), c);
    }
  }

  lemma {:induction false} DrainIsOrdered(p: State, c: nat)
    requires Valid(p) && IsContext(p, c)
    ensures forall i, j :: 0 <= i < j < |Drain(p, c)| ==> Before(p, Drain(p, c)[i], Drain(p, c)[j])
    decreases |ServiceableSet(p, c)|
  {
    OfferIsBest(p, c);
    if Offered(p, c) != 0 {
      RoundServes(p, c);
      var rest := Drain(Round(p, c), c);
      DrainIsOrdered(Round(p, c), c);
      DrainIsServiceable(Round(p, c), c);
      forall j | 0 <= j < |rest| ensures Before(p, Offered(p, c), rest[j]) {
        assert rest[j] in rest;
      }
    }
  }

  /** Round k serves the k-th source, and there are no rounds after the last. */
  lemma {:induction false} DrainRounds(p: State, c: nat, k: nat)
    requires Valid(p) && IsContext(p, c) && k <= |Drain(p, c)|
    ensures Offered(Rounds(p, c, k), c) == if k < |Drain(p, c)| then Drain(p, c)[k] else 0
    ensures |Drain(p, c)| == |ServiceableSet(p, c)|
    decreases |ServiceableSet(p, c)|
  {
    OfferIsBest(p, c);
    if Offered(p, c) != 0 {
      RoundServes(p, c);
      DrainRounds(Round(p, c), c, if k == 0 then 0 else k - 1);
    } else {
      assert ServiceableSet(p, c) == {};
    }
  }

  /** Draining serves every serviceable source exactly once, in descending
      priority and ascending id; round k offers the k-th of them, and the poll
      after the last round offers none. */
  lemma DrainServesAll(p: State, c: nat)
    requires Valid(p) && IsContext(p, c)
    ensures forall s :: s in Drain(p, c) <==> Serviceable(p, c, s)
    ensures forall i, j :: 0 <= i < j < |Drain(p, c)| ==> Before(p, Drain(p, c)[i], Drain(p, c)[j])
    ensures forall k :: 0 <= k < |Drain(p, c)| ==> Offered(Rounds(p, c, k), c) == Drain(p, c)[k]
    ensures |Drain(p, c)| == |ServiceableSet(p, c)| && Offered(Rounds(p, c, |Drain(p, c)|), c) == 0
  {
    DrainIsServiceable(p, c);
    DrainIsOrdered(p, c);
    forall k | 0 <= k <= |Drain(p, c)|
      ensures Offered(Rounds(p, c, k), c) == if k < |Drain(p, c)| then Drain(p, c)[k] else 0
    {
      DrainRounds(p, c, k);
    }
    DrainRounds(p, c, 0);
  }
}
