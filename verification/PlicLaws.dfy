/** The interrupt controller through its registers: what reads show of lines, polls,
    claims and completions, and that arbitration is a matter of the registers. */
module PlicLaws {
  import opened Words
  import opened Plic
  import opened PlicController
  import BitFields

  // ----- Bits of words read

  /** Bit k of a register value. */
  predicate WordBit(value: Option<nat>, k: nat) {
    value.Some? && BitFields.Field(value.value, k, 1) == 1
  }

  /** The controller with its sizes. */
  ghost predicate Ready(p: State, sources: nat, contexts: nat) {
    Valid(p) && Sized(p, sources, contexts)
  }

  lemma WordOfSource(s: nat, sources: nat)
    requires s <= sources
    ensures s / 32 < WordCount(sources) && 32 * (s / 32) + s % 32 == s
  {
  }

  lemma StretchBit(row: seq<bool>, w: nat, k: nat)
    requires 32 * w + 32 <= |row| && k < 32
    ensures WordBit(Some(Number(row[32 * w..32 * w + 32])), k) <==> row[32 * w + k]
  {
    hide Number, BitFields.Field;
    BitFields.BitIsField(row[32 * w..32 * w + 32], k);
  }

  /** The pending bit of source s, as a read of its word shows it. */
  ghost predicate PendingBit(p: State, s: nat, sources: nat, contexts: nat)
    requires Ready(p, sources, contexts) && s <= sources
  {
    WordOfSource(s, sources);
    WordBit(ReadValue(p, Pending(s / 32), sources, contexts), s % 32)
  }

  /** And its enable bit in context c. */
  ghost predicate EnableBit(p: State, c: nat, s: nat, sources: nat, contexts: nat)
    requires Ready(p, sources, contexts) && s <= sources && c < contexts
  {
    WordOfSource(s, sources);
    WordBit(ReadValue(p, Enable(c, s / 32), sources, contexts), s % 32)
  }

  lemma PendingBitIs(p: State, s: nat, sources: nat, contexts: nat)
    requires Ready(p, sources, contexts) && s <= sources
    ensures PendingBit(p, s, sources, contexts) <==> p.pending[s]
  {
    hide WordBit;
    WordOfSource(s, sources);
    StretchBit(p.pending, s / 32, s % 32);
  }

  lemma EnableBitIs(p: State, c: nat, s: nat, sources: nat, contexts: nat)
    requires Ready(p, sources, contexts) && s <= sources && c < contexts
    ensures EnableBit(p, c, s, sources, contexts) <==> p.enable[c][s]
  {
    hide WordBit;
    WordOfSource(s, sources);
    StretchBit(p.enable[c], s / 32, s % 32);
  }

  // ----- Arbitration by registers

  /** A source takes part in the arbitration of a context exactly when the registers read
      say so, and it is not claimed. */
  lemma EligibleByRegisters(p: State, c: nat, s: nat, sources: nat, contexts: nat)
    requires Ready(p, sources, contexts) && 1 <= s <= sources && c < contexts
    ensures
      var priority := ReadValue(p, Priority(s), sources, contexts);
      var threshold := ReadValue(p, Threshold(c), sources, contexts);
      priority.Some? && threshold.Some? &&
      (Eligible(p, c, s) <==>
         priority.value >= threshold.value && PendingBit(p, s, sources, contexts) &&
         EnableBit(p, c, s, sources, contexts) && !p.claimed[s])
  {
    hide PendingBit, EnableBit;
    PendingBitIs(p, s, sources, contexts);
    EnableBitIs(p, c, s, sources, contexts);
  }

  // ----- Lines, claims and completions

  /** A line that fires sets the pending bit of its source and no other. */
  lemma FiredIsRead(p: State, s: nat, fired: bool, t: nat, sources: nat, contexts: nat)
    requires Ready(p, sources, contexts) && s <= sources && t <= sources
    ensures Ready(Update(p, s, fired), sources, contexts)
    ensures PendingBit(Update(p, s, fired), t, sources, contexts)
       <==> (t == s && fired) || PendingBit(p, t, sources, contexts)
  {
    hide PendingBit;
    PendingBitIs(p, t, sources, contexts);
    PendingBitIs(Update(p, s, fired), t, sources, contexts);
  }

  /** A poll shows the offer in the claim register of its context; reading it there claims
      the source: no context offers it then. */
  lemma OfferIsRead(p: State, c: nat, d: nat, sources: nat, contexts: nat)
    requires Ready(p, sources, contexts) && c < contexts && d < contexts
    ensures
      var polled, best := Poll(p, c), Offered(p, c);
      Ready(polled, sources, contexts) &&
      ReadValue(polled, ClaimComplete(c), sources, contexts) == Some(best) &&
      var taken := ReadEffect(polled, ClaimComplete(c), sources, contexts);
      Ready(taken, sources, contexts) && (best != 0 ==> Offered(taken, d) != best) &&
      taken.pending == p.pending && (forall t :: 0 <= t < |p.claimed| && t != best ==> taken.claimed[t] == p.claimed[t])
  {
    var best := Offered(p, c);
    var taken := Claim(Poll(p, c), c);
    if best != 0 {
      OfferIsBest(taken, d);
    }
  }

  /** Writing the id of a source to the claim register of any context ends its claim and
      its pending bit, and those of no other source. */
  lemma CompletionIsRead(p: State, c: nat, s: nat, t: nat, sources: nat, contexts: nat)
    requires Ready(p, sources, contexts) && c < contexts && s <= sources && t <= sources && s < 0x1_0000_0000
    ensures s < 32 * WordCount(sources)
    ensures
      var done := WriteEffect(p, ClaimComplete(c), s, sources, contexts);
      Ready(done, sources, contexts) &&
      (done.claimed[t] <==> p.claimed[t] && t != s) &&
      (PendingBit(done, t, sources, contexts) <==> PendingBit(p, t, sources, contexts) && t != s) &&
      done.priority == p.priority && done.enable == p.enable && done.threshold == p.threshold && done.claim == p.claim
  {
    hide PendingBit;
    WordOfSource(s, sources);
    PendingBitIs(p, t, sources, contexts);
    PendingBitIs(WriteEffect(p, ClaimComplete(c), s, sources, contexts), t, sources, contexts);
  }
}
