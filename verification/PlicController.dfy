/** The interrupt controller as the source has it: arrays of registers and bit
    words changed in place, and the memory-mapped view of them. */
module PlicController {
  import opened Words
  import Alu
  import Plic
  import BitFields

  type U32 = Plic.U32

  /** A 32-bit word, bit 0 first. */
  type Bits = b: seq<bool> | |b| == 32 witness seq(32, _ => false)

  const NO_BITS: Bits := seq(32, _ => false)

  /** The bits of consecutive words. */
  ghost function Flat(words: seq<Bits>): (bits: seq<bool>)
    ensures |bits| == 32 * |words|
    ensures forall k :: 0 <= k < |bits| ==> bits[k] == words[k / 32][k % 32]
  {
    seq(32 * |words|, k requires 0 <= k < 32 * |words| => words[k / 32][k % 32])
  }

  /** Setting one bit of one word sets one bit of all. */
  lemma FlatUpdate(words: seq<Bits>, s: nat, on: bool)
    requires s < 32 * |words|
    ensures Flat(words[s / 32 := words[s / 32][s % 32 := on]]) == Flat(words)[s := on]
  {
    var after := words[s / 32 := words[s / 32][s % 32 := on]];
    forall k | 0 <= k < 32 * |words| ensures Flat(after)[k] == Flat(words)[s := on][k] {
      if k / 32 == s / 32 && k % 32 == s % 32 {
        assert k == s;
      }
    }
  }

  // ----- The register map

  datatype Register =
    | Priority(source: nat)
    | Pending(word: nat)
    | Enable(context: nat, row: nat)
    | Threshold(context: nat)
    | ClaimComplete(context: nat)
    | NoRegister

  /** The address decode, for accesses of four bytes. */
  function RegisterOf(addr: nat, sources: nat, contexts: nat): Register {
    if addr + 4 <= 0x1000 then
      if addr == 0 || addr > 4 * sources || addr + 4 > 4 * (sources + 1) then NoRegister else Priority(addr / 4)
    else if addr + 4 <= 0x1080 then
      if addr < 0x1000 || (addr - 0x1000) / 4 > sources then NoRegister else Pending((addr - 0x1000) / 4)
    else if addr + 4 <= 0x2000 then NoRegister
    else if addr + 4 <= 0x20_0000 then
      if addr < 0x2000 then NoRegister
      else if (addr - 0x2000) / 0x80 >= contexts || addr % 0x80 > sources then NoRegister
      else Enable((addr - 0x2000) / 0x80, addr % 0x80)
    else if addr < 0x20_0000 then NoRegister
    else if (addr - 0x20_0000) / 0x1000 > contexts then NoRegister
    else if addr % 0x1000 == 0 then Threshold((addr - 0x20_0000) / 0x1000)
    else if addr % 0x1000 == 4 then ClaimComplete((addr - 0x20_0000) / 0x1000)
    else NoRegister
  }

  /** The addresses that the PLIC specification gives the registers. */
  function AddressOf(r: Register): nat
    requires !r.NoRegister?
  {
    match r
    case Priority(s) => 4 * s
    case Pending(w) => 0x1000 + 4 * w
    case Enable(c, row) => 0x2000 + 0x80 * c + 4 * row
    case Threshold(c) => 0x20_0000 + 0x1000 * c
    case ClaimComplete(c) => 0x20_0000 + 0x1000 * c + 4
  }

  /** The source's arrays hold the register. */
  predicate InBounds(r: Register, sources: nat, contexts: nat) {
    match r
    case Priority(s) => 1 <= s <= sources
    case Pending(w) => w < WordCount(sources)
    case Enable(c, row) => c < contexts && row < WordCount(sources)
    case Threshold(c) => c < contexts
    case ClaimComplete(c) => c < contexts
    case NoRegister => false
  }

  /** The 32-bit words that hold one bit per source, source 0 included. */
  function WordCount(sources: nat): nat {
    (sources + 1 + 31) / 32
  }

  /** A register answers at the address of the specification exactly unless it is
      an enable word after the first: the source takes a byte offset for the word. */
  lemma RegisterMap(r: Register, sources: nat, contexts: nat)
    requires sources < 1024 && contexts <= 15872 && InBounds(r, sources, contexts)
    ensures RegisterOf(AddressOf(r), sources, contexts) == r <==> (r.Enable? ==> r.row == 0)
  {
  }

  /** With 64 sources the second enable word is out of reach at its own address. */
  lemma SecondEnableWordMoves()
    ensures RegisterOf(AddressOf(Enable(0, 1)), 64, 4) == Enable(0, 4)
  {
  }

  /** Replacing one word replaces its 32 bits. */
  lemma FlatWord(words: seq<Bits>, w: nat, bits: Bits)
    requires w < |words|
    ensures Flat(words[w := bits]) == WithWord(Flat(words), w, bits)
  {
  }

  /** What a read of r returns. */
  ghost function ReadValue(p: Plic.State, r: Register, sources: nat, contexts: nat): Option<nat>
    requires Plic.Valid(p) && Sized(p, sources, contexts) && (r.NoRegister? || InBounds(r, sources, contexts))
  {
    match r
    case Priority(s) => Some(p.priority[s])
    case Pending(w) => Some(Number(p.pending[32 * w..32 * w + 32]))
    case Enable(c, row) => Some(Number(p.enable[c][32 * row..32 * row + 32]))
    case Threshold(c) => Some(p.threshold[c])
    case ClaimComplete(c) => Some(p.claim[c])
    case NoRegister => None
  }

  /** The state after a read of r. */
  ghost function ReadEffect(p: Plic.State, r: Register, sources: nat, contexts: nat): Plic.State
    requires Plic.Valid(p) && Sized(p, sources, contexts) && (r.NoRegister? || InBounds(r, sources, contexts))
  {
    if r.ClaimComplete? then Plic.Claim(p, r.context) else p
  }

  /** The state after a write of r. */
  ghost function WriteEffect(p: Plic.State, r: Register, data: U32, sources: nat, contexts: nat): Plic.State
    requires Plic.Valid(p) && Sized(p, sources, contexts) && (r.NoRegister? || InBounds(r, sources, contexts))
    requires r.ClaimComplete? ==> data < 32 * WordCount(sources)
  {
    match r
    case Priority(s) => p.(priority := p.priority[s := data])
    case Enable(c, row) => p.(enable := p.enable[c := WithWord(p.enable[c], row, ByteBits(data, 32))])
    case Threshold(c) => p.(threshold := p.threshold[c := data])
    case ClaimComplete(_) => Plic.Complete(p, data)
    case _ => p
  }

  /** The row with one of its words replaced. */
  function WithWord(row: seq<bool>, w: nat, bits: Bits): (r: seq<bool>)
    requires 32 * w + 32 <= |row|
    ensures |r| == |row| && r[32 * w..32 * w + 32] == bits
  {
    row[..32 * w] + bits + row[32 * w + 32..]
  }

  ghost predicate Sized(p: Plic.State, sources: nat, contexts: nat) {
    |p.priority| == sources + 1 && |p.claim| == contexts && |p.pending| == 32 * WordCount(sources)
  }

  /** What is written to a priority, an enable row or a threshold is read back. */
  lemma WrittenIsReadBack(p: Plic.State, r: Register, data: U32, sources: nat, contexts: nat)
    requires Plic.Valid(p) && Sized(p, sources, contexts) && InBounds(r, sources, contexts)
    requires r.Priority? || r.Enable? || r.Threshold?
    ensures
      var n := WriteEffect(p, r, data, sources, contexts);
      Plic.Valid(n) && Sized(n, sources, contexts) && ReadValue(n, r, sources, contexts) == Some(data)
  {
    if r.Enable? {
      Pow2Of32();
      BitFields.BitsOfByte(data, 32);
    }
  }

  lemma Pow2Of32()
    ensures Alu.Pow2(32) == 0x1_0000_0000
  {
    assert Alu.Pow2(8) == 0x100;
    assert Alu.Pow2(16) == 0x1_0000;
    assert Alu.Pow2(24) == 0x100_0000;
  }

  // ----- The controller

  class RVPLICtrl {
    const nSource: nat
    const nContext: nat
    const priority: array<U32>
    const pending: array<Bits>
    const claimed: array<Bits>
    const enable: array2<Bits>
    const threshold: array<U32>
    const claim: array<nat>

    /** The rows of words are separate objects and have the source's sizes. */
    ghost predicate Valid()
      reads this, priority, pending, claimed, enable, threshold, claim
    {
      pending != claimed && priority != threshold &&
      priority.Length == nSource + 1 &&
      pending.Length == claimed.Length == enable.Length1 == WordCount(nSource) &&
      enable.Length0 == threshold.Length == claim.Length == nContext &&
      forall c :: 0 <= c < nContext ==> claim[c] <= nSource
    }

    ghost function Row(c: nat): seq<Bits>
      requires c < enable.Length0
      reads enable
    {
      seq(enable.Length1, w requires 0 <= w < enable.Length1 reads enable => enable[c, w])
    }

    ghost function Enables(): seq<seq<bool>>
      reads enable
    {
      seq(enable.Length0, c requires 0 <= c < enable.Length0 reads enable => Flat(Row(c)))
    }

    /** The controller's registers as a value. */
    ghost function State(): Plic.State
      reads this, priority, pending, claimed, enable, threshold, claim
    {
      Plic.State(priority[..], Flat(pending[..]), Flat(claimed[..]), Enables(), threshold[..], claim[..])
    }

    lemma StateIsValid()
      requires Valid()
      ensures Plic.Valid(State())
    {
    }

    constructor (sources: nat, contexts: nat)
      ensures Valid() && nSource == sources && nContext == contexts
      ensures fresh(priority) && fresh(pending) && fresh(claimed) && fresh(enable) && fresh(threshold) && fresh(claim)
      ensures forall s :: 0 <= s <= sources ==> priority[s] == 0
      ensures forall w :: 0 <= w < pending.Length ==> pending[w] == claimed[w] == NO_BITS
      ensures forall c, w :: 0 <= c < contexts && 0 <= w < pending.Length ==> enable[c, w] == NO_BITS
      ensures forall c :: 0 <= c < contexts ==> threshold[c] == 0 && claim[c] == 0
    {
      nSource, nContext := sources, contexts;
      priority := new U32[sources + 1](_ => 0);
      pending := new Bits[WordCount(sources)](_ => NO_BITS);
      claimed := new Bits[WordCount(sources)](_ => NO_BITS);
      enable := new Bits[contexts, WordCount(sources)]((_, _) => NO_BITS);
      threshold := new U32[contexts](_ => 0);
      claim := new nat[contexts](_ => 0);
    }

    method UpdateExt(s: nat, fired: bool)
      requires Valid() && s < 32 * pending.Length
      modifies pending
      ensures Valid() && State() == Plic.Update(old(State()), s, fired)
    {
      StateIsValid();
      if fired {
        FlatUpdate(pending[..], s, true);
        pending[s / 32] := pending[s / 32][s % 32 := true];
      }
    }

    /** The test of one source on the registers themselves. */
    predicate Asks(c: nat, i: nat)
      requires Valid() && c < nContext && 1 <= i <= nSource
      reads this, priority, pending, claimed, enable, threshold, claim
    {
      priority[i] >= threshold[c] && pending[i / 32][i % 32] && enable[c, i / 32][i % 32] && !claimed[i / 32][i % 32]
    }

    lemma AsksIsEligible(c: nat, i: nat)
      requires Valid() && c < nContext && 1 <= i <= nSource
      ensures Plic.Valid(State()) && Asks(c, i) == Plic.Eligible(State(), c, i)
    {
      assert Enables()[c] == Flat(Row(c));
    }

    /** The arbitration loop. */
    method Arbitrate(c: nat) returns (maxPriorityInt: nat)
      requires Valid() && c < nContext
      ensures maxPriorityInt <= nSource && maxPriorityInt == Plic.Offered(State(), c)
    {
      ghost var p := State();
      var maxPriority := 0;
      maxPriorityInt := 0;
      for i := 1 to nSource + 1
        invariant maxPriorityInt == Plic.Scan(p, c, i - 1) && maxPriority == Plic.PriorityOf(p, maxPriorityInt)
      {
        AsksIsEligible(c, i);
        if Asks(c, i) {
          if priority[i] > maxPriority {
            maxPriority := priority[i];
            maxPriorityInt := i;
          }
        }
      }
    }

    method GetInt(c: nat) returns (fired: bool)
      requires Valid() && c < nContext
      modifies claim
      ensures Valid() && State() == Plic.Poll(old(State()), c)
      ensures fired <==> Plic.Offered(old(State()), c) != 0
    {
      var maxPriorityInt := Arbitrate(c);
      claim[c] := maxPriorityInt;
      fired := claim[c] != 0;
    }

    method ReadClaim(c: nat) returns (s: nat)
      requires Valid() && c < nContext
      modifies claimed
      ensures Valid() && State() == Plic.Claim(old(State()), c)
      ensures s == old(State()).claim[c]
    {
      s := claim[c];
      FlatUpdate(claimed[..], s, true);
      claimed[s / 32] := claimed[s / 32][s % 32 := true];
    }

    method WriteComplete(s: nat)
      requires Valid() && s < 32 * pending.Length
      modifies claimed, pending
      ensures Valid() && State() == Plic.Complete(old(State()), s)
    {
      FlatUpdate(claimed[..], s, false);
      claimed[s / 32] := claimed[s / 32][s % 32 := false];
      FlatUpdate(pending[..], s, false);
      pending[s / 32] := pending[s / 32][s % 32 := false];
    }

    method WriteEnable(c: nat, w: nat, bits: Bits)
      requires Valid() && c < nContext && w < enable.Length1
      modifies enable
      ensures Valid()
      ensures State() == old(State()).(enable := old(State()).enable[c := WithWord(old(State()).enable[c], w, bits)])
    {
      ghost var was, words := Enables(), Row(c);
      enable[c, w] := bits;
      assert forall d :: 0 <= d < nContext && d != c ==> Row(d) == old(Row(d));
      assert Row(c) == words[w := bits];
      FlatWord(words, w, bits);
      assert Enables() == was[c := WithWord(was[c], w, bits)];
    }

    // ----- Memory-mapped accesses

    /** A four-byte read; None where the source reports failure.  Reading a claim
        register claims its source. */
    method DoRead(addr: nat) returns (value: Option<nat>)
      requires Valid()
      requires var r := RegisterOf(addr, nSource, nContext); r.NoRegister? || InBounds(r, nSource, nContext)
      modifies claimed
      ensures Valid()
      ensures State() == ReadEffect(old(State()), RegisterOf(addr, nSource, nContext), nSource, nContext)
      ensures value == ReadValue(old(State()), RegisterOf(addr, nSource, nContext), nSource, nContext)
    {
      match RegisterOf(addr, nSource, nContext)
      case Priority(s) => value := Some(priority[s]);
      case Pending(w) =>
        assert Flat(pending[..])[32 * w..32 * w + 32] == pending[w];
        value := Some(Number(pending[w]));
      case Enable(c, row) =>
        assert Enables()[c][32 * row..32 * row + 32] == enable[c, row];
        value := Some(Number(enable[c, row]));
      case Threshold(c) => value := Some(threshold[c]);
      case ClaimComplete(c) =>
        var s := ReadClaim(c);
        value := Some(s);
      case NoRegister => value := None;
    }

    /** A four-byte write.  Pending bits are read-only; writing the claim register
        completes the source that is written. */
    method DoWrite(addr: nat, data: U32) returns (ok: bool)
      requires Valid()
      requires var r := RegisterOf(addr, nSource, nContext); r.NoRegister? || InBounds(r, nSource, nContext)
      requires RegisterOf(addr, nSource, nContext).ClaimComplete? ==> data < 32 * pending.Length
      modifies priority, threshold, enable, pending, claimed
      ensures Valid()
      ensures ok <==> !RegisterOf(addr, nSource, nContext).NoRegister?
      ensures State() == WriteEffect(old(State()), RegisterOf(addr, nSource, nContext), data, nSource, nContext)
    {
      ok := true;
      match RegisterOf(addr, nSource, nContext)
      case Priority(s) => priority[s] := data;
      case Pending(_) =>
      case Enable(c, row) => WriteEnable(c, row, ByteBits(data, 32));
      case Threshold(c) => threshold[c] := data;
      case ClaimComplete(_) => WriteComplete(data);
      case NoRegister => ok := false;
    }

    // ----- The adapter

    method UpdateLines(lines: seq<(nat, bool)>)
      requires Valid() && forall i :: 0 <= i < |lines| ==> lines[i].0 < 32 * pending.Length
      modifies pending
      ensures Valid() && State() == Plic.UpdateAll(old(State()), lines)
    {
      for i := 0 to |lines|
        invariant Valid() && State() == Plic.UpdateAll(old(State()), lines[..i])
      {
        UpdateExt(lines[i].0, lines[i].1);
        Plic.UpdateOneMore(old(State()), lines, i);
      }
      assert lines[..|lines|] == lines;
    }

    /** The four contexts of two cores, in the source's order. */
    method PollCores() returns (meip0: bool, seip0: bool, meip1: bool, seip1: bool)
      requires Valid() && nContext == 4
      modifies claim
      ensures Valid() && State() == Plic.PollAll(old(State()))
      ensures meip0 <==> Plic.Offered(old(State()), 0) != 0
      ensures seip0 <==> Plic.Offered(old(State()), 1) != 0
      ensures meip1 <==> Plic.Offered(old(State()), 2) != 0
      ensures seip1 <==> Plic.Offered(old(State()), 3) != 0
    {
      Plic.FourPolls(State());
      meip0 := GetInt(0);
      seip0 := GetInt(1);
      meip1 := GetInt(2);
      seip1 := GetInt(3);
    }

    /** One call of `UpdateIntState`: every line, then every context. */
    method UpdateIntState(lines: seq<(nat, bool)>) returns (meip0: bool, seip0: bool, meip1: bool, seip1: bool)
      requires Valid() && nContext == 4
      requires forall i :: 0 <= i < |lines| ==> lines[i].0 < 32 * pending.Length
      modifies pending, claim
      ensures Valid() && State() == Plic.PollAll(Plic.UpdateAll(old(State()), lines))
      ensures meip0 <==> Plic.Offered(Plic.UpdateAll(old(State()), lines), 0) != 0
      ensures seip0 <==> Plic.Offered(Plic.UpdateAll(old(State()), lines), 1) != 0
      ensures meip1 <==> Plic.Offered(Plic.UpdateAll(old(State()), lines), 2) != 0
      ensures seip1 <==> Plic.Offered(Plic.UpdateAll(old(State()), lines), 3) != 0
    {
      UpdateLines(lines);
      meip0, seip0, meip1, seip1 := PollCores();
    }
  }
}
