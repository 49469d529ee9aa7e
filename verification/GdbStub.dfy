/** The stub's receive loop and its register commands, as objects updated in
    place. */
module GdbStub {
  import opened Words
  import opened Gdb
  import opened Privilege
  import opened Rv64Core
  import Alu
  import CoreStep
  import Exec

  class GDBStub {
    const buffer: array<Byte>
    var packetBeginIndex: int
    var packetSize: nat

    constructor ()
      ensures fresh(buffer) && buffer.Length == BUFFER_SIZE
    {
      buffer := new Byte[BUFFER_SIZE](_ => 0);
      packetBeginIndex, packetSize := 0, 0;
    }

    /** The receive loop: the last begin before the first end, if there is room. */
    method ReadToEnd(input: seq<Byte>) returns (begin: int, end: nat)
      requires buffer.Length == BUFFER_SIZE
      modifies buffer
      ensures EndFrom(input, 0) == if end == BUFFER_SIZE then None else Some(end)
      ensures -1 <= begin <= end <= BUFFER_SIZE
      ensures BeginBefore(input, end) == if begin == -1 then None else Some(begin)
      ensures forall k :: 0 <= k < end ==> buffer[k] == CharAt(input, k)
    {
      begin, end := -1, 0;
      while end < BUFFER_SIZE
        invariant -1 <= begin <= end <= BUFFER_SIZE
        invariant forall k :: 0 <= k < end ==> buffer[k] == CharAt(input, k)
        invariant EndFrom(input, 0) == EndFrom(input, end)
        invariant BeginBefore(input, end) == if begin == -1 then None else Some(begin)
      {
        buffer[end] := CharAt(input, end);
        if buffer[end] == PACKET_END_CHAR {
          return;
        }
        if buffer[end] == PACKET_BEGIN_CHAR {
          begin := end + 1;
        }
        end := end + 1;
      }
    }

    /** `recvAndCheck`: the packet is left in the buffer. */
    method RecvAndCheck(input: seq<Byte>, garbage: Byte, debug: bool) returns (r: Receipt)
      requires buffer.Length == BUFFER_SIZE
      modifies this, buffer
      ensures r == Receive(input, garbage, debug)
      ensures r.Received? ==>
        packetBeginIndex == r.begin && packetSize == |r.payload| && r.begin + |r.payload| <= BUFFER_SIZE &&
        buffer[r.begin..r.begin + |r.payload|] == r.payload
      ensures !r.Received? ==> packetBeginIndex == old(packetBeginIndex) && packetSize == old(packetSize)
    {
      hide EndFrom, BeginBefore, CharAt, SumRead, Checksum;
      var begin, end := ReadToEnd(input);
      if end == BUFFER_SIZE {
        return TooLong;
      }
      if begin == -1 {
        return ProtocolError;
      }
      var payload := buffer[begin..end];
      assert payload == Chars(input, begin, end);
      var sum := CalCheckSum(payload);
      if !debug && SumRead(CharAt(input, end + 1), CharAt(input, end + 2), garbage) != sum {
        return ChecksumError;
      }
      packetBeginIndex, packetSize := begin, end - begin;
      r := Received(begin, payload);
    }
  }

  // ----- The register dump

  /** The bytes of the items, each little-endian. */
  function ItemBytes(items: seq<RegItem>): seq<Byte> {
    if items == [] then []
    else
      var last := |items| - 1;
      ItemBytes(items[..last]) + Exec.LowBytes(items[last].val, items[last].size)
  }

  /** Register i of a write: eight bytes, read little-endian. */
  function ValueAt(bytes: seq<Byte>, i: nat): U64
    requires 8 * i + 8 <= |bytes|
  {
    BoundOf8();
    LittleEndianFits(bytes[8 * i..8 * i + 8]);
    LittleEndian(bytes[8 * i..8 * i + 8])
  }

  datatype Reply = Silent | Empty | Error

  /** A write is refused for its length only. */
  function WriteReply(text: seq<Byte>): Reply {
    if |text| % 16 != 0 then Empty else if |text| / 16 != REG_NUM then Error else Silent
  }

  lemma {:induction false} LittleEndianFits(bytes: seq<Byte>)
    ensures LittleEndian(bytes) < Bound(|bytes|)
  {
    if bytes != [] {
      LittleEndianFits(bytes[1..]);
    }
  }

  /** 256 to the power n. */
  function Bound(n: nat): nat {
    if n == 0 then 1 else 0x100 * Bound(n - 1)
  }

  lemma BoundOf8()
    ensures Bound(8) == TWO_64
  {
    assert Bound(4) == 0x1_0000_0000;
  }

  lemma {:induction false} LowBytesHoldNumber(n: nat, size: nat)
    requires n < Bound(size)
    ensures LittleEndian(Exec.LowBytes(n, size)) == n
  {
    if size > 0 {
      LowBytesHoldNumber(n / 0x100, size - 1);
      assert Exec.LowBytes(n, size)[1..] == Exec.LowBytes(n / 0x100, size - 1);
    }
  }

  /** `cmd_ReadAllRegister`, up to the sending. */
  method ReadAllRegister(core: RV64Core) returns (text: seq<Byte>)
    requires core.Valid()
    ensures text == EncodeBytes(ItemBytes(Dumped(core.gpr[..], core.currentProgramCounter)))
  {
    var items := core.DumpRegister();
    text := [];
    for i := 0 to |items|
      invariant text == EncodeBytes(ItemBytes(items[..i]))
    {
      var bytes := Exec.LowBytes(items[i].val, items[i].size);
      var digits := PrintBytes(bytes);
      assert items[..i + 1][..i] == items[..i];
      EncodeAppends(ItemBytes(items[..i]), bytes);
      text := text + digits;
    }
    assert items[..|items|] == items;
  }

  /** `cmd_WriteAllRegister`: the reply, and the registers if there is none. */
  method WriteAllRegister(core: RV64Core, text: seq<Byte>) returns (reply: Reply)
    requires core.Valid() && AllHex(text)
    modifies core`currentProgramCounter, core.gpr
    ensures reply == WriteReply(text)
    ensures (reply == Silent <==> |text| == 33 * 16) && (reply == Empty <==> |text| % 16 != 0)
    ensures reply == Silent ==>
      core.currentProgramCounter == Exec.AddressWord(ValueAt(DecodeBytes(text), 32)) &&
      forall i :: 0 <= i < 32 ==> core.gpr[i] == Alu.Wrap(ValueAt(DecodeBytes(text), i))
    ensures reply != Silent ==>
      core.currentProgramCounter == old(core.currentProgramCounter) && core.gpr[..] == old(core.gpr[..])
  {
    if |text| % 16 != 0 {
      return Empty;
    }
    var items := ParseItems(text);
    var ok := core.WriteAllRegister(items);
    reply := if ok then Silent else Error;
  }

  method ParseItems(text: seq<Byte>) returns (items: seq<RegItem>)
    requires AllHex(text) && |text| % 16 == 0
    ensures |items| == |text| / 16
    ensures forall i :: 0 <= i < |items| ==> items[i] == RegItem(i, 8, ValueAt(DecodeBytes(text), i))
  {
    var regNum := |text| / 16;
    var data := new Byte[regNum * 8](_ => 0);
    ParseByteStreamStr(text, data);
    assert data[..] == DecodeBytes(text);
    items := [];
    for i := 0 to regNum
      invariant |items| == i
      invariant forall k :: 0 <= k < i ==> items[k] == RegItem(k, 8, ValueAt(data[..], k))
    {
      items := items + [RegItem(i, 8, ValueAt(data[..], i))];
    }
  }

  // ----- The round trip

  lemma {:induction false} EncodeAppends(a: seq<Byte>, b: seq<Byte>)
    ensures EncodeBytes(a + b) == EncodeBytes(a) + EncodeBytes(b)
    decreases b
  {
    if b == [] {
      assert a + b == a;
    } else {
      var last := |b| - 1;
      assert (a + b)[..|a + b| - 1] == a + b[..last];
      EncodeAppends(a, b[..last]);
    }
  }

  predicate EightByteItems(items: seq<RegItem>) {
    forall k :: 0 <= k < |items| ==> items[k].size == 8
  }

  lemma {:induction false} ItemLength(items: seq<RegItem>)
    requires EightByteItems(items)
    ensures |ItemBytes(items)| == 8 * |items|
    decreases items
  {
    if items != [] {
      ItemLength(items[..|items| - 1]);
    }
  }

  lemma {:induction false} ItemAt(items: seq<RegItem>, i: nat)
    requires EightByteItems(items) && i < |items|
    ensures |ItemBytes(items)| == 8 * |items|
    ensures ItemBytes(items)[8 * i..8 * i + 8] == Exec.LowBytes(items[i].val, 8)
    decreases items
  {
    var last := |items| - 1;
    var before, final := ItemBytes(items[..last]), Exec.LowBytes(items[last].val, 8);
    ItemLength(items[..last]);
    assert ItemBytes(items) == before + final;
    if i < last {
      ItemAt(items[..last], i);
      assert (before + final)[8 * i..8 * i + 8] == before[8 * i..8 * i + 8];
    } else {
      assert (before + final)[8 * last..8 * last + 8] == final;
    }
  }

  lemma AddressIsWord(pc: Word)
    ensures Exec.AddressWord(CoreStep.AddressOf(pc)) == pc
  {
  }

  /** Replaying a dump through the write-all command restores every register
      exactly, whatever they hold. */
  lemma DumpRestores(gpr: seq<Alu.I64>, pc: Word)
    requires |gpr| == 32
    ensures
      var text := EncodeBytes(ItemBytes(Dumped(gpr, pc)));
      WriteReply(text) == Silent &&
      Exec.AddressWord(ValueAt(DecodeBytes(text), 32)) == pc &&
      forall i :: 0 <= i < 32 ==> Alu.Wrap(ValueAt(DecodeBytes(text), i)) == gpr[i]
  {
    hide CoreStep.AddressOf, Exec.AddressWord, LittleEndian, Exec.LowBytes, Bound;
    var items := Dumped(gpr, pc);
    DecodeInvertsEncode(ItemBytes(items));
    forall i | 0 <= i < REG_NUM
      ensures |ItemBytes(items)| == 8 * REG_NUM && ValueAt(ItemBytes(items), i) == items[i].val
    {
      ItemAt(items, i);
      BoundOf8();
      LowBytesHoldNumber(items[i].val, 8);
    }
    assert |ItemBytes(items)| == 8 * REG_NUM && ValueAt(ItemBytes(items), 32) == items[32].val;
    AddressIsWord(pc);
    forall i | 0 <= i < 32 ensures Alu.Wrap(ValueAt(ItemBytes(items), i)) == gpr[i] {
      assert items[i].val == Alu.U64(gpr[i]);
      Alu.WrapCongruent(gpr[i]);
    }
  }
}
