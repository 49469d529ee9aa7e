/** The byte-level codec of the GDB remote protocol: hexadecimal bytes, checksums,
    packet frames and the register dump. */
module Gdb {
  import opened Words
  import Alu

  const PACKET_BEGIN_CHAR: Byte := 0x24
  const PACKET_END_CHAR: Byte := 0x23
  const BUFFER_SIZE := 1024

  // ----- Hexadecimal bytes

  /** The digits of the print formats: lower case. */
  function HexDigit(n: nat): (d: Byte)
    requires n < 16
    ensures IsHex(d) && HexValue(d) == n
  {
    if n < 10 then 0x30 + n else 0x57 + n
  }

  predicate IsHex(d: Byte) {
    0x30 <= d <= 0x39 || 0x61 <= d <= 0x66 || 0x41 <= d <= 0x46
  }

  /** Both cases are read. */
  function HexValue(d: Byte): (n: nat)
    requires IsHex(d)
    ensures n < 16
  {
    if d <= 0x39 then d - 0x30 else if d <= 0x46 then d - 0x37 else d - 0x57
  }

  function EncodeByte(b: Byte): seq<Byte> {
    [HexDigit(b / 16), HexDigit(b % 16)]
  }

  function EncodeBytes(bytes: seq<Byte>): (str: seq<Byte>)
    ensures |str| == 2 * |bytes| && AllHex(str)
  {
    if bytes == [] then [] else EncodeBytes(bytes[..|bytes| - 1]) + EncodeByte(bytes[|bytes| - 1])
  }

  predicate AllHex(str: seq<Byte>) {
    forall i :: 0 <= i < |str| ==> IsHex(str[i])
  }

  /** Byte i of the decoded text comes from digits 2i and 2i + 1. */
  function DecodeBytes(str: seq<Byte>): (bytes: seq<Byte>)
    requires |str| % 2 == 0 && AllHex(str)
    ensures |bytes| == |str| / 2
  {
    seq(|str| / 2, i requires 0 <= i < |str| / 2 => PairValue(str[2 * i], str[2 * i + 1]))
  }

  function PairValue(high: Byte, low: Byte): Byte
    requires IsHex(high) && IsHex(low)
  {
    16 * HexValue(high) + HexValue(low)
  }

  lemma {:induction false} EncodedAt(bytes: seq<Byte>, i: nat)
    requires i < |bytes|
    ensures EncodeBytes(bytes)[2 * i..2 * i + 2] == EncodeByte(bytes[i])
  {
    var last := |bytes| - 1;
    if i < last {
      EncodedAt(bytes[..last], i);
      assert EncodeBytes(bytes)[2 * i..2 * i + 2] == EncodeBytes(bytes[..last])[2 * i..2 * i + 2];
    }
  }

  /** Decoding inverts encoding, for every byte sequence. */
  lemma DecodeInvertsEncode(bytes: seq<Byte>)
    ensures DecodeBytes(EncodeBytes(bytes)) == bytes
  {
    forall i | 0 <= i < |bytes| ensures DecodeBytes(EncodeBytes(bytes))[i] == bytes[i] {
      EncodedAt(bytes, i);
      var str := EncodeBytes(bytes);
      assert str[2 * i] == str[2 * i..2 * i + 2][0] && str[2 * i + 1] == str[2 * i..2 * i + 2][1];
    }
  }

  function Lower(d: Byte): Byte {
    if 0x41 <= d <= 0x46 then d + 0x20 else d
  }

  /** Encoding a decoded text gives it back in lower case. */
  lemma EncodeInvertsDecode(str: seq<Byte>)
    requires |str| % 2 == 0 && AllHex(str)
    ensures EncodeBytes(DecodeBytes(str)) == seq(|str|, i requires 0 <= i < |str| => Lower(str[i]))
  {
    var bytes := DecodeBytes(str);
    forall k | 0 <= k < |str| ensures EncodeBytes(bytes)[k] == Lower(str[k]) {
      var i := k / 2;
      EncodedAt(bytes, i);
      PairDigits(str[2 * i], str[2 * i + 1]);
      assert EncodeBytes(bytes)[k] == EncodeBytes(bytes)[2 * i..2 * i + 2][k % 2];
    }
  }

  lemma PairDigits(high: Byte, low: Byte)
    requires IsHex(high) && IsHex(low)
    ensures EncodeByte(PairValue(high, low)) == [Lower(high), Lower(low)]
  {
    assert PairValue(high, low) / 16 == HexValue(high) && PairValue(high, low) % 16 == HexValue(low);
  }

  /** The loop of `ParseByteStreamStr`. */
  method ParseByteStreamStr(str: seq<Byte>, buffer: array<Byte>)
    requires |str| % 2 == 0 && AllHex(str) && |str| / 2 <= buffer.Length
    modifies buffer
    ensures buffer[..|str| / 2] == DecodeBytes(str)
    ensures buffer[|str| / 2..] == old(buffer[|str| / 2..])
  {
    for i := 0 to |str| / 2
      invariant forall k :: 0 <= k < i ==> buffer[k] == DecodeBytes(str)[k]
      invariant buffer[|str| / 2..] == old(buffer[|str| / 2..])
    {
      buffer[i] := PairValue(str[2 * i], str[2 * i + 1]);
    }
  }

  /** The print loop of the memory and register dumps. */
  method PrintBytes(bytes: seq<Byte>) returns (str: seq<Byte>)
    ensures str == EncodeBytes(bytes)
  {
    str := [];
    for i := 0 to |bytes|
      invariant str == EncodeBytes(bytes[..i])
    {
      assert bytes[..i + 1][..i] == bytes[..i];
      str := str + EncodeByte(bytes[i]);
    }
    assert bytes[..|bytes|] == bytes;
  }

  // ----- Checksums

  function SumOf(data: seq<Byte>): nat {
    if data == [] then 0 else SumOf(data[..|data| - 1]) + data[|data| - 1]
  }

  /** The checksum of the protocol: the sum of the unsigned bytes modulo 256. */
  function Checksum(data: seq<Byte>): Byte {
    SumOf(data) % 256
  }

  /** A `char` of the source is signed. */
  function AsSignedChar(b: Byte): int {
    if b < 0x80 then b else b - 0x100
  }

  lemma AccumulatorKeepsLow(total: int, sum: int, b: Byte)
    requires total % 256 == sum % 256
    ensures (total + AsSignedChar(b)) % TWO_64 % 256 == (sum + b) % 256
  {
    LowByteOfWord(total + AsSignedChar(b));
    var k := total / 256 - sum / 256 - (b - AsSignedChar(b)) / 256;
    assert total + AsSignedChar(b) == sum + b + k * 256;
    Alu.MultipleVanishes(sum + b, k, 256);
  }

  lemma LowByteOfWord(x: int)
    ensures x % TWO_64 % 256 == x % 256
  {
    Alu.MultipleVanishes(x % TWO_64, x / TWO_64 * 0x100_0000_0000_0000, 256);
  }

  /** The accumulator of the source is 64 bits wide and adds signed characters;
      the checksum is the protocol's all the same. */
  method CalCheckSum(data: seq<Byte>) returns (sum: Byte)
    ensures sum == Checksum(data)
  {
    var total: U64 := 0;
    for i := 0 to |data|
      invariant total % 256 == SumOf(data[..i]) % 256
    {
      assert data[..i + 1][..i] == data[..i];
      AccumulatorKeepsLow(total, SumOf(data[..i]), data[i]);
      total := (total + AsSignedChar(data[i])) % TWO_64;
    }
    assert data[..|data|] == data;
    sum := total % 256;
  }

  // ----- Frames

  function Frame(payload: seq<Byte>): seq<Byte> {
    [PACKET_BEGIN_CHAR] + payload + [PACKET_END_CHAR] + EncodeByte(Checksum(payload))
  }

  /** The packet of the text OK is $OK#9a. */
  lemma FrameOfOk()
    ensures Frame([0x4f, 0x4b]) == [0x24, 0x4f, 0x4b, 0x23, 0x39, 0x61]
  {
    assert SumOf([0x4f, 0x4b]) == 0x9a;
  }

  /** The send buffer of `packingAndSend`, built in place. */
  method PackingAndSend(payload: seq<Byte>) returns (sent: seq<Byte>)
    ensures sent == Frame(payload)
  {
    var len := |payload|;
    var a := new Byte[len + 4](_ => 0);
    for i := 0 to len
      invariant a[1..1 + i] == payload[..i]
    {
      a[1 + i] := payload[i];
    }
    a[0] := PACKET_BEGIN_CHAR;
    a[len + 1] := PACKET_END_CHAR;
    var sum := CalCheckSum(payload);
    a[len + 2], a[len + 3] := HexDigit(sum / 16), HexDigit(sum % 16);
    sent := a[..];
    assert sent == [sent[0]] + sent[1..1 + len] + [sent[len + 1]] + [sent[len + 2], sent[len + 3]];
  }

  /** The stream as `getc` shows it: after its end every character is 0xff. */
  function CharAt(input: seq<Byte>, i: nat): Byte {
    if i < |input| then input[i] else 0xff
  }

  /** The first end character that the receive buffer has room for. */
  function EndFrom(input: seq<Byte>, i: nat): (end: Option<nat>)
    decreases BUFFER_SIZE - i
    ensures end.Some? ==> i <= end.value < BUFFER_SIZE && CharAt(input, end.value) == PACKET_END_CHAR
    ensures forall k :: i <= k < (if end.Some? then end.value else BUFFER_SIZE) ==> CharAt(input, k) != PACKET_END_CHAR
  {
    if i >= BUFFER_SIZE then None
    else if CharAt(input, i) == PACKET_END_CHAR then Some(i)
    else EndFrom(input, i + 1)
  }

  /** One past the last begin character among the first n. */
  function BeginBefore(input: seq<Byte>, n: nat): (begin: Option<nat>)
    ensures begin.Some? ==> 1 <= begin.value <= n && CharAt(input, begin.value - 1) == PACKET_BEGIN_CHAR
    ensures forall k :: (if begin.Some? then begin.value else 0) <= k < n ==> CharAt(input, k) != PACKET_BEGIN_CHAR
  {
    if n == 0 then None
    else if CharAt(input, n - 1) == PACKET_BEGIN_CHAR then Some(n)
    else BeginBefore(input, n - 1)
  }

  /** Two digits, or whatever an unreadable checksum leaves behind. */
  function SumRead(high: Byte, low: Byte, garbage: Byte): Byte {
    if IsHex(high) && IsHex(low) then PairValue(high, low) else garbage
  }

  /** The outcomes of `recvAndCheck`; a frame that does not fit ends the program. */
  datatype Receipt = TooLong | ProtocolError | ChecksumError | Received(begin: nat, payload: seq<Byte>)

  function Chars(input: seq<Byte>, from: nat, to: nat): (chars: seq<Byte>)
    requires from <= to
    ensures |chars| == to - from
  {
    seq<Byte>(to - from, k requires 0 <= k < to - from => CharAt(input, from + k))
  }

  /** What a receive makes of a stream; the debug build skips the checksum. */
  function Receive(input: seq<Byte>, garbage: Byte, debug: bool): Receipt {
    var end := EndFrom(input, 0);
    if end.None? then TooLong
    else
      var begin := BeginBefore(input, end.value);
      if begin.None? then ProtocolError
      else
        var payload := Chars(input, begin.value, end.value);
        var sum := SumRead(CharAt(input, end.value + 1), CharAt(input, end.value + 2), garbage);
        if !debug && sum != Checksum(payload) then ChecksumError else Received(begin.value, payload)
  }

  predicate Free(s: seq<Byte>, c: Byte) {
    forall i :: 0 <= i < |s| ==> s[i] != c
  }

  function Stream(lead: seq<Byte>, payload: seq<Byte>, rest: seq<Byte>): seq<Byte> {
    lead + Frame(payload) + rest
  }

  lemma StreamChars(lead: seq<Byte>, payload: seq<Byte>, rest: seq<Byte>)
    ensures
      var s, b, e := Stream(lead, payload, rest), |lead| + 1, |lead| + 1 + |payload|;
      |s| >= e + 3 && s[..b - 1] == lead && s[b - 1] == PACKET_BEGIN_CHAR && s[b..e] == payload &&
      s[e] == PACKET_END_CHAR &&
      s[e + 1] == HexDigit(Checksum(payload) / 16) && s[e + 2] == HexDigit(Checksum(payload) % 16)
  {
  }

  lemma EndIsFirst(input: seq<Byte>, e: nat)
    requires e < BUFFER_SIZE && CharAt(input, e) == PACKET_END_CHAR
    ensures EndFrom(input, 0).Some? && EndFrom(input, 0).value <= e
    ensures (forall k :: 0 <= k < e ==> CharAt(input, k) != PACKET_END_CHAR) ==> EndFrom(input, 0) == Some(e)
  {
  }

  lemma BeginIsLast(input: seq<Byte>, b: nat, n: nat)
    requires 1 <= b <= n && CharAt(input, b - 1) == PACKET_BEGIN_CHAR
    ensures BeginBefore(input, n).Some? && BeginBefore(input, n).value >= b
    ensures (forall k :: b <= k < n ==> CharAt(input, k) != PACKET_BEGIN_CHAR) ==> BeginBefore(input, n) == Some(b)
  {
  }

  lemma SumIsRead(sum: Byte, garbage: Byte)
    ensures SumRead(HexDigit(sum / 16), HexDigit(sum % 16), garbage) == sum
  {
  }

  predicate Clean(payload: seq<Byte>) {
    Free(payload, PACKET_BEGIN_CHAR) && Free(payload, PACKET_END_CHAR)
  }

  lemma StreamBeforeEnd(lead: seq<Byte>, payload: seq<Byte>, rest: seq<Byte>, k: nat)
    requires k < |lead| + 1 + |payload|
    ensures CharAt(Stream(lead, payload, rest), k) ==
      if k < |lead| then lead[k] else if k == |lead| then PACKET_BEGIN_CHAR else payload[k - |lead| - 1]
  {
  }

  lemma CleanFrameIsReceived(lead: seq<Byte>, payload: seq<Byte>, rest: seq<Byte>, garbage: Byte, debug: bool)
    requires Free(lead, PACKET_END_CHAR) && |lead| + 1 + |payload| < BUFFER_SIZE && Clean(payload)
    ensures Receive(Stream(lead, payload, rest), garbage, debug) == Received(|lead| + 1, payload)
  {
    var s, b, e := Stream(lead, payload, rest), |lead| + 1, |lead| + 1 + |payload|;
    StreamChars(lead, payload, rest);
    forall k | 0 <= k < e
      ensures CharAt(s, k) != PACKET_END_CHAR && (b <= k ==> CharAt(s, k) != PACKET_BEGIN_CHAR)
    {
      StreamBeforeEnd(lead, payload, rest, k);
    }
    EndIsFirst(s, e);
    BeginIsLast(s, b, e);
    assert Chars(s, b, e) == payload by {
      forall k | 0 <= k < |payload| ensures Chars(s, b, e)[k] == payload[k] {
        StreamBeforeEnd(lead, payload, rest, b + k);
      }
    }
    SumIsRead(Checksum(payload), garbage);
  }

  /** A frame character inside the payload cuts what is received short. */
  lemma CutFrameIsNotReceived(lead: seq<Byte>, payload: seq<Byte>, rest: seq<Byte>, garbage: Byte, debug: bool, i: nat)
    requires |lead| + 1 + |payload| < BUFFER_SIZE
    requires i < |payload| && payload[i] in [PACKET_BEGIN_CHAR, PACKET_END_CHAR]
    ensures Receive(Stream(lead, payload, rest), garbage, debug) != Received(|lead| + 1, payload)
  {
    var s, b, e := Stream(lead, payload, rest), |lead| + 1, |lead| + 1 + |payload|;
    StreamChars(lead, payload, rest);
    StreamBeforeEnd(lead, payload, rest, b + i);
    EndIsFirst(s, e);
    var end := EndFrom(s, 0).value;
    if payload[i] == PACKET_END_CHAR {
      EndIsFirst(s, b + i);
      assert end < e;
    } else if end == e {
      BeginIsLast(s, b + i + 1, e);
    }
  }

  /** A framed payload is received as it was sent, after any leading bytes without
      an end character, exactly when it holds neither frame character. */
  lemma FrameRoundTrip(lead: seq<Byte>, payload: seq<Byte>, rest: seq<Byte>, garbage: Byte, debug: bool)
    requires Free(lead, PACKET_END_CHAR) && |lead| + 1 + |payload| < BUFFER_SIZE
    ensures Receive(Stream(lead, payload, rest), garbage, debug) == Received(|lead| + 1, payload) <==> Clean(payload)
  {
    if Clean(payload) {
      CleanFrameIsReceived(lead, payload, rest, garbage, debug);
    } else {
      var i :| 0 <= i < |payload| && payload[i] in [PACKET_BEGIN_CHAR, PACKET_END_CHAR];
      CutFrameIsNotReceived(lead, payload, rest, garbage, debug, i);
    }
  }
}
