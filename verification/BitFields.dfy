/** Runs of bits and bytes as numbers: the number that a stretch of them holds is a field
    of the whole. */
module BitFields {
  import opened Words
  import Alu
  import Sv39Walk

  /** A number of n bits survives the way through them. */
  lemma {:induction false} BitsOfByte(b: nat, n: nat)
    requires b < Alu.Pow2(n)
    ensures Number(ByteBits(b, n)) == b
  {
    if n > 0 {
      BitsOfByte(b / 2, n - 1);
      assert ByteBits(b, n)[1..] == ByteBits(b / 2, n - 1);
    }
  }

  lemma {:induction false} NumberOfJoined(low: seq<bool>, high: seq<bool>)
    ensures Number(low + high) == Number(low) + Alu.Pow2(|low|) * Number(high)
    decreases |low|
  {
    if low == [] {
      assert low + high == high;
    } else {
      NumberOfJoined(low[1..], high);
      assert (low + high)[1..] == low[1..] + high;
      Doubling(Alu.Pow2(|low| - 1), Number(high));
    }
  }

  lemma Doubling(p: int, n: int)
    ensures 2 * (p * n) == 2 * p * n
  {
  }

  lemma EightBits()
    ensures Alu.Pow2(8) == 0x100
  {
    assert Alu.Pow2(4) == 0x10;
  }

  /** The bits of a run of bytes are those of its little-endian number. */
  lemma {:induction false} BitsOfBytes(bytes: seq<Byte>)
    ensures Number(BitsOf(bytes)) == LittleEndian(bytes)
    decreases |bytes|
  {
    if bytes != [] {
      BitsOfBytes(bytes[1..]);
      EightBits();
      BitsOfByte(bytes[0], 8);
      NumberOfJoined(ByteBits(bytes[0], 8), BitsOf(bytes[1..]));
    }
  }

  /** A field of a number: `width` bits from bit `at` up. */
  function Field(w: nat, at: nat, width: nat): nat {
    w / Alu.Pow2(at) % Alu.Pow2(width)
  }

  lemma AboveAndBelow(low: nat, p: nat, rest: nat)
    requires low < p
    ensures (low + p * rest) / p == rest && (low + p * rest) % p == low
  {
    Alu.QuotientIs(low + p * rest, p, rest, low);
  }

  lemma FieldOfParts(low: nat, mid: nat, high: nat, at: nat, width: nat)
    requires low < Alu.Pow2(at) && mid < Alu.Pow2(width)
    ensures Field(low + Alu.Pow2(at) * (mid + Alu.Pow2(width) * high), at, width) == mid
  {
    hide Alu.Pow2;
    AboveAndBelow(low, Alu.Pow2(at), mid + Alu.Pow2(width) * high);
    AboveAndBelow(mid, Alu.Pow2(width), high);
  }

  /** The number of a stretch of bits is the field of the number. */
  lemma StretchIsField(bits: seq<bool>, at: nat, end: nat)
    requires at <= end <= |bits|
    ensures Number(bits[at..end]) == Field(Number(bits), at, end - at)
  {
    hide Alu.Pow2, Number, Field;
    var low, mid, high := bits[..at], bits[at..end], bits[end..];
    assert bits == low + (mid + high);
    NumberOfJoined(low, mid + high);
    NumberOfJoined(mid, high);
    Sv39Walk.NumberFits(low);
    Sv39Walk.NumberFits(mid);
    FieldOfParts(Number(low), Number(mid), Number(high), at, end - at);
  }

  lemma BitIsField(bits: seq<bool>, k: nat)
    requires k < |bits|
    ensures bits[k] <==> Field(Number(bits), k, 1) == 1
  {
    StretchIsField(bits, k, k + 1);
    assert bits[k..k + 1] == [bits[k]];
    assert Number([bits[k]]) == (if bits[k] then 1 else 0) + 2 * Number([bits[k]][1..]);
  }
}
