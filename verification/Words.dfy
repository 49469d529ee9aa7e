/** Machine words and small containers shared by the models. */
module Words {
  datatype Option<+T> = None | Some(value: T)

  const TWO_64: nat := 0x1_0000_0000_0000_0000

  type Byte = x: int | 0 <= x < 0x100

  type U64 = x: int | 0 <= x < 0x1_0000_0000_0000_0000

  /** Privilege modes; 2 is reserved. */
  type Mode = bv2

  const U_MODE: Mode := 0
  const S_MODE: Mode := 1
  const M_MODE: Mode := 3

  /** Physical memory as the system bus shows it: an address outside the
      domain belongs to no device. */
  type Memory = map<nat, Byte>

  /** Every byte of the access belongs to some device. */
  predicate Accessible(mem: Memory, addr: nat, size: nat) {
    forall a :: addr <= a < addr + size ==> a in mem
  }

  /** A byte of memory; 0 where no device answers (callers check Accessible). */
  function ByteAt(mem: Memory, addr: nat): Byte {
    if addr in mem then mem[addr] else 0
  }

  function BytesAt(mem: Memory, addr: nat, size: nat): seq<Byte> {
    seq<Byte>(size, i requires 0 <= i => ByteAt(mem, addr + i))
  }

  /** The little-endian number stored in a run of bytes. */
  function LittleEndian(bytes: seq<Byte>): nat {
    if bytes == [] then 0 else bytes[0] + 0x100 * LittleEndian(bytes[1..])
  }

  /** The bits of a run of bytes, least significant first. */
  function BitsOf(bytes: seq<Byte>): (bits: seq<bool>)
    ensures |bits| == 8 * |bytes|
  {
    if bytes == [] then [] else ByteBits(bytes[0], 8) + BitsOf(bytes[1..])
  }

  function ByteBits(b: nat, n: nat): (bits: seq<bool>)
    ensures |bits| == n
  {
    if n == 0 then [] else [b % 2 == 1] + ByteBits(b / 2, n - 1)
  }

  /** The number that a bit field holds. */
  function Number(bits: seq<bool>): nat {
    if bits == [] then 0 else (if bits[0] then 1 else 0) + 2 * Number(bits[1..])
  }
}
