/**
 * Fixed-width integers and their byte images.
 *
 * The encoders in this model store 16- and 32-bit values through typed
 * pointers, so the bytes they leave depend on the host byte order. The order
 * is therefore an explicit parameter everywhere a value becomes bytes.
 */
module Bytes {

  /** One octet of memory. */
  type byte = x: int | 0 <= x < 0x100

  /** 0 ..= 2^16-1: the range of a C `uint16_t`. */
  type u16 = x: int | 0 <= x < 0x1_0000

  /** 0 ..= 2^32-1: the range of a C `uint32_t`. */
  type u32 = x: int | 0 <= x < 0x1_0000_0000

  const USHRT_MAX: int := 0xFFFF
  const SHRT_MIN: int := -0x8000
  const SHRT_MAX: int := 0x7FFF

  datatype ByteOrder = LittleEndian | BigEndian

  /** Storing an integer into a 16-bit field keeps its low 16 bits. */
  function Trunc16(x: int): (r: u16)
    ensures 0 <= x < 0x1_0000 ==> r == x
    ensures (x - r) % 0x1_0000 == 0
  {
    x % 0x1_0000
  }

  /** Storing an integer into a 32-bit field keeps its low 32 bits. */
  function Trunc32(x: int): (r: u32)
    ensures 0 <= x < 0x1_0000_0000 ==> r == x
    ensures (x - r) % 0x1_0000_0000 == 0
  {
    x % 0x1_0000_0000
  }

  /** The signed reading of a 16-bit pattern (two's complement). */
  function AsSigned16(v: u16): (r: int)
    ensures SHRT_MIN <= r <= SHRT_MAX
    ensures Trunc16(r) == v
  {
    if v <= SHRT_MAX then v else v - 0x1_0000
  }

  function ByteOf(x: int): (b: byte)
    ensures b == x % 0x100
  {
    x % 0x100
  }

  /** The two bytes a 16-bit store leaves in memory. */
  function U16Bytes(v: u16, order: ByteOrder): (r: seq<byte>)
    ensures |r| == 2
  {
    match order
    case LittleEndian => [ByteOf(v), ByteOf(v / 0x100)]
    case BigEndian => [ByteOf(v / 0x100), ByteOf(v)]
  }

  /** The 16-bit value a load from `s[pos..pos+2]` sees. */
  function ReadU16(s: seq<byte>, pos: nat, order: ByteOrder): u16
    requires pos + 2 <= |s|
  {
    match order
    case LittleEndian => s[pos] as int + 0x100 * s[pos + 1] as int
    case BigEndian => 0x100 * s[pos] as int + s[pos + 1] as int
  }

  /** The four bytes a 32-bit store leaves in memory. */
  function U32Bytes(v: u32, order: ByteOrder): (r: seq<byte>)
    ensures |r| == 4
  {
    var lo := v % 0x1_0000;
    var hi := v / 0x1_0000;
    match order
    case LittleEndian => U16Bytes(lo, order) + U16Bytes(hi, order)
    case BigEndian => U16Bytes(hi, order) + U16Bytes(lo, order)
  }

  /** The 32-bit value a load from `s[pos..pos+4]` sees. */
  function ReadU32(s: seq<byte>, pos: nat, order: ByteOrder): u32
    requires pos + 4 <= |s|
  {
    match order
    case LittleEndian => ReadU16(s, pos, order) + 0x1_0000 * ReadU16(s, pos + 2, order)
    case BigEndian => 0x1_0000 * ReadU16(s, pos, order) + ReadU16(s, pos + 2, order)
  }

  lemma ReadU16OfU16Bytes(v: u16, order: ByteOrder)
    ensures ReadU16(U16Bytes(v, order), 0, order) == v
  {
    var lo := ByteOf(v);
    var hi := ByteOf(v / 0x100);
    assert hi == v / 0x100;
    assert v == 0x100 * (v / 0x100) + lo;
  }

  /** Reading back a stored halfword at any position recovers it. */
  lemma ReadU16At(s: seq<byte>, pos: nat, v: u16, order: ByteOrder)
    requires pos + 2 <= |s|
    requires s[pos..pos + 2] == U16Bytes(v, order)
    ensures ReadU16(s, pos, order) == v
  {
    assert s[pos] == U16Bytes(v, order)[0];
    assert s[pos + 1] == U16Bytes(v, order)[1];
    ReadU16OfU16Bytes(v, order);
  }

  /** Reading back a stored word at any position recovers it. */
  lemma ReadU32At(s: seq<byte>, pos: nat, v: u32, order: ByteOrder)
    requires pos + 4 <= |s|
    requires s[pos..pos + 4] == U32Bytes(v, order)
    ensures ReadU32(s, pos, order) == v
  {
    var lo := v % 0x1_0000;
    var hi := v / 0x1_0000;
    var w := U32Bytes(v, order);
    assert s[pos..pos + 2] == w[..2];
    assert s[pos + 2..pos + 4] == w[2..];
    match order
    case LittleEndian =>
      assert w[..2] == U16Bytes(lo, order);
      assert w[2..] == U16Bytes(hi, order);
      ReadU16At(s, pos, lo, order);
      ReadU16At(s, pos + 2, hi, order);
    case BigEndian =>
      assert w[..2] == U16Bytes(hi, order);
      assert w[2..] == U16Bytes(lo, order);
      ReadU16At(s, pos, hi, order);
      ReadU16At(s, pos + 2, lo, order);
  }

  /** `s` with the bytes at `pos ..< pos + |t|` replaced by `t` (a memcpy). */
  function Splice(s: seq<byte>, pos: nat, t: seq<byte>): (r: seq<byte>)
    requires pos + |t| <= |s|
    ensures |r| == |s|
    ensures r[pos..pos + |t|] == t
    ensures forall i :: 0 <= i < |s| && !(pos <= i < pos + |t|) ==> r[i] == s[i]
  {
    s[..pos] + t + s[pos + |t|..]
  }
}
