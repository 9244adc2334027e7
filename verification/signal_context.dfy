/**
 * The z/TPF program-interruption fields read from a copy of low storage.
 *
 * On a program interruption the machine stores the instruction-length code
 * (a halfword at 0x8C), the program-interruption code (a halfword at 0x8E)
 * and, for data exceptions, the data-exception code (a byte at 0x93); see
 * the assigned storage locations in chapter 6, "Interruptions", of the IBM
 * z/Architecture Principles of Operation. Halfwords there are big-endian.
 * The readers mask each halfword down to its meaningful bits. The masking is
 * a bitwise AND, modelled here on naturals bit by bit.
 */
module SignalContext {
  import opened Bytes

  const IlcOffset: nat := 0x8c
  const PicOffset: nat := 0x8e
  const DxcOffset: nat := 0x93

  /** The two ILC bits, which already sit where they read as 2, 4 or 6. */
  const IlcMask: nat := 0x06
  /** The interruption-code bits kept; the PER (0x80) and transaction (0x200) flags are dropped. */
  const PicMask: nat := 0x13f

  // ---------------------------------------------------------------------------
  // Bits of naturals

  /** Bit `i` of `x`. */
  function Bit(x: nat, i: nat): (r: nat)
    ensures r < 2
    decreases i
  {
    if i == 0 then x % 2 else Bit(x / 2, i - 1)
  }

  /** Bitwise AND on naturals. */
  function BitAnd(a: nat, b: nat): (r: nat)
    ensures r <= a && r <= b
    decreases a
  {
    if a == 0 || b == 0 then 0
    else 2 * BitAnd(a / 2, b / 2) + (if a % 2 == 1 && b % 2 == 1 then 1 else 0)
  }

  lemma {:induction false} BitOfZero(i: nat)
    ensures Bit(0, i) == 0
    decreases i
  {
    if i > 0 {
      BitOfZero(i - 1);
    }
  }

  /** Bit `i` of `a & b` is set exactly when bit `i` is set in both. */
  lemma {:induction false} BitOfAnd(a: nat, b: nat, i: nat)
    ensures Bit(BitAnd(a, b), i) == (if Bit(a, i) == 1 && Bit(b, i) == 1 then 1 else 0)
    decreases i
  {
    if a == 0 || b == 0 {
      BitOfZero(i);
    } else if i > 0 {
      var q := BitAnd(a / 2, b / 2);
      var c := if a % 2 == 1 && b % 2 == 1 then 1 else 0;
      assert (2 * q + c) / 2 == q;
      BitOfAnd(a / 2, b / 2, i - 1);
    }
  }

  /** A number has no bit at or above `k` when it is below `2^k`. */
  lemma {:induction false} HighBitsOfSmall(x: nat, k: nat, i: nat)
    requires x < Pow2(k) && k <= i
    ensures Bit(x, i) == 0
    decreases i
  {
    if x == 0 {
      BitOfZero(i);
    } else if i > 0 {
      assert k > 0;
      HighBitsOfSmall(x / 2, k - 1, i - 1);
    }
  }

  function Pow2(k: nat): (r: nat)
    ensures r >= 1
  {
    if k == 0 then 1 else 2 * Pow2(k - 1)
  }

  // ---------------------------------------------------------------------------
  // The three readers

  /** The big-endian halfword at `offset`. */
  function Halfword(b: seq<byte>, offset: nat): u16
    requires offset + 2 <= |b|
  {
    ReadU16(b, offset, BigEndian)
  }

  /** `s390FetchILC`: the halfword at 0x8C masked to its two length bits. */
  function FetchILC(b: seq<byte>): (r: nat)
    requires |b| >= IlcOffset + 2
    ensures r == 0 || r == 2 || r == 4 || r == 6
  {
    var hw := Halfword(b, IlcOffset);
    BitOfAnd(hw, IlcMask, 0);
    BitAnd(hw, IlcMask)
  }

  /** `s390FetchPIC`: the halfword at 0x8E masked with 0x13F. */
  function FetchPIC(b: seq<byte>): (r: nat)
    requires |b| >= PicOffset + 2
    ensures r <= PicMask
  {
    BitAnd(Halfword(b, PicOffset), PicMask)
  }

  /** `s390FetchDXC`: the byte at 0x93, unmasked. */
  function FetchDXC(b: seq<byte>): (r: byte)
    requires |b| > DxcOffset
  {
    b[DxcOffset]
  }

  /** The ILC keeps bits 1 and 2 of its halfword and nothing else. */
  lemma IlcKeepsLengthBits(b: seq<byte>, i: nat)
    requires |b| >= IlcOffset + 2
    ensures Bit(FetchILC(b), i) == (if i == 1 || i == 2 then Bit(Halfword(b, IlcOffset), i) else 0)
  {
    var hw := Halfword(b, IlcOffset);
    BitOfAnd(hw, IlcMask, i);
    if i >= 3 {
      HighBitsOfSmall(IlcMask, 3, i);
    }
  }

  /**
   * The PIC keeps bits 0-5 and 8 of its halfword: no bit outside 0x13F
   * survives, so in particular the PER flag 0x80 is always clear.
   */
  lemma PicKeepsCodeBits(b: seq<byte>, i: nat)
    requires |b| >= PicOffset + 2
    ensures Bit(FetchPIC(b), i) == (if i <= 5 || i == 8 then Bit(Halfword(b, PicOffset), i) else 0)
    ensures Bit(FetchPIC(b), 7) == 0
  {
    var hw := Halfword(b, PicOffset);
    BitOfAnd(hw, PicMask, i);
    BitOfAnd(hw, PicMask, 7);
    if i >= 9 {
      HighBitsOfSmall(PicMask, 9, i);
    }
  }

  /**
   * The readers look only at `b[0x8C..0x94]`: two copies of low storage that
   * agree there give the same ILC, PIC and DXC.
   */
  lemma ReadsOnlyInterruptionFields(b: seq<byte>, c: seq<byte>)
    requires |b| >= DxcOffset + 1 && |c| >= DxcOffset + 1
    requires b[IlcOffset..DxcOffset + 1] == c[IlcOffset..DxcOffset + 1]
    ensures FetchILC(b) == FetchILC(c)
    ensures FetchPIC(b) == FetchPIC(c)
    ensures FetchDXC(b) == FetchDXC(c)
  {
    forall k | IlcOffset <= k <= DxcOffset
      ensures b[k] == c[k]
    {
      assert b[k] == b[IlcOffset..DxcOffset + 1][k - IlcOffset];
    }
  }
}
