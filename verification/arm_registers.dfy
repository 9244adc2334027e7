/**
 * The ARM real-register file: the register enumerators and their numeric
 * values, for the hard-float (VFP) build and the soft-float build.
 *
 * The enumerators become a datatype; `EnumValue` gives each its number and
 * `FromEnum` reads a number back. The named bounds (`FirstGPR`,
 * `LastAssignableFPR`, ...) are constants or functions of the configuration.
 */
module ArmRegisters {
  import opened Optional

  /** Whether the build has VFP hardware floating point or soft float. */
  datatype FloatConfig = Vfp | SoftFloat

  /** A real register: general, double (fp) or single (fs) floating point, or a sentinel. */
  datatype RealReg = NoReg | GR(n: nat) | FP(n: nat) | FS(n: nat) | SpilledReg

  const FirstGPR: int := 1
  const LastGPR: int := 16
  const LastAssignableGPR: int := 11
  const FirstFPR: int := 17
  const FirstFSR: int := 33
  const LastFSR: int := 48
  const LastAssignableFSR: int := 48

  /** The number of fp registers: fp0..fp15 with VFP, fp0..fp7 without. */
  function FPCount(c: FloatConfig): nat
  {
    if c.Vfp? then 16 else 8
  }

  function LastFPR(c: FloatConfig): int
  {
    if c.Vfp? then 32 else 24
  }

  function LastAssignableFPR(c: FloatConfig): int
  {
    LastFPR(c)
  }

  function SpilledRegValue(c: FloatConfig): int
  {
    if c.Vfp? then 49 else 25
  }

  function NumRegisters(c: FloatConfig): int
  {
    SpilledRegValue(c) + 1
  }

  /** Whether the configuration has this enumerator. */
  predicate Exists(c: FloatConfig, r: RealReg)
  {
    match r
    case NoReg => true
    case GR(n) => n < 16
    case FP(n) => n < FPCount(c)
    case FS(n) => c.Vfp? && n < 16
    case SpilledReg => true
  }

  /** The enumerator's value. */
  function EnumValue(c: FloatConfig, r: RealReg): (v: int)
    requires Exists(c, r)
    ensures 0 <= v < NumRegisters(c)
  {
    match r
    case NoReg => 0
    case GR(n) => FirstGPR + n
    case FP(n) => FirstFPR + n
    case FS(n) => FirstFSR + n
    case SpilledReg => SpilledRegValue(c)
  }

  /** The enumerator a value names, if any. */
  function FromEnum(c: FloatConfig, v: int): (r: Option<RealReg>)
    ensures r.Some? ==> Exists(c, r.value)
  {
    if v == 0 then Some(NoReg)
    else if FirstGPR <= v <= LastGPR then Some(GR(v - FirstGPR))
    else if FirstFPR <= v <= LastFPR(c) then Some(FP(v - FirstFPR))
    else if c.Vfp? && FirstFSR <= v <= LastFSR then Some(FS(v - FirstFSR))
    else if v == SpilledRegValue(c) then Some(SpilledReg)
    else None
  }

  /** Reading an enumerator's value back gives the enumerator. */
  lemma EnumRoundTrip(c: FloatConfig, r: RealReg)
    requires Exists(c, r)
    ensures FromEnum(c, EnumValue(c, r)) == Some(r)
  {
  }

  /** The values `0 .. NumRegisters - 1` are exactly the enumerators' values. */
  lemma EnumValuesAreDense(c: FloatConfig, v: int)
    ensures FromEnum(c, v).Some? <==> 0 <= v < NumRegisters(c)
    ensures FromEnum(c, v).Some? ==> EnumValue(c, FromEnum(c, v).value) == v
  {
  }

  /** Distinct enumerators have distinct values. */
  lemma EnumValueInjective(c: FloatConfig, r: RealReg, s: RealReg)
    requires Exists(c, r) && Exists(c, s)
    requires EnumValue(c, r) == EnumValue(c, s)
    ensures r == s
  {
    EnumRoundTrip(c, r);
    EnumRoundTrip(c, s);
  }

  /**
   * The layout: gr0..gr15 are 1..16, fp0 follows gr15, and with VFP the fs
   * registers follow fp15 and `SpilledReg` follows fs15; without VFP the fp
   * file stops at fp7 and `SpilledReg` follows it.
   */
  lemma Layout(c: FloatConfig)
    ensures EnumValue(c, NoReg) == 0
    ensures EnumValue(c, GR(0)) == FirstGPR && EnumValue(c, GR(15)) == LastGPR
    ensures LastAssignableGPR == EnumValue(c, GR(10)) < LastGPR
    ensures EnumValue(c, FP(0)) == FirstFPR == LastGPR + 1
    ensures EnumValue(c, FP(FPCount(c) - 1)) == LastFPR(c) == LastAssignableFPR(c)
    ensures c.Vfp? ==> EnumValue(c, FS(0)) == FirstFSR == LastFPR(c) + 1
    ensures c.Vfp? ==> EnumValue(c, FS(15)) == LastFSR == LastAssignableFSR
    ensures c.Vfp? ==> SpilledRegValue(c) == 49 == LastFSR + 1
    ensures c.SoftFloat? ==> SpilledRegValue(c) == 25 == LastFPR(c) + 1
    ensures NumRegisters(c) == SpilledRegValue(c) + 1
  {
  }

  /** Whether the register allocator may hand out `r`: gr0..gr10 and every fp and fs register. */
  predicate Assignable(c: FloatConfig, r: RealReg)
  {
    match r
    case GR(n) => Exists(c, r) && EnumValue(c, r) <= LastAssignableGPR
    case FP(n) => Exists(c, r) && EnumValue(c, r) <= LastAssignableFPR(c)
    case FS(n) => Exists(c, r) && EnumValue(c, r) <= LastAssignableFSR
    case _ => false
  }

  /**
   * An existing register is assignable exactly when its value lies in one of
   * the assignable ranges; the sentinels `NoReg` and `SpilledReg` lie in none.
   */
  lemma AssignableRanges(c: FloatConfig, r: RealReg)
    requires Exists(c, r)
    ensures Assignable(c, r) <==>
              var v := EnumValue(c, r);
              || FirstGPR <= v <= LastAssignableGPR
              || FirstFPR <= v <= LastAssignableFPR(c)
              || (c.Vfp? && FirstFSR <= v <= LastAssignableFSR)
    ensures !Assignable(c, NoReg) && !Assignable(c, SpilledReg)
  {
  }
}
