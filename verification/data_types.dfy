/**
 * The IL's data-type tables: the conversion-opcode matrix, the float type of
 * a byte size, which types have a maximum precision, and the per-type size,
 * name and prefix tables.
 */
module DataTypes {
  import opened Optional

  /** The OMR data types, in enumeration order. */
  datatype DataType =
    | NoType
    | Int8
    | Int16
    | Int32
    | Int64
    | Float
    | Double
    | Address
    | VectorInt8
    | VectorInt16
    | VectorInt32
    | VectorInt64
    | VectorFloat
    | VectorDouble
    | Aggregate

  /** Every data type, at its enumeration value (`NumOMRTypes` entries). */
  const AllTypes: seq<DataType> := [
    NoType, Int8, Int16, Int32, Int64, Float, Double, Address,
    VectorInt8, VectorInt16, VectorInt32, VectorInt64, VectorFloat, VectorDouble, Aggregate
  ]

  const NumOMRTypes: nat := 15

  /** The enumeration value of a type. */
  function Index(t: DataType): (i: nat)
    ensures i < NumOMRTypes == |AllTypes| && AllTypes[i] == t
  {
    match t
    case NoType => 0
    case Int8 => 1
    case Int16 => 2
    case Int32 => 3
    case Int64 => 4
    case Float => 5
    case Double => 6
    case Address => 7
    case VectorInt8 => 8
    case VectorInt16 => 9
    case VectorInt32 => 10
    case VectorInt64 => 11
    case VectorFloat => 12
    case VectorDouble => 13
    case Aggregate => 14
  }

  predicate IsIntegral(t: DataType)
  {
    t == Int8 || t == Int16 || t == Int32 || t == Int64
  }

  predicate IsFloating(t: DataType)
  {
    t == Float || t == Double
  }

  predicate IsVector(t: DataType)
  {
    8 <= Index(t) <= 13
  }

  // ---------------------------------------------------------------------------
  // Conversions

  /** The conversion opcodes the matrix can hold. */
  datatype ILOp =
    | BadILOp
    | v2v
    | b2s | b2i | b2l | b2f | b2d | b2a
    | s2b | s2i | s2l | s2f | s2d | s2a
    | i2b | i2s | i2l | i2f | i2d | i2a
    | l2b | l2s | l2i | l2f | l2d | l2a
    | f2b | f2s | f2i | f2l | f2d
    | d2b | d2s | d2i | d2l | d2f
    | a2b | a2s | a2i | a2l

  /**
   * `getDataTypeConversion(t1, t2)`: row `t1`, column `t2` of the matrix.
   * Each row lists its entries that are not `BadILOp`; the diagonal and the
   * `NoType` and `Aggregate` rows and columns have none.
   */
  function Conversion(t1: DataType, t2: DataType): (op: ILOp)
    ensures op != BadILOp ==> t1 != t2 && t1 !in {NoType, Aggregate} && t2 !in {NoType, Aggregate}
  {
    match t1
    case Int8 =>
      (match t2
      case Int16 => b2s case Int32 => b2i case Int64 => b2l
      case Float => b2f case Double => b2d case Address => b2a
      case _ => BadILOp)
    case Int16 =>
      (match t2
      case Int8 => s2b case Int32 => s2i case Int64 => s2l
      case Float => s2f case Double => s2d case Address => s2a
      case _ => BadILOp)
    case Int32 =>
      (match t2
      case Int8 => i2b case Int16 => i2s case Int64 => i2l
      case Float => i2f case Double => i2d case Address => i2a
      case _ => BadILOp)
    case Int64 =>
      (match t2
      case Int8 => l2b case Int16 => l2s case Int32 => l2i
      case Float => l2f case Double => l2d case Address => l2a
      case _ => BadILOp)
    case Float =>
      (match t2
      case Int8 => f2b case Int16 => f2s case Int32 => f2i case Int64 => f2l
      case Double => f2d
      case _ => BadILOp)
    case Double =>
      (match t2
      case Int8 => d2b case Int16 => d2s case Int32 => d2i case Int64 => d2l
      case Float => d2f
      case _ => BadILOp)
    case Address =>
      (match t2
      case Int8 => a2b case Int16 => a2s case Int32 => a2i case Int64 => a2l
      case _ => BadILOp)
      case VectorInt8 =>
        (match t2
        case VectorInt16 | VectorInt32 | VectorInt64 | VectorFloat | VectorDouble => v2v
        case _ => BadILOp)
      case VectorInt16 =>
        (match t2
        case VectorInt8 | VectorInt32 | VectorInt64 | VectorFloat | VectorDouble => v2v
        case _ => BadILOp)
      case VectorInt32 =>
        (match t2
        case VectorInt8 | VectorInt16 | VectorInt64 | VectorFloat | VectorDouble => v2v
        case _ => BadILOp)
      case VectorInt64 =>
        (match t2
        case VectorInt8 | VectorInt16 | VectorInt32 | VectorFloat | VectorDouble => v2v
        case _ => BadILOp)
      case VectorFloat =>
        (match t2
        case VectorInt8 | VectorInt16 | VectorInt32 | VectorInt64 | VectorDouble => v2v
        case _ => BadILOp)
      case VectorDouble =>
        (match t2
        case VectorInt8 | VectorInt16 | VectorInt32 | VectorInt64 | VectorFloat => v2v
        case _ => BadILOp)
    case NoType | Aggregate => BadILOp
  }

  /** The source and target type a scalar conversion opcode names. */
  function Ends(op: ILOp): Option<(DataType, DataType)>
  {
    match op
    case BadILOp => None
    case v2v => None
    case b2s => Some((Int8, Int16))
    case b2i => Some((Int8, Int32))
    case b2l => Some((Int8, Int64))
    case b2f => Some((Int8, Float))
    case b2d => Some((Int8, Double))
    case b2a => Some((Int8, Address))
    case s2b => Some((Int16, Int8))
    case s2i => Some((Int16, Int32))
    case s2l => Some((Int16, Int64))
    case s2f => Some((Int16, Float))
    case s2d => Some((Int16, Double))
    case s2a => Some((Int16, Address))
    case i2b => Some((Int32, Int8))
    case i2s => Some((Int32, Int16))
    case i2l => Some((Int32, Int64))
    case i2f => Some((Int32, Float))
    case i2d => Some((Int32, Double))
    case i2a => Some((Int32, Address))
    case l2b => Some((Int64, Int8))
    case l2s => Some((Int64, Int16))
    case l2i => Some((Int64, Int32))
    case l2f => Some((Int64, Float))
    case l2d => Some((Int64, Double))
    case l2a => Some((Int64, Address))
    case f2b => Some((Float, Int8))
    case f2s => Some((Float, Int16))
    case f2i => Some((Float, Int32))
    case f2l => Some((Float, Int64))
    case f2d => Some((Float, Double))
    case d2b => Some((Double, Int8))
    case d2s => Some((Double, Int16))
    case d2i => Some((Double, Int32))
    case d2l => Some((Double, Int64))
    case d2f => Some((Double, Float))
    case a2b => Some((Address, Int8))
    case a2s => Some((Address, Int16))
    case a2i => Some((Address, Int32))
    case a2l => Some((Address, Int64))
  }

  /**
   * Which scalar pairs the matrix converts directly: distinct integer,
   * floating or address types, except between floating point and addresses.
   */
  predicate ScalarConvertible(t1: DataType, t2: DataType)
  {
    && t1 != t2
    && (IsIntegral(t1) || IsFloating(t1) || t1 == Address)
    && (IsIntegral(t2) || IsFloating(t2) || t2 == Address)
    && !(IsFloating(t1) && t2 == Address)
    && !(t1 == Address && IsFloating(t2))
  }

  /**
   * The matrix, characterised: a scalar opcode exactly for convertible
   * scalar pairs, and then the opcode that names that very pair; `v2v`
   * exactly between distinct vector types; `BadILOp` everywhere else.
   */
  lemma ConversionMeaning(t1: DataType, t2: DataType)
    ensures ScalarConvertible(t1, t2) <==> Ends(Conversion(t1, t2)).Some?
    ensures ScalarConvertible(t1, t2) ==> Ends(Conversion(t1, t2)) == Some((t1, t2))
    ensures Conversion(t1, t2) == v2v <==> IsVector(t1) && IsVector(t2) && t1 != t2
    ensures Conversion(t1, t2) == BadILOp <==> !ScalarConvertible(t1, t2) && !(IsVector(t1) && IsVector(t2) && t1 != t2)
  {
    ScalarEntries(t1, t2);
    VectorEntries(t1, t2);
  }

  lemma ScalarEntries(t1: DataType, t2: DataType)
    ensures Ends(Conversion(t1, t2)) == if ScalarConvertible(t1, t2) then Some((t1, t2)) else None
  {
  }

  lemma VectorEntries(t1: DataType, t2: DataType)
    ensures Conversion(t1, t2) == v2v <==> IsVector(t1) && IsVector(t2) && t1 != t2
  {
  }

  /** Every named scalar opcode sits in the matrix at the pair it names, and only there. */
  lemma ConversionOpcodesAreUnique(t1: DataType, t2: DataType, op: ILOp)
    requires Ends(op).Some?
    ensures Conversion(t1, t2) == op <==> Ends(op) == Some((t1, t2))
  {
    ConversionMeaning(t1, t2);
  }

  /** The diagonal and the `NoType` and `Aggregate` rows and columns are all `BadILOp`. */
  lemma ConversionBorders(t: DataType)
    ensures Conversion(t, t) == BadILOp
    ensures Conversion(NoType, t) == BadILOp && Conversion(t, NoType) == BadILOp
    ensures Conversion(Aggregate, t) == BadILOp && Conversion(t, Aggregate) == BadILOp
  {
  }

  /** No entry converts between a vector type and a scalar type. */
  lemma VectorScalarIsBad(t: DataType, u: DataType)
    requires IsVector(t) && !IsVector(u)
    ensures Conversion(t, u) == BadILOp && Conversion(u, t) == BadILOp
  {
  }

  /**
   * Floating point and addresses do not convert into each other, while
   * every integer type converts to and from `Address`.
   */
  lemma AddressConversions(t: DataType)
    ensures IsFloating(t) ==> Conversion(t, Address) == BadILOp && Conversion(Address, t) == BadILOp
    ensures IsIntegral(t) ==> Conversion(t, Address) != BadILOp && Conversion(Address, t) != BadILOp
  {
  }

  // ---------------------------------------------------------------------------
  // Float type from size, maximum precision

  /** `getFloatTypeFromSize`: 4 bytes is `Float`, 8 is `Double`, anything else `NoType`. */
  function FloatTypeFromSize(size: int): (t: DataType)
    ensures t == NoType || IsFloating(t)
  {
    match size
    case 4 => Float
    case 8 => Double
    case _ => NoType
  }

  /** `canGetMaxPrecisionFromType`: true for the four integer types only. */
  function CanGetMaxPrecisionFromType(t: DataType): (r: bool)
    ensures r <==> IsIntegral(t)
  {
    match t
    case Int8 | Int16 | Int32 | Int64 => true
    case _ => false
  }

  /** The types with a maximum precision are exactly those the matrix converts to `Address`. */
  lemma MaxPrecisionTypesConvertToAddress(t: DataType)
    ensures CanGetMaxPrecisionFromType(t) <==> Conversion(t, Address) != BadILOp
  {
    ConversionMeaning(t, Address);
  }

  // ---------------------------------------------------------------------------
  // Sizes

  /** A value an `int32_t` holds. */
  type i32 = x: int | -0x8000_0000 <= x < 0x8000_0000

  /** The size table, indexed by enumeration value. */
  type SizeTable = s: seq<i32> | |s| == NumOMRTypes witness [0, 0, 0, 0, 0, 0, 0, 0, 0, 0, 0, 0, 0, 0, 0]

  /** The table as initialised; `pointerWidth` is `sizeof(intptrj_t)` on the host. */
  function DefaultSizes(pointerWidth: i32): SizeTable
  {
    [0, 1, 2, 4, 8, 4, 8, pointerWidth, 16, 16, 16, 16, 16, 16, 0]
  }

  /** `getSize`. */
  function GetSize(table: SizeTable, t: DataType): i32
  {
    table[Index(t)]
  }

  /** `setSize`. */
  function SetSize(table: SizeTable, t: DataType, n: i32): (r: SizeTable)
    ensures GetSize(r, t) == n
    ensures forall u :: u != t ==> GetSize(r, u) == GetSize(table, u)
  {
    IndexInjective();
    table[Index(t) := n]
  }

  lemma IndexInjective()
    ensures forall t, u :: Index(t) == Index(u) ==> t == u
  {
  }

  /**
   * The initial sizes: nothing for `NoType` and `Aggregate`, 1/2/4/8 for the
   * integer types, 4 and 8 for the floating types, the pointer width for
   * `Address` and 16 for every vector type.
   */
  lemma DefaultSizeValues(pointerWidth: i32, t: DataType)
    ensures t == NoType || t == Aggregate ==> GetSize(DefaultSizes(pointerWidth), t) == 0
    ensures t == Int8 ==> GetSize(DefaultSizes(pointerWidth), t) == 1
    ensures t == Int16 ==> GetSize(DefaultSizes(pointerWidth), t) == 2
    ensures t == Int32 || t == Float ==> GetSize(DefaultSizes(pointerWidth), t) == 4
    ensures t == Int64 || t == Double ==> GetSize(DefaultSizes(pointerWidth), t) == 8
    ensures t == Address ==> GetSize(DefaultSizes(pointerWidth), t) == pointerWidth
    ensures IsVector(t) ==> GetSize(DefaultSizes(pointerWidth), t) == 16
  {
  }

  /** With the initial sizes, a floating type's size gives that type back. */
  lemma FloatTypeSizeRoundTrip(pointerWidth: i32, size: int)
    ensures IsFloating(FloatTypeFromSize(size)) <==> size == 4 || size == 8
    ensures IsFloating(FloatTypeFromSize(size)) ==>
              GetSize(DefaultSizes(pointerWidth), FloatTypeFromSize(size)) == size
    ensures forall t :: IsFloating(t) ==> FloatTypeFromSize(GetSize(DefaultSizes(pointerWidth), t)) == t
  {
  }

  // ---------------------------------------------------------------------------
  // Names and prefixes

  /** `getName`. */
  function GetName(t: DataType): (r: string)
    ensures |r| > 0
  {
    match t
    case NoType => "NoType"
    case Int8 => "Int8"
    case Int16 => "Int16"
    case Int32 => "Int32"
    case Int64 => "Int64"
    case Float => "Float"
    case Double => "Double"
    case Address => "Address"
    case VectorInt8 => "VectorInt8"
    case VectorInt16 => "VectorInt16"
    case VectorInt32 => "VectorInt32"
    case VectorInt64 => "VectorInt64"
    case VectorFloat => "VectorFloat"
    case VectorDouble => "VectorDouble"
    case Aggregate => "Aggregate"
  }

  /** `getPrefix`: none for `NoType`. */
  function GetPrefix(t: DataType): (r: Option<string>)
    ensures r.None? <==> t == NoType
    ensures r.Some? ==> |r.value| > 0
  {
    match t
    case NoType => None
    case Int8 => Some("B")
    case Int16 => Some("S")
    case Int32 => Some("I")
    case Int64 => Some("L")
    case Float => Some("F")
    case Double => Some("D")
    case Address => Some("A")
    case VectorInt8 => Some("VI1")
    case VectorInt16 => Some("VI2")
    case VectorInt32 => Some("VI4")
    case VectorInt64 => Some("VI8")
    case VectorFloat => Some("VF")
    case VectorDouble => Some("VD")
    case Aggregate => Some("AG")
  }

  /**
   * A proof device: the length, first and last character of a nonempty
   * string. The name tables below show that this triple alone picks a type.
   */
  ghost function Key(s: string): (int, char, char)
    requires |s| > 0
  {
    (|s|, s[0], s[|s| - 1])
  }

  /** The type whose name has this key; no two names share one. */
  ghost function TypeWithNameKey(k: (int, char, char)): Option<DataType>
  {
    match k
    case (6, 'N', 'e') => Some(NoType)
    case (4, 'I', '8') => Some(Int8)
    case (5, 'I', '6') => Some(Int16)
    case (5, 'I', '2') => Some(Int32)
    case (5, 'I', '4') => Some(Int64)
    case (5, 'F', 't') => Some(Float)
    case (6, 'D', 'e') => Some(Double)
    case (7, 'A', 's') => Some(Address)
    case (10, 'V', '8') => Some(VectorInt8)
    case (11, 'V', '6') => Some(VectorInt16)
    case (11, 'V', '2') => Some(VectorInt32)
    case (11, 'V', '4') => Some(VectorInt64)
    case (11, 'V', 't') => Some(VectorFloat)
    case (12, 'V', 'e') => Some(VectorDouble)
    case (9, 'A', 'e') => Some(Aggregate)
    case _ => None
  }

  /** The type whose prefix has this key; no two prefixes share one. */
  ghost function TypeWithPrefixKey(k: (int, char, char)): Option<DataType>
  {
    match k
    case (1, 'B', 'B') => Some(Int8)
    case (1, 'S', 'S') => Some(Int16)
    case (1, 'I', 'I') => Some(Int32)
    case (1, 'L', 'L') => Some(Int64)
    case (1, 'F', 'F') => Some(Float)
    case (1, 'D', 'D') => Some(Double)
    case (1, 'A', 'A') => Some(Address)
    case (3, 'V', '1') => Some(VectorInt8)
    case (3, 'V', '2') => Some(VectorInt16)
    case (3, 'V', '4') => Some(VectorInt32)
    case (3, 'V', '8') => Some(VectorInt64)
    case (2, 'V', 'F') => Some(VectorFloat)
    case (2, 'V', 'D') => Some(VectorDouble)
    case (2, 'A', 'G') => Some(Aggregate)
    case _ => None
  }

  /** A type's name determines the type through its key. */
  lemma NameKeyIdentifiesType(t: DataType)
    ensures |GetName(t)| > 0 && TypeWithNameKey(Key(GetName(t))) == Some(t)
  {
  }

  /** A type's prefix, where it has one, determines the type through its key. */
  lemma PrefixKeyIdentifiesType(t: DataType)
    requires t != NoType
    ensures GetPrefix(t).Some? && |GetPrefix(t).value| > 0
    ensures TypeWithPrefixKey(Key(GetPrefix(t).value)) == Some(t)
  {
  }

  /** No two types share a name or a prefix. */
  lemma NamesAndPrefixesAreDistinct(t: DataType, u: DataType)
    requires t != u
    ensures GetName(t) != GetName(u)
    ensures GetPrefix(t) != GetPrefix(u)
  {
    NameKeyIdentifiesType(t);
    NameKeyIdentifiesType(u);
    if t != NoType && u != NoType {
      PrefixKeyIdentifiesType(t);
      PrefixKeyIdentifiesType(u);
    }
  }

  /** The first type of `ts` with this name, if any. */
  function FindNamed(ts: seq<DataType>, name: string): (r: Option<DataType>)
    ensures r.Some? ==> r.value in ts && GetName(r.value) == name
    ensures r.None? ==> forall t | t in ts :: GetName(t) != name
    decreases |ts|
  {
    if |ts| == 0 then None
    else if GetName(ts[0]) == name then Some(ts[0])
    else FindNamed(ts[1..], name)
  }

  /** The first type of `ts` with this prefix, if any. */
  function FindWithPrefix(ts: seq<DataType>, prefix: string): (r: Option<DataType>)
    ensures r.Some? ==> r.value in ts && GetPrefix(r.value) == Some(prefix)
    ensures r.None? ==> forall t | t in ts :: GetPrefix(t) != Some(prefix)
    decreases |ts|
  {
    if |ts| == 0 then None
    else if GetPrefix(ts[0]) == Some(prefix) then Some(ts[0])
    else FindWithPrefix(ts[1..], prefix)
  }

  /** The type a name belongs to: a search of the type table. */
  function TypeNamed(name: string): (r: Option<DataType>)
    ensures r.Some? ==> GetName(r.value) == name
  {
    FindNamed(AllTypes, name)
  }

  /** The type a prefix belongs to: a search of the type table. */
  function TypeWithPrefix(prefix: string): (r: Option<DataType>)
    ensures r.Some? ==> GetPrefix(r.value) == Some(prefix)
  {
    FindWithPrefix(AllTypes, prefix)
  }

  /** Each type's name, and each prefix, leads back to its type. */
  lemma NamesAndPrefixesRoundTrip(t: DataType)
    ensures TypeNamed(GetName(t)) == Some(t)
    ensures t != NoType ==> GetPrefix(t).Some? && TypeWithPrefix(GetPrefix(t).value) == Some(t)
  {
    var i := Index(t);
    assert AllTypes[i] in AllTypes;
    var r := TypeNamed(GetName(t));
    if r.value != t {
      NamesAndPrefixesAreDistinct(r.value, t);
    }
    if t != NoType {
      PrefixKeyIdentifiesType(t);
      var q := TypeWithPrefix(GetPrefix(t).value);
      if q.value != t {
        NamesAndPrefixesAreDistinct(q.value, t);
      }
    }
  }

  /** `TypeNamed` and `TypeWithPrefix` are exactly the inverses of `getName` and `getPrefix`. */
  lemma LookupsAreInverses(s: string, t: DataType)
    ensures TypeNamed(s) == Some(t) <==> GetName(t) == s
    ensures TypeWithPrefix(s) == Some(t) <==> GetPrefix(t) == Some(s)
  {
    NamesAndPrefixesRoundTrip(t);
  }
}
